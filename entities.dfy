/** The records the recognizer stores and hands out: handler entries, the
    specificity tally, the payload of an accepting state, parameter values and
    recognition results (src/interfaces.js, dist/aurelia-route-recognizer.d.ts). */
module Entities {
  import opened Basics

  /** How many static, dynamic and star segments a route has; used only to
      rank competing matches. */
  datatype Types = Types(statics: nat, dynamics: nat, stars: nat)

  /** `handler.name`: absent (or the empty string, which is falsy), a single
      name, or, in the newest version, a list of aliases. */
  datatype RouteName = Unnamed | Named(name: string) | Aliases(names: seq<string>)

  /** A route handler object. JavaScript object identity, used as a `Map`
      key by the newest version, is abstracted to `id`. */
  datatype Handler = Handler(id: nat, name: RouteName, generationUsesHref: bool, href: string)

  /** `{ handler, names }`: a handler and the parameter names of its route,
      in declaration order. */
  datatype HandlerEntry = HandlerEntry(handler: Handler, names: seq<string>)

  /** What `add` attaches to an accepting state: `handlers`, `regex` (its
      source text and whether it carries the `i` flag) and `types`. */
  datatype Terminal = Terminal(handlers: seq<HandlerEntry>, regex: string, ignoreCase: bool, types: Types)

  /** A value in a parameter bag or a decoded query string. `null` and an
      explicit `undefined` are both `Null`; a missing key is an absent map
      entry. Numbers and objects are not modelled. */
  datatype Value = Null | Str(s: string) | Bool(b: bool) | List(items: seq<string>)

  type Params = map<string, Value>

  /** JavaScript's conversion of a value to a string (`'' + value`); an array
      of strings converts to its items joined by commas. */
  function Stringify(v: Value): string
  {
    match v
    case Null => "null"
    case Str(s) => s
    case Bool(b) => if b then "true" else "false"
    case List(items) => Join(items, ',')
  }

  /** The argument of `add`: a pattern, its handler and, in the newest
      version, whether static segments match case-sensitively (`undefined`
      reads as false). */
  datatype ConfigurableRoute = ConfigurableRoute(path: string, handler: Handler, caseSensitive: bool)

  /** One element of the result of `recognize`. */
  datatype RecognizedRoute = RecognizedRoute(handler: Handler, params: map<string, Option<string>>, isDynamic: bool)

  /** `RecognizeResults`: an array-like list of matches plus `queryParams`. */
  datatype RecognizeResults = RecognizeResults(routes: seq<RecognizedRoute>, queryParams: Params)
}
