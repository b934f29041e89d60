# aurelia route-recognizer, modelled in Dafny

This project models the route recognizer of the aurelia router. A route
pattern such as `users/:id/*rest` is cut into segments. Each segment's
character specifications are threaded into one shared nondeterministic
automaton. Recognising a path walks that automaton one character at a time,
keeps the accepting states it reaches, ranks them, and deals the winning
route's regular-expression captures out to its handlers as parameters.
Generating a path goes the other way: a route and a parameter bag give back a
path and a query string.

Two versions of the class are modelled side by side:

- the older one in `src/` (module `Legacy`): one automaton, a `names` table
  in which a later route replaces an earlier one of the same name, and its own
  query-string codec (`generateQueryString` / `parseQueryString`);
- the newest one in `dist/aurelia-route-recognizer.js` (module `Recognizer`):
  optional `:name?` segments, case-insensitive static segments, a `routes`
  map keyed by handler, names in which the first route to claim a name keeps
  it, route aliases, and the `generationUsesHref` shortcut. Its query string
  is written and read by aurelia-path, which is not part of this model; the
  two codec functions are parameters.

The state class is the same text in both versions. It is one class,
`Automaton.StateGraph`, over an arena `nodes: seq<Node>` whose edges are
indices; state 0 is `rootState`. Every state-changing loop of the source is
a method proved equal to a specification function. Loops that only compute
a value, such as `eachChar` over a static segment's text, are functions. The properties are proved about those
functions:

- `put` is idempotent;
- `match` and `recognizeChar` pick exactly the accepting children, in order;
- `add` keeps every earlier transition and accepts every path that fills the
  route;
- the comparator of `sortSolutions` is a lexicographic total preorder, and
  the sort returns a sorted permutation whose head is the first best state;
- the older query-string codec reads back what it writes;
- `decodeURIComponent` undoes `encodeURIComponent`;
- names are first-come in the newest version and last-come in the older one;
- a path that `generate` writes is recognised once its route is added.

Modules, leaves first:

- `Basics`: options, results and string helpers;
- `Entities`: the source's records;
- `UriCoding`: the ECMAScript percent-coding built-ins;
- `Automaton`: the `State` class;
- `Segments`: `src/segments.js`;
- `Routes`: `parse` and the regular-expression source;
- `Ranking`: `sortSolutions`;
- `QueryString`: the older codec;
- `Construction`: the loop of `add`;
- `Recognition`: `recognize` and `findHandler`;
- `Generation`: `generate`;
- `Legacy` and `Recognizer`: the two classes.

Behaviour of the code worth noting:

- The state the newest `add` records as skippable is the end state of the
  optional segment. The skipped states are linked to
  the next segment's first `/` state. The skipped states and the final state
  are all marked accepting (dist/aurelia-route-recognizer.js:263-317).
- The older class keeps the LAST route registered under a name
  (src/route-recognizer.js:66-71). Only the newest one keeps the first
  (dist/aurelia-route-recognizer.js:297-304).
- A boolean written by `generateQueryString` reads back as its text (`true`
  becomes `"true"`). Only a key without `=` reads back as the boolean `true`.
  An empty list and `null` write nothing and so do not read back
  (src/route-recognizer.js:185-196, 231-234).

## Model

| member | source | states |
|---|---|---|
| `Basics.Split` | src/route-recognizer.js:335 | `split(sep)` gives at least one part, no part holds the separator, and joining the parts with it gives the input back |
| `Basics.JoinWithout` | src/route-recognizer.js:203 | joining parts that lack a character other than the separator gives text without it |
| `Basics.SplitJoin` | src/route-recognizer.js:223-225 | splitting parts joined by a separator they do not contain gives the parts back |
| `Basics.IndexOf` | src/route-recognizer.js:269 | `indexOf` gives the first position of the character, or none exactly when it does not occur |
| `Basics.FindFirst` | src/route-recognizer.js:173 | the first occurrence of a non-empty pattern: it occurs there, nowhere before, and none is reported only when it occurs nowhere |
| `Basics.ReplaceFirstAt` | src/route-recognizer.js:173 | `replace(pat, rep)` with a string pattern replaces exactly the first occurrence and keeps the text around it |
| `Basics.ReplaceFirst` | src/route-recognizer.js:173 | a `replace` whose pattern does not occur returns the text unchanged, and the result holds only characters of the text or the replacement |
| `UriCoding.DecodeURIComponentInverts` | src/route-recognizer.js:172-195 | `decodeURIComponent(encodeURIComponent(s)) == s` for every string, through the UTF-8 escapes |
| `UriCoding.DecodeEncoded` | src/route-recognizer.js:192-195 | decoding undoes `encodeURIComponent` whatever text follows the encoded part |
| `UriCoding.EncodedAlphabet` | src/route-recognizer.js:192-195 | encoded text consists only of unreserved characters and `%`, so it holds no `&`, `=` or `?` |
| `UriCoding.DecodeWithoutPercent` | src/route-recognizer.js:276 | `decodeURI` leaves text without `%` unchanged |
| `UriCoding.EncodeDollar` | src/route-recognizer.js:173 | `encodeURIComponent` writes `$` as `%24`, the text `encodeKey` turns back |
| `UriCoding.NoDollarEncoded` | src/route-recognizer.js:173 | the encoding of text without `$` holds no `%24`, so `encodeKey` changes nothing there |
| `UriCoding.EncodeAppend` | src/route-recognizer.js:192-195 | `encodeURIComponent` works character by character: the encoding of a concatenation is the concatenation of the encodings |
| `UriCoding.Utf8Structure` | src/route-recognizer.js:226 | the UTF-8 octets of a character outside ASCII announce their own length, carry continuation octets, and decode back to the character |
| `UriCoding.EscapedCharDecodes` | src/route-recognizer.js:226 | the escapes of one character decode back to that character, consuming exactly its escapes |
| `UriCoding.DecodeEscape` | src/route-recognizer.js:226 | a decoded escape sequence occupies at least its own three characters and no more than the text holds |
| `Automaton.FirstWithKey` | src/state.js:24-35 | the first child whose `validChars` and `invalidChars` equal the given ones; none exactly when no child has that key |
| `Automaton.StateGraph.constructor` | src/state.js:18-22 | a new automaton holds only the root, with no children and no handlers |
| `Automaton.StateGraph.Get` | src/state.js:24-35 | `get(spec)` returns a child with the same key, or none exactly when no child has that key |
| `Automaton.StateGraph.Put` | src/state.js:37-61 | `put(spec)` returns the existing child with the same key and changes nothing; otherwise it appends one new state, a child of `s`, holding `spec`, a child of itself when `spec` repeats, and leaves every other state alone |
| `Automaton.PutResult` | src/state.js:37-61 | the state `put` returns is a child of `s` with the same key, and the arena only grows |
| `Automaton.PutIdempotent` | src/state.js:37-44 | a second `put` of the same specification returns the same state and changes nothing |
| `Automaton.PutThenMatch` | src/state.js:37-84 | a state `put` returned is among those `match` yields for every character its specification accepts |
| `Automaton.StateGraph.Match` | src/state.js:64-84 | `match(ch)` is the in-order list of the children that accept `ch` |
| `Automaton.MatchesMembers` | src/state.js:64-84 | `match(ch)` yields exactly the children that accept `ch`: in `validChars`, or not in `invalidChars` |
| `Automaton.MatchesInOrder` | src/state.js:68-81 | `match(ch)` keeps the order of `nextStates`: its result is a subsequence |
| `Automaton.StateGraph.RecognizeChar` | src/route-recognizer.js:394-404 | `recognizeChar(states, ch)` is the concatenation of `match(ch)` over the states |
| `Automaton.StepMembers` | src/route-recognizer.js:394-404 | `recognizeChar` yields exactly the children, of some state in the list, that accept the character |
| `Automaton.WalkAppend` | src/route-recognizer.js:288-293 | walking `u + v` is walking `u`, then `v` |
| `Automaton.WalkMonotone` | src/route-recognizer.js:288-293 | a walk in a grown automaton from more states reaches every state the smaller walk reached |
| `Automaton.StateGraph.PutAll` | src/route-recognizer.js:424-430 | `addSegment` of the older version: `put` every specification in turn, ending where the specification function says |
| `Automaton.PutAllResult` | src/route-recognizer.js:424-430 | `put` of each specification in turn keeps the arena well formed, loses no state or edge, and ends on a state inside it |
| `Automaton.PutAllWalk` | src/route-recognizer.js:424-430 | the state `addSegment` returns is reached from its start by every word that spells its specifications |
| `Automaton.PutRepeatWalk` | src/state.js:52-58 | a repeating state loops on itself, so it is reached by every non-empty word of characters it accepts |
| `Automaton.StateGraph.Link` | dist/aurelia-route-recognizer.js:266-268 | `nextStates.push(target)` from outside `put`: one edge appended, nothing else changed |
| `Automaton.StateGraph.MarkAccepting` | src/route-recognizer.js:73-75 | sets `handlers`, `regex` and `types` on one state and changes nothing else |
| `Segments.EachChar` | dist/aurelia-route-recognizer.js:119-162 | a static segment gives one specification per character, accepting that character, or either case of it when not case-sensitive; a dynamic segment one repeating specification accepting everything but `/`; a star one accepting everything; epsilon none |
| `Segments.CaseFold` | dist/aurelia-route-recognizer.js:123 | `ch.toUpperCase() + ch.toLowerCase()` accepts exactly the characters equal to `ch` up to case |
| `Segments.EscapeRegex` | src/segments.js:1-6 | the escaped text is empty exactly when the input is, and never shorter |
| `Segments.EscapeRegexChar` | src/segments.js:1-6 | one character is escaped by a backslash before it exactly when it is one of the thirteen special characters, and copied otherwise |
| `Segments.EscapeRegexAppend` | src/segments.js:36-38 | the global `replace` works character by character: escaping a concatenation is concatenating the escapes |
| `Segments.UnescapeEscape` | src/segments.js:36-38 | escaping the thirteen special characters loses nothing: removing the backslashes gives the text back |
| `Segments.EscapeEndsEscaped` | src/segments.js:36-38 | an escaped text never ends in a bare special character, so a static segment never ends the source in `(.+)` |
| `Segments.Regex` | src/segments.js:36-86 | `regex()` of a static segment unescapes to its text; a dynamic segment gives `([^/]+)`, a star `(.+)`; the fragment is empty exactly for epsilon and an empty static text |
| `Segments.Generate` | src/segments.js:40-86 | `generate(params, consumed)`: static and epsilon segments give text and consume nothing; dynamic and star segments consume their name and give a value exactly when the name is in `params` |
| `Segments.GeneratedSpells` | src/segments.js:58-61 | the text `generate` writes for a segment's value (a string, `true`/`false` or a joined list) spells that segment, given non-empty text and no `/` in a dynamic one |
| `Segments.SegmentWalk` | src/route-recognizer.js:424-430 | the state `addSegment` returns for a segment is reached from its start by every word that spells the segment |
| `Routes.Tokens` | src/route-recognizer.js:329-335 | one leading `/` dropped, then `split('/')`: at least one token, none holding `/` |
| `Routes.DynamicParts` | dist/aurelia-route-recognizer.js:501-503 | the groups of `/^:([^?]+)(\?)?$/`: a non-empty name without `?`, the optional flag, and together the text after the colon |
| `Routes.Classify` | dist/aurelia-route-recognizer.js:497-524 | a token is epsilon exactly when empty; the older parse never fails and has no optional segment, and its static segments are case-sensitive |
| `Routes.Parse` | dist/aurelia-route-recognizer.js:486-528 | the loop of `parse`, pushing onto `results` and `names` and tallying `types`, equals the specification function |
| `Routes.LegacyParseSucceeds` | src/route-recognizer.js:326-355 | the older `parse` never throws |
| `Routes.CurrentParseError` | dist/aurelia-route-recognizer.js:501-506 | the newest `parse` throws exactly when some `:name` or `:name?` token has `=` in its name |
| `Routes.ClassifyAllPointwise` | dist/aurelia-route-recognizer.js:496-525 | the tokens are classified one by one: the parse succeeds exactly when every token does, and then segment `i` is token `i` classified |
| `Routes.TypesCount` | src/route-recognizer.js:338-351 | each non-empty token is counted once in `types`, and `names` holds one name per dynamic or star segment |
| `Routes.ParseShape` | src/route-recognizer.js:326-355 | a parse has one segment per token, each that token classified; statics, dynamics and stars add up to the non-empty tokens; one name per dynamic or star segment |
| `Routes.ClassifyToken` | dist/aurelia-route-recognizer.js:497-524 | the token written for a spellable segment classifies back to that segment |
| `Routes.ParsePattern` | dist/aurelia-route-recognizer.js:486-528 | parsing undoes writing: `/` and the segments' tokens joined by `/` parse back to those segments, their names and their tally |
| `Routes.SolidNotSkippable` | dist/aurelia-route-recognizer.js:280-292 | one segment that advances the current state clears `isEmpty` |
| `Routes.RegexEndsInStar` | dist/aurelia-route-recognizer.js:276-292 | the accepting state's source ends in `(.+)$` exactly when the last non-epsilon segment is a star |
| `Ranking.CompareIsLexicographic` | src/route-recognizer.js:367-392 | the comparator is negative exactly when the key (stars; for a starred route more statics, then more dynamics; fewer dynamics; more statics) is lexicographically smaller, and zero exactly for equal tallies |
| `Ranking.CompareAntisymmetric` | src/route-recognizer.js:367-392 | swapping the arguments swaps the verdict |
| `Ranking.CompareTransitive` | src/route-recognizer.js:367-392 | the comparator is transitive, strictly so when either step is strict, so it is a total preorder |
| `Ranking.Insert` | src/route-recognizer.js:367-368 | one insertion step of the stable sort adds exactly one element |
| `Ranking.SortSolutions` | src/route-recognizer.js:367-392 | `sortSolutions` returns a permutation of its input |
| `Ranking.SortSolutionsSorted` | src/route-recognizer.js:367-392 | `sortSolutions` returns its input in comparator order |
| `Ranking.FirstBest` | src/route-recognizer.js:367-392 | the first best-ranked candidate: nothing ranks strictly ahead of it, and everything before it ranks strictly behind |
| `Ranking.SortSolutionsWinner` | src/route-recognizer.js:302-304 | `solutions[0]` after the stable sort is the first best-ranked candidate in walk order |
| `QueryString.StrLessTransitive` | src/route-recognizer.js:181 | the default string order of `keys.sort()` is transitive |
| `QueryString.StrLessTotal` | src/route-recognizer.js:181 | any two distinct strings are ordered one way or the other |
| `QueryString.SortKeys` | src/route-recognizer.js:181 | `keys.sort()` returns a permutation of the keys |
| `QueryString.SortKeysIncreasing` | src/route-recognizer.js:181 | sorting distinct keys leaves them strictly increasing |
| `QueryString.IncreasingUnique` | src/route-recognizer.js:175-181 | two strictly increasing key lists with the same members are equal |
| `QueryString.SortEnumeration` | src/route-recognizer.js:175-181 | whatever order `for ... in` enumerates the keys in, sorting gives the same list |
| `QueryString.OwnKeys` | src/route-recognizer.js:175-179 | the `for ... in` loop with `hasOwnProperty` collects every key of the bag once |
| `QueryString.PushListPairs` | src/route-recognizer.js:189-193 | the inner loop pushes one `key[]=item` pair per list item, in order |
| `QueryString.PushKeyPairs` | src/route-recognizer.js:183-196 | one round of the key loop pushes the pairs of one key: none for null, one per list item, otherwise one |
| `QueryString.CollectPairs` | src/route-recognizer.js:182-197 | the key loop pushes the pairs of each key in turn |
| `QueryString.GenerateQueryString` | src/route-recognizer.js:171-204 | `generateQueryString(params)` equals the query string of the bag: `''` without pairs, otherwise `?` and the pairs of the sorted keys joined by `&` |
| `QueryString.QueryStringEmpty` | src/route-recognizer.js:199-201 | the query string is empty exactly when every value is null or an empty list |
| `QueryString.KeyPairsEmpty` | src/route-recognizer.js:185-196 | a key writes no pair exactly when its value is null or an empty list |
| `QueryString.AddPiece` | src/route-recognizer.js:224-251 | one round of the loop of `parseQueryString`: skip an empty key, store `true` for a key without `=`, push onto a list for a `key[]`, store the decoded value otherwise |
| `QueryString.StorePlain` | src/route-recognizer.js:225-250 | a `key=value` piece stores the decoded value under the decoded key |
| `QueryString.StoreItem` | src/route-recognizer.js:237-247 | a `key[]=value` piece appends the decoded value to the list under the key, starting one when there is none |
| `QueryString.ParseQueryString` | src/route-recognizer.js:213-253 | `parseQueryString` equals the specification fold: `{}` for an empty string, one leading `?` dropped, the `&`-separated pieces folded in order |
| `QueryString.QueryTail` | src/route-recognizer.js:171-253 | a non-empty generated query string has no `?` after its first character, and what follows that `?` parses to the same bag as the whole |
| `QueryString.RoundTrip` | src/route-recognizer.js:171-253 | `parseQueryString(generateQueryString(params))` gives back every key whose value writes something, lists as lists and other values as their text, for keys that read back as themselves |
| `QueryString.ListPiecesParse` | src/route-recognizer.js:237-247 | the pairs of a list read back as that list, appended to what was already stored under the key |
| `QueryString.KeyFacts` | src/route-recognizer.js:173-226 | an encoded key holds no `=` or `&`, and decodes back to the key, with or without `[]` after it |
| `QueryString.LastWriteWins` | src/route-recognizer.js:246-250 | of two plain pairs for the same key, the later value is the one kept |
| `Construction.AddSegmentResult` | dist/aurelia-route-recognizer.js:600-608 | `addSegment`: a `/` child of the current state, then the segment's specifications; the arena only grows |
| `Construction.AddSegment` | dist/aurelia-route-recognizer.js:600-608 | the method `addSegment` of the newest version equals the specification function |
| `Construction.LinkAll` | dist/aurelia-route-recognizer.js:266-268 | after linking, every skipped state has the target among its children, and nothing else changes but edges |
| `Construction.LinkEach` | dist/aurelia-route-recognizer.js:266-268 | the linking loop equals the specification function |
| `Construction.MarkAll` | dist/aurelia-route-recognizer.js:308-317 | marking sets the payload on exactly the listed states and changes no transition |
| `Construction.MarkEach` | dist/aurelia-route-recognizer.js:308-313 | the marking loop over the skipped states equals the specification function |
| `Construction.Accept` | dist/aurelia-route-recognizer.js:306-317 | the skipped states and then the final one become accepting |
| `Construction.MarkAllWalk` | dist/aurelia-route-recognizer.js:306-317 | marking keeps every walk |
| `Construction.BuildStep` | dist/aurelia-route-recognizer.js:256-286 | one pass of the loop of `add` keeps the arena well formed and only adds states and edges |
| `Construction.BuildAll` | dist/aurelia-route-recognizer.js:256-286 | the loop over all segments keeps the arena well formed and only adds states and edges |
| `Construction.Close` | dist/aurelia-route-recognizer.js:288-292 | an all-optional route gets a `/` child of the current state; the arena only grows |
| `Construction.AddRoute` | dist/aurelia-route-recognizer.js:241-320 | what `add` leaves: a well-formed arena at least as large, and the returned state inside it |
| `Construction.BuildStepReached` | dist/aurelia-route-recognizer.js:256-286 | one pass of the loop extends the paths reaching the current or a skipped state by the segment's filling |
| `Construction.BuildAllReached` | dist/aurelia-route-recognizer.js:256-286 | after the loop, every path that fills the segments reaches the current state or a skipped one |
| `Construction.CloseReached` | dist/aurelia-route-recognizer.js:288-292 | some state `add` marks is reached by the filling path, by `/` for the empty word |
| `Construction.AddAccepts` | dist/aurelia-route-recognizer.js:241-320 | after `add`, every path that fills the route reaches from the root a state carrying the route's handlers, regular expression and tally |
| `Construction.AddKeepsWalks` | dist/aurelia-route-recognizer.js:241-320 | `add` loses no transition: whatever the root reached before, it still reaches |
| `Construction.NoOptionalNoSkips` | src/route-recognizer.js:43-62 | without optional segments nothing is skipped, and `isEmpty` stays set exactly when every segment is epsilon |
| `Construction.Thread` | dist/aurelia-route-recognizer.js:247-292 | the loop of the newest `add` and the `isEmpty` step after it leave the arena, current state and skipped states of the specification, and the regular-expression source |
| `Construction.ThreadLegacy` | src/route-recognizer.js:37-62 | the loop of the older `add` and the `isEmpty` step after it leave the arena and current state of the specification, and the regular-expression source |
| `Recognition.SplitAfterPath` | src/route-recognizer.js:269-274 | a path without `?` followed by an empty query string or one starting with `?` is cut exactly at that `?` |
| `Recognition.SplitQuery` | src/route-recognizer.js:269-274 | the path is cut at the first `?`: without one it is kept whole; otherwise path, `?` and query string give the input back |
| `Recognition.Normalize` | src/route-recognizer.js:278-286 | the walked path is rooted; a trailing `/` is dropped exactly when the rooted path is longer than `/` and ends in one; putting it back gives the rooted path |
| `Recognition.NormalizeKeeps` | src/route-recognizer.js:278-286 | a rooted path without a trailing `/`, or `/` itself, is walked as it is |
| `Recognition.WalkPath` | src/route-recognizer.js:288-293 | the character loop with its early exit yields the walk of the whole path |
| `Recognition.Solutions` | src/route-recognizer.js:295-300 | the candidates are exactly the states of the walk that carry handlers, with their tallies |
| `Recognition.CollectSolutions` | src/route-recognizer.js:295-300 | the collecting loop equals the specification function |
| `Recognition.WinnerIsBest` | src/route-recognizer.js:302-305 | there is no winner exactly when no state of the walk carries handlers; otherwise the winner does, and no such state ranks strictly ahead of it |
| `Recognition.ParamsOf` | src/route-recognizer.js:412-416 | the parameters of a handler have exactly its names as keys |
| `Recognition.ParamsOfLast` | src/route-recognizer.js:414-416 | a repeated name gets the capture of its last occurrence |
| `Recognition.HandlerResults` | src/route-recognizer.js:411-419 | one result per handler entry, with its handler, dynamic exactly when it has names |
| `Recognition.HandlerResultsCounter` | src/route-recognizer.js:408-416 | the capture counter starts at 1 and advances by the number of names of each handler |
| `Recognition.SingleHandlerParams` | src/route-recognizer.js:406-422 | a single handler entry gets each distinct name bound to capture `1 + j` |
| `Recognition.CollectParams` | src/route-recognizer.js:414-416 | the inner loop of `findHandler` equals the specification function |
| `Recognition.FindHandler` | src/route-recognizer.js:406-422 | the two loops of `findHandler`, with the running capture index, equal the specification function |
| `Recognition.Respond` | src/route-recognizer.js:308-311 | the answer has one route per handler, the handlers in order, and the query parameters |
| `Recognition.AnswerNone` | src/route-recognizer.js:295-313 | there is no answer exactly when no state the walk reached carries handlers |
| `Recognition.AnswerBest` | src/route-recognizer.js:302-311 | otherwise the answer is that of a reached state that ranks at least as well as every reached accepting state |
| `Recognition.RecognizePath` | src/route-recognizer.js:276-313 | `recognize` after the query string fails exactly when `decodeURI` throws, and then with `URIError`; an answer carries the query parameters read before it |
| `Recognition.RecognizeIn` | src/route-recognizer.js:276-313 | decode, normalise, walk, collect, sort, restore the slash and `findHandler` equal the specification function |
| `Recognition.SlashRestored` | src/route-recognizer.js:306-310 | the dropped slash is put back exactly for a route whose last non-epsilon segment is a star |
| `Recognition.RecognizeReached` | src/route-recognizer.js:264-313 | a path written without escapes, rooted and without a trailing `/`, that reaches an accepting state is answered, by a reached state ranking at least as well |
| `Recognition.AddedRouteRecognized` | dist/aurelia-route-recognizer.js:241-473 | once a route is added, a path that fills it, written without escapes and without a trailing `/`, is answered with the response of a reached state that ranks at least as well as the route |
| `Generation.GenerateSegment` | dist/aurelia-route-recognizer.js:381-397 | one round of the loop of `generate` throws exactly when a required parameter is `null` or `undefined` and the segment is not optional, naming that parameter |
| `Generation.Unconsumed` | src/route-recognizer.js:154-157 | deleting the consumed parameters leaves exactly the other keys |
| `Generation.GeneratePath` | dist/aurelia-route-recognizer.js:381-397 | the loop of `generate`, with its `continue` and `throw`, equals the specification function |
| `Generation.RemoveConsumed` | src/route-recognizer.js:155-157 | the deleting loop equals the specification function |
| `Generation.PathPartFails` | src/route-recognizer.js:134-148 | `generate` throws exactly when some segment needs a value it lacks, and then names the first such segment's parameter |
| `Generation.PathPartConsumes` | src/route-recognizer.js:134-148 | a successful `generate` consumes exactly the route's parameter names |
| `Generation.PathPartWrites` | dist/aurelia-route-recognizer.js:381-397 | a successful `generate` writes `/` and the value of each segment that has one, in order |
| `Generation.LegacyGenerateOf` | src/route-recognizer.js:122-162 | the older `generate` throws `NoSuchRoute` for an unknown name, and otherwise throws exactly when some segment lacks a required value; a path it writes starts with `/` |
| `Generation.CurrentGenerateOf` | dist/aurelia-route-recognizer.js:365-412 | the newest `generate` throws `NoSuchRoute` for an unknown route; without the `href` shortcut it throws exactly when some segment lacks a required value, and a path it writes starts with `/` |
| `Generation.GeneratedFills` | src/route-recognizer.js:134-148 | with values the automaton can read, what `generate` writes fills the route's segments |
| `Generation.GenerateThenRecognize` | dist/aurelia-route-recognizer.js:365-473 | the path part `generate` writes for an added route (before its query string) is recognised once the query string is split off, with the response of a reached state that ranks at least as well as the route; the whole output is taken by `Legacy.AddRecognizesGenerated` and `Recognizer.AddRecognizesGenerated` |
| `Legacy.NameKey` | src/route-recognizer.js:39-67 | a missing or empty name files nothing; a name files under itself; an alias list files under the aliases joined by commas |
| `Legacy.ParsedOf` | src/route-recognizer.js:326-355 | the older parse of a pattern succeeds and has no optional segment |
| `Legacy.AddOf` | src/route-recognizer.js:28-78 | the older `add` leaves a well-formed arena at least as large and returns a state inside it |
| `Legacy.AddOfParts` | src/route-recognizer.js:37-77 | the older `add` is the loop, the `isEmpty` step, the `names` update and the marking of the final state |
| `Legacy.AddAllOf` | src/route-recognizer.js:29-35 | an array of routes is added in order, keeping the arena well formed |
| `Legacy.RouteRecognizer.constructor` | src/route-recognizer.js:17-20 | a new recognizer has only the root state and no names |
| `Legacy.RouteRecognizer.Add` | src/route-recognizer.js:28-78 | `add(route)` leaves the arena, `names` and returned state of the specification |
| `Legacy.RouteRecognizer.AddAll` | src/route-recognizer.js:29-35 | `add(routes)` for an array equals adding them in order |
| `Legacy.RouteRecognizer.HandlersFor` | src/route-recognizer.js:87-100 | `handlersFor(name)` throws exactly for an unknown name; otherwise it returns a copy of the filed handlers |
| `Legacy.RouteRecognizer.HasRoute` | src/route-recognizer.js:109-111 | `hasRoute(name)` holds exactly when a route is filed under the name |
| `Legacy.RouteRecognizer.Generate` | src/route-recognizer.js:122-162 | `generate(name, params)` equals the specification function |
| `Legacy.RouteRecognizer.Recognize` | src/route-recognizer.js:264-313 | `recognize(path)` equals the specification function: the query string parsed first, then the path recognised |
| `Legacy.AddFilesName` | src/route-recognizer.js:66-71 | a named route is filed under its key, replacing what was there; no other entry changes; an unnamed route files nothing |
| `Legacy.LastNameWins` | src/route-recognizer.js:66-71 | of two routes added under the same name, `names` keeps the later |
| `Legacy.QueryRead` | src/route-recognizer.js:264-274 | `recognize` of a path without `?` followed by the older query string of a bag recognises the path with that bag read back as `queryParams` |
| `Legacy.AddRecognizesGenerated` | src/route-recognizer.js:28-313 | once a named route is added, `recognize` of everything the older `generate` writes under its name, query string included, is the recognition of the path part with the unconsumed parameters read back as `queryParams`; the answer is the response of a reached state ranking at least as well as the route |
| `Recognizer.RouteNames` | dist/aurelia-route-recognizer.js:297-298 | a non-empty single name gives itself, an alias list gives the aliases, and a missing or empty name gives no name |
| `Recognizer.RegisterNames` | dist/aurelia-route-recognizer.js:299-303 | the loop over the route names equals the specification function |
| `Recognizer.FirstNameWins` | dist/aurelia-route-recognizer.js:297-304 | every route name is filed; a name already filed keeps its route; a new name gets the route |
| `Recognizer.AddOf` | dist/aurelia-route-recognizer.js:241-320 | the newest `add` either throws or leaves a well-formed arena at least as large, with the returned state inside it |
| `Recognizer.AddAllOf` | dist/aurelia-route-recognizer.js:242-245 | an array of routes is added in order, and the first error stops it, the routes before it staying added |
| `Recognizer.RouteRecognizer.constructor` | dist/aurelia-route-recognizer.js:230-234 | a new recognizer has only the root state, no names and no routes |
| `Recognizer.RouteRecognizer.Add` | dist/aurelia-route-recognizer.js:241-320 | `add(route)` throws and changes nothing for a bad pattern; otherwise it leaves the arena, tables and returned state of the specification |
| `Recognizer.RouteRecognizer.AddParsed` | dist/aurelia-route-recognizer.js:247-319 | once parsed, `add` threads the route, files it by handler and by name, and marks the accepting states |
| `Recognizer.RouteRecognizer.AddAll` | dist/aurelia-route-recognizer.js:242-245 | `add(routes)` equals adding them in order up to the first error |
| `Recognizer.RouteRecognizer.GetRoute` | dist/aurelia-route-recognizer.js:328-330 | `getRoute` looks a string up in `names` and a handler up in `routes` |
| `Recognizer.RouteRecognizer.HandlersFor` | dist/aurelia-route-recognizer.js:338-345 | `handlersFor` throws exactly for an unknown route; otherwise it returns its handlers |
| `Recognizer.RouteRecognizer.HasRoute` | dist/aurelia-route-recognizer.js:353-355 | `hasRoute` holds exactly when `getRoute` finds a route |
| `Recognizer.RouteRecognizer.Generate` | dist/aurelia-route-recognizer.js:365-412 | `generate(nameOrRoute, params)` equals the specification function |
| `Recognizer.RouteRecognizer.Recognize` | dist/aurelia-route-recognizer.js:422-473 | `recognize(path)` equals the specification function |
| `Recognizer.AddFilesRoute` | dist/aurelia-route-recognizer.js:296-304 | an added route is found by its handler and by each of its names not already taken; every other name is untouched |
| `Recognizer.HrefShortcut` | dist/aurelia-route-recognizer.js:371-374 | a handler with `generationUsesHref` gets its `href` back whatever the parameters |
| `Recognizer.AddFails` | dist/aurelia-route-recognizer.js:504-506 | `add` throws exactly when a `:name` or `:name?` token has `=` in its name |
| `Recognizer.AddRecognizesGenerated` | dist/aurelia-route-recognizer.js:241-473 | once a route is added, `recognize` of everything the newest `generate` writes for its handler, `?` and query string included and optional parameters possibly left out, is the recognition of the path part with `parseQuery` of that query string as `queryParams`; the answer is the response of a reached state ranking at least as well as the route |

## Left out

- The regular-expression engine is not part of this model. `findHandler`'s
  `path.match(regex)` is the parameter `captures`. The regular expression is
  kept as its source text. When the match fails (`captures` is `null` and
  indexing it throws), the model reads `undefined` for every capture instead
  of throwing.
- `new RegExp(source).source` escapes `/` in some engines. The model compares
  the source as written when it tests for a trailing `(.+)$`.
- `toUpperCase` and `toLowerCase` are modelled on ASCII letters only. Other
  characters fold to themselves.
- JavaScript strings are UTF-16. The model's characters are code points, so
  lone surrogates and the surrogate-pair rules of `decodeURI` are not
  modelled.
- Segments.EachChar, Legacy.RouteRecognizer.Recognize,
  Legacy.AddRecognizesGenerated: the older static segment builds one state
  per code point (`for (let ch of this.string)`, src/segments.js:31), while
  the older `recognize` walks UTF-16 code units (`path.charAt(i)`,
  src/route-recognizer.js:289). So in the source a static character above
  U+FFFF, as in the pattern `𝒳`, is never recognised at `/𝒳`: the second
  half of the surrogate pair has no state to go to. The model walks code
  points on both sides and recognises it. The newest version works on code
  units on both sides (dist/aurelia-route-recognizer.js:121-122, 448) and
  agrees with the model.
- `names` is a plain object in the source. Keys such as `__proto__` or
  `toString` read inherited properties there. The model's tables are maps
  that hold only what was filed.
- QueryString.AddPiece, QueryString.StoreItem: `queryParams` is a plain
  object in the source, so a key it inherits reads there as present. A
  `constructor[]=a` piece finds the inherited `constructor` function, which
  has no `push`, and throws a `TypeError`; the model starts a list
  `["a"]`. A `__proto__=x` piece is ignored by the source and stored by the
  model (src/route-recognizer.js:240-250).
- QueryString.OwnKeys: a parameter bag with an own key `hasOwnProperty`
  breaks the call `params.hasOwnProperty(key)` in the source
  (src/route-recognizer.js:176). The model collects the keys as usual.
- Generation.GenerateSegment, Segments.Generate: `params[this.name]` finds
  inherited properties (src/segments.js:58-61,
  dist/aurelia-route-recognizer.js:150-153). For a route `:toString` and an
  empty bag the source writes the function's text. The model reads only the
  bag's own keys and reports the parameter missing.
- QueryString.SortKeys: `keys.sort()` compares UTF-16 code units
  (src/route-recognizer.js:181). `QueryString.StrLess` compares code points.
  The two orders disagree for characters above U+FFFF against U+E000 to
  U+FFFF.
- Handlers are compared by identity in `routes`. The model gives each handler
  an `id` and keys the map by it.
- `generationUsesHref` with an `undefined` `href` returns `undefined` in the
  source. The model returns the `href` string.
- Parameter values are `null`/`undefined` (a missing key), strings, booleans
  and lists of strings. Numbers, objects and non-string list items are not
  modelled. `parseQueryString`'s `typeof` test on a non-string query is not
  modelled either: the query is always a string.
- `Array.prototype.sort` is modelled as the stable insertion sort that
  ECMAScript 2019 requires of it. Older engines may order ties differently.
- The newest version's query string comes from aurelia-path's
  `buildQueryString` and `parseQueryString`. They are not part of this model
  and are the parameters `buildQuery` and `parseQuery`. `parseQuery` is
  assumed not to throw.
- Recognition.AddedRouteRecognized, Generation.GenerateThenRecognize,
  Legacy.AddRecognizesGenerated, Recognizer.AddRecognizesGenerated,
  Generation.Writable: the round trip is claimed only for a path part
  without a trailing `/` and for values whose written text is non-empty
  (without `/` for a dynamic segment). A star value ending in `/`, as
  `{path: "a/"}` for `star/*path`, writes `/star/a/`. The source drops that
  slash (src/route-recognizer.js:282-286), walks to the star state and puts
  the slash back for the capture (src/route-recognizer.js:306-310, stated by
  `Recognition.SlashRestored`); this case is not proved. A star value that
  is `/` alone writes `/star//`, which the source does not recognise through
  this route: after the slash is dropped, nothing is left for the star.
- `RecognizeResults` is an array-like object in the source. The model returns
  a record of the results and the query parameters.
- `generate` writes parameter values without percent-encoding them. So a
  generated path with `%` or `?` in it is not claimed to read back: the
  source's `recognize` decodes the `%` and cuts the path at the `?`.
  `Generation.GenerateThenRecognize` requires a path without `%`, and
  `Legacy.AddRecognizesGenerated` and `Recognizer.AddRecognizesGenerated`
  require a path part without `%` or `?`. The older round trip also requires
  plain query keys (non-empty, not ending in `[]`), as
  `QueryString.RoundTrip` does.
- dist/commonjs/dsl.js (the route-mapping DSL) and the transpiled copies
  under dist/amd, dist/system, dist/es2015 and dist/es6 are not part of this
  model. The copies repeat the modelled text.
- Construction.AddAccepts: proves only that `add` ACCEPTS every path filling
  the route, by a state carrying its payload. It does not prove that no other
  path reaches that state. Completeness of the automaton against the regular
  expression is not modelled.
- Recognition.RecognizeReached: the answer is that of a reached state ranking
  at least as well as the given one. It is not claimed to be the given state,
  because another route may rank better.
- Recognizer.AddFails: states when `add` throws. That nothing changes on a
  throw is stated by `Recognizer.RouteRecognizer.Add`.
- Generation.LegacyGenerateOf, Generation.CurrentGenerateOf: their own
  contracts state when they throw and that the path starts with `/`, not
  what they write. What they write is stated by `Generation.PathPartWrites`,
  `QueryString.RoundTrip` and the two `AddRecognizesGenerated` lemmas.
- Recognizer.AddOf, Legacy.AddOf: their own contracts state only
  well-formedness. What `add` accepts and files is stated by
  `Construction.AddAccepts`, `Legacy.AddFilesName` and
  `Recognizer.AddFilesRoute`.
