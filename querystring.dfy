/** The query-string codec of the older recognizer
    (`generateQueryString` and `parseQueryString` in src/route-recognizer.js):
    keys in sorted order, lists as repeated `key[]=value` pairs, a bare key
    read back as `true`. */
module QueryString {
  import opened Basics
  import opened Entities
  import opened UriCoding

  // ---------------------------------------------------------------------------
  // The order of `keys.sort()`

  /** The default order of `Array.prototype.sort` on strings: character by
      character, a proper prefix first. */
  predicate StrLess(a: string, b: string)
    decreases |a|
  {
    if a == [] then b != []
    else if b == [] then false
    else if a[0] != b[0] then a[0] < b[0]
    else StrLess(a[1..], b[1..])
  }

  lemma {:induction false} StrLessIrreflexive(a: string)
    ensures !StrLess(a, a)
    decreases |a|
  {
    if a != [] {
      StrLessIrreflexive(a[1..]);
    }
  }

  lemma {:induction false} StrLessTransitive(a: string, b: string, c: string)
    requires StrLess(a, b) && StrLess(b, c)
    ensures StrLess(a, c)
    decreases |a|
  {
    if a != [] && a[0] == b[0] && b[0] == c[0] {
      StrLessTransitive(a[1..], b[1..], c[1..]);
    }
  }

  lemma {:induction false} StrLessTotal(a: string, b: string)
    ensures a == b || StrLess(a, b) || StrLess(b, a)
    decreases |a|
  {
    if a != [] && b != [] && a[0] == b[0] {
      StrLessTotal(a[1..], b[1..]);
      assert a == [a[0]] + a[1..];
      assert b == [b[0]] + b[1..];
    }
  }

  predicate Distinct(s: seq<string>)
  {
    forall i, j :: 0 <= i < j < |s| ==> s[i] != s[j]
  }

  predicate Increasing(s: seq<string>)
  {
    forall i, j :: 0 <= i < j < |s| ==> StrLess(s[i], s[j])
  }

  /** Inserts `k` before the first key that follows it. */
  function InsertKey(k: string, s: seq<string>): (r: seq<string>)
    ensures multiset(r) == multiset(s) + multiset{k}
  {
    if s == [] then [k]
    else if StrLess(k, s[0]) then [k] + s
    else
      assert s == [s[0]] + s[1..];
      [s[0]] + InsertKey(k, s[1..])
  }

  /** `keys.sort()`. */
  function SortKeys(s: seq<string>): (r: seq<string>)
    ensures multiset(r) == multiset(s)
    decreases |s|
  {
    if s == [] then []
    else
      assert s == s[..|s| - 1] + [s[|s| - 1]];
      InsertKey(s[|s| - 1], SortKeys(s[..|s| - 1]))
  }

  lemma {:induction false} InsertKeyIncreasing(k: string, s: seq<string>)
    requires Increasing(s) && k !in s
    ensures Increasing(InsertKey(k, s))
    decreases |s|
  {
    if s != [] {
      StrLessTotal(k, s[0]);
      if StrLess(k, s[0]) {
        forall j | 1 <= j < |s| ensures StrLess(k, s[j]) {
          StrLessTransitive(k, s[0], s[j]);
        }
      } else {
        assert k !in s[1..];
        InsertKeyIncreasing(k, s[1..]);
        var r := InsertKey(k, s);
        forall j | 1 <= j < |r| ensures StrLess(s[0], r[j]) {
          assert r[j] in multiset(s[1..]) + multiset{k};
          if r[j] != k {
            assert r[j] in s[1..];
          }
        }
      }
    }
  }

  /** Sorting distinct keys leaves them strictly increasing. */
  lemma {:induction false} SortKeysIncreasing(s: seq<string>)
    requires Distinct(s)
    ensures Increasing(SortKeys(s))
    decreases |s|
  {
    if s != [] {
      var init := s[..|s| - 1];
      SortKeysIncreasing(init);
      assert s[|s| - 1] !in multiset(SortKeys(init));
      InsertKeyIncreasing(s[|s| - 1], SortKeys(init));
    }
  }

  lemma HeadIn(a: seq<string>, b: seq<string>)
    requires a != [] && forall x :: x in a <==> x in b
    ensures b != []
  {
    assert a[0] in b;
  }

  /** Two strictly increasing sequences with the same members are equal. */
  lemma {:induction false} IncreasingUnique(a: seq<string>, b: seq<string>)
    requires Increasing(a) && Increasing(b)
    requires forall x :: x in a <==> x in b
    ensures a == b
    decreases |a|
  {
    if a != [] {
      HeadIn(a, b);
    }
    if b != [] {
      HeadIn(b, a);
    }
    if a != [] && b != [] {
      if a[0] != b[0] {
        assert a[0] in b && b[0] in a;
        var i :| 0 < i < |b| && b[i] == a[0];
        var j :| 0 < j < |a| && a[j] == b[0];
        StrLessTransitive(a[0], b[0], a[0]);
        StrLessIrreflexive(a[0]);
      }
      forall x ensures x in a[1..] <==> x in b[1..] {
        if x in a[1..] {
          var i :| 1 <= i < |a| && a[i] == x;
          StrLessIrreflexive(a[0]);
          assert x in a;
          var k :| 0 <= k < |b| && b[k] == x;
          assert k != 0;
          assert b[1..][k - 1] == x;
        }
        if x in b[1..] {
          var i :| 1 <= i < |b| && b[i] == x;
          StrLessIrreflexive(b[0]);
          assert x in b;
          var k :| 0 <= k < |a| && a[k] == x;
          assert k != 0;
          assert a[1..][k - 1] == x;
        }
      }
      IncreasingUnique(a[1..], b[1..]);
      assert a == [a[0]] + a[1..];
      assert b == [b[0]] + b[1..];
    }
  }

  /** Some enumeration of a finite set of keys (the order of `for ... in`). */
  ghost function Enumerate(keys: set<string>): (r: seq<string>)
    ensures Distinct(r) && forall x :: x in r <==> x in keys
    decreases |keys|
  {
    if keys == {} then []
    else
      var k :| k in keys;
      [k] + Enumerate(keys - {k})
  }

  /** The keys of a parameter bag in the order `generateQueryString` visits
      them: sorted, whatever the enumeration order was. */
  ghost function SortedKeys(keys: set<string>): (r: seq<string>)
    ensures forall x :: x in r <==> x in keys
  {
    var e := Enumerate(keys);
    assert forall x :: x in SortKeys(e) <==> x in multiset(e);
    SortKeys(e)
  }

  lemma SortedKeysIncreasing(keys: set<string>)
    ensures Increasing(SortedKeys(keys))
  {
    SortKeysIncreasing(Enumerate(keys));
  }

  // ---------------------------------------------------------------------------
  // generateQueryString

  /** `encodeKey`: `encodeURIComponent`, then the first `%24` turned back into
      `$`. */
  function EncodeKey(k: string): string
  {
    ReplaceFirst(EncodeURIComponent(k), "%24", "$")
  }

  /** The pairs of a list value: one `key[]=item` per item, in list order. */
  function ListPairs(ek: string, items: seq<string>): seq<string>
  {
    if items == [] then [] else [ek + "[]=" + EncodeURIComponent(items[0])] + ListPairs(ek, items[1..])
  }

  /** The pairs one key contributes: none for null, `key[]=item` per item of
      a list, otherwise `key=value`. */
  function KeyPairs(k: string, v: Value): seq<string>
  {
    match v
    case Null => []
    case List(items) => ListPairs(EncodeKey(k), items)
    case _ => [EncodeKey(k) + "=" + EncodeURIComponent(Stringify(v))]
  }

  function Pairs(params: Params, keys: seq<string>): seq<string>
    requires forall k :: k in keys ==> k in params
  {
    if keys == [] then [] else KeyPairs(keys[0], params[keys[0]]) + Pairs(params, keys[1..])
  }

  /** `''` when there are no pairs, otherwise `?` and the pairs joined by `&`. */
  function Render(pairs: seq<string>): string
  {
    if pairs == [] then "" else "?" + Join(pairs, '&')
  }

  /** The query string of a parameter bag. */
  ghost function QueryStringOf(params: Params): string
  {
    Render(Pairs(params, SortedKeys(params.Keys)))
  }

  lemma {:induction false} PairsAppend(params: Params, keys: seq<string>, k: string)
    requires forall k :: k in keys ==> k in params
    requires k in params
    ensures Pairs(params, keys + [k]) == Pairs(params, keys) + KeyPairs(k, params[k])
    decreases |keys|
  {
    if keys == [] {
      assert keys + [k] == [k];
    } else {
      assert (keys + [k])[1..] == keys[1..] + [k];
      PairsAppend(params, keys[1..], k);
    }
  }

  lemma {:induction false} ListPairsAppend(ek: string, items: seq<string>, x: string)
    ensures ListPairs(ek, items + [x]) == ListPairs(ek, items) + [ek + "[]=" + EncodeURIComponent(x)]
    decreases |items|
  {
    if items == [] {
      assert items + [x] == [x];
    } else {
      assert (items + [x])[1..] == items[1..] + [x];
      ListPairsAppend(ek, items[1..], x);
    }
  }

  /** The `for (var key in params)` loop with its `hasOwnProperty` filter:
      every key of the bag, once each, in some order. */
  method OwnKeys(params: Params) returns (keys: seq<string>)
    ensures Distinct(keys)
    ensures forall x :: x in keys <==> x in params
  {
    keys := [];
    var left := params.Keys;
    while left != {}
      invariant left <= params.Keys
      invariant Distinct(keys)
      invariant forall x :: x in keys <==> x in params.Keys && x !in left
      decreases |left|
    {
      var key :| key in left;
      keys := keys + [key];
      left := left - {key};
    }
  }

  /** Sorting any enumeration of the keys gives the same sequence. */
  lemma SortEnumeration(keys: seq<string>, params: Params)
    requires Distinct(keys) && forall x :: x in keys <==> x in params
    ensures SortKeys(keys) == SortedKeys(params.Keys)
  {
    SortKeysIncreasing(keys);
    assert forall x :: x in SortKeys(keys) <==> x in multiset(keys);
    SortedKeysIncreasing(params.Keys);
    IncreasingUnique(SortKeys(keys), SortedKeys(params.Keys));
  }

  /** The inner loop of `generateQueryString`: `arrayKey=item` pushed for
      each item of a list, `arrayKey` being the encoded key and `[]`. */
  method PushListPairs(pairs: seq<string>, ek: string, items: seq<string>) returns (r: seq<string>)
    ensures r == pairs + ListPairs(ek, items)
  {
    r := pairs;
    var arrayKey := ek + "[]";
    for j := 0 to |items|
      invariant r == pairs + ListPairs(ek, items[..j])
    {
      assert items[..j + 1] == items[..j] + [items[j]];
      ListPairsAppend(ek, items[..j], items[j]);
      assert arrayKey + "=" + EncodeURIComponent(items[j]) == ek + "[]=" + EncodeURIComponent(items[j]);
      r := r + [arrayKey + "=" + EncodeURIComponent(items[j])];
    }
    assert items[..|items|] == items;
  }

  /** One round of the key loop of `generateQueryString`: the pairs of one
      key pushed onto `pairs`. */
  method PushKeyPairs(pairs: seq<string>, key: string, value: Value) returns (r: seq<string>)
    ensures r == pairs + KeyPairs(key, value)
  {
    r := pairs;
    if value.Null? {
      return;
    }
    if value.List? {
      r := PushListPairs(r, EncodeKey(key), value.items);
    } else {
      r := r + [EncodeKey(key) + "=" + EncodeURIComponent(Stringify(value))];
    }
  }

  /** The key loop of `generateQueryString`: the pairs of each key in turn. */
  method CollectPairs(params: Params, keys: seq<string>) returns (pairs: seq<string>)
    requires forall k :: k in keys ==> k in params
    ensures pairs == Pairs(params, keys)
  {
    pairs := [];
    for i := 0 to |keys|
      invariant pairs == Pairs(params, keys[..i])
    {
      assert keys[..i + 1] == keys[..i] + [keys[i]];
      PairsAppend(params, keys[..i], keys[i]);
      pairs := PushKeyPairs(pairs, keys[i], params[keys[i]]);
    }
    assert keys[..|keys|] == keys;
  }

  /** `generateQueryString(params)`. */
  method GenerateQueryString(params: Params) returns (r: string)
    ensures r == QueryStringOf(params)
  {
    var keys := OwnKeys(params);
    SortEnumeration(keys, params);
    keys := SortKeys(keys);
    var pairs := CollectPairs(params, keys);
    if |pairs| == 0 {
      return "";
    }
    return "?" + Join(pairs, '&');
  }

  // ---------------------------------------------------------------------------
  // parseQueryString

  /** JavaScript truthiness of a parameter value. */
  predicate Truthy(v: Value)
  {
    match v
    case Null => false
    case Str(s) => s != ""
    case Bool(b) => b
    case List(_) => true
  }

  /** A decoded key names a list entry when it is longer than two characters
      and ends in `[]`. */
  predicate IsArrayKey(key: string)
  {
    |key| > 2 && key[|key| - 2..] == "[]"
  }

  /** `pair[1] ? decodeURIComponent(pair[1]) : ''`. */
  function DecodeValueOf(text: string): Result<string>
  {
    if text != "" then DecodeURIComponent(text) else Ok("")
  }

  /** One `key=value` piece folded into the parameters read so far. Malformed
      escapes fail as `decodeURIComponent` throws; pushing onto a value that
      is set but not a list fails as `push` is not a function there. */
  function AddPair(acc: Params, piece: string): Result<Params>
  {
    var pair := Split(piece, '=');
    match DecodeURIComponent(pair[0])
    case Err(e) => Err(e)
    case Ok(key) =>
      if key == "" then Ok(acc)
      else if |pair| == 1 then Ok(acc[key := Bool(true)])
      else
        var name := if IsArrayKey(key) then key[..|key| - 2] else key;
        match DecodeValueOf(pair[1])
        case Err(e) => Err(e)
        case Ok(value) =>
          if !IsArrayKey(key) then Ok(acc[name := Str(value)])
          else
            var current := if name in acc && Truthy(acc[name]) then acc[name] else List([]);
            if current.List? then Ok(acc[name := List(current.items + [value])])
            else Err(NotAList(name))
  }

  /** The pieces folded in from the first to the last. */
  function ParsePieces(pieces: seq<string>, acc: Params): Result<Params>
    decreases |pieces|, 1
  {
    if pieces == [] then Ok(acc) else ParseFrom(pieces, acc)
  }

  /** The fold from a first piece on. */
  function ParseFrom(pieces: seq<string>, acc: Params): Result<Params>
    requires pieces != []
    decreases |pieces|, 0
  {
    match AddPair(acc, pieces[0])
    case Err(e) => Err(e)
    case Ok(next) => ParsePieces(pieces[1..], next)
  }

  /** What `parseQueryString` returns: `{}` for the empty string; otherwise
      one leading `?` dropped and the `&`-separated pieces folded in. */
  function ParseQueryStringOf(qs: string): Result<Params>
  {
    if qs == "" then Ok(map[])
    else ParsePieces(Split(if qs[0] == '?' then qs[1..] else qs, '&'), map[])
  }

  /** One round of the loop of `parseQueryString`: the piece `pair` split at
      `=`, its key decoded, and the value stored or pushed. */
  method AddPiece(queryParams: Params, piece: string) returns (r: Result<Params>)
    ensures r == AddPair(queryParams, piece)
  {
    var pair := Split(piece, '=');
    var decodedKey := DecodeURIComponent(pair[0]);
    if decodedKey.Err? {
      return Err(decodedKey.error);
    }
    var key := decodedKey.value;
    if key == "" {
      return Ok(queryParams);
    }
    var params := queryParams;
    var value: Value;
    var isArray := false;
    if |pair| == 1 {
      value := Bool(true);
    } else {
      if IsArrayKey(key) {
        isArray := true;
        key := key[..|key| - 2];
        if !(key in params && Truthy(params[key])) {
          params := params[key := List([])];
        }
      }
      if pair[1] != "" {
        var decoded := DecodeURIComponent(pair[1]);
        if decoded.Err? {
          return Err(decoded.error);
        }
        value := Str(decoded.value);
      } else {
        value := Str("");
      }
    }
    if isArray {
      ghost var existing := if key in queryParams && Truthy(queryParams[key]) then queryParams[key] else List([]);
      var current := params[key];
      assert current == existing;
      if !current.List? {
        return Err(NotAList(key));
      }
      params := params[key := List(current.items + [value.s])];
      assert params == queryParams[key := List(existing.items + [value.s])];
    } else {
      params := params[key := value];
    }
    return Ok(params);
  }

  /** `parseQueryString(queryString)`. */
  method ParseQueryString(queryString: string) returns (r: Result<Params>)
    ensures r == ParseQueryStringOf(queryString)
  {
    var queryParams: Params := map[];
    if queryString == "" {
      return Ok(queryParams);
    }
    var qs := queryString;
    if qs[0] == '?' {
      qs := qs[1..];
    }
    var pairs := Split(qs, '&');
    for i := 0 to |pairs|
      invariant ParsePieces(pairs[i..], queryParams) == ParsePieces(pairs, map[])
    {
      assert pairs[i..][1..] == pairs[i + 1..];
      var step := AddPiece(queryParams, pairs[i]);
      if step.Err? {
        return Err(step.error);
      }
      queryParams := step.value;
    }
    return Ok(queryParams);
  }

  // ---------------------------------------------------------------------------
  // Round trip

  /** A key that reads back as itself: non-empty and not ending in `[]`. */
  predicate PlainKey(k: string)
  {
    k != "" && !IsArrayKey(k)
  }

  /** Whether a value leaves a trace in the query string: null and the empty
      list write no pair at all. */
  predicate Kept(v: Value)
  {
    !v.Null? && v != List([])
  }

  /** A value as it reads back: a boolean becomes its text. */
  function Normalize(v: Value): Value
  {
    if v.Bool? then Str(Stringify(v)) else v
  }

  /** What parsing the query string of `params` restores for the keys in
      `keys`. */
  function Survivors(params: Params, keys: seq<string>): Params
  {
    map k | k in keys && k in params && Kept(params[k]) :: Normalize(params[k])
  }

  lemma {:induction false} EncodeEmpty(s: string)
    ensures EncodeURIComponent(s) == "" ==> s == ""
  {
    if s != [] {
      Utf8Bytes(s[0]);
    }
  }

  /** A key without `$` encodes with no `%24` to turn back. */
  lemma NoDollarNone(k: string)
    requires '$' !in k
    ensures FindFirst(EncodeURIComponent(k), "%24") == None
  {
    var e := EncodeURIComponent(k);
    forall j: nat ensures !OccursAt(e, "%24", j) {
      if j < |e| {
        NoDollarEncoded(k, "", j);
        assert e + "" == e;
      }
    }
  }

  /** For a key holding `$`, the `%24` that `encodeKey` turns back is the
      escape of its first `$`. */
  lemma EncodeKeySplit(k: string, m: nat)
    requires m < |k| && k[m] == '$' && '$' !in k[..m]
    ensures EncodeKey(k) == EncodeURIComponent(k[..m]) + "$" + EncodeURIComponent(k[m + 1..])
  {
    var a, b := k[..m], k[m + 1..];
    var ea, eb := EncodeURIComponent(a), EncodeURIComponent(b);
    assert EncodeURIComponent(k) == ea + ("%24" + eb) by {
      EncodeAround(a, b);
      assert a + "$" + b == k;
    }
    assert forall j: nat :: j < |ea| ==> !OccursAt(ea + ("%24" + eb), "%24", j) by {
      forall j: nat | j < |ea| ensures !OccursAt(ea + ("%24" + eb), "%24", j) {
        NoDollarEncoded(a, "%24" + eb, j);
      }
    }
    ReplaceFirstAt(ea, "%24", eb, "$");
  }

  /** Encoding a string with one `$` in it. */
  lemma EncodeAround(a: string, b: string)
    ensures EncodeURIComponent(a + "$" + b) == EncodeURIComponent(a) + ("%24" + EncodeURIComponent(b))
  {
    assert a + "$" + b == a + ("$" + b);
    assert EncodeURIComponent(a + ("$" + b)) == EncodeURIComponent(a) + EncodeURIComponent("$" + b) by {
      EncodeAppend(a, "$" + b);
    }
    assert EncodeURIComponent("$" + b) == EncodeURIComponent("$") + EncodeURIComponent(b) by {
      EncodeAppend("$", b);
    }
    assert EncodeURIComponent("$") == "%24" by {
      EncodeDollar();
      assert "$"[1..] == [];
    }
  }

  lemma DecodeDollar(tail: string)
    ensures Decode("$" + tail, {}) == Prefix("$", Decode(tail, {}))
  {
    assert ("$" + tail)[1..] == tail;
  }

  /** Decoding across a `$` between two decodable stretches. */
  lemma DecodeAroundDollar(a: string, b: string, ea: string, eb: string, rest: string)
    requires Decode(ea + ("$" + (eb + rest)), {}) == Prefix(a, Decode("$" + (eb + rest), {}))
    requires Decode(eb + rest, {}) == Prefix(b, Decode(rest, {}))
    ensures Decode(ea + "$" + eb + rest, {}) == Prefix(a + "$" + b, Decode(rest, {}))
  {
    assert ea + "$" + eb + rest == ea + ("$" + (eb + rest));
    DecodeDollar(eb + rest);
    PrefixPrefix("$", b, Decode(rest, {}));
    PrefixPrefix(a, "$" + b, Decode(rest, {}));
    assert a + ("$" + b) == a + "$" + b;
  }

  lemma EncodeKeyDecodesPlain(k: string, rest: string)
    requires '$' !in k
    ensures Decode(EncodeKey(k) + rest, {}) == Prefix(k, Decode(rest, {}))
  {
    assert EncodeKey(k) == EncodeURIComponent(k) by {
      NoDollarNone(k);
    }
    DecodeEncoded(k, rest);
  }

  lemma EncodeKeyDecodesDollar(k: string, m: nat, rest: string)
    requires m < |k| && k[m] == '$' && '$' !in k[..m]
    ensures Decode(EncodeKey(k) + rest, {}) == Prefix(k, Decode(rest, {}))
  {
    var a, b := k[..m], k[m + 1..];
    var x := EncodeURIComponent(a) + "$" + EncodeURIComponent(b) + rest;
    assert EncodeKey(k) + rest == x by {
      EncodeKeySplit(k, m);
    }
    var ea, eb := EncodeURIComponent(a), EncodeURIComponent(b);
    assert Decode(x, {}) == Prefix(a + "$" + b, Decode(rest, {})) by {
      assert Decode(ea + ("$" + (eb + rest)), {}) == Prefix(a, Decode("$" + (eb + rest), {})) by {
        DecodeEncoded(a, "$" + (eb + rest));
      }
      assert Decode(eb + rest, {}) == Prefix(b, Decode(rest, {})) by {
        DecodeEncoded(b, rest);
      }
      DecodeAroundDollar(a, b, ea, eb, rest);
    }
    assert a + "$" + b == k;
  }

  /** Decoding undoes `encodeKey`, whatever follows the key: turning the
      first `%24` back into `$` loses nothing. */
  lemma EncodeKeyDecodes(k: string, rest: string)
    ensures Decode(EncodeKey(k) + rest, {}) == Prefix(k, Decode(rest, {}))
  {
    match IndexOf(k, '$')
    case None => EncodeKeyDecodesPlain(k, rest);
    case Some(m) => EncodeKeyDecodesDollar(k, m, rest);
  }

  /** Encoded text holds neither `=` nor `&`, nor the `?` that starts a
      query string. */
  lemma EncodedNoDelimiters(s: string)
    ensures '=' !in EncodeURIComponent(s) && '&' !in EncodeURIComponent(s) && '?' !in EncodeURIComponent(s)
  {
    EncodedAlphabet(s);
    NoDelimitersIn(EncodeURIComponent(s));
  }

  lemma NoDelimitersIn(e: string)
    requires forall i :: 0 <= i < |e| ==> IsUnreserved(e[i]) || e[i] == '%'
    ensures '=' !in e && '&' !in e && '?' !in e
  {
    forall c | c in e ensures c != '=' && c != '&' && c != '?' {
      var i :| 0 <= i < |e| && e[i] == c;
    }
  }

  /** Nor does an encoded key. */
  lemma KeyNoDelimiters(k: string)
    ensures '=' !in EncodeKey(k) && '&' !in EncodeKey(k) && '?' !in EncodeKey(k)
  {
    EncodedNoDelimiters(k);
    assert forall c :: c in EncodeKey(k) ==> c in EncodeURIComponent(k) || c == '$';
  }

  lemma SplitKeyValue(a: string, b: string)
    requires '=' !in a && '=' !in b
    ensures Split(a + "=" + b, '=') == [a, b]
  {
    SplitJoin([a, b], '=');
    assert Join([a, b], '=') == a + "=" + b;
  }

  /** What the round trip needs of an encoded key: no delimiter inside, and
      it decodes back, alone or with `[]` after it. */
  lemma KeyFacts(k: string)
    ensures '=' !in EncodeKey(k) && '&' !in EncodeKey(k)
    ensures DecodeURIComponent(EncodeKey(k)) == Ok(k)
    ensures DecodeURIComponent(EncodeKey(k) + "[]") == Ok(k + "[]")
  {
    KeyNoDelimiters(k);
    assert DecodeURIComponent(EncodeKey(k)) == Ok(k) by {
      EncodeKeyDecodes(k, "");
      assert EncodeKey(k) + "" == EncodeKey(k);
      assert k + "" == k;
    }
    assert DecodeURIComponent(EncodeKey(k) + "[]") == Ok(k + "[]") by {
      EncodeKeyDecodes(k, "[]");
      DecodeWithoutPercent("[]", {});
    }
  }

  /** What the round trip needs of an encoded value. */
  lemma ValueFacts(s: string)
    ensures '=' !in EncodeURIComponent(s) && '&' !in EncodeURIComponent(s)
    ensures DecodeValueOf(EncodeURIComponent(s)) == Ok(s)
  {
    EncodedNoDelimiters(s);
    DecodeURIComponentInverts(s);
    EncodeEmpty(s);
  }

  /** A `key=value` piece whose parts decode to `k` and `v` stores `v`
      under `k`. */
  lemma StorePlain(acc: Params, ek: string, ev: string, k: string, v: string)
    requires '=' !in ek && '=' !in ev
    requires DecodeURIComponent(ek) == Ok(k) && PlainKey(k)
    requires DecodeValueOf(ev) == Ok(v)
    ensures AddPair(acc, ek + "=" + ev) == Ok(acc[k := Str(v)])
  {
    SplitKeyValue(ek, ev);
  }

  /** The items already stored under `k`. */
  function Existing(acc: Params, k: string): seq<string>
    requires k in acc ==> acc[k].List?
  {
    if k in acc then acc[k].items else []
  }

  /** A `key[]=value` piece whose parts decode to `k[]` and `v` appends `v`
      to the list under `k`. */
  lemma StoreItem(acc: Params, ek: string, ev: string, k: string, v: string)
    requires '=' !in ek && '=' !in ev
    requires DecodeURIComponent(ek + "[]") == Ok(k + "[]") && k != ""
    requires k in acc ==> acc[k].List?
    requires DecodeValueOf(ev) == Ok(v)
    ensures AddPair(acc, ek + "[]=" + ev) == Ok(acc[k := List(Existing(acc, k) + [v])])
  {
    var key := ek + "[]";
    assert ek + "[]=" + ev == key + "=" + ev;
    SplitKeyValue(key, ev);
    var full := k + "[]";
    assert IsArrayKey(full) && full[..|full| - 2] == k;
  }

  /** One step of the fold. */
  lemma ParseStep(pieces: seq<string>, acc: Params, next: Params)
    requires pieces != [] && AddPair(acc, pieces[0]) == Ok(next)
    ensures ParsePieces(pieces, acc) == ParsePieces(pieces[1..], next)
  {
    assert ParsePieces(pieces, acc) == ParseFrom(pieces, acc);
  }

  lemma {:induction false} ParsePiecesAppend(a: seq<string>, b: seq<string>, acc: Params)
    ensures ParsePieces(a + b, acc) ==
      match ParsePieces(a, acc) case Err(e) => Err(e) case Ok(m) => ParsePieces(b, m)
    decreases |a|
  {
    if a == [] {
      assert a + b == b;
    } else {
      assert (a + b)[0] == a[0];
      assert (a + b)[1..] == a[1..] + b;
      match AddPair(acc, a[0])
      case Err(_) =>
      case Ok(next) => ParsePiecesAppend(a[1..], b, next);
    }
  }

  /** The first pair of a list pushes its item. */
  lemma ListPieceStep(ek: string, k: string, items: seq<string>, acc: Params)
    requires '=' !in ek && DecodeURIComponent(ek + "[]") == Ok(k + "[]") && k != ""
    requires k in acc ==> acc[k].List?
    requires items != []
    ensures ParsePieces(ListPairs(ek, items), acc) ==
      ParsePieces(ListPairs(ek, items[1..]), acc[k := List(Existing(acc, k) + [items[0]])])
  {
    var pieces := ListPairs(ek, items);
    var next := acc[k := List(Existing(acc, k) + [items[0]])];
    assert AddPair(acc, pieces[0]) == Ok(next) by {
      ValueFacts(items[0]);
      StoreItem(acc, ek, EncodeURIComponent(items[0]), k, items[0]);
    }
    ParseStep(pieces, acc, next);
    assert pieces[1..] == ListPairs(ek, items[1..]);
  }

  /** Pushing the first item and then the rest pushes them all. */
  lemma PushAll(acc: Params, k: string, items: seq<string>)
    requires k in acc ==> acc[k].List?
    requires items != []
    ensures var next := acc[k := List(Existing(acc, k) + [items[0]])];
      (if items[1..] == [] then next else next[k := List(Existing(next, k) + items[1..])]) ==
      acc[k := List(Existing(acc, k) + items)]
  {
    var next := acc[k := List(Existing(acc, k) + [items[0]])];
    assert Existing(next, k) == Existing(acc, k) + [items[0]];
    if items[1..] == [] {
      assert items == [items[0]];
    } else {
      assert items == [items[0]] + items[1..];
      assert Existing(next, k) + items[1..] == Existing(acc, k) + items;
    }
  }

  /** The pairs of a list read back as that list, appended to what is
      stored. */
  lemma {:induction false} ListPiecesParse(ek: string, k: string, items: seq<string>, acc: Params)
    requires '=' !in ek && DecodeURIComponent(ek + "[]") == Ok(k + "[]") && k != ""
    requires k in acc ==> acc[k].List?
    ensures ParsePieces(ListPairs(ek, items), acc) ==
      Ok(if items == [] then acc else acc[k := List(Existing(acc, k) + items)])
    decreases |items|
  {
    if items != [] {
      ListPieceStep(ek, k, items, acc);
      ListPiecesParse(ek, k, items[1..], acc[k := List(Existing(acc, k) + [items[0]])]);
      PushAll(acc, k, items);
    }
  }

  /** A piece that stores `Str(text)` under `k`, and then nothing more. */
  lemma SinglePlainParse(k: string, text: string, acc: Params)
    requires PlainKey(k)
    ensures ParsePieces([EncodeKey(k) + "=" + EncodeURIComponent(text)], acc) == Ok(acc[k := Str(text)])
  {
    var pieces := [EncodeKey(k) + "=" + EncodeURIComponent(text)];
    assert AddPair(acc, pieces[0]) == Ok(acc[k := Str(text)]) by {
      KeyFacts(k);
      ValueFacts(text);
      StorePlain(acc, EncodeKey(k), EncodeURIComponent(text), k, text);
    }
    ParseStep(pieces, acc, acc[k := Str(text)]);
    assert pieces[1..] == [];
  }

  /** The pairs of one key read back as its normalised value, or as nothing
      when the value writes no pair. */
  lemma KeyPiecesParse(k: string, v: Value, acc: Params)
    requires PlainKey(k) && k !in acc
    ensures ParsePieces(KeyPairs(k, v), acc) == Ok(if Kept(v) then acc[k := Normalize(v)] else acc)
  {
    match v
    case Null =>
    case List(items) =>
      assert '=' !in EncodeKey(k) && DecodeURIComponent(EncodeKey(k) + "[]") == Ok(k + "[]") by {
        KeyFacts(k);
      }
      ListPiecesParse(EncodeKey(k), k, items, acc);
      assert [] + items == items;
    case Str(text) =>
      SinglePlainParse(k, text, acc);
    case Bool(_) =>
      SinglePlainParse(k, Stringify(v), acc);
  }

  /** Reading back one more key extends the result by that key alone. */
  lemma SurvivorsCons(params: Params, ks: seq<string>, acc: Params)
    requires ks != [] && ks[0] in params
    ensures (if Kept(params[ks[0]]) then acc[ks[0] := Normalize(params[ks[0]])] else acc) + Survivors(params, ks[1..]) ==
      acc + Survivors(params, ks)
  {
    assert forall x :: x in ks <==> x == ks[0] || x in ks[1..];
  }

  /** The pairs of several distinct keys read back key by key. */
  lemma {:induction false} PairsParse(params: Params, ks: seq<string>, acc: Params)
    requires forall k :: k in ks ==> k in params && PlainKey(k) && k !in acc
    requires Distinct(ks)
    ensures ParsePieces(Pairs(params, ks), acc) == Ok(acc + Survivors(params, ks))
    decreases |ks|
  {
    if ks == [] {
      assert Survivors(params, ks) == map[];
      assert acc + map[] == acc;
    } else {
      var k := ks[0];
      var next := if Kept(params[k]) then acc[k := Normalize(params[k])] else acc;
      assert ParsePieces(Pairs(params, ks), acc) == ParsePieces(Pairs(params, ks[1..]), next) by {
        KeyPiecesParse(k, params[k], acc);
        ParsePiecesAppend(KeyPairs(k, params[k]), Pairs(params, ks[1..]), acc);
      }
      assert forall x :: x in ks[1..] ==> x in params && PlainKey(x) && x !in next by {
        forall x | x in ks[1..] ensures x != k {
          var i :| 0 <= i < |ks[1..]| && ks[1..][i] == x;
          assert ks[i + 1] == x;
        }
      }
      PairsParse(params, ks[1..], next);
      SurvivorsCons(params, ks, acc);
    }
  }

  lemma {:induction false} ListPairsNoAmp(ek: string, items: seq<string>)
    requires '&' !in ek && '?' !in ek
    ensures forall p :: p in ListPairs(ek, items) ==> '&' !in p && '?' !in p
    decreases |items|
  {
    if items != [] {
      EncodedNoDelimiters(items[0]);
      ListPairsNoAmp(ek, items[1..]);
    }
  }

  lemma {:induction false} PairsNoAmp(params: Params, ks: seq<string>)
    requires forall k :: k in ks ==> k in params
    ensures forall p :: p in Pairs(params, ks) ==> '&' !in p && '?' !in p
    decreases |ks|
  {
    if ks != [] {
      var k := ks[0];
      KeyNoDelimiters(k);
      EncodedNoDelimiters(Stringify(params[k]));
      if params[k].List? {
        ListPairsNoAmp(EncodeKey(k), params[k].items);
      }
      PairsNoAmp(params, ks[1..]);
    }
  }

  lemma IncreasingDistinct(s: seq<string>)
    requires Increasing(s)
    ensures Distinct(s)
  {
    forall i, j | 0 <= i < j < |s| ensures s[i] != s[j] {
      StrLessIrreflexive(s[i]);
    }
  }

  /** `parseQueryString(generateQueryString(params))` gives `params` back
      for keys that are non-empty and do not end in `[]`: keys with a null
      value or an empty list are gone and booleans come back as text. */
  lemma RoundTrip(params: Params)
    requires forall k :: k in params ==> PlainKey(k)
    ensures ParseQueryStringOf(QueryStringOf(params)) ==
      Ok(map k | k in params && Kept(params[k]) :: Normalize(params[k]))
  {
    var ks := SortedKeys(params.Keys);
    assert Distinct(ks) by {
      SortedKeysIncreasing(params.Keys);
      IncreasingDistinct(ks);
    }
    assert QueryStringOf(params) == Render(Pairs(params, ks));
    RenderedPairsParse(params, ks);
  }

  /** The same for the keys listed in any order without repeats. */
  lemma RenderedPairsParse(params: Params, ks: seq<string>)
    requires forall k :: k in params ==> PlainKey(k)
    requires Distinct(ks) && forall k :: k in ks <==> k in params
    ensures ParseQueryStringOf(Render(Pairs(params, ks))) ==
      Ok(map k | k in params && Kept(params[k]) :: Normalize(params[k]))
  {
    var pieces := Pairs(params, ks);
    var restored := map k | k in params && Kept(params[k]) :: Normalize(params[k]);
    assert ParsePieces(pieces, map[]) == Ok(restored) by {
      PairsParse(params, ks, map[]);
      SurvivorsAll(params, ks);
    }
    assert ParseQueryStringOf(Render(pieces)) == Ok(restored) by {
      PairsNoAmp(params, ks);
      ParseRendered(pieces, restored);
    }
  }

  /** What parsing the query string of `params` gives back: the keys whose
      values write something, booleans as their text. */
  function Restored(params: Params): Params
  {
    map k | k in params && Kept(params[k]) :: Normalize(params[k])
  }

  /** `recognize` reads the query string from after its `?`: a non-empty
      generated query string holds no other `?`, and what follows its `?`
      parses to the same bag as the whole. */
  lemma QueryTail(params: Params)
    requires forall k :: k in params ==> PlainKey(k)
    requires QueryStringOf(params) != ""
    ensures var qs := QueryStringOf(params);
      qs[0] == '?' && '?' !in qs[1..] &&
      ParseQueryStringOf(qs[1..]) == Ok(Restored(params))
  {
    var ks := SortedKeys(params.Keys);
    var pieces := Pairs(params, ks);
    var body := Join(pieces, '&');
    assert QueryStringOf(params) == "?" + body;
    assert '?' !in body by {
      PairsNoAmp(params, ks);
      JoinWithout(pieces, '&', '?');
    }
    RoundTrip(params);
    assert ("?" + body)[1..] == body;
    if body == "" {
      assert ParseQueryStringOf("?" + body) == ParsePieces([""], map[]);
    } else {
      assert body[0] != '?' && body[0] in body;
      assert ParseQueryStringOf(body) == ParsePieces(Split(body, '&'), map[]);
    }
  }

  /** With every key listed, what survives is the whole normalised bag. */
  lemma SurvivorsAll(params: Params, ks: seq<string>)
    requires forall k :: k in ks <==> k in params
    ensures map[] + Survivors(params, ks) == map k | k in params && Kept(params[k]) :: Normalize(params[k])
  {
  }

  /** Parsing a rendered query string reads its pairs back in order. */
  lemma ParseRendered(pieces: seq<string>, result: Params)
    requires forall p :: p in pieces ==> '&' !in p
    requires ParsePieces(pieces, map[]) == Ok(result)
    ensures ParseQueryStringOf(Render(pieces)) == Ok(result)
  {
    if pieces != [] {
      var body := Join(pieces, '&');
      assert Split(body, '&') == pieces by {
        SplitJoin(pieces, '&');
      }
      var qs := "?" + body;
      assert qs[0] == '?' && qs[1..] == body;
      assert Render(pieces) == qs;
    }
  }

  lemma KeyPairsEmpty(k: string, v: Value)
    ensures KeyPairs(k, v) == [] <==> !Kept(v)
  {
  }

  lemma {:induction false} PairsEmpty(params: Params, ks: seq<string>)
    requires forall k :: k in ks ==> k in params
    ensures Pairs(params, ks) == [] <==> forall k :: k in ks ==> !Kept(params[k])
    decreases |ks|
  {
    if ks != [] {
      KeyPairsEmpty(ks[0], params[ks[0]]);
      PairsEmpty(params, ks[1..]);
      assert forall x :: x in ks <==> x == ks[0] || x in ks[1..];
    }
  }

  /** The query string is empty exactly when no key has a value that writes
      a pair, that is when every value is null or an empty list. */
  lemma QueryStringEmpty(params: Params)
    ensures QueryStringOf(params) == "" <==> forall k :: k in params ==> params[k].Null? || params[k] == List([])
  {
    PairsEmpty(params, SortedKeys(params.Keys));
  }

  /** Of two plain pairs for the same key, the later one wins. */
  lemma LastWriteWins(acc: Params, ek: string, k: string, first: string, second: string)
    requires '=' !in ek && DecodeURIComponent(ek) == Ok(k) && PlainKey(k)
    ensures ParsePieces([ek + "=" + EncodeURIComponent(first), ek + "=" + EncodeURIComponent(second)], acc) ==
      Ok(acc[k := Str(second)])
  {
    var p1, p2 := ek + "=" + EncodeURIComponent(first), ek + "=" + EncodeURIComponent(second);
    var mid := acc[k := Str(first)];
    assert ParsePieces([p1, p2], acc) == ParsePieces([p2], mid) by {
      assert AddPair(acc, p1) == Ok(mid) by {
        ValueFacts(first);
        StorePlain(acc, ek, EncodeURIComponent(first), k, first);
      }
      ParseStep([p1, p2], acc, mid);
      assert [p1, p2][1..] == [p2];
    }
    assert ParsePieces([p2], mid) == Ok(mid[k := Str(second)]) by {
      assert AddPair(mid, p2) == Ok(mid[k := Str(second)]) by {
        ValueFacts(second);
        StorePlain(mid, ek, EncodeURIComponent(second), k, second);
      }
      ParseStep([p2], mid, mid[k := Str(second)]);
      assert [p2][1..] == [];
    }
    assert mid[k := Str(second)] == acc[k := Str(second)];
  }
}
