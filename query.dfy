/** The query half of `buildUrl`: the existing query string parsed into a map, the
    `query` option laid over it, and the result rendered with its keys sorted. */
module Query {
  import opened Outcomes
  import Text
  import Percent
  import Fragments

  /** A value of `existingQuery`: `null` for a key written without `=`, otherwise a
      string. An array from the options is stored as its items joined with NUL. */
  datatype Stored = Valueless | Valued(s: string)

  /** A JavaScript `Map<string, string | null>`: its entries in insertion order. */
  type Entries = seq<(string, Stored)>

  const NUL: char := '\0'

  function Keys(m: Entries): (r: seq<string>)
    ensures |r| == |m|
    decreases |m|
  {
    if |m| == 0 then [] else [m[0].0] + Keys(m[1..])
  }

  lemma {:induction false} KeysIndex(m: Entries, i: nat)
    requires i < |m|
    ensures Keys(m)[i] == m[i].0
    decreases i
  {
    if i > 0 {
      KeysIndex(m[1..], i - 1);
    }
  }

  /** A Map never holds a key twice. */
  predicate DistinctKeys(m: Entries) {
    Text.Distinct(Keys(m))
  }

  /** `map.get(key)`, with `None` for `undefined`. */
  function Lookup(m: Entries, k: string): (r: Option<Stored>)
    ensures r.Some? <==> k in Keys(m)
    decreases |m|
  {
    if |m| == 0 then None
    else if m[0].0 == k then Some(m[0].1)
    else Lookup(m[1..], k)
  }

  /** `map.get(key)` for a key the map holds. */
  function Get(m: Entries, k: string): Stored
    requires k in Keys(m)
  {
    Lookup(m, k).value
  }

  /** `map.set(key, value)`: a present key keeps its place and takes the new value, a new
      key goes last. */
  function Set(m: Entries, k: string, v: Stored): (r: Entries)
    ensures Lookup(r, k) == Some(v)
    ensures forall k' :: k' != k ==> Lookup(r, k') == Lookup(m, k')
    decreases |m|
  {
    if |m| == 0 then [(k, v)]
    else if m[0].0 == k then [(k, v)] + m[1..]
    else [m[0]] + Set(m[1..], k, v)
  }

  /** The key order after `set`: unchanged for a present key, the new key appended. */
  lemma {:induction false} SetKeys(m: Entries, k: string, v: Stored)
    ensures k in Keys(m) ==> Keys(Set(m, k, v)) == Keys(m)
    ensures k !in Keys(m) ==> Keys(Set(m, k, v)) == Keys(m) + [k]
    decreases |m|
  {
    if |m| > 0 && m[0].0 != k {
      SetKeys(m[1..], k, v);
      assert Set(m, k, v)[1..] == Set(m[1..], k, v);
    }
  }

  /** Setting keeps the keys distinct. */
  lemma SetDistinct(m: Entries, k: string, v: Stored)
    requires DistinctKeys(m)
    ensures DistinctKeys(Set(m, k, v))
  {
    SetKeys(m, k, v);
  }

  /** `set` for each pair, in order: the first loop of `buildUrl` over the query pieces and
      the second over the `query` option. */
  function SetAll(m: Entries, pairs: seq<(string, Stored)>): (r: Entries)
    decreases |pairs|
  {
    if |pairs| == 0 then m
    else
      var last := pairs[|pairs| - 1];
      Set(SetAll(m, pairs[..|pairs| - 1]), last.0, last.1)
  }

  /** The value the last pair with key `k` carries, if any. */
  function LastValue(pairs: seq<(string, Stored)>, k: string): Option<Stored>
    decreases |pairs|
  {
    if |pairs| == 0 then None
    else if pairs[|pairs| - 1].0 == k then Some(pairs[|pairs| - 1].1)
    else LastValue(pairs[..|pairs| - 1], k)
  }

  /** After a run of `set` calls a key holds the value it was last set to, and a key never
      set keeps what it had. */
  lemma {:induction false} SetAllLookup(m: Entries, pairs: seq<(string, Stored)>, k: string)
    ensures Lookup(SetAll(m, pairs), k) == if LastValue(pairs, k).Some? then LastValue(pairs, k) else Lookup(m, k)
    decreases |pairs|
  {
    if |pairs| > 0 {
      SetAllLookup(m, pairs[..|pairs| - 1], k);
    }
  }

  lemma {:induction false} SetAllDistinct(m: Entries, pairs: seq<(string, Stored)>)
    requires DistinctKeys(m)
    ensures DistinctKeys(SetAll(m, pairs))
    decreases |pairs|
  {
    if |pairs| > 0 {
      SetAllDistinct(m, pairs[..|pairs| - 1]);
      SetDistinct(SetAll(m, pairs[..|pairs| - 1]), pairs[|pairs| - 1].0, pairs[|pairs| - 1].1);
    }
  }

  /** `s.indexOf(c)`, with `None` for -1. */
  function IndexOf(s: string, c: char): (r: Option<nat>)
    ensures r.None? <==> c !in s
    ensures r.Some? ==> r.value < |s| && s[r.value] == c && c !in s[..r.value]
    decreases |s|
  {
    if |s| == 0 then None
    else if s[0] == c then Some(0)
    else
      match IndexOf(s[1..], c)
      case None => None
      case Some(i) =>
        assert s[..i + 1] == [s[0]] + s[1..][..i];
        Some(i + 1)
  }

  /** A character's first occurrence is the one `IndexOf` finds. */
  lemma FirstOccurrence(s: string, c: char)
    ensures forall k :: 0 <= k < |s| && s[k] == c && c !in s[..k] ==> IndexOf(s, c) == Some(k)
  {
  }

  /** One `&`-separated piece of the query string: without `=` a valueless key, otherwise
      a key and a value split at the first `=`, both percent-decoded. */
  function ParsePiece(part: string): (r: Result<(string, Stored)>)
    ensures r.Ok? ==> (r.value.1.Valueless? <==> '=' !in part)
    ensures '%' !in part ==> r.Ok?
  {
    match IndexOf(part, '=')
    case None =>
      (match Percent.Decode(part)
       case UriError => UriError
       case Ok(key) => Ok((key, Valueless)))
    case Some(eq) =>
      match Percent.Decode(part[..eq])
      case UriError => UriError
      case Ok(key) =>
        match Percent.Decode(part[eq + 1..])
        case UriError => UriError
        case Ok(value) => Ok((key, Valued(value)))
  }

  /** A piece with `=` splits at the first one: the key is the decoded text before it,
      the value the decoded text after it, and the piece fails exactly when either half
      does. */
  lemma ParsePieceAtEquals(part: string, eq: nat)
    requires eq < |part| && part[eq] == '=' && '=' !in part[..eq]
    ensures ParsePiece(part).Ok? <==> Percent.Decode(part[..eq]).Ok? && Percent.Decode(part[eq + 1..]).Ok?
    ensures ParsePiece(part).Ok? ==>
      ParsePiece(part).value == (Percent.Decode(part[..eq]).value, Valued(Percent.Decode(part[eq + 1..]).value))
  {
    FirstOccurrence(part, '=');
  }

  /** A piece without `=` is a valueless key: the decoded piece, or a failure exactly when
      decoding fails. */
  lemma ParsePieceWithoutEquals(part: string)
    requires '=' !in part
    ensures ParsePiece(part).Ok? <==> Percent.Decode(part).Ok?
    ensures ParsePiece(part).Ok? ==> ParsePiece(part).value == (Percent.Decode(part).value, Valueless)
  {
  }

  /** Every piece decoded, or `UriError` as soon as one fails to decode. */
  function ParsePieces(parts: seq<string>): (r: Result<seq<(string, Stored)>>)
    ensures r.Ok? ==> |r.value| == |parts|
    decreases |parts|
  {
    if |parts| == 0 then Ok([])
    else
      match ParsePieces(parts[..|parts| - 1])
      case UriError => UriError
      case Ok(init) =>
        match ParsePiece(parts[|parts| - 1])
        case UriError => UriError
        case Ok(p) => Ok(init + [p])
  }

  /** Decoding the pieces succeeds exactly when every piece decodes, and then yields each
      piece's pair in order. */
  lemma {:induction false} ParsePiecesEach(parts: seq<string>)
    ensures ParsePieces(parts).Ok? <==> forall i :: 0 <= i < |parts| ==> ParsePiece(parts[i]).Ok?
    ensures ParsePieces(parts).Ok? ==>
      forall i :: 0 <= i < |parts| ==> ParsePiece(parts[i]) == Ok(ParsePieces(parts).value[i])
    decreases |parts|
  {
    if |parts| > 0 {
      var init := parts[..|parts| - 1];
      ParsePiecesEach(init);
      assert forall i :: 0 <= i < |init| ==> parts[i] == init[i];
    }
  }

  /** An encoded name never holds `=`. */
  lemma EncodeNoEquals(s: string)
    ensures '=' !in Percent.Encode(s)
  {
    var e := Percent.Encode(s);
    assert forall i :: 0 <= i < |e| ==> e[i] != '=';
  }

  /** A key without `=` joined to a value by `=`: the first `=` is the joining one. */
  lemma SplitAtEquals(k: string, val: string)
    requires '=' !in k
    ensures var part := k + "=" + val;
      IndexOf(part, '=') == Some(|k|) && part[..|k|] == k && part[|k| + 1..] == val
  {
    var part := k + "=" + val;
    assert part[|k|] == '=' && part[..|k|] == k;
    assert forall j :: 0 <= j < |k| ==> part[j] == k[j];
    var r := IndexOf(part, '=');
    assert forall j :: 0 <= j < r.value ==> part[..r.value][j] == part[j];
    assert part[|k| + 1..] == val;
  }

  /** Reading back what one key renders to, when it renders to one part, gives the key and
      its value again. */
  lemma ParseRendered(key: string, v: Stored)
    requires v.Valued? ==> NUL !in v.s
    ensures |RenderEntry(key, v)| == 1
    ensures ParsePiece(RenderEntry(key, v)[0]) == Ok((key, v))
  {
    var ek := Percent.Encode(key);
    EncodeNoEquals(key);
    Percent.DecodeEncode(key);
    if v.Valued? {
      var ev := Percent.Encode(v.s);
      Percent.DecodeEncode(v.s);
      assert RenderEntry(key, v) == [ek + "=" + ev];
      SplitAtEquals(ek, ev);
    } else {
      assert RenderEntry(key, v) == [ek];
    }
  }

  /** `suffix.replace(/^\?/, "")`. */
  function StripQuestion(s: string): (r: string)
    ensures |s| > 0 && s[0] == '?' ==> s == "?" + r
    ensures !(|s| > 0 && s[0] == '?') ==> s == r
  {
    if |s| > 0 && s[0] == '?' then s[1..] else s
  }

  /** `existingQuery` after the loop over the pieces of the query suffix. */
  function ExistingQuery(suffix: string): Result<Entries> {
    var suffixStr := StripQuestion(suffix);
    if suffixStr == "" then Ok([])
    else
      match ParsePieces(Text.Split(suffixStr, '&'))
      case UriError => UriError
      case Ok(pairs) => Ok(SetAll([], pairs))
  }

  /** `value.map(String)`. */
  function ScalarStrings(items: seq<Fragments.Scalar>): (r: seq<string>)
    ensures |r| == |items| && forall i :: 0 <= i < |items| ==> r[i] == Fragments.ScalarToString(items[i])
  {
    seq(|items|, i requires 0 <= i < |items| => Fragments.ScalarToString(items[i]))
  }

  /** How the loop over the `query` option stores a value: `String(value)`, or for an array
      `value.map(String).join("\0")`. */
  function StoredOf(v: Fragments.QueryValue): Stored {
    match v
    case One(x) => Valued(Fragments.ScalarToString(x))
    case Many(items) => Valued(Text.Join(ScalarStrings(items), [NUL]))
  }

  function OptionPairs(q: seq<(string, Fragments.QueryValue)>): (r: seq<(string, Stored)>)
    ensures |r| == |q| && forall i :: 0 <= i < |q| ==> r[i] == (q[i].0, StoredOf(q[i].1))
  {
    seq(|q|, i requires 0 <= i < |q| => (q[i].0, StoredOf(q[i].1)))
  }

  /** `existingQuery` after the loop over `Object.entries(options.query)`. */
  function Overlay(m: Entries, q: seq<(string, Fragments.QueryValue)>): Entries {
    SetAll(m, OptionPairs(q))
  }

  /** The value the options give a key: that of its last entry. */
  function OptionValue(q: seq<(string, Fragments.QueryValue)>, k: string): Option<Fragments.QueryValue>
    decreases |q|
  {
    if |q| == 0 then None
    else if q[|q| - 1].0 == k then Some(q[|q| - 1].1)
    else OptionValue(q[..|q| - 1], k)
  }

  lemma {:induction false} LastValueOptionPairs(q: seq<(string, Fragments.QueryValue)>, k: string)
    ensures LastValue(OptionPairs(q), k) ==
      if OptionValue(q, k).Some? then Some(StoredOf(OptionValue(q, k).value)) else None
    decreases |q|
  {
    if |q| > 0 {
      assert OptionPairs(q)[..|q| - 1] == OptionPairs(q[..|q| - 1]);
      LastValueOptionPairs(q[..|q| - 1], k);
    }
  }

  /** A key of the `query` option wholly replaces whatever the existing query had under it
      (valueless or valued); every other key keeps its old value. */
  lemma OverlayLookup(m: Entries, q: seq<(string, Fragments.QueryValue)>, k: string)
    ensures OptionValue(q, k).Some? ==> Lookup(Overlay(m, q), k) == Some(StoredOf(OptionValue(q, k).value))
    ensures OptionValue(q, k).None? ==> Lookup(Overlay(m, q), k) == Lookup(m, k)
  {
    SetAllLookup(m, OptionPairs(q), k);
    LastValueOptionPairs(q, k);
  }

  /** `${encodedKey}=${encodeURIComponent(v)}` for each of `values`, in order. */
  function RenderValues(encodedKey: string, values: seq<string>): (r: seq<string>)
    ensures |r| == |values|
    ensures forall i :: 0 <= i < |values| ==> r[i] == encodedKey + "=" + Percent.Encode(values[i])
    decreases |values|
  {
    if |values| == 0 then []
    else RenderValues(encodedKey, values[..|values| - 1]) + [encodedKey + "=" + Percent.Encode(values[|values| - 1])]
  }

  /** The parts one key contributes: its bare encoded name when valueless, one
      `key=value` per NUL-separated piece when its value holds a NUL, else one
      `key=value`. */
  function RenderEntry(key: string, v: Stored): (r: seq<string>)
    ensures v.Valueless? ==> r == [Percent.Encode(key)]
    ensures v.Valued? ==> |r| == |Text.Split(v.s, NUL)|
    ensures v.Valued? ==> forall i :: 0 <= i < |r| ==>
      r[i] == Percent.Encode(key) + "=" + Percent.Encode(Text.Split(v.s, NUL)[i])
  {
    var encodedKey := Percent.Encode(key);
    match v
    case Valueless => [encodedKey]
    case Valued(s) =>
      if NUL in s then RenderValues(encodedKey, Text.Split(s, NUL))
      else
        Text.SplitNoSeparator(s, NUL);
        [encodedKey + "=" + Percent.Encode(s)]
  }

  /** The parts of the given keys, one key after the other. */
  function RenderKeys(m: Entries, keys: seq<string>): seq<string>
    requires forall i :: 0 <= i < |keys| ==> keys[i] in Keys(m)
    decreases |keys|
  {
    if |keys| == 0 then []
    else RenderKeys(m, keys[..|keys| - 1]) + RenderEntry(keys[|keys| - 1], Get(m, keys[|keys| - 1]))
  }

  /** The keys in the order they are rendered: `[...existingQuery.keys()].sort()`. */
  function SortedKeys(m: Entries): (r: seq<string>)
    ensures multiset(r) == multiset(Keys(m))
    ensures forall i :: 0 <= i < |r| ==> r[i] in Keys(m)
  {
    var r := Text.Sort(Keys(m));
    assert forall i :: 0 <= i < |r| ==> r[i] in multiset(Keys(m));
    r
  }

  /** `queryParts` after the loop over the sorted keys. */
  function RenderQuery(m: Entries): seq<string> {
    RenderKeys(m, SortedKeys(m))
  }

  /** What the query adds to the URL: `?` and the parts joined with `&`, or nothing when
      that join is empty. */
  function QueryTail(m: Entries): (r: string)
    ensures r == "" || (r[0] == '?' && |r| >= 2)
  {
    var queryStr := Text.Join(RenderQuery(m), "&");
    if queryStr == "" then "" else "?" + queryStr
  }

  /** Keys are rendered in strictly ascending order, each key the map holds exactly once. */
  lemma SortedKeysAscending(m: Entries)
    requires DistinctKeys(m)
    ensures Text.Ascending(SortedKeys(m))
    ensures |SortedKeys(m)| == |m|
    ensures forall k :: k in SortedKeys(m) <==> k in Keys(m)
  {
    Text.SortAscending(Keys(m));
    var r := SortedKeys(m);
    assert |r| == |multiset(r)| == |multiset(Keys(m))| == |m|;
    forall k
      ensures k in r <==> k in Keys(m)
    {
      assert k in r <==> k in multiset(r);
      assert k in Keys(m) <==> k in multiset(Keys(m));
    }
  }

  /** An array of two or more NUL-free items renders as `key=item`, once per item, in
      array order. */
  lemma RenderMany(key: string, items: seq<Fragments.Scalar>)
    requires |items| >= 2
    requires forall i :: 0 <= i < |items| ==> NUL !in Fragments.ScalarToString(items[i])
    ensures RenderEntry(key, StoredOf(Fragments.Many(items))) == RenderValues(Percent.Encode(key), ScalarStrings(items))
  {
    var strs := ScalarStrings(items);
    Text.SplitJoin(strs, NUL);
    assert NUL in Text.Join(strs, [NUL]) by {
      var rest := Text.Join(strs[1..], [NUL]);
      assert Text.Join(strs, [NUL]) == strs[0] + [NUL] + rest;
      assert (strs[0] + [NUL] + rest)[|strs[0]|] == NUL;
    }
  }

  /** A one-item array renders exactly like the item given as a scalar. */
  lemma RenderSingleton(key: string, x: Fragments.Scalar)
    ensures StoredOf(Fragments.Many([x])) == StoredOf(Fragments.One(x))
    ensures RenderEntry(key, StoredOf(Fragments.Many([x]))) == RenderEntry(key, StoredOf(Fragments.One(x)))
  {
    assert ScalarStrings([x]) == [Fragments.ScalarToString(x)];
  }

  /** An empty array renders as `key=`. */
  lemma RenderEmptyArray(key: string)
    ensures RenderEntry(key, StoredOf(Fragments.Many([]))) == [Percent.Encode(key) + "="]
  {
    assert ScalarStrings([]) == [];
    assert StoredOf(Fragments.Many([])) == Valued("");
    assert Percent.Encode("") == "";
    assert Percent.Encode(key) + "=" + "" == Percent.Encode(key) + "=";
  }

  /** A value that itself holds a NUL is split there and renders as a repeated key. */
  lemma RenderEmbeddedNul(key: string, a: string, b: string)
    requires NUL !in a && NUL !in b
    ensures RenderEntry(key, Valued(a + [NUL] + b)) ==
      [Percent.Encode(key) + "=" + Percent.Encode(a), Percent.Encode(key) + "=" + Percent.Encode(b)]
  {
    var s := a + [NUL] + b;
    assert Text.Split(s, NUL) == [a, b] by {
      Text.SplitAppend(a, b, NUL);
      Text.SplitNoSeparator(a, NUL);
      Text.SplitNoSeparator(b, NUL);
      assert [a] + [b] == [a, b];
    }
    var r := RenderEntry(key, Valued(s));
    assert |r| == 2;
  }

  /** Nothing to render, nothing appended: not even the `?`. */
  lemma EmptyQueryTail()
    ensures QueryTail([]) == ""
  {
    assert SortedKeys([]) == [];
  }
}
