/** `parseParts`: the fragments joined with `/`, matched against one of two fixed regular
    expressions, written here as left-to-right scanners:

      default            /^(\w+:\/\/[^/?]+)?(.*?)(\?.+)?$/
      protocolRelative   /^(\/\/[^/?]+)(.*?)(\?.+)?$/

    The groups are the prefix, the pathname and the query suffix. */
module Parser {
  import opened Outcomes
  import Text

  /** `\w`. */
  predicate IsWordChar(c: char) {
    ('A' <= c <= 'Z') || ('a' <= c <= 'z') || ('0' <= c <= '9') || c == '_'
  }

  /** `[^/?]`. */
  predicate IsAuthorityChar(c: char) {
    c != '/' && c != '?'
  }

  /** The characters `.` does not match. */
  predicate IsLineTerminator(c: char) {
    c == '\n' || c == '\r' || c == '\U{2028}' || c == '\U{2029}'
  }

  predicate NoLineTerminator(s: string) {
    forall j :: 0 <= j < |s| ==> !IsLineTerminator(s[j])
  }

  /** The end of the run of `\w` characters that starts at `i`. */
  function WordRun(s: string, i: nat): (e: nat)
    requires i <= |s|
    ensures i <= e <= |s|
    ensures forall j :: i <= j < e ==> IsWordChar(s[j])
    ensures e == |s| || !IsWordChar(s[e])
    decreases |s| - i
  {
    if i == |s| || !IsWordChar(s[i]) then i else WordRun(s, i + 1)
  }

  /** The end of the run of `[^/?]` characters that starts at `i`. */
  function AuthorityRun(s: string, i: nat): (e: nat)
    requires i <= |s|
    ensures i <= e <= |s|
    ensures forall j :: i <= j < e ==> IsAuthorityChar(s[j])
    ensures e == |s| || !IsAuthorityChar(s[e])
    decreases |s| - i
  {
    if i == |s| || !IsAuthorityChar(s[i]) then i else AuthorityRun(s, i + 1)
  }

  /** `s[..e]` matches `\w+:\/\/[^/?]+`, with a scheme of `k` characters. */
  ghost predicate SchemeAuthority(s: string, k: nat, e: nat) {
    0 < k && k + 3 < e <= |s| &&
    (forall j :: 0 <= j < k ==> IsWordChar(s[j])) &&
    s[k] == ':' && s[k + 1] == '/' && s[k + 2] == '/' &&
    (forall j :: k + 3 <= j < e ==> IsAuthorityChar(s[j]))
  }

  /** `s[..e]` matches `\/\/[^/?]+`. */
  ghost predicate SlashAuthority(s: string, e: nat) {
    2 < e <= |s| && s[0] == '/' && s[1] == '/' &&
    (forall j :: 2 <= j < e ==> IsAuthorityChar(s[j]))
  }

  /** Where the optional group `(\w+:\/\/[^/?]+)?` ends when it is tried greedily at the
      start of `s`, or 0 when it cannot match: the match, if any, is the longest one. */
  function SchemePrefixEnd(s: string): (e: nat)
    ensures e <= |s|
    ensures e > 0 ==> SchemeAuthority(s, WordRun(s, 0), e) && (e == |s| || !IsAuthorityChar(s[e]))
    ensures forall k: nat, e': nat :: SchemeAuthority(s, k, e') ==> 0 < e' <= e
  {
    var k := WordRun(s, 0);
    if 0 < k && k + 3 < |s| && s[k] == ':' && s[k + 1] == '/' && s[k + 2] == '/' && IsAuthorityChar(s[k + 3])
    then AuthorityRun(s, k + 3)
    else 0
  }

  /** Where the mandatory group `(\/\/[^/?]+)` ends when it is tried greedily at the start
      of `s`, or `None` when it cannot match. */
  function SlashPrefixEnd(s: string): (r: Option<nat>)
    ensures r.Some? ==> SlashAuthority(s, r.value) && (r.value == |s| || !IsAuthorityChar(s[r.value]))
    ensures forall e': nat :: SlashAuthority(s, e') ==> r.Some? && e' <= r.value
  {
    if |s| >= 3 && s[0] == '/' && s[1] == '/' && IsAuthorityChar(s[2])
    then Some(AuthorityRun(s, 2))
    else None
  }

  /** Where the lazy `(.*?)` stops before `(\?.+)?$`: at the first `?` that has at least
      one character after it, or at the end of `s`. */
  function QueryStart(s: string, i: nat): (q: nat)
    requires i <= |s|
    ensures i <= q <= |s|
    ensures q == |s| || (s[q] == '?' && q + 1 < |s|)
    ensures forall j :: i <= j < q ==> !(s[j] == '?' && j + 1 < |s|)
    decreases |s| - i
  {
    if i == |s| || (s[i] == '?' && i + 1 < |s|) then i else QueryStart(s, i + 1)
  }

  /** The three capture groups of a successful match. */
  datatype Groups = Groups(prefix: string, pathname: string, suffix: string)

  /** `partsStr.match(urlRegExp)`; `None` where it returns `null`. After the prefix group
      the rest must be free of line terminators, since `.` does not match them. */
  function Match(s: string, protocolRelative: bool): (r: Option<Groups>)
    ensures r.Some? ==> r.value.prefix + r.value.pathname + r.value.suffix == s
    ensures r.Some? ==> NoLineTerminator(r.value.pathname + r.value.suffix)
    ensures r.Some? ==> r.value.suffix == "" || (r.value.suffix[0] == '?' && |r.value.suffix| >= 2)
    ensures r.Some? ==> forall j :: 0 <= j < |r.value.pathname| && r.value.pathname[j] == '?' ==>
      j == |r.value.pathname| - 1 && r.value.suffix == ""
    ensures NoLineTerminator(s) ==> (r.Some? <==> !protocolRelative || SlashPrefixEnd(s).Some?)
    ensures r.Some? && !protocolRelative ==> r.value.prefix == s[..SchemePrefixEnd(s)]
    ensures r.Some? && protocolRelative ==>
      SlashPrefixEnd(s).Some? && r.value.prefix == s[..SlashPrefixEnd(s).value]
  {
    var e := if protocolRelative then SlashPrefixEnd(s) else Some(SchemePrefixEnd(s));
    if e.None? then None
    else
      NoLineTerminatorAfter(s, e.value);
      if !NoLineTerminator(s[e.value..]) then None
      else
        var q := QueryStart(s, e.value);
        GroupsOf(s, e.value, q);
        Some(Groups(s[..e.value], s[e.value..q], s[q..]))
  }

  lemma NoLineTerminatorAfter(s: string, e: nat)
    requires e <= |s|
    ensures NoLineTerminator(s) ==> NoLineTerminator(s[e..])
  {
    assert forall j :: 0 <= j < |s| - e ==> s[e..][j] == s[e + j];
  }

  /** The prefix, the lazy pathname and what follows it, cut at the end `e` of the prefix
      and at the query start `q`. */
  lemma GroupsOf(s: string, e: nat, q: nat)
    requires e <= |s| && q == QueryStart(s, e) && NoLineTerminator(s[e..])
    ensures s[..e] + s[e..q] + s[q..] == s
    ensures NoLineTerminator(s[e..q] + s[q..])
    ensures s[q..] == "" || (s[q..][0] == '?' && |s[q..]| >= 2)
    ensures forall j :: 0 <= j < |s[e..q]| && s[e..q][j] == '?' ==> j == |s[e..q]| - 1 && s[q..] == ""
  {
    ThreeSlices(s, e, q);
    QuestionLast(s, e, q);
  }

  lemma ThreeSlices(s: string, e: nat, q: nat)
    requires e <= q <= |s|
    ensures s[..e] + s[e..q] + s[q..] == s
    ensures s[e..q] + s[q..] == s[e..]
  {
    assert s[..e] + s[e..q] == s[..q];
  }

  /** Before the query start a `?` can only be the last character of the input. */
  lemma QuestionLast(s: string, e: nat, q: nat)
    requires e <= q <= |s| && (q == |s| || s[q] == '?')
    requires forall j :: e <= j < q ==> !(s[j] == '?' && j + 1 < |s|)
    ensures forall j :: 0 <= j < |s[e..q]| && s[e..q][j] == '?' ==> j == |s[e..q]| - 1 && s[q..] == ""
  {
    forall j | 0 <= j < |s[e..q]| && s[e..q][j] == '?'
      ensures j == |s[e..q]| - 1 && s[q..] == ""
    {
      assert s[e + j] == '?';
      assert e + j + 1 == |s|;
    }
  }

  /** The pieces of the pathname: `pathname.split("/").filter((part) => part !== "")`. */
  function Segments(pathname: string): (r: seq<string>)
    ensures forall i :: 0 <= i < |r| ==> r[i] != "" && '/' !in r[i]
  {
    Text.NonEmpty(Text.Split(pathname, '/'))
  }

  /** Neither `""` nor `"/"` has a segment. */
  lemma NoSegments(u: string)
    requires u == "" || u == "/"
    ensures Segments(u) == []
  {
    if u == "/" {
      assert u == "" + ['/'] + "";
      Text.SplitAppend("", "", '/');
      assert Text.Split(u, '/') == [""] + [""];
      Text.NonEmptyAppend([""], [""]);
    } else {
      assert Text.Split(u, '/') == [""];
    }
    assert Text.NonEmpty([""]) == [];
  }

  predicate StartsWith(s: string, p: string) {
    |p| <= |s| && s[..|p|] == p
  }

  predicate EndsWith(s: string, p: string) {
    |p| <= |s| && s[|s| - |p|..] == p
  }

  /** What `parseParts` returns. */
  datatype Parsed = Parsed(
    prefix: string,
    segments: seq<string>,
    hasLeading: bool,
    hasTrailing: bool,
    suffix: string)

  /** `parseParts(parts, options)`. A failed match leaves all three groups empty. With a
      query suffix, `"keep"` needs two slashes (`/^\/\/+/`, `/\/\/+$/`), without one a
      single slash (`/^\/+/`, `/\/+$/`). */
  function ParseParts(parts: seq<string>, protocolRelative: bool): (r: Parsed)
    ensures forall i :: 0 <= i < |r.segments| ==> r.segments[i] != "" && '/' !in r.segments[i]
    ensures r.suffix == "" || (r.suffix[0] == '?' && |r.suffix| >= 2)
  {
    var joined := Text.Join(parts, "/");
    var g := match Match(joined, protocolRelative)
      case Some(g) => g
      case None => Groups("", "", "");
    Parsed(
      g.prefix,
      Segments(g.pathname),
      if g.suffix != "" then StartsWith(g.pathname, "//") else StartsWith(g.pathname, "/"),
      if g.suffix != "" then EndsWith(g.pathname, "//") else EndsWith(g.pathname, "/"),
      g.suffix)
  }

  /** The scheme prefix ends at or before a `/` at position `n` when no `?` comes before
      it, the character before it is not `/`, and it does not open `//` followed by an
      authority character. (After `"http:"` a fragment `"/host"` does open one.) */
  lemma PrefixBeforeSlash(s: string, n: nat)
    requires 0 < n < |s| && s[n] == '/' && s[n - 1] != '/'
    requires forall j :: 0 <= j < n ==> s[j] != '?'
    requires n + 2 < |s| ==> s[n + 1] != '/' || !IsAuthorityChar(s[n + 2])
    ensures SchemePrefixEnd(s) <= n
  {
  }

  /** The default pattern on a string with no line terminator whose first `?` has
      something after it and lies beyond the prefix: the query suffix starts at that
      `?`. */
  lemma MatchAtQuery(s: string, m: nat)
    requires m + 1 < |s| && s[m] == '?' && NoLineTerminator(s)
    requires forall j :: 0 <= j < m ==> s[j] != '?'
    requires SchemePrefixEnd(s) <= m
    ensures Match(s, false) == Some(Groups(s[..SchemePrefixEnd(s)], s[SchemePrefixEnd(s)..m], s[m..]))
  {
    assert QueryStart(s, SchemePrefixEnd(s)) == m;
  }

  /** The characters of `a`, some slashes and a query suffix, one after the other. */
  lemma QueryShape(a: string, slashes: string, q: string)
    requires |a| > 0 && a[|a| - 1] != '/' && '?' !in a && NoLineTerminator(a)
    requires slashes == "/" || slashes == "//"
    requires |q| > 0 && NoLineTerminator(q)
    ensures var s := a + slashes + ("?" + q); var m := |a| + |slashes|;
      NoLineTerminator(s) && m + 1 < |s| && s[m] == '?' && s[m..] == "?" + q &&
      (forall j :: 0 <= j < m ==> s[j] != '?') &&
      s[|a|] == '/' && s[|a| - 1] != '/' && (|a| + 2 < |s| ==> s[|a| + 1] != '/' || s[|a| + 2] == '?')
  {
    var s := a + slashes + ("?" + q);
    assert forall j :: 0 <= j < |a| ==> s[j] == a[j];
    assert forall j :: |a| + |slashes| < j < |s| ==> s[j] == q[j - |a| - |slashes| - 1];
  }

  /** What `parseParts` returns once the match of the joined fragments is known. */
  lemma ParsePartsOf(parts: seq<string>, protocolRelative: bool, g: Groups)
    requires Match(Text.Join(parts, "/"), protocolRelative) == Some(g)
    ensures ParseParts(parts, protocolRelative).prefix == g.prefix
    ensures ParseParts(parts, protocolRelative).segments == Segments(g.pathname)
    ensures ParseParts(parts, protocolRelative).suffix == g.suffix
    ensures g.suffix != "" ==> (ParseParts(parts, protocolRelative).hasTrailing <==> EndsWith(g.pathname, "//"))
    ensures g.suffix == "" ==> (ParseParts(parts, protocolRelative).hasTrailing <==> EndsWith(g.pathname, "/"))
  {
  }

  /** One or two slashes after a string that does not end in one: `//+$` finds them only
      when there are two. */
  lemma DoubleSlashEnd(b: string, extra: string)
    requires extra == "" || extra == "/"
    requires |b| > 0 ==> b[|b| - 1] != '/'
    ensures EndsWith(b + (extra + "/"), "//") <==> extra == "/"
  {
    var t := b + (extra + "/");
    if extra == "/" {
      assert t[|t| - 2..] == "//";
    } else if |b| > 0 {
      assert t[|t| - 2] == b[|b| - 1];
    }
  }

  /** From inside `a` up to the end of `b`, in `a + b + rest`; the last character is `a`'s
      when `b` is left out. */
  lemma SliceBeforeRest(a: string, b: string, rest: string, e: nat)
    requires e <= |a|
    ensures (a + b + rest)[e..|a| + |b|] == a[e..] + b
    ensures |a[e..]| > 0 ==> a[e..][|a[e..]| - 1] == a[|a| - 1]
  {
    var s := a + b + rest;
    assert s[..|a| + |b|] == a + b;
    assert (a + b)[e..] == a[e..] + b;
  }

  /** The fragments `x` and `y` joined with `/`. */
  lemma JoinPair(x: string, y: string)
    ensures Text.Join([x, y], "/") == x + "/" + y
  {
    assert [x, y][1..] == [y];
  }

  /** The trailing slashes `parseParts` sees in default mode before a query suffix, for the
      fragments `a + extra` and `?q`, where `a` does not end in `/` and holds no `?` or line
      terminator: the pathname ends in `a`'s last character and one slash more than `extra`
      holds. */
  lemma SlashesBeforeQuery(a: string, extra: string, q: string)
    requires |a| > 0 && a[|a| - 1] != '/' && '?' !in a && NoLineTerminator(a)
    requires extra == "" || extra == "/"
    requires |q| > 0 && NoLineTerminator(q)
    ensures ParseParts([a + extra, "?" + q], false).suffix == "?" + q
    ensures ParseParts([a + extra, "?" + q], false).hasTrailing <==> extra == "/"
  {
    var slashes := extra + "/";
    var s := a + slashes + ("?" + q);
    var parts := [a + extra, "?" + q];
    JoinPair(a + extra, "?" + q);
    assert Text.Join(parts, "/") == s;
    var e := MatchBeforeQuery(a, slashes, q);
    ParsePartsOf(parts, false, Groups(s[..e], a[e..] + slashes, "?" + q));
    DoubleSlashEnd(a[e..], extra);
  }

  /** The default pattern on `a`, one or two slashes and a query: the prefix ends inside
      `a` at `e`, the pathname is the rest of `a` with the slashes, the suffix the query. */
  lemma MatchBeforeQuery(a: string, slashes: string, q: string) returns (e: nat)
    requires |a| > 0 && a[|a| - 1] != '/' && '?' !in a && NoLineTerminator(a)
    requires slashes == "/" || slashes == "//"
    requires |q| > 0 && NoLineTerminator(q)
    ensures var s := a + slashes + ("?" + q);
      e == SchemePrefixEnd(s) && e <= |a| &&
      Match(s, false) == Some(Groups(s[..e], a[e..] + slashes, "?" + q))
    ensures |a[e..]| > 0 ==> a[e..][|a[e..]| - 1] == a[|a| - 1]
  {
    var s := a + slashes + ("?" + q);
    var m := |a| + |slashes|;
    QueryShape(a, slashes, q);
    PrefixBeforeSlash(s, |a|);
    MatchAtQuery(s, m);
    e := SchemePrefixEnd(s);
    SliceBeforeRest(a, slashes, "?" + q, e);
  }

  /** `"keep"` detection in default mode, for a first fragment that does not end in `/` and
      holds no `?` or line terminator: before a query suffix a single trailing slash does
      not count, two do. */
  lemma TrailingBeforeQuery(a: string, q: string)
    requires |a| > 0 && a[|a| - 1] != '/' && '?' !in a && NoLineTerminator(a)
    requires |q| > 0 && NoLineTerminator(q)
    ensures ParseParts([a, "?" + q], false).suffix == "?" + q
    ensures !ParseParts([a, "?" + q], false).hasTrailing
    ensures ParseParts([a + "/", "?" + q], false).suffix == "?" + q
    ensures ParseParts([a + "/", "?" + q], false).hasTrailing
  {
    SlashesBeforeQuery(a, "", q);
    assert a + "" == a;
    SlashesBeforeQuery(a, "/", q);
  }

  /** The default pattern on a string with no `?` and no line terminator: no suffix, and
      the pathname is everything after the prefix. */
  lemma MatchWithoutQuery(s: string)
    requires '?' !in s && NoLineTerminator(s)
    ensures Match(s, false) == Some(Groups(s[..SchemePrefixEnd(s)], s[SchemePrefixEnd(s)..], ""))
  {
    var e := SchemePrefixEnd(s);
    NoLineTerminatorAfter(s, e);
    assert QueryStart(s, e) == |s|;
    assert s[e..|s|] == s[e..] && s[|s|..] == "";
  }

  /** `/\/+$/` on its own: the last character is a slash. */
  lemma EndsWithSlash(x: string)
    ensures EndsWith(x, "/") <==> |x| > 0 && x[|x| - 1] == '/'
  {
    if |x| > 0 {
      assert x[|x| - 1..] == [x[|x| - 1]];
    }
  }

  /** The prefix group never ends in `/`, so what follows it ends in `/` exactly when the
      whole string does. */
  lemma SlashEndAfterPrefix(s: string)
    ensures EndsWith(s[SchemePrefixEnd(s)..], "/") <==> EndsWith(s, "/")
  {
    var e := SchemePrefixEnd(s);
    EndsWithSlash(s);
    EndsWithSlash(s[e..]);
    if e < |s| {
      assert s[e..][|s| - e - 1] == s[|s| - 1];
    } else if e > 0 {
      assert IsAuthorityChar(s[e - 1]);
    }
  }

  /** `"keep"` detection in default mode when the joined fragments hold no `?` and no line
      terminator: there is no suffix, and the trailing flag is set exactly when they end in
      `/`, since the prefix never does. */
  lemma TrailingWithoutQuery(parts: seq<string>)
    requires '?' !in Text.Join(parts, "/") && NoLineTerminator(Text.Join(parts, "/"))
    ensures ParseParts(parts, false).suffix == ""
    ensures ParseParts(parts, false).hasTrailing <==> EndsWith(Text.Join(parts, "/"), "/")
  {
    var s := Text.Join(parts, "/");
    var e := SchemePrefixEnd(s);
    MatchWithoutQuery(s);
    ParsePartsOf(parts, false, Groups(s[..e], s[e..], ""));
    SlashEndAfterPrefix(s);
  }
}
