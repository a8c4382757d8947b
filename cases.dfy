/** Calls of `urlMerge` taken from the repository's tests, worked through the model. */
module Cases {
  import opened Outcomes
  import Text
  import Fragments
  import Parser
  import Query
  import Builder
  import Percent
  import UrlMerge

  /** The empty string matches with three empty groups. */
  lemma MatchNothing()
    ensures Parser.Match("", false) == Some(Parser.Groups("", "", ""))
  {
    assert Parser.SchemePrefixEnd("") == 0;
    assert Parser.QueryStart("", 0) == 0;
  }

  /** The empty pathname has no segments. */
  lemma SegmentsNothing()
    ensures Parser.Segments("") == []
  {
    assert Text.Split("", '/') == [""];
    assert Text.NonEmpty([""]) == [];
  }

  /** No fragments parse to nothing. */
  lemma ParseNothing()
    ensures Parser.ParseParts([], false) == Parser.Parsed("", [], false, false, "")
  {
    MatchNothing();
    SegmentsNothing();
    assert Text.Join([], "/") == "";
  }

  /** Nothing, under the default options, builds `/`. */
  lemma BuildNothing()
    ensures Builder.BuildSpec(Parser.Parsed("", [], false, false, ""), Fragments.Options(Fragments.Always, Fragments.Never, false, [])) == Ok("/")
  {
    Query.EmptyQueryTail();
    assert Query.Overlay([], []) == [];
    assert Builder.PathPart("", [], true, false) == "/";
    assert "/" + "" == "/";
  }

  /** `urlMerge()` is `/`: no fragments, and the default leading slash. */
  lemma NoArguments()
    ensures UrlMerge.Merged([]) == Ok("/")
  {
    Fragments.ResolveDefaults(Fragments.NoOptions);
    assert Fragments.SplitArgs([]) == (Fragments.NoOptions, []);
    assert Fragments.NormalizeParts([]) == [];
    ParseNothing();
    BuildNothing();
  }

  lemma SegmentsSlash(x: string)
    ensures Parser.Segments("/" + x) == Parser.Segments(x)
  {
    assert ("/" + x)[1..] == x;
  }

  lemma SegmentsWord(w: string)
    requires w != "" && '/' !in w
    ensures Parser.Segments(w) == [w]
  {
    Text.SplitNoSeparator(w, '/');
  }

  lemma SegmentsPair(w: string, x: string)
    ensures Parser.Segments(w + "/" + x) == Parser.Segments(w) + Parser.Segments(x)
  {
    Text.SplitAppend(w, x, '/');
    Text.NonEmptyAppend(Text.Split(w, '/'), Text.Split(x, '/'));
  }

  lemma SegmentsTwoWords(w: string, x: string)
    requires w != "" && '/' !in w && x != "" && '/' !in x
    ensures Parser.Segments(w + "/" + x) == [w, x]
  {
    SegmentsPair(w, x);
    SegmentsWord(w);
    SegmentsWord(x);
  }

  lemma SegmentsDoubleSlash(w: string, x: string)
    requires w != "" && '/' !in w && x != "" && '/' !in x
    ensures Parser.Segments(w + "//" + x) == [w, x]
  {
    assert w + "//" + x == w + "/" + ("/" + x);
    SegmentsPair(w, "/" + x);
    SegmentsSlash(x);
    SegmentsWord(w);
    SegmentsWord(x);
  }

  lemma NormalizePair(a: Fragments.Arg, b: Fragments.Arg)
    ensures Fragments.NormalizeParts([a, b]) == Fragments.NormalizeParts([a]) + Fragments.NormalizeParts([b])
  {
    Fragments.NormalizeAppend([a], [b]);
    assert [a, b] == [a] + [b];
  }

  /** The path of a call: once the fragments, their join, the prefix and the segments are
      known, it is what the slash options make of them. */
  lemma PathOfCase(args: seq<Fragments.Arg>, user: Fragments.UserOptions, parts: seq<string>, s: string,
                   e: nat, segments: seq<string>, expected: string)
    requires user.leadingSlash != Some(Fragments.Keep) && user.trailingSlash != Some(Fragments.Keep)
    requires Fragments.NormalizeParts(args) == parts && Text.Join(parts, "/") == s && UrlMerge.Plain(s)
    requires UrlMerge.PrefixEnd(s, Fragments.Resolve(user).protocolRelative) == Some(e) && e <= |s|
    requires Parser.Segments(s[e..]) == segments
    requires Builder.PathPart(s[..e], segments, Fragments.Resolve(user).leadingSlash == Fragments.Always,
      Fragments.Resolve(user).trailingSlash == Fragments.Always) == expected
    ensures Parser.ParseParts(Fragments.NormalizeParts(args), Fragments.Resolve(user).protocolRelative).suffix == ""
    ensures UrlMerge.PathOf(args, user) == expected
  {
    UrlMerge.ParsePlain(parts, Fragments.Resolve(user).protocolRelative);
  }

  /** A call without a query: the result is the path alone. */
  lemma PathCase(args: seq<Fragments.Arg>, user: Fragments.UserOptions, parts: seq<string>, s: string,
                 e: nat, segments: seq<string>, expected: string)
    requires user.query.None?
    requires user.leadingSlash != Some(Fragments.Keep) && user.trailingSlash != Some(Fragments.Keep)
    requires Fragments.NormalizeParts(args) == parts && Text.Join(parts, "/") == s && UrlMerge.Plain(s)
    requires UrlMerge.PrefixEnd(s, Fragments.Resolve(user).protocolRelative) == Some(e) && e <= |s|
    requires Parser.Segments(s[e..]) == segments
    requires Builder.PathPart(s[..e], segments, Fragments.Resolve(user).leadingSlash == Fragments.Always,
      Fragments.Resolve(user).trailingSlash == Fragments.Always) == expected
    ensures UrlMerge.Merged(args + [Fragments.ObjectArg(user)]) == Ok(expected)
  {
    PathOfCase(args, user, parts, s, e, segments, expected);
    UrlMerge.MergedPath(args, user);
  }

  /** A call whose fragments hold no query: the path, then the query the options alone
      make. */
  lemma QueryCase(args: seq<Fragments.Arg>, user: Fragments.UserOptions, path: string, tail: string, expected: string)
    requires Parser.ParseParts(Fragments.NormalizeParts(args), Fragments.Resolve(user).protocolRelative).suffix == ""
    requires UrlMerge.PathOf(args, user) == path
    requires Query.QueryTail(Query.Overlay([], Fragments.Resolve(user).query)) == tail
    requires path + tail == expected
    ensures UrlMerge.Merged(args + [Fragments.ObjectArg(user)]) == Ok(expected)
  {
    Fragments.OptionsLast(args, user);
    assert Query.ExistingQuery("") == Ok([]);
  }

  /** The fragments of the doubled-slash call, joined. */
  lemma CollapseJoin()
    ensures Fragments.NormalizeParts([Fragments.StrArg("http://google.com//"), Fragments.StrArg("/foo")])
      == ["http://google.com//", "/foo"]
    ensures Text.Join(["http://google.com//", "/foo"], "/") == "http://google.com////foo"
  {
    NormalizePair(Fragments.StrArg("http://google.com//"), Fragments.StrArg("/foo"));
    Fragments.NormalizeSingle(Fragments.StrArg("http://google.com//"));
    Fragments.NormalizeSingle(Fragments.StrArg("/foo"));
    var parts := ["http://google.com//", "/foo"];
    assert parts[1..] == ["/foo"];
    assert Text.Join(parts, "/") == "http://google.com//" + "/" + "/foo";
  }

  /** `http` is the scheme. */
  lemma CollapseScheme()
    ensures Parser.WordRun("http://google.com////foo", 0) == 4
  {
  }

  /** `google.com` is the host. */
  lemma CollapseHost()
    ensures Parser.AuthorityRun("http://google.com////foo", 7) == 17
  {
    var s := "http://google.com////foo";
    assert forall j :: 7 <= j < 17 ==> Parser.IsAuthorityChar(s[j]);
    assert s[17] == '/';
  }

  /** The scheme-and-host group of the joined string ends before its first path slash. */
  lemma CollapsePrefix()
    ensures Parser.SchemePrefixEnd("http://google.com////foo") == 17
  {
    CollapseScheme();
    CollapseHost();
  }

  lemma CollapsePlain()
    ensures UrlMerge.Plain("http://google.com////foo")
  {
  }

  /** The run of slashes before `foo` leaves one segment. */
  lemma CollapseSegments()
    ensures Parser.Segments("http://google.com////foo"[17..]) == ["foo"]
  {
    assert "http://google.com////foo"[17..] == "/" + "///foo";
    SegmentsWord("foo");
    SegmentsSlash("foo");
    SegmentsSlash("/foo");
    SegmentsSlash("//foo");
    SegmentsSlash("///foo");
  }

  /** The prefix and the one segment, under the default slash options. */
  lemma CollapseBuild()
    ensures Builder.PathPart("http://google.com////foo"[..17], ["foo"], true, false) == "http://google.com/foo"
  {
    assert "http://google.com////foo"[..17] == "http://google.com";
  }

  /** The steps of the doubled-slash case, from joining to building the path. */
  lemma CollapseSteps()
    ensures Fragments.NormalizeParts([Fragments.StrArg("http://google.com//"), Fragments.StrArg("/foo")])
      == ["http://google.com//", "/foo"]
    ensures Text.Join(["http://google.com//", "/foo"], "/") == "http://google.com////foo"
    ensures UrlMerge.Plain("http://google.com////foo")
    ensures UrlMerge.PrefixEnd("http://google.com////foo", false) == Some(17)
    ensures Parser.Segments("http://google.com////foo"[17..]) == ["foo"]
    ensures Builder.PathPart("http://google.com////foo"[..17], ["foo"], true, false) == "http://google.com/foo"
  {
    CollapseJoin();
    CollapsePrefix();
    CollapsePlain();
    CollapseSegments();
    CollapseBuild();
  }

  /** `urlMerge("http://google.com//", "/foo")` is `http://google.com/foo`. */
  lemma DoubledSlashesCollapse()
    ensures UrlMerge.Merged([Fragments.StrArg("http://google.com//"), Fragments.StrArg("/foo")]) == Ok("http://google.com/foo")
  {
    UrlMerge.EmptyOptionsObject([Fragments.StrArg("http://google.com//"), Fragments.StrArg("/foo")]);
    CollapseDefaults([Fragments.StrArg("http://google.com//"), Fragments.StrArg("/foo")]);
  }

  /** The doubled-slash case with the default options made explicit. */
  lemma CollapseDefaults(args: seq<Fragments.Arg>)
    requires args == [Fragments.StrArg("http://google.com//"), Fragments.StrArg("/foo")]
    ensures UrlMerge.Merged(args + [Fragments.ObjectArg(Fragments.NoOptions)]) == Ok("http://google.com/foo")
  {
    CollapseSteps();
    Fragments.ResolveDefaults(Fragments.NoOptions);
    PathCase(args, Fragments.NoOptions,
      ["http://google.com//", "/foo"], "http://google.com////foo", 17, ["foo"], "http://google.com/foo");
  }

  /** Numbers become their digits and `null` is dropped. */
  lemma NumbersJoin()
    ensures Fragments.NormalizeParts([Fragments.NumArg(1), Fragments.NullArg, Fragments.NumArg(2)]) == ["1", "2"]
    ensures Text.Join(["1", "2"], "/") == "1/2"
  {
    var args := [Fragments.NumArg(1), Fragments.NullArg, Fragments.NumArg(2)];
    Fragments.NormalizeAppend([args[0]], args[1..]);
    Fragments.NormalizeAppend([args[1]], [args[2]]);
    assert args == [args[0]] + args[1..];
    assert args[1..] == [args[1]] + [args[2]];
    Fragments.NormalizeSingle(args[0]);
    Fragments.NormalizeSingle(args[1]);
    Fragments.NormalizeSingle(args[2]);
    assert Text.IntToString(1) == "1" && Text.IntToString(2) == "2";
    assert ["1", "2"][1..] == ["2"];
  }

  lemma NumbersPrefix()
    ensures UrlMerge.Plain("1/2")
    ensures Parser.SchemePrefixEnd("1/2") == 0
  {
    assert Parser.WordRun("1/2", 0) == 1;
  }

  lemma NumbersSegments()
    ensures Parser.Segments("1/2"[0..]) == ["1", "2"]
  {
    assert "1/2"[0..] == "1" + "/" + "2";
    SegmentsTwoWords("1", "2");
  }

  lemma NumbersBuild()
    ensures Builder.PathPart("1/2"[..0], ["1", "2"], true, false) == "/1/2"
  {
    assert "1/2"[..0] == "";
    assert ["1", "2"][1..] == ["2"];
    assert Text.Join(["1", "2"], "/") == "1" + "/" + "2";
  }

  /** `urlMerge(1, null, 2)` is `/1/2`. */
  lemma NumbersAndNull()
    ensures UrlMerge.Merged([Fragments.NumArg(1), Fragments.NullArg, Fragments.NumArg(2)]) == Ok("/1/2")
  {
    UrlMerge.EmptyOptionsObject([Fragments.NumArg(1), Fragments.NullArg, Fragments.NumArg(2)]);
    NumbersJoin();
    NumbersPrefix();
    NumbersSegments();
    NumbersBuild();
    Fragments.ResolveDefaults(Fragments.NoOptions);
    PathCase([Fragments.NumArg(1), Fragments.NullArg, Fragments.NumArg(2)], Fragments.NoOptions,
      ["1", "2"], "1/2", 0, ["1", "2"], "/1/2");
  }

  /** `{ leadingSlash: false, trailingSlash: true }`. */
  const Relative := Fragments.UserOptions(Some(Fragments.Never), Some(Fragments.Always), None, None)

  lemma RelativeJoin()
    ensures Fragments.NormalizeParts([Fragments.StrArg("/foo"), Fragments.StrArg("/bar")]) == ["/foo", "/bar"]
    ensures Text.Join(["/foo", "/bar"], "/") == "/foo//bar"
  {
    NormalizePair(Fragments.StrArg("/foo"), Fragments.StrArg("/bar"));
    Fragments.NormalizeSingle(Fragments.StrArg("/foo"));
    Fragments.NormalizeSingle(Fragments.StrArg("/bar"));
    var parts := ["/foo", "/bar"];
    assert parts[1..] == ["/bar"];
    assert Text.Join(parts, "/") == "/foo" + "/" + "/bar";
  }

  /** A string that starts with `/` has no scheme, so the whole of it is the pathname. */
  lemma RelativePrefix()
    ensures UrlMerge.Plain("/foo//bar")
    ensures Parser.SchemePrefixEnd("/foo//bar") == 0
  {
    assert Parser.WordRun("/foo//bar", 0) == 0;
  }

  lemma RelativeTail()
    ensures Parser.Segments("foo//bar") == ["foo", "bar"]
  {
    assert "foo//bar" == "foo" + "//" + "bar";
    SegmentsDoubleSlash("foo", "bar");
  }

  lemma RelativeSegments()
    ensures Parser.Segments("/foo//bar"[0..]) == ["foo", "bar"]
  {
    assert "/foo//bar"[0..] == "/" + "foo//bar";
    SegmentsSlash("foo//bar");
    RelativeTail();
  }

  lemma RelativeBuild()
    ensures Builder.PathPart("/foo//bar"[..0], ["foo", "bar"], false, true) == "foo/bar/"
  {
    assert "/foo//bar"[..0] == "";
    assert ["foo", "bar"][1..] == ["bar"];
    assert Text.Join(["foo", "bar"], "/") == "foo" + "/" + "bar";
  }

  /** `urlMerge("/foo", "/bar", { leadingSlash: false, trailingSlash: true })` is `foo/bar/`:
      the given leading slashes are dropped and a trailing one added. */
  lemma RelativeWithTrailingSlash()
    ensures UrlMerge.Merged([Fragments.StrArg("/foo"), Fragments.StrArg("/bar")]
      + [Fragments.ObjectArg(Relative)]) == Ok("foo/bar/")
  {
    RelativeJoin();
    RelativePrefix();
    RelativeSegments();
    RelativeBuild();
    PathCase([Fragments.StrArg("/foo"), Fragments.StrArg("/bar")], Relative,
      ["/foo", "/bar"], "/foo//bar", 0, ["foo", "bar"], "foo/bar/");
  }

  /** `{ protocolRelative: b }`. */
  function ProtocolOption(b: bool): Fragments.UserOptions {
    Fragments.UserOptions(None, None, Some(b), None)
  }

  lemma HostJoin()
    ensures Fragments.NormalizeParts([Fragments.StrArg("//google.com"), Fragments.StrArg("foo")]) == ["//google.com", "foo"]
    ensures Text.Join(["//google.com", "foo"], "/") == "//google.com/foo"
  {
    NormalizePair(Fragments.StrArg("//google.com"), Fragments.StrArg("foo"));
    Fragments.NormalizeSingle(Fragments.StrArg("//google.com"));
    Fragments.NormalizeSingle(Fragments.StrArg("foo"));
    var parts := ["//google.com", "foo"];
    assert parts[1..] == ["foo"];
    assert Text.Join(parts, "/") == "//google.com" + "/" + "foo";
  }

  /** With `protocolRelative` the `//host` group takes `//google.com`; without it no scheme
      matches and nothing is prefix. */
  lemma HostPrefix()
    ensures UrlMerge.Plain("//google.com/foo")
    ensures Parser.SlashPrefixEnd("//google.com/foo") == Some(12)
    ensures Parser.SchemePrefixEnd("//google.com/foo") == 0
  {
    HostRun();
    HostNoScheme();
  }

  /** `google.com` is the host. */
  lemma HostRun()
    ensures Parser.AuthorityRun("//google.com/foo", 2) == 12
  {
    var s := "//google.com/foo";
    assert forall j :: 2 <= j < 12 ==> Parser.IsAuthorityChar(s[j]);
    assert s[12] == '/';
  }

  lemma HostNoScheme()
    ensures Parser.WordRun("//google.com/foo", 0) == 0
  {
  }

  /** With `protocolRelative` the pathname is `/foo`. */
  lemma HostKeptSegments()
    ensures Parser.Segments("//google.com/foo"[12..]) == ["foo"]
  {
    assert "//google.com/foo"[12..] == "/" + "foo";
    SegmentsSlash("foo");
    SegmentsWord("foo");
  }

  lemma HostAsSegment()
    ensures Parser.Segments("google.com/foo") == ["google.com", "foo"]
  {
    assert "google.com/foo" == "google.com" + "/" + "foo";
    SegmentsTwoWords("google.com", "foo");
  }

  /** Without it the pathname is the whole string, host included. */
  lemma HostLostSegments()
    ensures Parser.Segments("//google.com/foo"[0..]) == ["google.com", "foo"]
  {
    assert "//google.com/foo"[0..] == "/" + ("/" + "google.com/foo");
    SegmentsSlash("/" + "google.com/foo");
    SegmentsSlash("google.com/foo");
    HostAsSegment();
  }

  lemma HostKeptBuild()
    ensures Builder.PathPart("//google.com/foo"[..12], ["foo"], true, false) == "//google.com/foo"
  {
    assert "//google.com/foo"[..12] == "//google.com";
  }

  lemma HostLostBuild()
    ensures Builder.PathPart("//google.com/foo"[..0], ["google.com", "foo"], true, false) == "/google.com/foo"
  {
    assert "//google.com/foo"[..0] == "";
    assert ["google.com", "foo"][1..] == ["foo"];
    assert Text.Join(["google.com", "foo"], "/") == "google.com" + "/" + "foo";
  }

  /** `urlMerge("//google.com", "foo", { protocolRelative: true })` keeps the host:
      `//google.com/foo`. */
  lemma ProtocolRelativeHost()
    ensures UrlMerge.Merged([Fragments.StrArg("//google.com"), Fragments.StrArg("foo")]
      + [Fragments.ObjectArg(ProtocolOption(true))]) == Ok("//google.com/foo")
  {
    HostJoin();
    HostPrefix();
    HostKeptSegments();
    HostKeptBuild();
    PathCase([Fragments.StrArg("//google.com"), Fragments.StrArg("foo")], ProtocolOption(true),
      ["//google.com", "foo"], "//google.com/foo", 12, ["foo"], "//google.com/foo");
  }

  /** `urlMerge("//google.com", "foo", { protocolRelative: false })` reads the host as a
      path segment: `/google.com/foo`. */
  lemma ProtocolRelativeOff()
    ensures UrlMerge.Merged([Fragments.StrArg("//google.com"), Fragments.StrArg("foo")]
      + [Fragments.ObjectArg(ProtocolOption(false))]) == Ok("/google.com/foo")
  {
    HostJoin();
    HostPrefix();
    HostLostSegments();
    HostLostBuild();
    PathCase([Fragments.StrArg("//google.com"), Fragments.StrArg("foo")], ProtocolOption(false),
      ["//google.com", "foo"], "//google.com/foo", 0, ["google.com", "foo"], "/google.com/foo");
  }

  /** `{ query: { biz: "buz", foo: "bar" } }`. */
  const BizFoo := Fragments.UserOptions(None, None, None,
    Some([("biz", Fragments.One(Fragments.StrValue("buz"))), ("foo", Fragments.One(Fragments.StrValue("bar")))]))

  /** Two distinct keys set one after the other into an empty map, in that order. */
  lemma SetTwo(a: string, x: Query.Stored, b: string, y: Query.Stored)
    requires a != b
    ensures Query.SetAll([], [(a, x), (b, y)]) == [(a, x), (b, y)]
  {
    var pairs := [(a, x), (b, y)];
    assert pairs[..1] == [(a, x)];
    assert pairs[..1][..0] == [];
    assert Query.Set([], a, x) == [(a, x)];
    assert Query.SetAll([], pairs[..1]) == [(a, x)];
    assert [(a, x)][1..] == [];
    assert Query.Set([(a, x)], b, y) == [(a, x)] + Query.Set([], b, y);
  }

  /** Two distinct keys given by the options, into an empty query. */
  lemma TwoEntries(a: string, x: string, b: string, y: string)
    requires a != b
    ensures Query.Overlay([], [(a, Fragments.One(Fragments.StrValue(x))), (b, Fragments.One(Fragments.StrValue(y)))])
      == [(a, Query.Valued(x)), (b, Query.Valued(y))]
  {
    var pairs := Query.OptionPairs([(a, Fragments.One(Fragments.StrValue(x))), (b, Fragments.One(Fragments.StrValue(y)))]);
    assert pairs == [(a, Query.Valued(x)), (b, Query.Valued(y))];
    SetTwo(a, Query.Valued(x), b, Query.Valued(y));
  }

  /** Two keys already in order stay in that order. */
  lemma TwoSorted(a: string, x: string, b: string, y: string)
    requires Text.Below(a, b)
    ensures Query.SortedKeys([(a, Query.Valued(x)), (b, Query.Valued(y))]) == [a, b]
  {
    var m := [(a, Query.Valued(x)), (b, Query.Valued(y))];
    assert m[1..] == [(b, Query.Valued(y))];
    assert Query.Keys(m) == [a, b];
    assert [a, b][1..] == [b];
    Text.BelowAsymmetric(a, b);
  }

  lemma TwoGets(a: string, x: Query.Stored, b: string, y: Query.Stored)
    requires a != b
    ensures a in Query.Keys([(a, x), (b, y)]) && b in Query.Keys([(a, x), (b, y)])
    ensures Query.Get([(a, x), (b, y)], a) == x && Query.Get([(a, x), (b, y)], b) == y
  {
    var m := [(a, x), (b, y)];
    assert m[1..] == [(b, y)];
    assert Query.Keys(m) == [a, b];
    assert Query.Lookup(m[1..], b) == Some(y);
  }

  /** A value without NUL renders as one `key=value` part. */
  lemma RenderPlain(k: string, x: string)
    requires Query.NUL !in x
    ensures Query.RenderEntry(k, Query.Valued(x)) == [Percent.Encode(k) + "=" + Percent.Encode(x)]
  {
  }

  /** The parts of two keys, in the given order. */
  lemma TwoEntryParts(a: string, x: string, b: string, y: string)
    requires a != b && Query.NUL !in x && Query.NUL !in y
    ensures Query.RenderKeys([(a, Query.Valued(x)), (b, Query.Valued(y))], [a, b])
      == [Percent.Encode(a) + "=" + Percent.Encode(x), Percent.Encode(b) + "=" + Percent.Encode(y)]
  {
    var m := [(a, Query.Valued(x)), (b, Query.Valued(y))];
    TwoGets(a, Query.Valued(x), b, Query.Valued(y));
    RenderKeysTwo(m, a, b);
    RenderPlain(a, x);
    RenderPlain(b, y);
    UrlMerge.Two(Percent.Encode(a) + "=" + Percent.Encode(x), Percent.Encode(b) + "=" + Percent.Encode(y));
  }

  /** The parts of two keys: the first key's, then the second's. */
  lemma RenderKeysTwo(m: Query.Entries, a: string, b: string)
    requires a in Query.Keys(m) && b in Query.Keys(m)
    ensures Query.RenderKeys(m, [a, b]) == Query.RenderEntry(a, Query.Get(m, a)) + Query.RenderEntry(b, Query.Get(m, b))
  {
    var keys := [a, b];
    assert keys[..1] == [a] && keys[1] == b;
    RenderKeysOne(m, a);
  }

  lemma RenderKeysOne(m: Query.Entries, a: string)
    requires a in Query.Keys(m)
    ensures Query.RenderKeys(m, [a]) == Query.RenderEntry(a, Query.Get(m, a))
  {
    assert [a][..0] == [];
  }

  /** Two keys in order whose names and values need no escaping: `?a=x&b=y`. */
  lemma TwoRendered(a: string, x: string, b: string, y: string)
    requires Text.Below(a, b) && Query.NUL !in x && Query.NUL !in y
    requires Percent.Encode(a) == a && Percent.Encode(x) == x && Percent.Encode(b) == b && Percent.Encode(y) == y
    ensures Query.QueryTail([(a, Query.Valued(x)), (b, Query.Valued(y))]) == "?" + (a + "=" + x) + "&" + (b + "=" + y)
  {
    var m := [(a, Query.Valued(x)), (b, Query.Valued(y))];
    var parts := [a + "=" + x, b + "=" + y];
    assert Query.RenderQuery(m) == parts by {
      TwoSorted(a, x, b, y);
      Text.BelowIrreflexive(a);
      TwoEntryParts(a, x, b, y);
    }
    assert Text.Join(parts, "&") == (a + "=" + x) + "&" + (b + "=" + y) by {
      assert parts[1..] == [b + "=" + y];
    }
    Behind(a + "=" + x, b + "=" + y);
  }

  lemma Behind(p: string, q: string)
    ensures "?" + (p + "&" + q) == "?" + p + "&" + q
    ensures p + "&" + q != ""
  {
    assert (p + "&" + q)[|p|] == '&';
  }

  /** A three-letter lower-case word is left as it is by `encodeURIComponent`. */
  lemma Lowercase(x: char, y: char, z: char)
    requires 'a' <= x <= 'z' && 'a' <= y <= 'z' && 'a' <= z <= 'z'
    ensures Percent.Encode([x, y, z]) == [x, y, z]
  {
    var w := [x, y, z];
    assert forall i :: 0 <= i < |w| ==> w[i] == x || w[i] == y || w[i] == z;
    Percent.EncodeUnescaped(w);
  }

  lemma BizBeforeFoo()
    ensures Text.Below("biz", "foo")
  {
  }

  lemma BizFooQuery()
    ensures Fragments.Resolve(BizFoo).query ==
      [("biz", Fragments.One(Fragments.StrValue("buz"))), ("foo", Fragments.One(Fragments.StrValue("bar")))]
  {
  }

  /** Two keys given by the options, in order and needing no escaping, into an empty
      query: `?a=x&b=y`. */
  lemma TwoTail(a: string, x: string, b: string, y: string)
    requires Text.Below(a, b) && Query.NUL !in x && Query.NUL !in y
    requires Percent.Encode(a) == a && Percent.Encode(x) == x && Percent.Encode(b) == b && Percent.Encode(y) == y
    ensures Query.QueryTail(Query.Overlay([], [(a, Fragments.One(Fragments.StrValue(x))), (b, Fragments.One(Fragments.StrValue(y)))]))
      == "?" + (a + "=" + x) + "&" + (b + "=" + y)
  {
    Text.BelowIrreflexive(a);
    TwoEntries(a, x, b, y);
    TwoRendered(a, x, b, y);
  }

  lemma BizFooText()
    ensures "?" + ("biz" + "=" + "buz") + "&" + ("foo" + "=" + "bar") == "?biz=buz&foo=bar"
  {
  }

  lemma BizFooTail()
    ensures Query.QueryTail(Query.Overlay([], Fragments.Resolve(BizFoo).query)) == "?biz=buz&foo=bar"
  {
    BizFooQuery();
    BizBeforeFoo();
    Lowercase('b', 'i', 'z');
    Lowercase('b', 'u', 'z');
    Lowercase('f', 'o', 'o');
    Lowercase('b', 'a', 'r');
    TwoTail("biz", "buz", "foo", "bar");
    BizFooText();
  }

  /** A slash and one word: the word is the only segment. */
  lemma SlashWord(w: string)
    requires w != "" && '/' !in w
    ensures Parser.Segments(("/" + w)[0..]) == [w]
  {
    assert ("/" + w)[0..] == "/" + w;
    SegmentsSlash(w);
    SegmentsWord(w);
  }

  lemma GooglePlain()
    ensures UrlMerge.Plain("/google.com")
  {
  }

  lemma GoogleNoScheme()
    ensures Parser.SchemePrefixEnd("/google.com") == 0
  {
    assert Parser.WordRun("/google.com", 0) == 0;
  }

  lemma GoogleSegments()
    ensures Parser.Segments("/google.com"[0..]) == ["google.com"]
  {
    assert "/google.com" == "/" + "google.com";
    SlashWord("google.com");
  }

  lemma GoogleBuild()
    ensures Builder.PathPart("/google.com"[..0], ["google.com"], true, false) == "/google.com"
  {
    assert "/google.com"[..0] == "";
  }

  lemma GooglePath(user: Fragments.UserOptions)
    requires user.leadingSlash.None? && user.trailingSlash.None? && user.protocolRelative.None?
    ensures UrlMerge.PathOf([Fragments.StrArg("/google.com")], user) == "/google.com"
    ensures Parser.ParseParts(Fragments.NormalizeParts([Fragments.StrArg("/google.com")]), false).suffix == ""
  {
    Fragments.ResolveDefaults(user);
    Fragments.NormalizeSingle(Fragments.StrArg("/google.com"));
    assert Text.Join(["/google.com"], "/") == "/google.com";
    GooglePlain();
    GoogleNoScheme();
    GoogleSegments();
    GoogleBuild();
    PathOfCase([Fragments.StrArg("/google.com")], user, ["/google.com"], "/google.com", 0, ["google.com"], "/google.com");
  }

  lemma GoogleBizFooText()
    ensures "/google.com" + "?biz=buz&foo=bar" == "/google.com?biz=buz&foo=bar"
  {
  }

  /** `urlMerge("/google.com", { query: { biz: "buz", foo: "bar" } })` is
      `/google.com?biz=buz&foo=bar`. */
  lemma QueryFromOptions()
    ensures UrlMerge.Merged([Fragments.StrArg("/google.com")] + [Fragments.ObjectArg(BizFoo)])
      == Ok("/google.com?biz=buz&foo=bar")
  {
    GooglePath(BizFoo);
    Fragments.ResolveDefaults(BizFoo);
    BizFooTail();
    GoogleBizFooText();
    QueryCase([Fragments.StrArg("/google.com")], BizFoo, "/google.com", "?biz=buz&foo=bar", "/google.com?biz=buz&foo=bar");
  }

  /** `{ query: { foo: [1, 2, 3] } }` */
  const FooArray := Fragments.UserOptions(None, None, None,
    Some([("foo", Fragments.Many([Fragments.NumValue(1), Fragments.NumValue(2), Fragments.NumValue(3)]))]))

  /** One options key into an empty map: a map of that one key. */
  lemma OneOverlay(k: string, v: Fragments.QueryValue)
    ensures Query.Overlay([], [(k, v)]) == [(k, Query.StoredOf(v))]
  {
    var pairs := Query.OptionPairs([(k, v)]);
    assert pairs == [(k, Query.StoredOf(v))];
    assert Query.SetAll([], pairs[..0]) == [] by {
      assert pairs[..0] == [];
    }
    assert Query.Set([], k, Query.StoredOf(v)) == [(k, Query.StoredOf(v))];
  }

  /** A map of one key renders that key's parts alone. */
  lemma OneKeyQuery(k: string, v: Query.Stored)
    ensures Query.RenderQuery([(k, v)]) == Query.RenderEntry(k, v)
  {
    var m := [(k, v)];
    assert Query.Keys(m) == [k];
    assert Text.Sort([k]) == [k];
    RenderKeysOne(m, k);
  }

  /** An array of two or more numbers or booleans under a key that needs no escaping,
      alone in the query: the key repeated once per item. */
  lemma ArrayQuery(k: string, items: seq<Fragments.Scalar>)
    requires Percent.Encode(k) == k && |items| >= 2
    requires forall i :: 0 <= i < |items| ==> !items[i].StrValue?
    ensures Query.RenderQuery(Query.Overlay([], [(k, Fragments.Many(items))]))
      == Query.RenderValues(k, Query.ScalarStrings(items))
  {
    OneOverlay(k, Fragments.Many(items));
    OneKeyQuery(k, Query.StoredOf(Fragments.Many(items)));
    Query.RenderMany(k, items);
  }

  /** The numbers 1, 2 and 3 as `String` writes them, each left alone by
      `encodeURIComponent`. */
  lemma OneTwoThree()
    ensures Query.ScalarStrings([Fragments.NumValue(1), Fragments.NumValue(2), Fragments.NumValue(3)]) == ["1", "2", "3"]
    ensures Percent.Encode("1") == "1" && Percent.Encode("2") == "2" && Percent.Encode("3") == "3"
  {
    Percent.EncodeUnescaped("1");
    Percent.EncodeUnescaped("2");
    Percent.EncodeUnescaped("3");
  }

  /** `foo=1`, `foo=2`, `foo=3`, in that order. */
  lemma FooParts(r: seq<string>)
    requires r == Query.RenderValues("foo", ["1", "2", "3"])
    ensures r == ["foo=1", "foo=2", "foo=3"]
  {
    var v := ["1", "2", "3"];
    OneTwoThree();
    assert |r| == 3;
    assert r[0] == "foo=1" by {
      assert r[0] == "foo" + "=" + Percent.Encode(v[0]);
    }
    assert r[1] == "foo=2" by {
      assert r[1] == "foo" + "=" + Percent.Encode(v[1]);
    }
    assert r[2] == "foo=3" by {
      assert r[2] == "foo" + "=" + Percent.Encode(v[2]);
    }
  }

  lemma FooArrayTail(items: seq<Fragments.Scalar>)
    requires items == [Fragments.NumValue(1), Fragments.NumValue(2), Fragments.NumValue(3)]
    ensures Query.QueryTail(Query.Overlay([], [("foo", Fragments.Many(items))])) == "?" + ("foo=1" + "&" + "foo=2" + "&" + "foo=3")
  {
    var m := Query.Overlay([], [("foo", Fragments.Many(items))]);
    assert Query.RenderQuery(m) == Query.RenderValues("foo", ["1", "2", "3"]) by {
      Lowercase('f', 'o', 'o');
      assert forall i :: 0 <= i < |items| ==> !items[i].StrValue?;
      ArrayQuery("foo", items);
      OneTwoThree();
    }
    FooParts(Query.RenderValues("foo", ["1", "2", "3"]));
    ThreeParts(m, "foo=1", "foo=2", "foo=3");
  }

  /** A map rendering to three non-empty parts: `?x&y&z`. */
  lemma ThreeParts(m: Query.Entries, x: string, y: string, z: string)
    requires Query.RenderQuery(m) == [x, y, z] && x != ""
    ensures Query.QueryTail(m) == "?" + (x + "&" + y + "&" + z)
  {
    var text := x + "&" + y + "&" + z;
    assert Text.Join([x, y, z], "&") == text by {
      JoinThree(x, y, z, "&");
    }
    TailOf(m, [x, y, z], text);
  }

  lemma JoinThree(x: string, y: string, z: string, sep: string)
    ensures Text.Join([x, y, z], sep) == x + sep + y + sep + z
  {
    assert [x, y, z][1..] == [y, z];
    assert [y, z][1..] == [z];
    assert Text.Join([y, z], sep) == y + sep + z;
    assert x + sep + (y + sep + z) == x + sep + y + sep + z;
  }

  /** The query tail of a map whose parts join to a non-empty text: `?` and that text. */
  lemma TailOf(m: Query.Entries, parts: seq<string>, text: string)
    requires Query.RenderQuery(m) == parts && Text.Join(parts, "&") == text && text != ""
    ensures Query.QueryTail(m) == "?" + text
  {
  }

  lemma FooArrayText()
    ensures "?" + ("foo=1" + "&" + "foo=2" + "&" + "foo=3") == "?foo=1&foo=2&foo=3"
    ensures "/google.com" + "?foo=1&foo=2&foo=3" == "/google.com?foo=1&foo=2&foo=3"
  {
  }

  /** `urlMerge("/google.com", { query: { foo: [1, 2, 3] } })` is
      `/google.com?foo=1&foo=2&foo=3`. */
  lemma ArrayFromOptions()
    ensures UrlMerge.Merged([Fragments.StrArg("/google.com")] + [Fragments.ObjectArg(FooArray)])
      == Ok("/google.com?foo=1&foo=2&foo=3")
  {
    GooglePath(FooArray);
    Fragments.ResolveDefaults(FooArray);
    FooArrayTail([Fragments.NumValue(1), Fragments.NumValue(2), Fragments.NumValue(3)]);
    FooArrayText();
    QueryCase([Fragments.StrArg("/google.com")], FooArray, "/google.com", "?foo=1&foo=2&foo=3", "/google.com?foo=1&foo=2&foo=3");
  }

  /** A call whose fragments carry a query: the path, then the query made of the existing
      pieces with the `query` option laid over them. */
  lemma MergedCase(args: seq<Fragments.Arg>, user: Fragments.UserOptions, suffix: string, path: string,
                   existing: Query.Entries, tail: string, expected: string)
    requires Parser.ParseParts(Fragments.NormalizeParts(args), Fragments.Resolve(user).protocolRelative).suffix == suffix
    requires UrlMerge.PathOf(args, user) == path
    requires Query.ExistingQuery(suffix) == Ok(existing)
    requires Query.QueryTail(Query.Overlay(existing, Fragments.Resolve(user).query)) == tail
    requires path + tail == expected
    ensures UrlMerge.Merged(args + [Fragments.ObjectArg(user)]) == Ok(expected)
  {
    Fragments.OptionsLast(args, user);
  }

  /** A call whose fragments carry a query of one `key=value` piece that needs no
      decoding. */
  lemma OnePieceCase(args: seq<Fragments.Arg>, user: Fragments.UserOptions, k: string, v: string, suffix: string,
                     path: string, tail: string, expected: string)
    requires Parser.ParseParts(Fragments.NormalizeParts(args), Fragments.Resolve(user).protocolRelative).suffix == suffix
    requires UrlMerge.PathOf(args, user) == path
    requires '%' !in k && '%' !in v && '=' !in k && '&' !in k && '&' !in v
    requires suffix == "?" + (k + "=" + v)
    requires Query.QueryTail(Query.Overlay([(k, Query.Valued(v))], Fragments.Resolve(user).query)) == tail
    requires path + tail == expected
    ensures UrlMerge.Merged(args + [Fragments.ObjectArg(user)]) == Ok(expected)
  {
    OnePieceQuery(k, v, suffix);
    MergedCase(args, user, suffix, path, [(k, Query.Valued(v))], tail, expected);
  }

  /** `{ leadingSlash: false, trailingSlash: false, protocolRelative: false, query: { biz:
      "buz", foo: "bar" } }`: the test's options after the changes it makes one by one. */
  const BizFooBare := Fragments.UserOptions(Some(Fragments.Never), Some(Fragments.Never), Some(false), BizFoo.query)

  /** `"google.com", "qux?tux=baz"` */
  const QuxArgs := [Fragments.StrArg("google.com"), Fragments.StrArg("qux?tux=baz")]

  /** A string without a `:` cannot start with a scheme. */
  lemma NoColonNoScheme(s: string)
    requires ':' !in s
    ensures Parser.SchemePrefixEnd(s) == 0
  {
  }

  /** The default pattern on a pathname `p` without `?`, then `?q`, when no scheme starts it:
      no prefix, the pathname `p`, the suffix `?q`. */
  lemma MatchPathQuery(p: string, q: string)
    requires UrlMerge.Plain(p) && q != "" && Parser.NoLineTerminator(q)
    requires Parser.SchemePrefixEnd(p + ("?" + q)) == 0
    ensures Parser.Match(p + ("?" + q), false) == Some(Parser.Groups("", p, "?" + q))
  {
    var s := p + ("?" + q);
    assert forall j :: 0 <= j < |p| ==> s[j] == p[j];
    assert forall j :: |p| < j < |s| ==> s[j] == q[j - |p| - 1];
    Parser.MatchAtQuery(s, |p|);
    assert s[..0] == "" && s[0..|p|] == p && s[|p|..] == "?" + q;
  }

  lemma QuxJoin()
    ensures Fragments.NormalizeParts(QuxArgs) == ["google.com", "qux?tux=baz"]
    ensures Text.Join(["google.com", "qux?tux=baz"], "/") == "google.com/qux" + ("?" + "tux=baz")
  {
    NormalizePair(Fragments.StrArg("google.com"), Fragments.StrArg("qux?tux=baz"));
    Fragments.NormalizeSingle(Fragments.StrArg("google.com"));
    Fragments.NormalizeSingle(Fragments.StrArg("qux?tux=baz"));
    Parser.JoinPair("google.com", "qux?tux=baz");
  }

  lemma QuxMatch()
    ensures Parser.Match("google.com/qux" + ("?" + "tux=baz"), false) == Some(Parser.Groups("", "google.com/qux", "?tux=baz"))
  {
    QuxShape();
    MatchPathQuery("google.com/qux", "tux=baz");
    QuxSuffix();
  }

  lemma QuxShape()
    ensures UrlMerge.Plain("google.com/qux") && Parser.NoLineTerminator("tux=baz")
    ensures Parser.SchemePrefixEnd("google.com/qux" + ("?" + "tux=baz")) == 0
  {
    NoColonNoScheme("google.com/qux" + ("?" + "tux=baz"));
  }

  lemma QuxSuffix()
    ensures "?" + "tux=baz" == "?tux=baz"
  {
  }

  lemma QuxSegments()
    ensures Parser.Segments("google.com/qux") == ["google.com", "qux"]
  {
    assert "google.com/qux" == "google.com" + "/" + "qux";
    SegmentsTwoWords("google.com", "qux");
  }

  lemma QuxBuild()
    ensures Builder.PathPart("", ["google.com", "qux"], false, false) == "google.com/qux"
  {
    Parser.JoinPair("google.com", "qux");
  }

  /** The fragments of the test parse to the path `google.com/qux` and the suffix
      `?tux=baz`. */
  lemma QuxPath(user: Fragments.UserOptions)
    requires user.leadingSlash == Some(Fragments.Never) && user.trailingSlash == Some(Fragments.Never)
    requires user.protocolRelative == Some(false)
    ensures UrlMerge.PathOf(QuxArgs, user) == "google.com/qux"
    ensures Parser.ParseParts(Fragments.NormalizeParts(QuxArgs), false).suffix == "?tux=baz"
  {
    var parts := ["google.com", "qux?tux=baz"];
    QuxJoin();
    QuxMatch();
    Parser.ParsePartsOf(parts, false, Parser.Groups("", "google.com/qux", "?tux=baz"));
    QuxSegments();
    QuxBuild();
  }

  /** A query suffix of one `key=value` piece that needs no decoding: a map of that one
      key. */
  lemma OnePieceQuery(k: string, v: string, suffix: string)
    requires '%' !in k && '%' !in v && '=' !in k && '&' !in k && '&' !in v
    requires suffix == "?" + (k + "=" + v)
    ensures Query.ExistingQuery(suffix) == Ok([(k, Query.Valued(v))])
  {
    var piece := k + "=" + v;
    assert Query.StripQuestion("?" + piece) == piece;
    assert piece[..|k|] == k && piece[|k| + 1..] == v;
    Text.SplitNoSeparator(piece, '&');
    Query.ParsePieceAtEquals(piece, |k|);
    assert Query.ParsePiece(piece) == Ok((k, Query.Valued(v)));
    assert Query.ParsePieces([piece]) == Ok([(k, Query.Valued(v))]) by {
      assert [piece][..0] == [];
      assert Query.ParsePieces([]) == Ok([]);
      assert [] + [(k, Query.Valued(v))] == [(k, Query.Valued(v))];
    }
    var pairs := [(k, Query.Valued(v))];
    assert Query.SetAll([], pairs) == pairs by {
      assert pairs[..0] == [];
    }
  }

  /** Two new keys set after one present key, in order. */
  lemma SetTwoAfter(t: string, z: Query.Stored, a: string, x: Query.Stored, b: string, y: Query.Stored)
    requires t != a && t != b && a != b
    ensures Query.SetAll([(t, z)], [(a, x), (b, y)]) == [(t, z), (a, x), (b, y)]
  {
    var pairs := [(a, x), (b, y)];
    assert pairs[..1] == [(a, x)];
    assert pairs[..1][..0] == [];
    assert [(t, z)][1..] == [];
    assert Query.Set([(t, z)], a, x) == [(t, z)] + Query.Set([], a, x);
    assert Query.SetAll([(t, z)], pairs[..1]) == [(t, z), (a, x)];
    assert [(t, z), (a, x)][1..] == [(a, x)];
    assert Query.Set([(a, x)], b, y) == [(a, x)] + Query.Set([], b, y);
    assert Query.Set([(t, z), (a, x)], b, y) == [(t, z)] + Query.Set([(a, x)], b, y);
  }

  /** Two keys given by the options, laid over a query holding a third key. */
  lemma TwoOverOne(t: string, z: string, a: string, x: string, b: string, y: string)
    requires t != a && t != b && a != b
    ensures Query.Overlay([(t, Query.Valued(z))], [(a, Fragments.One(Fragments.StrValue(x))), (b, Fragments.One(Fragments.StrValue(y)))])
      == [(t, Query.Valued(z)), (a, Query.Valued(x)), (b, Query.Valued(y))]
  {
    var pairs := Query.OptionPairs([(a, Fragments.One(Fragments.StrValue(x))), (b, Fragments.One(Fragments.StrValue(y)))]);
    assert pairs == [(a, Query.Valued(x)), (b, Query.Valued(y))];
    SetTwoAfter(t, Query.Valued(z), a, Query.Valued(x), b, Query.Valued(y));
  }

  /** A key that sorts after two keys already in order goes last. */
  lemma ThreeSorted(t: string, a: string, b: string)
    requires Text.Below(a, b) && Text.Below(b, t)
    ensures Text.Sort([t, a, b]) == [a, b, t]
  {
    assert [t, a, b][1..] == [a, b];
    SortTwo(a, b);
    InsertLast(t, a, b);
  }

  lemma SortTwo(a: string, b: string)
    requires Text.Below(a, b)
    ensures Text.Sort([a, b]) == [a, b]
  {
    Text.BelowAsymmetric(a, b);
    assert [a, b][1..] == [b];
    assert [b][1..] == [];
    assert Text.Sort([b]) == [b];
  }

  lemma InsertLast(t: string, a: string, b: string)
    requires Text.Below(a, b) && Text.Below(b, t)
    ensures Text.Insert(t, [a, b]) == [a, b, t]
  {
    Text.BelowTransitive(a, b, t);
    assert [a, b][1..] == [b];
    assert [b][1..] == [];
    assert Text.Insert(t, [b]) == [b, t];
  }

  /** The keys of the three-key map, and where each one's value is. */
  lemma ThreeGets(t: string, z: Query.Stored, a: string, x: Query.Stored, b: string, y: Query.Stored)
    requires t != a && t != b && a != b
    ensures Query.Keys([(t, z), (a, x), (b, y)]) == [t, a, b]
    ensures Query.Get([(t, z), (a, x), (b, y)], a) == x && Query.Get([(t, z), (a, x), (b, y)], b) == y
    ensures Query.Get([(t, z), (a, x), (b, y)], t) == z
  {
    var m := [(t, z), (a, x), (b, y)];
    assert m[1..] == [(a, x), (b, y)];
    TwoGets(a, x, b, y);
  }

  /** The parts of three keys, in the given order. */
  lemma RenderKeysThree(m: Query.Entries, a: string, b: string, t: string)
    requires a in Query.Keys(m) && b in Query.Keys(m) && t in Query.Keys(m)
    ensures Query.RenderKeys(m, [a, b, t])
      == Query.RenderEntry(a, Query.Get(m, a)) + Query.RenderEntry(b, Query.Get(m, b)) + Query.RenderEntry(t, Query.Get(m, t))
  {
    assert [a, b, t][..2] == [a, b];
    RenderKeysTwo(m, a, b);
  }

  /** A third key that sorts last, after two keys given by the options: `?a=x&b=y&t=z`
      when nothing needs escaping. */
  lemma ThreeTail(m: Query.Entries, t: string, z: string, a: string, x: string, b: string, y: string)
    requires m == [(t, Query.Valued(z)), (a, Query.Valued(x)), (b, Query.Valued(y))]
    requires Text.Below(a, b) && Text.Below(b, t)
    requires Query.NUL !in x && Query.NUL !in y && Query.NUL !in z
    requires Percent.Encode(a) == a && Percent.Encode(x) == x && Percent.Encode(b) == b
    requires Percent.Encode(y) == y && Percent.Encode(t) == t && Percent.Encode(z) == z
    ensures Query.QueryTail(m) == "?" + ((a + "=" + x) + "&" + (b + "=" + y) + "&" + (t + "=" + z))
  {
    ThreeEntriesTail(t, z, a, x, b, y);
  }

  lemma ThreeEntriesTail(t: string, z: string, a: string, x: string, b: string, y: string)
    requires Text.Below(a, b) && Text.Below(b, t)
    requires Query.NUL !in x && Query.NUL !in y && Query.NUL !in z
    requires Percent.Encode(a) == a && Percent.Encode(x) == x && Percent.Encode(b) == b
    requires Percent.Encode(y) == y && Percent.Encode(t) == t && Percent.Encode(z) == z
    ensures Query.QueryTail([(t, Query.Valued(z)), (a, Query.Valued(x)), (b, Query.Valued(y))])
      == "?" + ((a + "=" + x) + "&" + (b + "=" + y) + "&" + (t + "=" + z))
  {
    var m := [(t, Query.Valued(z)), (a, Query.Valued(x)), (b, Query.Valued(y))];
    assert Query.RenderQuery(m) == [a + "=" + x, b + "=" + y, t + "=" + z] by {
      ThreeRendered(t, z, a, x, b, y);
    }
    PartNotEmpty(a, x);
    ThreeParts(m, a + "=" + x, b + "=" + y, t + "=" + z);
  }

  lemma PartNotEmpty(k: string, v: string)
    ensures k + "=" + v != ""
  {
    assert |k + "=" + v| == |k| + 1 + |v|;
  }

  lemma ThreeRendered(t: string, z: string, a: string, x: string, b: string, y: string)
    requires Text.Below(a, b) && Text.Below(b, t)
    requires Query.NUL !in x && Query.NUL !in y && Query.NUL !in z
    requires Percent.Encode(a) == a && Percent.Encode(x) == x && Percent.Encode(b) == b
    requires Percent.Encode(y) == y && Percent.Encode(t) == t && Percent.Encode(z) == z
    ensures Query.RenderQuery([(t, Query.Valued(z)), (a, Query.Valued(x)), (b, Query.Valued(y))])
      == [a + "=" + x, b + "=" + y, t + "=" + z]
  {
    var m := [(t, Query.Valued(z)), (a, Query.Valued(x)), (b, Query.Valued(y))];
    assert t != a && t != b && a != b by {
      Text.BelowIrreflexive(a);
      Text.BelowIrreflexive(b);
      Text.BelowTransitive(a, b, t);
    }
    ThreeGets(t, Query.Valued(z), a, Query.Valued(x), b, Query.Valued(y));
    assert Query.SortedKeys(m) == [a, b, t] by {
      ThreeSorted(t, a, b);
    }
    RenderKeysThree(m, a, b, t);
    RenderPlain(a, x);
    RenderPlain(b, y);
    RenderPlain(t, z);
    ThreeConcat(a + "=" + x, b + "=" + y, t + "=" + z);
  }

  lemma ThreeConcat(x: string, y: string, z: string)
    ensures [x] + [y] + [z] == [x, y, z]
  {
  }

  lemma QuxTail()
    ensures Query.QueryTail(Query.Overlay([("tux", Query.Valued("baz"))], Fragments.Resolve(BizFooBare).query))
      == "?" + (("biz" + "=" + "buz") + "&" + ("foo" + "=" + "bar") + "&" + ("tux" + "=" + "baz"))
  {
    QuxOverlay();
    QuxTailOf(Query.Overlay([("tux", Query.Valued("baz"))], Fragments.Resolve(BizFooBare).query));
  }

  lemma QuxTailOf(m: Query.Entries)
    requires m == [("tux", Query.Valued("baz")), ("biz", Query.Valued("buz")), ("foo", Query.Valued("bar"))]
    ensures Query.QueryTail(m) == "?" + (("biz" + "=" + "buz") + "&" + ("foo" + "=" + "bar") + "&" + ("tux" + "=" + "baz"))
  {
    QuxWords();
    ThreeTail(m, "tux", "baz", "biz", "buz", "foo", "bar");
  }

  lemma QuxOverlay()
    ensures Query.Overlay([("tux", Query.Valued("baz"))], Fragments.Resolve(BizFooBare).query)
      == [("tux", Query.Valued("baz")), ("biz", Query.Valued("buz")), ("foo", Query.Valued("bar"))]
  {
    BizFooQuery();
    assert Fragments.Resolve(BizFooBare).query == Fragments.Resolve(BizFoo).query;
    TwoOverOne("tux", "baz", "biz", "buz", "foo", "bar");
  }

  /** None of the test's names or values needs escaping or holds a NUL, and the keys sort
      as `biz`, `foo`, `tux`. */
  lemma QuxWords()
    ensures Percent.Encode("biz") == "biz" && Percent.Encode("buz") == "buz"
    ensures Percent.Encode("foo") == "foo" && Percent.Encode("bar") == "bar"
    ensures Percent.Encode("tux") == "tux" && Percent.Encode("baz") == "baz"
    ensures Text.Below("biz", "foo") && Text.Below("foo", "tux")
    ensures Query.NUL !in "buz" && Query.NUL !in "bar" && Query.NUL !in "baz"
  {
    Lowercase('b', 'i', 'z');
    Lowercase('b', 'u', 'z');
    Lowercase('f', 'o', 'o');
    Lowercase('b', 'a', 'r');
    Lowercase('t', 'u', 'x');
    Lowercase('b', 'a', 'z');
    BizBeforeFoo();
    FooBeforeTux();
  }

  lemma FooBeforeTux()
    ensures Text.Below("foo", "tux")
  {
  }

  lemma TuxBaz()
    ensures '%' !in "tux" && '%' !in "baz" && '=' !in "tux" && '&' !in "tux" && '&' !in "baz"
    ensures "?tux=baz" == "?" + ("tux" + "=" + "baz")
  {
  }

  lemma QuxText()
    ensures "google.com/qux" + ("?" + (("biz" + "=" + "buz") + "&" + ("foo" + "=" + "bar") + "&" + ("tux" + "=" + "baz")))
      == "google.com/qux?biz=buz&foo=bar&tux=baz"
  {
  }

  /** `urlMerge("google.com", "qux?tux=baz", { leadingSlash: false, trailingSlash: false,
      protocolRelative: false, query: { biz: "buz", foo: "bar" } })` is
      `google.com/qux?biz=buz&foo=bar&tux=baz`: the existing key and the options' keys are
      merged and sorted together. */
  lemma ExistingQueryWithOptions()
    ensures UrlMerge.Merged(QuxArgs + [Fragments.ObjectArg(BizFooBare)]) == Ok("google.com/qux?biz=buz&foo=bar&tux=baz")
  {
    QuxPath(BizFooBare);
    QuxText();
    TuxBaz();
    QuxTail();
    OnePieceCase(QuxArgs, BizFooBare, "tux", "baz", "?tux=baz", "google.com/qux",
      "?" + (("biz" + "=" + "buz") + "&" + ("foo" + "=" + "bar") + "&" + ("tux" + "=" + "baz")),
      "google.com/qux?biz=buz&foo=bar&tux=baz");
  }
}
