/** `urlMerge(...parts)`: options detection and defaults, then `normalizeParts`,
    `parseParts` and `buildUrl`; and what holds of the whole pipeline. */
module UrlMerge {
  import opened Outcomes
  import Text
  import Fragments
  import Parser
  import Query
  import Builder

  /** The result of `urlMerge(...args)`; `UriError` where it throws. */
  function Merged(args: seq<Fragments.Arg>): Result<string> {
    var split := Fragments.SplitArgs(args);
    var options := Fragments.Resolve(split.0);
    var parsedParts := Parser.ParseParts(Fragments.NormalizeParts(split.1), options.protocolRelative);
    Builder.BuildSpec(parsedParts, options)
  }

  /** `urlMerge(...parts)`. */
  method UrlMerge(args: seq<Fragments.Arg>) returns (r: Result<string>)
    ensures r == Merged(args)
  {
    var split := Fragments.SplitArgs(args);
    var options := Fragments.Resolve(split.0);
    var normalizedParts := Fragments.NormalizeParts(split.1);
    var parsedParts := Parser.ParseParts(normalizedParts, options.protocolRelative);
    r := Builder.BuildUrl(parsedParts, options);
  }

  /** An empty options object `{}` at the end changes nothing: the defaults are the same
      as with no options at all. */
  lemma EmptyOptionsObject(args: seq<Fragments.Arg>)
    requires |args| == 0 || !args[|args| - 1].ObjectArg?
    ensures Merged(args + [Fragments.ObjectArg(Fragments.NoOptions)]) == Merged(args)
  {
    Fragments.OptionsLast(args, Fragments.NoOptions);
    Fragments.NoOptionsLast(args);
  }

  /** Neither a `?` nor a line terminator: a character that only ever lands in the path. */
  predicate PlainChar(c: char) {
    c != '?' && !Parser.IsLineTerminator(c)
  }

  predicate Plain(s: string) {
    forall j :: 0 <= j < |s| ==> PlainChar(s[j])
  }

  lemma {:induction false} PlainJoin(parts: seq<string>)
    requires forall i :: 0 <= i < |parts| ==> Plain(parts[i])
    ensures Plain(Text.Join(parts, "/"))
    decreases |parts|
  {
    if |parts| > 1 {
      PlainJoin(parts[1..]);
    }
  }

  lemma {:induction false} PlainSplit(s: string, c: char)
    requires Plain(s)
    ensures forall i :: 0 <= i < |Text.Split(s, c)| ==> Plain(Text.Split(s, c)[i])
    decreases |s|
  {
    if |s| > 0 {
      PlainSplit(s[1..], c);
      var rest := Text.Split(s[1..], c);
      if s[0] != c {
        assert Plain([s[0]] + rest[0]);
      }
    }
  }

  lemma PlainInt(n: Text.SafeInteger)
    ensures Plain(Text.IntToString(n))
  {
    var d := Text.NatToString(if n < 0 then -n else n);
    assert forall j :: 0 <= j < |d| ==> Text.IsDigit(d[j]);
  }

  /** Plain arguments normalise to plain fragments. */
  lemma PlainNormalize(args: seq<Fragments.Arg>)
    requires forall i :: 0 <= i < |args| && args[i].StrArg? ==> Plain(args[i].s)
    ensures forall k :: 0 <= k < |Fragments.NormalizeParts(args)| ==> Plain(Fragments.NormalizeParts(args)[k])
  {
    forall k | 0 <= k < |Fragments.NormalizeParts(args)|
      ensures Plain(Fragments.NormalizeParts(args)[k])
    {
      Fragments.NormalizeFrom(args, k);
      var i :| 0 <= i < |args| && Fragments.Stringified(args[i]) == Some(Fragments.NormalizeParts(args)[k]);
      if args[i].NumArg? {
        PlainInt(args[i].n);
      }
    }
  }

  /** The URL before its query is plain when the prefix and the segments are. */
  lemma PlainPath(prefix: string, segments: seq<string>, addLeading: bool, addTrailing: bool)
    requires Plain(prefix)
    requires forall i :: 0 <= i < |segments| ==> Plain(segments[i])
    ensures Plain(Builder.PathPart(prefix, segments, addLeading, addTrailing))
  {
    PlainJoin(segments);
  }

  /** The lazy pathname group runs to the end of a string with no `?` left in it. */
  lemma QueryStartPlain(s: string, i: nat)
    requires i <= |s| && Plain(s)
    ensures Parser.QueryStart(s, i) == |s|
  {
  }

  /** A plain string always matches: with no `?` it has no query suffix, and with no line
      terminator only a missing `//host` in protocol-relative mode can make it fail. */
  lemma MatchPlain(s: string, protocolRelative: bool)
    requires Plain(s)
    ensures !protocolRelative ==> Parser.Match(s, false) == Some(Parser.Groups(
      s[..Parser.SchemePrefixEnd(s)], s[Parser.SchemePrefixEnd(s)..], ""))
    ensures protocolRelative && Parser.SlashPrefixEnd(s).Some? ==> Parser.Match(s, true) == Some(Parser.Groups(
      s[..Parser.SlashPrefixEnd(s).value], s[Parser.SlashPrefixEnd(s).value..], ""))
    ensures protocolRelative && Parser.SlashPrefixEnd(s).None? ==> Parser.Match(s, true).None?
  {
    var e := if protocolRelative then Parser.SlashPrefixEnd(s) else Some(Parser.SchemePrefixEnd(s));
    if e.Some? {
      QueryStartPlain(s, e.value);
      assert s[e.value..|s|] == s[e.value..];
      assert s[|s|..] == "";
    }
  }

  /** The scheme prefix is found again in a URL that keeps it and puts `/` (or nothing)
      right after it. */
  lemma SchemePrefixAgain(s: string, u: string)
    requires Parser.SchemePrefixEnd(s) > 0
    requires |u| >= Parser.SchemePrefixEnd(s) && u[..Parser.SchemePrefixEnd(s)] == s[..Parser.SchemePrefixEnd(s)]
    requires |u| == Parser.SchemePrefixEnd(s) || u[Parser.SchemePrefixEnd(s)] == '/'
    ensures Parser.SchemePrefixEnd(u) == Parser.SchemePrefixEnd(s)
  {
    var e := Parser.SchemePrefixEnd(s);
    var k := Parser.WordRun(s, 0);
    assert forall j :: 0 <= j < e ==> u[j] == s[j] by {
      forall j | 0 <= j < e
        ensures u[j] == s[j]
      {
        assert u[..e][j] == s[..e][j];
      }
    }
    assert Parser.SchemeAuthority(u, k, e);
  }

  /** Without a prefix, a path with no doubled slash never looks like `scheme://host`. */
  lemma NoSchemePrefix(u: string)
    requires Text.NoDoubled(u, '/')
    ensures Parser.SchemePrefixEnd(u) == 0
  {
  }

  /** Likewise for the `//host` prefix of protocol-relative mode. */
  lemma SlashPrefixAgain(s: string, u: string)
    requires Parser.SlashPrefixEnd(s).Some?
    requires |u| >= Parser.SlashPrefixEnd(s).value
    requires u[..Parser.SlashPrefixEnd(s).value] == s[..Parser.SlashPrefixEnd(s).value]
    requires |u| == Parser.SlashPrefixEnd(s).value || u[Parser.SlashPrefixEnd(s).value] == '/'
    ensures Parser.SlashPrefixEnd(u) == Parser.SlashPrefixEnd(s)
  {
    var e := Parser.SlashPrefixEnd(s).value;
    assert forall j :: 0 <= j < e ==> u[j] == s[j] by {
      forall j | 0 <= j < e
        ensures u[j] == s[j]
      {
        assert u[..e][j] == s[..e][j];
      }
    }
    assert Parser.SlashAuthority(u, e);
  }

  /** The single fragment a rebuilt URL becomes when merged again: itself, or nothing when
      it is empty; joined, it is the URL again. */
  lemma RejoinSingle(u: string)
    ensures Text.Join(Fragments.NormalizeParts([Fragments.StrArg(u)]), "/") == u
  {
    Fragments.NormalizeSingle(Fragments.StrArg(u));
  }

  /** Where the prefix group ends in each mode; `None` where the mandatory `//host` group
      of protocol-relative mode is missing. */
  function PrefixEnd(s: string, protocolRelative: bool): Option<nat> {
    if protocolRelative then Parser.SlashPrefixEnd(s) else Some(Parser.SchemePrefixEnd(s))
  }

  /** `parseParts` on plain fragments: no query, and the path is everything after the
      prefix. */
  lemma ParsePlain(parts: seq<string>, protocolRelative: bool)
    requires Plain(Text.Join(parts, "/"))
    ensures var s := Text.Join(parts, "/");
      var p := Parser.ParseParts(parts, protocolRelative);
      var e := PrefixEnd(s, protocolRelative);
      p.suffix == "" &&
      (e.None? ==> p.prefix == "" && p.segments == []) &&
      (e.Some? ==> e.value <= |s| && p.prefix == s[..e.value] && p.segments == Parser.Segments(s[e.value..]))
  {
    MatchPlain(Text.Join(parts, "/"), protocolRelative);
  }

  /** The rebuilt URL keeps the prefix and puts `/` or nothing right after it. */
  lemma SlashAfterPrefix(prefix: string, segments: seq<string>, addLeading: bool, addTrailing: bool)
    requires Builder.SegmentShaped(segments) && prefix != ""
    ensures var u := Builder.PathPart(prefix, segments, addLeading, addTrailing);
      |u| == |prefix| || u[|prefix|] == '/'
  {
    Builder.LeadingSlash(prefix, segments, addLeading, addTrailing);
  }

  /** Parsing a plain URL again as a single fragment, when its prefix is known. */
  lemma Reparse(u: string, protocolRelative: bool, e: nat)
    requires Plain(u)
    requires PrefixEnd(u, protocolRelative) == Some(e)
    ensures var p := Parser.ParseParts(Fragments.NormalizeParts([Fragments.StrArg(u)]), protocolRelative);
      e <= |u| && p.prefix == u[..e] && p.segments == Parser.Segments(u[e..]) && p.suffix == ""
  {
    RejoinSingle(u);
    ParsePlain(Fragments.NormalizeParts([Fragments.StrArg(u)]), protocolRelative);
  }

  /** The URLs `""` and `"/"` parse to nothing at all in either mode. */
  lemma ReparseBare(u: string, protocolRelative: bool)
    requires u == "" || u == "/"
    ensures var p := Parser.ParseParts(Fragments.NormalizeParts([Fragments.StrArg(u)]), protocolRelative);
      p.prefix == "" && p.segments == [] && p.suffix == ""
  {
    var parts := Fragments.NormalizeParts([Fragments.StrArg(u)]);
    assert Text.Join(parts, "/") == u by {
      RejoinSingle(u);
    }
    assert PrefixEnd(u, protocolRelative).None? || PrefixEnd(u, protocolRelative) == Some(0);
    ParsePlain(parts, protocolRelative);
    assert u[0..] == u && u[..0] == "";
    Parser.NoSegments(u);
  }

  /** Parsing the URL rebuilt from plain fragments finds the same prefix and the same
      segments again, and still no query. */
  lemma ParseRebuilt(parts: seq<string>, protocolRelative: bool, addLeading: bool, addTrailing: bool)
    requires forall i :: 0 <= i < |parts| ==> Plain(parts[i])
    ensures var p := Parser.ParseParts(parts, protocolRelative);
      var u := Builder.PathPart(p.prefix, p.segments, addLeading, addTrailing);
      var p2 := Parser.ParseParts(Fragments.NormalizeParts([Fragments.StrArg(u)]), protocolRelative);
      p.suffix == "" && p2.prefix == p.prefix && p2.segments == p.segments && p2.suffix == ""
  {
    var s := Text.Join(parts, "/");
    PlainJoin(parts);
    ParsePlain(parts, protocolRelative);
    var p := Parser.ParseParts(parts, protocolRelative);
    var e := PrefixEnd(s, protocolRelative);
    if e.None? {
      Builder.EmptyPath(addLeading, addTrailing);
      ReparseBare(Builder.PathPart(p.prefix, p.segments, addLeading, addTrailing), protocolRelative);
    } else {
      RebuiltAfterPrefix(s, protocolRelative, e.value, p.prefix, p.segments, addLeading, addTrailing);
    }
  }

  /** The case of `ParseRebuilt` where the prefix group matched (possibly empty). */
  lemma RebuiltAfterPrefix(s: string, protocolRelative: bool, e: nat, prefix: string, segments: seq<string>,
                           addLeading: bool, addTrailing: bool)
    requires Plain(s) && PrefixEnd(s, protocolRelative) == Some(e) && e <= |s|
    requires prefix == s[..e] && segments == Parser.Segments(s[e..])
    ensures var u := Builder.PathPart(prefix, segments, addLeading, addTrailing);
      var p2 := Parser.ParseParts(Fragments.NormalizeParts([Fragments.StrArg(u)]), protocolRelative);
      p2.prefix == prefix && p2.segments == segments && p2.suffix == ""
  {
    var u := Builder.PathPart(prefix, segments, addLeading, addTrailing);
    PlainSplit(s[e..], '/');
    assert forall i :: 0 <= i < |segments| ==> Plain(segments[i]);
    PlainPath(prefix, segments, addLeading, addTrailing);
    Builder.PathSegments(prefix, segments, addLeading, addTrailing);
    if e > 0 {
      SlashAfterPrefix(prefix, segments, addLeading, addTrailing);
      if protocolRelative {
        SlashPrefixAgain(s, u);
      } else {
        SchemePrefixAgain(s, u);
      }
    } else {
      assert u[0..] == u;
      NoSchemePrefix(u);
    }
    Reparse(u, protocolRelative, e);
  }

  /** The URL before its query that `urlMerge(...args, user)` builds. */
  function PathOf(args: seq<Fragments.Arg>, user: Fragments.UserOptions): string {
    var o := Fragments.Resolve(user);
    var p := Parser.ParseParts(Fragments.NormalizeParts(args), o.protocolRelative);
    Builder.PathPart(p.prefix, p.segments,
      Builder.AddSlash(o.leadingSlash, p.hasLeading), Builder.AddSlash(o.trailingSlash, p.hasTrailing))
  }

  /** With no `query` option and no query in the fragments, the result is the path alone. */
  lemma MergedPath(args: seq<Fragments.Arg>, user: Fragments.UserOptions)
    requires user.query.None? || user.query == Some([])
    requires Parser.ParseParts(Fragments.NormalizeParts(args), Fragments.Resolve(user).protocolRelative).suffix == ""
    ensures Merged(args + [Fragments.ObjectArg(user)]) == Ok(PathOf(args, user))
  {
    Fragments.OptionsLast(args, user);
    var o := Fragments.Resolve(user);
    Builder.NoQuery(Parser.ParseParts(Fragments.NormalizeParts(args), o.protocolRelative), o);
  }

  /** The path is rebuilt unchanged from itself, under slash options that ignore the input. */
  lemma PathOfStable(args: seq<Fragments.Arg>, user: Fragments.UserOptions)
    requires forall i :: 0 <= i < |args| && args[i].StrArg? ==> Plain(args[i].s)
    requires user.leadingSlash != Some(Fragments.Keep) && user.trailingSlash != Some(Fragments.Keep)
    ensures Parser.ParseParts(Fragments.NormalizeParts(args), Fragments.Resolve(user).protocolRelative).suffix == ""
    ensures Parser.ParseParts(Fragments.NormalizeParts([Fragments.StrArg(PathOf(args, user))]),
      Fragments.Resolve(user).protocolRelative).suffix == ""
    ensures PathOf([Fragments.StrArg(PathOf(args, user))], user) == PathOf(args, user)
  {
    var o := Fragments.Resolve(user);
    PlainNormalize(args);
    var parts := Fragments.NormalizeParts(args);
    var p := Parser.ParseParts(parts, o.protocolRelative);
    ParseRebuilt(parts, o.protocolRelative,
      Builder.AddSlash(o.leadingSlash, p.hasLeading), Builder.AddSlash(o.trailingSlash, p.hasTrailing));
  }

  /** Merging a result again with the same options gives the same result, when the fragments
      hold no `?` and no line terminator, the slash options are `true` or `false` and there
      is no `query` option: the output is a fixed point of `urlMerge`. */
  lemma ReMergeStable(args: seq<Fragments.Arg>, user: Fragments.UserOptions)
    requires forall i :: 0 <= i < |args| && args[i].StrArg? ==> Plain(args[i].s)
    requires user.leadingSlash != Some(Fragments.Keep) && user.trailingSlash != Some(Fragments.Keep)
    requires user.query.None? || user.query == Some([])
    ensures Merged(args + [Fragments.ObjectArg(user)]).Ok?
    ensures Merged([Fragments.StrArg(Merged(args + [Fragments.ObjectArg(user)]).value), Fragments.ObjectArg(user)])
      == Merged(args + [Fragments.ObjectArg(user)])
  {
    var u := PathOf(args, user);
    PathOfStable(args, user);
    assert Merged(args + [Fragments.ObjectArg(user)]) == Ok(u) by {
      MergedPath(args, user);
    }
    assert Merged([Fragments.StrArg(u), Fragments.ObjectArg(user)]) == Ok(PathOf([Fragments.StrArg(u)], user)) by {
      MergedPath([Fragments.StrArg(u)], user);
      Two(Fragments.StrArg(u), Fragments.ObjectArg(user));
    }
  }

  lemma Two<T>(x: T, y: T)
    ensures [x] + [y] == [x, y]
  {
  }

  /** In protocol-relative mode the `//host` group is not optional: fragments that do not
      start with one match nothing, and all of them are dropped. */
  lemma ProtocolRelativeDiscards(parts: seq<string>)
    requires Parser.SlashPrefixEnd(Text.Join(parts, "/")).None?
    ensures Parser.ParseParts(parts, true) == Parser.Parsed("", [], false, false, "")
  {
  }
}
