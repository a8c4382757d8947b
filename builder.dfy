/** `buildUrl`: the prefix, the path segments with the slashes the options ask for, and the
    merged, sorted query. */
module Builder {
  import opened Outcomes
  import Text
  import Percent
  import Fragments
  import Parser
  import Query

  /** `addLeading` / `addTrailing`: `true`, or `"keep"` when the input had the slash. */
  function AddSlash(policy: Fragments.SlashPolicy, had: bool): (r: bool)
    ensures r <==> policy == Fragments.Always || (policy == Fragments.Keep && had)
  {
    match policy
    case Always => true
    case Never => false
    case Keep => had
  }

  /** Path segments are what `Parser.Segments` produces: non-empty and slash-free. */
  predicate SegmentShaped(segments: seq<string>) {
    forall i :: 0 <= i < |segments| ==> segments[i] != "" && '/' !in segments[i]
  }

  /** `url` before the query: the prefix, then the segments joined by `/` (behind a `/` when
      there is a prefix or a leading slash is wanted), then the trailing slash, and a lone
      `/` when all that is empty but a leading slash is wanted. */
  function PathPart(prefix: string, segments: seq<string>, addLeading: bool, addTrailing: bool): (r: string)
    ensures |prefix| <= |r| && r[..|prefix|] == prefix
  {
    var withParts :=
      if |segments| > 0 then prefix + (if prefix != "" || addLeading then "/" else "") + Text.Join(segments, "/")
      else prefix;
    var withTrailing := if addTrailing then withParts + "/" else withParts;
    if withTrailing == "" && addLeading then "/" else withTrailing
  }

  /** The string `buildUrl` returns, or `UriError` where one of its `decodeURIComponent`
      calls throws. */
  function BuildSpec(p: Parser.Parsed, o: Fragments.Options): Result<string> {
    var path := PathPart(p.prefix, p.segments,
      AddSlash(o.leadingSlash, p.hasLeading), AddSlash(o.trailingSlash, p.hasTrailing));
    match Query.ExistingQuery(p.suffix)
    case UriError => UriError
    case Ok(existing) => Ok(path + Query.QueryTail(Query.Overlay(existing, o.query)))
  }

  /** `buildUrl(parsedParts, options)`, in the source's order: the path, the existing
      query, the `query` option laid over it, the rendered parts. */
  method BuildUrl(p: Parser.Parsed, o: Fragments.Options) returns (r: Result<string>)
    ensures r == BuildSpec(p, o)
  {
    var addLeading := AddSlash(o.leadingSlash, p.hasLeading);
    var addTrailing := AddSlash(o.trailingSlash, p.hasTrailing);
    var url := BuildPath(p.prefix, p.segments, addLeading, addTrailing);

    var parsed := ParseExisting(p.suffix);
    if parsed.UriError? {
      return UriError;
    }
    var existing := MergeOptions(parsed.value, o.query);
    var queryParts := RenderParts(existing);

    var queryStr := Text.Join(queryParts, "&");
    ghost var path := url;
    assert Query.QueryTail(existing) == if queryStr == "" then "" else "?" + queryStr;
    if queryStr != "" {
      url := url + "?" + queryStr;
      assert url == path + ("?" + queryStr);
    } else {
      assert url == path + "";
    }
    return Ok(url);
  }

  /** The slash handling at the head of `buildUrl`: `url` before the query. */
  method BuildPath(prefix: string, segments: seq<string>, addLeading: bool, addTrailing: bool) returns (url: string)
    ensures url == PathPart(prefix, segments, addLeading, addTrailing)
  {
    url := prefix;
    if |segments| > 0 {
      if url != "" || addLeading {
        url := url + "/";
      }
      url := url + Text.Join(segments, "/");
    }
    if addTrailing {
      url := url + "/";
    }
    if url == "" && addLeading {
      url := url + "/";
    }
  }

  /** The loop that fills `existingQuery` from the query suffix, one `&`-piece at a time;
      `UriError` where `decodeURIComponent` throws. */
  method ParseExisting(suffix: string) returns (r: Result<Query.Entries>)
    ensures r == Query.ExistingQuery(suffix)
  {
    var suffixStr := Query.StripQuestion(suffix);
    var existing: Query.Entries := [];
    if suffixStr != "" {
      var pieces := Text.Split(suffixStr, '&');
      Query.ParsePiecesEach(pieces);
      var i := 0;
      while i < |pieces|
        invariant 0 <= i <= |pieces|
        invariant Query.ParsePieces(pieces[..i]).Ok?
        invariant existing == Query.SetAll([], Query.ParsePieces(pieces[..i]).value)
      {
        assert pieces[..i + 1][..i] == pieces[..i];
        var part := pieces[i];
        var eqIndex := Query.IndexOf(part, '=');
        if eqIndex.None? {
          var key := Percent.Decode(part);
          if key.UriError? {
            return UriError;
          }
          existing := Query.Set(existing, key.value, Query.Valueless);
        } else {
          var key := Percent.Decode(part[..eqIndex.value]);
          if key.UriError? {
            return UriError;
          }
          var value := Percent.Decode(part[eqIndex.value + 1..]);
          if value.UriError? {
            return UriError;
          }
          existing := Query.Set(existing, key.value, Query.Valued(value.value));
        }
        i := i + 1;
      }
      assert pieces[..i] == pieces;
    }
    return Ok(existing);
  }

  /** The loop over `Object.entries(options.query)`: arrays stored NUL-joined, scalars
      stringified. */
  method MergeOptions(m: Query.Entries, query: seq<(string, Fragments.QueryValue)>) returns (existing: Query.Entries)
    ensures existing == Query.Overlay(m, query)
  {
    existing := m;
    var j := 0;
    while j < |query|
      invariant 0 <= j <= |query|
      invariant existing == Query.SetAll(m, Query.OptionPairs(query[..j]))
    {
      assert Query.OptionPairs(query[..j + 1])[..j] == Query.OptionPairs(query[..j]);
      var (key, value) := query[j];
      if value.Many? {
        existing := Query.Set(existing, key, Query.Valued(Text.Join(Query.ScalarStrings(value.items), [Query.NUL])));
      } else {
        existing := Query.Set(existing, key, Query.Valued(Fragments.ScalarToString(value.v)));
      }
      j := j + 1;
    }
    assert query[..j] == query;
  }

  /** The loop over the sorted keys that fills `queryParts`. */
  method RenderParts(existing: Query.Entries) returns (queryParts: seq<string>)
    ensures queryParts == Query.RenderQuery(existing)
  {
    var sortedKeys := Query.SortedKeys(existing);
    queryParts := [];
    var k := 0;
    while k < |sortedKeys|
      invariant 0 <= k <= |sortedKeys|
      invariant queryParts == Query.RenderKeys(existing, sortedKeys[..k])
    {
      assert sortedKeys[..k + 1][..k] == sortedKeys[..k];
      var key := sortedKeys[k];
      var value := Query.Get(existing, key);
      var encodedKey := Percent.Encode(key);
      if value.Valueless? {
        queryParts := queryParts + [encodedKey];
      } else if Query.NUL in value.s {
        var values := Text.Split(value.s, Query.NUL);
        queryParts := PushValues(queryParts, encodedKey, values);
      } else {
        queryParts := queryParts + [encodedKey + "=" + Percent.Encode(value.s)];
      }
      k := k + 1;
    }
    assert sortedKeys[..k] == sortedKeys;
  }

  /** The inner loop for an array value: one `key=value` part pushed per value. */
  method PushValues(queryParts: seq<string>, encodedKey: string, values: seq<string>) returns (r: seq<string>)
    ensures r == queryParts + Query.RenderValues(encodedKey, values)
  {
    r := queryParts;
    var n := 0;
    while n < |values|
      invariant 0 <= n <= |values|
      invariant r == queryParts + Query.RenderValues(encodedKey, values[..n])
    {
      assert values[..n + 1][..n] == values[..n];
      r := r + [encodedKey + "=" + Percent.Encode(values[n])];
      n := n + 1;
    }
    assert values[..n] == values;
  }

  /** Separator-free pieces joined by `/`: the pieces come back, no two slashes meet, and
      the last character is not a slash. */
  lemma Unpadded(segments: seq<string>)
    requires |segments| > 0 && SegmentShaped(segments)
    ensures var joined := Text.Join(segments, "/");
      Text.Split(joined, '/') == segments && Parser.Segments(joined) == segments &&
      Text.NoDoubled(joined, '/') && |joined| > 0 && joined[0] != '/' && joined[|joined| - 1] != '/'
  {
    Text.SplitJoin(segments, '/');
    Text.JoinNoDoubled(segments, '/');
    Text.JoinFirst(segments, "/");
    Text.JoinLast(segments, "/");
    Text.NonEmptyKeepsNonEmpty(segments);
    assert segments[0][0] in segments[0];
    assert segments[|segments| - 1][|segments[|segments| - 1]| - 1] in segments[|segments| - 1];
  }

  /** ... and with a `/` in front. */
  lemma SlashFirst(segments: seq<string>)
    requires |segments| > 0 && SegmentShaped(segments)
    ensures var front := "/" + Text.Join(segments, "/");
      Parser.Segments(front) == segments && Text.NoDoubled(front, '/') && front[|front| - 1] != '/'
  {
    var joined := Text.Join(segments, "/");
    var front := "/" + joined;
    Unpadded(segments);
    assert front == "" + ['/'] + joined;
    assert Parser.Segments(front) == segments by {
      Text.SplitAppend("", joined, '/');
      Text.NonEmptyAppend([""], segments);
    }
    assert Text.NoDoubled(front, '/') by {
      Text.Around("", joined, '/');
    }
  }

  /** Separator-free pieces joined by `/`, with a `/` in front or not: the pieces come back,
      and no two slashes meet. */
  lemma LeadPad(segments: seq<string>, lead: bool)
    requires |segments| > 0 && SegmentShaped(segments)
    ensures var front := (if lead then "/" else "") + Text.Join(segments, "/");
      Parser.Segments(front) == segments && Text.NoDoubled(front, '/') &&
      |front| > 0 && front[|front| - 1] != '/'
  {
    if lead {
      SlashFirst(segments);
    } else {
      Unpadded(segments);
      assert "" + Text.Join(segments, "/") == Text.Join(segments, "/");
    }
  }

  /** ... and with a `/` behind as well. */
  lemma TrailPad(front: string, segments: seq<string>)
    requires Parser.Segments(front) == segments && Text.NoDoubled(front, '/')
    requires |front| > 0 && front[|front| - 1] != '/'
    ensures Parser.Segments(front + "/") == segments && Text.NoDoubled(front + "/", '/')
  {
    assert front + "/" == front + ['/'] + "";
    Text.SplitAppend(front, "", '/');
    Text.Around(front, "", '/');
    Text.NonEmptyAppend(Text.Split(front, '/'), [""]);
  }

  /** The prefix stays in front, and after it the URL holds exactly the segments, never two
      slashes in a row. */
  lemma PathSegments(prefix: string, segments: seq<string>, addLeading: bool, addTrailing: bool)
    requires SegmentShaped(segments)
    ensures Parser.Segments(PathPart(prefix, segments, addLeading, addTrailing)[|prefix|..]) == segments
    ensures Text.NoDoubled(PathPart(prefix, segments, addLeading, addTrailing)[|prefix|..], '/')
  {
    if |segments| == 0 {
      SlashesOnly(prefix, addLeading, addTrailing);
    } else {
      var lead := prefix != "" || addLeading;
      var front := (if lead then "/" else "") + Text.Join(segments, "/");
      var tail := if addTrailing then "/" else "";
      assert PathPart(prefix, segments, addLeading, addTrailing) == prefix + (front + tail);
      AfterPrefix(prefix, front + tail);
      Padded(segments, lead, addTrailing);
    }
  }

  /** The segments joined, with a slash in front or not and behind or not. */
  lemma Padded(segments: seq<string>, lead: bool, trail: bool)
    requires |segments| > 0 && SegmentShaped(segments)
    ensures var front := (if lead then "/" else "") + Text.Join(segments, "/");
      var padded := front + (if trail then "/" else "");
      Parser.Segments(padded) == segments && Text.NoDoubled(padded, '/')
  {
    var front := (if lead then "/" else "") + Text.Join(segments, "/");
    LeadPad(segments, lead);
    if trail {
      TrailPad(front, segments);
    } else {
      assert front + "" == front;
    }
  }

  /** Without segments, what follows the prefix is at most one slash. */
  lemma SlashesOnly(prefix: string, addLeading: bool, addTrailing: bool)
    ensures Parser.Segments(PathPart(prefix, [], addLeading, addTrailing)[|prefix|..]) == []
    ensures Text.NoDoubled(PathPart(prefix, [], addLeading, addTrailing)[|prefix|..], '/')
  {
    var rest := PathPart(prefix, [], addLeading, addTrailing)[|prefix|..];
    assert rest == "" || rest == "/";
    Parser.NoSegments(rest);
  }

  lemma AfterPrefix(prefix: string, x: string)
    ensures (prefix + x)[|prefix|..] == x
  {
  }

  /** Slash policy: whether the path after the prefix starts with `/`. Between a prefix and
      a segment there is always one; otherwise the leading option decides, and with no
      segments a trailing slash also stands in front. */
  lemma LeadingSlash(prefix: string, segments: seq<string>, addLeading: bool, addTrailing: bool)
    requires SegmentShaped(segments)
    ensures Parser.StartsWith(PathPart(prefix, segments, addLeading, addTrailing)[|prefix|..], "/") <==>
      if |segments| > 0 then prefix != "" || addLeading else addTrailing || (prefix == "" && addLeading)
  {
    if |segments| > 0 {
      Text.JoinFirst(segments, "/");
      var path := PathPart(prefix, segments, addLeading, addTrailing);
      if !(prefix != "" || addLeading) {
        assert path[|prefix|..][0] == Text.Join(segments, "/")[0];
      }
    }
  }

  /** Slash policy: whether the URL before its query ends with `/`: exactly when a trailing
      slash is wanted, or nothing but a wanted leading slash is left. */
  lemma TrailingSlash(prefix: string, segments: seq<string>, addLeading: bool, addTrailing: bool)
    requires SegmentShaped(segments)
    ensures Parser.EndsWith(PathPart(prefix, segments, addLeading, addTrailing)[|prefix|..], "/") <==>
      addTrailing || (|segments| == 0 && prefix == "" && addLeading)
  {
    if |segments| > 0 {
      Text.JoinLast(segments, "/");
      var path := PathPart(prefix, segments, addLeading, addTrailing);
      var joined := Text.Join(segments, "/");
      if !addTrailing {
        assert path[|path| - 1] == joined[|joined| - 1];
        assert segments[|segments| - 1][|segments[|segments| - 1]| - 1] in segments[|segments| - 1];
      }
    }
  }

  /** With no segments and no prefix the URL's path is `/` when either slash is wanted, and
      empty otherwise. */
  lemma EmptyPath(addLeading: bool, addTrailing: bool)
    ensures PathPart("", [], addLeading, addTrailing) == if addLeading || addTrailing then "/" else ""
  {
  }

  /** With no query suffix and no `query` option, `buildUrl` returns the path alone: no
      `?` is appended. */
  lemma NoQuery(p: Parser.Parsed, o: Fragments.Options)
    requires p.suffix == "" && o.query == []
    ensures BuildSpec(p, o) == Ok(PathPart(p.prefix, p.segments,
      AddSlash(o.leadingSlash, p.hasLeading), AddSlash(o.trailingSlash, p.hasTrailing)))
  {
    assert Query.StripQuestion("") == "";
    assert Query.ExistingQuery(p.suffix) == Ok([]);
    assert Query.Overlay([], o.query) == [] by {
      assert Query.OptionPairs([]) == [];
    }
    Query.EmptyQueryTail();
    var path := PathPart(p.prefix, p.segments,
      AddSlash(o.leadingSlash, p.hasLeading), AddSlash(o.trailingSlash, p.hasTrailing));
    assert path + "" == path;
  }

  /** A failure to decode the existing query is the only way `buildUrl` fails. */
  lemma BuildFails(p: Parser.Parsed, o: Fragments.Options)
    ensures BuildSpec(p, o).UriError? <==>
      Query.StripQuestion(p.suffix) != "" &&
      exists i :: 0 <= i < |Text.Split(Query.StripQuestion(p.suffix), '&')| &&
        Query.ParsePiece(Text.Split(Query.StripQuestion(p.suffix), '&')[i]).UriError?
  {
    var suffixStr := Query.StripQuestion(p.suffix);
    if suffixStr != "" {
      var pieces := Text.Split(suffixStr, '&');
      Query.ParsePiecesEach(pieces);
      assert BuildSpec(p, o).UriError? <==> Query.ParsePieces(pieces).UriError?;
      if Query.ParsePieces(pieces).UriError? {
        var i :| 0 <= i < |pieces| && !Query.ParsePiece(pieces[i]).Ok?;
        assert Query.ParsePiece(Text.Split(Query.StripQuestion(p.suffix), '&')[i]).UriError?;
      }
    }
  }
}
