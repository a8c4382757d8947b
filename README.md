# url-merge in Dafny

A model of `urlMerge` from the url-merge library (`index.ts`). The function joins URL
fragments into one URL. It normalises slashes under a tri-state leading/trailing slash
policy and merges an existing query string with a `query` option into one sorted,
percent-encoded query. Its four stages are modelled one module each, in the source's
order:

- **Fragments**: options detection, defaults and `normalizeParts`.
- **Parser**: `parseParts`. The two fixed regular expressions are written as
  left-to-right scanners.
- **Builder**: `buildUrl`. It is a method that builds the path by appends, as the
  source does, and fills the `existingQuery` map and the `queryParts` array with loops.
  Each loop is proved against a specification function.
- **UrlMerge**: `urlMerge` itself, and what holds of the whole pipeline.

Four modules sit beneath them:

- **Outcomes**: `Option` and `Result`. `UriError` stands for the exception
  `decodeURIComponent` throws.
- **Text**: the JavaScript built-ins the code uses: `join`, `split`, the `filter`
  for empty strings, integer rendering, string order and `sort`.
- **Percent**: `encodeURIComponent` and `decodeURIComponent` over Unicode scalar
  values, including UTF-8.
- **Query**: the JavaScript `Map` of the query as an insertion-ordered sequence of
  pairs. The rendering of the query is also here.

`Cases` works calls from the repository's tests through the model.

The JavaScript `Map` keeps insertion order. `Map.set` on a present key keeps its
position. The model's `Entries` sequence and `Query.Set` behave the same way.

Array values in the `query` option are stored as the source stores them: joined with
NUL. A value is `Valueless` (a bare key from the existing query) or `Valued(s)`. The
renderer splits on NUL exactly as the code does. So the quirks of that encoding are
part of the model:

- an empty array renders `key=`;
- a one-element array renders like a scalar;
- a scalar holding a NUL renders as a repeated key.

Easy to miss in the code, and followed by the model:

- **Empty query pieces.** `"a&&b"` keeps its empty piece. Every `&`-piece
  (index.ts:114) becomes a key, so an empty piece is the valueless key `""`. It renders
  as an empty part.
- **Protocol-relative prefix.** In protocol-relative mode the `//host` group of
  index.ts:38 is mandatory, not optional. Fragments that do not start with it match
  nothing, and prefix, path and query are all emptied (`UrlMerge.ProtocolRelativeDiscards`).
- **Slash flags before a query.** `"keep"` is documented as preserving a slash "if
  present in input" (index.ts:9, 17). But with a query suffix the leading/trailing flags
  need two slashes, not one (index.ts:66-67). So under `"keep"`, `"foo", "?q"` has no
  trailing slash while `"foo/", "?q"` has one (`Parser.TrailingBeforeQuery`).
- **Line terminators.** A failed match is not impossible in default mode either. `.`
  does not match line terminators, so a joined string with `\n`, `\r`, U+2028 or U+2029
  after the prefix empties all three parts (`Parser.Match`).

## Model

| member | source | states |
|---|---|---|
| Fragments.SplitArgs | index.ts:217-227 | The fragments are a prefix of the arguments, shorter than them exactly when the last argument is an object. |
| Fragments.OptionsLast | index.ts:222-224 | A trailing object is the options, and the fragments are all the arguments before it. |
| Fragments.NoOptionsLast | index.ts:225-227 | Without a trailing object the options are empty (`{}`) and every argument is a fragment. |
| Fragments.Resolve | index.ts:230-235 | Every option the caller supplied overrides its default. |
| Fragments.ResolveDefaults | index.ts:230-235 | Each key left out falls back to its own default, whatever the other keys hold: leading slash always, trailing slash never, not protocol-relative, no query. |
| Fragments.Stringified | index.ts:43-48 | Exactly strings and numbers become fragments; a string as itself, a number as non-empty text that starts with `-` exactly when it is negative. |
| Fragments.ScalarToString | index.ts:133-135 | `String(value)`: a string is itself; a number or boolean renders non-empty and without NUL, so it is never split apart at rendering. |
| Fragments.NormalizeParts | index.ts:40-50 | No surviving fragment is empty, and there are never more fragments than arguments. |
| Fragments.NormalizeAppend | index.ts:40-50 | Normalisation distributes over concatenation of the arguments, so the survivors keep their order. |
| Fragments.NormalizeSingle | index.ts:43-50 | A non-empty string survives as itself, a number as its digits, and everything else (empty string, null, undefined, boolean, array, object) is dropped. |
| Fragments.NormalizeFrom | index.ts:43-48 | Every surviving fragment is the stringification of some string or number argument. |
| Text.Split | index.ts:65 | `split(c)` yields at least one piece and no piece holds `c`. |
| Text.NonEmpty | index.ts:50 | `filter` for non-empty strings keeps only non-empty strings taken from its input, never more than it had. |
| Text.Join | index.ts:165-169 | With a non-empty separator the join is empty exactly when there are no parts or a single empty one, which is when no `?` is appended. |
| Text.JoinSplit | index.ts:55 | Joining the pieces of `split(c)` with `c` gives back the string. |
| Text.SplitJoin | index.ts:65 | Splitting the join of separator-free pieces gives back exactly those pieces. |
| Text.SplitAppend | index.ts:65 | The pieces of `a + c + b` are the pieces of `a` followed by those of `b`. |
| Text.NonEmptyAppend | index.ts:50 | Dropping empty strings distributes over concatenation, keeping the order. |
| Text.NonEmptyKeepsNonEmpty | index.ts:50 | A list without empty strings is left unchanged. |
| Text.JoinNoDoubled | index.ts:95 | Non-empty, separator-free pieces joined by `c` never hold two `c` in a row. |
| Text.IntToString | index.ts:48 | A safe integer (magnitude at most 2^53 - 1) renders as its digits, with a leading `-` exactly when it is negative. |
| Text.NatToString | index.ts:48 | The digits of a natural number are non-empty, all digits, and has no leading zero. |
| Text.NatToStringValue | index.ts:48 | Reading the digits back gives the number. |
| Text.BelowIrreflexive | index.ts:141 | String order is irreflexive. |
| Text.BelowTransitive | index.ts:141 | String order is transitive. |
| Text.BelowTotal | index.ts:141 | Any two distinct strings are ordered one way or the other. |
| Text.BelowAsymmetric | index.ts:141 | String order is asymmetric. |
| Text.Sort | index.ts:141 | `sort` returns a permutation of its input. |
| Text.SortAscending | index.ts:141 | Sorting distinct keys yields them in strictly ascending order. |
| Percent.Utf8 | index.ts:146 | A character is one to four octets in UTF-8. |
| Percent.Encode | index.ts:146 | `encodeURIComponent` output holds only unreserved characters and `%`, so never `&`, `=`, `?`, `/` or NUL. |
| Percent.EncodeUnescaped | index.ts:146 | Text made only of unreserved characters is its own encoding. |
| Percent.DecodeEscapeUtf8 | index.ts:118-121 | For a character `encodeURIComponent` escapes, decoding the `%XX` escapes of its UTF-8 octets gives back that character and consumes exactly those escapes. |
| Percent.DecodeEncode | index.ts:118-121 | `decodeURIComponent(encodeURIComponent(s)) == s` for every string. |
| Percent.Decode | index.ts:118-121 | `decodeURIComponent` leaves text without `%` unchanged, and its output is never longer than its input. |
| Percent.MalformedEscape | index.ts:118-121 | A `%` not followed by two hex digits makes decoding fail with `URIError` wherever it stands, after any text that decodes on its own. |
| Parser.WordRun | index.ts:37 | The run of `\w` characters from a position: all word characters, ending at the end or at a non-word character. |
| Parser.AuthorityRun | index.ts:37-38 | The run of `[^/?]` characters from a position, maximal in the same sense. |
| Parser.SchemePrefixEnd | index.ts:37 | The optional group `(\w+:\/\/[^/?]+)?` is tried greedily: its end is a real match of the group, and no match of the group is longer. |
| Parser.SlashPrefixEnd | index.ts:38 | The mandatory group `(\/\/[^/?]+)`: a real match, no longer one exists, and `None` only when no match exists. |
| Parser.QueryStart | index.ts:37-38 | The lazy path stops at the first `?` that has a character after it, or at the end. |
| Parser.Match | index.ts:37-38 | The three groups concatenate to the input. The pathname and suffix hold no line terminator. The suffix is empty or `?` with at least one character more. A `?` inside the pathname can only be its last character, with no suffix. Without line terminators the match fails only in protocol-relative mode without `//host`. The prefix is the input up to the end of the scheme group, or of the `//host` group in protocol-relative mode. |
| Parser.Segments | index.ts:65 | Path segments are non-empty and hold no `/`. |
| Parser.NoSegments | index.ts:65 | Neither `""` nor `"/"` has a path segment. |
| Parser.ParseParts | index.ts:52-71 | Its segments are non-empty and slash-free, and its suffix is empty or a `?` followed by at least one character. |
| Parser.PrefixBeforeSlash | index.ts:37 | The scheme prefix ends at or before a `/` at position n when no `?` comes before it, the character before it is not `/`, and it does not open `//` followed by an authority character. |
| Parser.MatchAtQuery | index.ts:37 | For a string with no line terminator, no `?` before position m and a `?` at m followed by something, where the scheme prefix ends at or before m, the default pattern splits there: the suffix is from m on. |
| Parser.SlashesBeforeQuery | index.ts:55-67 | In default mode, for the fragments `a + extra` and `?q`, where `a` is non-empty, does not end in `/` and holds no `?` or line terminator, and `q` is non-empty with no line terminator: the suffix is `?q`, and the trailing flag is set exactly when `extra` is `/`. |
| Parser.TrailingBeforeQuery | index.ts:66-67 | In default mode, for a first fragment that is non-empty, does not end in `/` and holds no `?` or line terminator: before a query suffix one trailing slash does not count for `"keep"`, two do. |
| Parser.TrailingWithoutQuery | index.ts:59-67 | In default mode, when the joined fragments hold no `?` and no line terminator, there is no suffix, and the trailing flag is set exactly when the joined fragments end in `/`. |
| Query.Lookup | index.ts:145 | `get` finds a value exactly when the key is in the map. |
| Query.Set | index.ts:118 | After `set`, the key maps to the new value and every other key keeps its value. |
| Query.SetKeys | index.ts:122 | `set` keeps a present key in its place and appends a new key at the end. |
| Query.SetDistinct | index.ts:133-135 | `set` keeps the keys distinct. |
| Query.SetAllLookup | index.ts:114-124 | After a run of `set`s a key holds the value of its last pair, or its old value if no pair names it: a repeated key keeps its last value. |
| Query.SetAllDistinct | index.ts:114-137 | A run of `set`s keeps the keys distinct. |
| Query.IndexOf | index.ts:115 | `indexOf` finds the first occurrence, and `None` (-1) exactly when there is none. |
| Query.ParsePiece | index.ts:115-122 | A piece's value is missing (a valueless key) exactly when it holds no `=`, and a piece without `%` always decodes. |
| Query.ParsePieceAtEquals | index.ts:117-121 | A piece with `=` splits at the first one: the key is the decoded text before it, the value the decoded text after it, and the piece fails exactly when either half fails to decode. |
| Query.ParsePieceWithoutEquals | index.ts:117-119 | A piece without `=` is the valueless key of its decoded text, and fails exactly when that decoding fails. |
| Query.ParsePiecesEach | index.ts:114-124 | Decoding the `&`-pieces succeeds exactly when every piece decodes, and then yields each piece's pair in order. |
| Query.ParsePieces | index.ts:114-124 | Decoding the pieces yields one pair per piece. |
| Query.EncodeNoEquals | index.ts:146 | An encoded name never holds `=`. |
| Query.ParseRendered | index.ts:116-122 | A key with a NUL-free or absent value renders to one part, and parsing that part back gives the key and value again. |
| Query.StripQuestion | index.ts:109 | `replace(/^\?/, "")` removes exactly one leading `?` and nothing else. |
| Query.LastValueOptionPairs | index.ts:129-137 | The last pair the `query` option sets for a key is the stored form of that key's last entry, or there is none. |
| Query.OverlayLookup | index.ts:127-138 | A key of the `query` option wholly replaces any existing entry, valued or valueless; other keys keep their existing values. |
| Query.RenderValues | index.ts:156-159 | One `key=value` part per value, in order, each value percent-encoded. |
| Query.SortedKeys | index.ts:141 | The sorted keys are a permutation of the map's keys. |
| Query.SortedKeysAscending | index.ts:141 | For distinct keys, the sorted keys are strictly ascending, one per entry, and exactly the map's keys. |
| Query.QueryTail | index.ts:165-169 | What the query adds is empty or a `?` followed by at least one character. |
| Query.EmptyQueryTail | index.ts:165-169 | With no entries no `?` is appended. |
| Query.RenderMany | index.ts:133 | An array of two or more NUL-free items renders as `key=item`, once per item in array order. |
| Query.RenderSingleton | index.ts:131-135 | A one-element array is stored and rendered like the scalar itself. |
| Query.RenderEmptyArray | index.ts:133 | An empty array renders as `key=`. |
| Query.RenderEmbeddedNul | index.ts:154-159 | A scalar that contains NUL renders as a repeated key, one part per NUL-separated piece. |
| Query.RenderEntry | index.ts:145-162 | A valueless key renders as its bare encoded name; a valued key as one `key=value` part per NUL-separated piece of its value, in order, so a NUL-free value gives exactly one part. |
| Builder.AddSlash | index.ts:81-84 | A slash is added exactly when the policy is `true`, or `"keep"` and the input had it. |
| Builder.PathPart | index.ts:86-106 | The prefix is copied verbatim to the front of the URL. |
| Builder.BuildPath | index.ts:86-106 | The step-by-step appends to `url` produce `PathPart`. |
| Builder.ParseExisting | index.ts:109-125 | The loop over the `&`-pieces builds `existingQuery` as the successive `set`s of the decoded pieces, or fails with `UriError`. |
| Builder.MergeOptions | index.ts:127-138 | The loop over the `query` option lays it over the map: `Overlay`. |
| Builder.RenderParts | index.ts:140-163 | The nested loops over the sorted keys push exactly `RenderQuery` of the map. |
| Builder.PushValues | index.ts:156-159 | The inner loop over the pieces of a NUL-joined value pushes one `key=value` part per piece, in order: `RenderValues`. |
| Builder.BuildUrl | index.ts:73-172 | `buildUrl` returns the path followed by the query tail of the merged map, or `UriError`. |
| Builder.PathSegments | index.ts:87-106 | After the prefix the URL holds exactly the path segments, and never two slashes in a row. |
| Builder.LeadingSlash | index.ts:90-106 | After the prefix a `/` comes first exactly when there are segments and a prefix or `addLeading`, or there are no segments and `addTrailing`, or neither a prefix nor segments and `addLeading`. |
| Builder.TrailingSlash | index.ts:98-106 | The URL before its query ends with `/` exactly when `addTrailing`, or when there is nothing but a wanted leading slash. |
| Builder.EmptyPath | index.ts:99-106 | With no prefix and no segments the path is `/` when either slash is wanted, and empty otherwise. |
| Builder.NoQuery | index.ts:108-171 | With no query suffix and no `query` option, `buildUrl` returns the path alone, with no `?`. |
| Builder.BuildFails | index.ts:113-125 | `buildUrl` fails exactly when the query suffix is non-empty and one of its `&`-pieces fails to decode. |
| UrlMerge.UrlMerge | index.ts:216-246 | `urlMerge` is options detection, defaults, `normalizeParts`, `parseParts` and `buildUrl` in sequence. |
| UrlMerge.EmptyOptionsObject | index.ts:222-235 | Passing an empty options object `{}` last is the same as passing no options. |
| UrlMerge.MatchPlain | index.ts:56-60 | A string without `?` and line terminators matches with an empty suffix and the whole rest as pathname, except in protocol-relative mode without `//host`, where it does not match. |
| UrlMerge.ParsePlain | index.ts:52-71 | `parseParts` on fragments whose join holds no `?` and no line terminator has no suffix, and its segments are those of everything after the prefix. |
| UrlMerge.ParseRebuilt | index.ts:52-106 | For fragments without `?` or line terminators, parsing the rebuilt URL finds the same prefix and the same segments again, and no query. |
| UrlMerge.MergedPath | index.ts:165-171 | When the parsed fragments have no query suffix and the `query` option is absent or empty, `urlMerge` returns the path alone. |
| UrlMerge.PathOfStable | index.ts:81-106 | For fragments without `?` or line terminators and `true`/`false` slash options, the path parses with no query, and merging the path alone rebuilds it unchanged. |
| UrlMerge.ReMergeStable | index.ts:216-246 | Re-merging an output with the same options gives it back unchanged, when the fragments hold no `?` or line terminator, the slash options are not `"keep"` and no query is given. |
| UrlMerge.ProtocolRelativeDiscards | index.ts:38 | In protocol-relative mode, fragments that do not start with `//host` lose prefix, path and query alike. |
| Cases.NoArguments | index.test.ts:6 | `urlMerge()` is `/`. |
| Cases.DoubledSlashesCollapse | index.test.ts:30-32 | `urlMerge("http://google.com//", "/foo")` is `http://google.com/foo`. |
| Cases.NumbersAndNull | index.test.ts:261 | `urlMerge(1, null, 2)` is `/1/2`. |
| Cases.RelativeWithTrailingSlash | index.test.ts:132 | `urlMerge("/foo", "/bar", { leadingSlash: false, trailingSlash: true })` is `foo/bar/`. |
| Cases.ProtocolRelativeHost | index.test.ts:238 | `urlMerge("//google.com", "foo", { protocolRelative: true })` is `//google.com/foo`. |
| Cases.ProtocolRelativeOff | index.test.ts:249 | With `protocolRelative: false` the same call is `/google.com/foo`. |
| Cases.QueryFromOptions | index.test.ts:297-299 | `urlMerge("/google.com", { query: { biz: "buz", foo: "bar" } })` is `/google.com?biz=buz&foo=bar`. |
| Cases.ArrayFromOptions | index.test.ts:323-328 | `urlMerge("/google.com", { query: { foo: [1, 2, 3] } })` is `/google.com?foo=1&foo=2&foo=3`: the array is NUL-joined when merged and split again when rendered. |
| Cases.ExistingQueryWithOptions | index.test.ts:297-320 | With the options the test has built up by then (`leadingSlash`, `trailingSlash` and `protocolRelative` all `false`, `query: { biz: "buz", foo: "bar" }`), `urlMerge("google.com", "qux?tux=baz", options)` is `google.com/qux?biz=buz&foo=bar&tux=baz`: the existing key and the options' keys are merged and sorted together. |

## Left out

- Numbers are safe integers only (magnitude at most 2^53 - 1). `${n}` and `String(n)`
  for non-integers, `NaN`, `Infinity` and `-0` are float formatting (index.ts:48, 133,
  135). `Fragments.NumArg` and `Fragments.NumValue` carry a `Text.SafeInteger`.
- Text.IntToString: covers safe integers only. Beyond 2^53 - 1 a JavaScript number is
  rounded, so `${n}` can differ from the exact digits, and from 10^21 on it is exponent
  form (`urlMerge(1e21)` is `/1e+21`). The model's numbers never reach that range.
- Strings are sequences of Unicode scalar values. So the lone surrogate on which
  `encodeURIComponent` throws cannot be written. `Text.Below` compares code points,
  while `sort` compares UTF-16 code units (index.ts:141). The two orders agree except
  between characters above U+FFFF and those in U+E000–U+FFFF.
- Arguments and options are typed records rather than JavaScript values:
  - function, symbol and bigint arguments are not modelled;
  - objects other than an options record are not modelled;
  - an explicit `undefined` in the options object, which the spread at index.ts:230-235
    lets override a default, is treated as a key left out;
  - query values other than strings, numbers, booleans and arrays of those are not
    modelled.
- `Object.entries` order: the `query` option is a sequence taken in the order given.
  JavaScript's rule that integer-like keys enumerate first is not modelled.
- The branch for an `undefined` value (index.ts:148-150) cannot happen. `Query.RenderKeys`
  only asks for keys the map holds.
- The type and documentation declarations (index.ts:1-35, 174-215) and the `export`
  (index.ts:248) have no behaviour to model.
- index.test.ts is a test suite and is not modelled as code. Some of its expectations
  are proved as the `Cases` lemmas.
- Parser.TrailingBeforeQuery: states the one-versus-two slash rule for the trailing flag
  only. The leading flag is computed by the same rule in `Parser.ParseParts`
  (index.ts:66), with no lemma of its own.
- UrlMerge.ReMergeStable: holds only under its stated conditions (no `?` or line
  terminator in the fragments, no `"keep"`, no `query` option). Outside them a re-merge
  can change the result, for instance by re-sorting or re-encoding a query.
