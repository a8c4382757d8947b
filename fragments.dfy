/** The arguments of urlMerge: which of them is the options object, which survive as
    fragments, and the options after the defaults are filled in. */
module Fragments {
  import opened Outcomes
  import Text

  /** `leadingSlash` / `trailingSlash`: `true`, `false` or `"keep"`. */
  datatype SlashPolicy = Always | Never | Keep

  /** A scalar in the `query` option. */
  datatype Scalar = StrValue(s: string) | NumValue(n: Text.SafeInteger) | BoolValue(b: bool)

  /** The value of one `query` key: a scalar or an array of scalars. */
  datatype QueryValue = One(v: Scalar) | Many(items: seq<Scalar>)

  /** The options object as the caller wrote it; `None` is a key left out.
      `query` holds the object's entries in enumeration order. */
  datatype UserOptions = UserOptions(
    leadingSlash: Option<SlashPolicy>,
    trailingSlash: Option<SlashPolicy>,
    protocolRelative: Option<bool>,
    query: Option<seq<(string, QueryValue)>>)

  /** The options with the defaults filled in. An absent `query` is no entries at all:
      the source only ever loops over it. */
  datatype Options = Options(
    leadingSlash: SlashPolicy,
    trailingSlash: SlashPolicy,
    protocolRelative: bool,
    query: seq<(string, QueryValue)>)

  /** One argument of urlMerge, by its JavaScript type. */
  datatype Arg =
    | StrArg(s: string)
    | NumArg(n: Text.SafeInteger)
    | BoolArg(b: bool)
    | NullArg
    | UndefinedArg
    | ArrayArg(items: seq<Arg>)
    | ObjectArg(options: UserOptions)

  const NoOptions := UserOptions(None, None, None, None)

  /** `String(value)` for a scalar. */
  function ScalarToString(v: Scalar): (r: string)
    ensures v.StrValue? ==> r == v.s
    ensures !v.StrValue? ==> r != "" && '\0' !in r
  {
    match v
    case StrValue(s) => s
    case NumValue(n) => Text.IntToString(n)
    case BoolValue(b) => if b then "true" else "false"
  }

  /** The last argument is the options when it is a (non-null, non-array) object; the
      fragments are the arguments before it. Otherwise there are no options and every
      argument is a fragment. */
  function SplitArgs(args: seq<Arg>): (r: (UserOptions, seq<Arg>))
    ensures |r.1| <= |args| && r.1 == args[..|r.1|]
    ensures |r.1| < |args| <==> |args| > 0 && args[|args| - 1].ObjectArg?
  {
    if |args| > 0 && args[|args| - 1].ObjectArg?
    then (args[|args| - 1].options, args[..|args| - 1])
    else (NoOptions, args)
  }

  /** A trailing object is the options, and every argument before it is a fragment. */
  lemma OptionsLast(args: seq<Arg>, u: UserOptions)
    ensures SplitArgs(args + [ObjectArg(u)]) == (u, args)
  {
    var all := args + [ObjectArg(u)];
    assert all[..|all| - 1] == args;
  }

  /** Without a trailing object there are no options, and every argument is a fragment. */
  lemma NoOptionsLast(args: seq<Arg>)
    requires |args| == 0 || !args[|args| - 1].ObjectArg?
    ensures SplitArgs(args) == (NoOptions, args)
  {
  }

  /** `{ leadingSlash: true, trailingSlash: false, protocolRelative: false, ...options }`. */
  function Resolve(u: UserOptions): (o: Options)
    ensures u.leadingSlash.Some? ==> o.leadingSlash == u.leadingSlash.value
    ensures u.trailingSlash.Some? ==> o.trailingSlash == u.trailingSlash.value
    ensures u.protocolRelative.Some? ==> o.protocolRelative == u.protocolRelative.value
    ensures u.query.Some? ==> o.query == u.query.value
  {
    Options(
      if u.leadingSlash.Some? then u.leadingSlash.value else Always,
      if u.trailingSlash.Some? then u.trailingSlash.value else Never,
      if u.protocolRelative.Some? then u.protocolRelative.value else false,
      if u.query.Some? then u.query.value else [])
  }

  /** What each left-out key falls back to, whatever the other keys hold. */
  lemma ResolveDefaults(u: UserOptions)
    ensures u.leadingSlash.None? ==> Resolve(u).leadingSlash == Always
    ensures u.trailingSlash.None? ==> Resolve(u).trailingSlash == Never
    ensures u.protocolRelative.None? ==> !Resolve(u).protocolRelative
    ensures u.query.None? ==> Resolve(u).query == []
    ensures Resolve(NoOptions) == Options(Always, Never, false, [])
  {
  }

  /** The fragment an argument becomes, before empty strings are dropped: strings as they
      are, numbers as their digits, anything else nothing. */
  function Stringified(a: Arg): (r: Option<string>)
    ensures r.Some? <==> a.StrArg? || a.NumArg?
    ensures a.StrArg? ==> r == Some(a.s)
    ensures a.NumArg? ==> r.value != "" && (r.value[0] == '-' <==> a.n < 0)
  {
    match a
    case StrArg(s) => Some(s)
    case NumArg(n) => Some(Text.IntToString(n))
    case _ => None
  }

  /** `normalizeParts`: keep strings and numbers, stringify them, drop empty strings. */
  function NormalizeParts(args: seq<Arg>): (r: seq<string>)
    ensures forall i :: 0 <= i < |r| ==> r[i] != ""
    ensures |r| <= |args|
    decreases |args|
  {
    if |args| == 0 then []
    else
      var head := Stringified(args[0]);
      (if head.Some? && head.value != "" then [head.value] else []) + NormalizeParts(args[1..])
  }

  /** Normalising keeps the order of the arguments. */
  lemma {:induction false} NormalizeAppend(a: seq<Arg>, b: seq<Arg>)
    ensures NormalizeParts(a + b) == NormalizeParts(a) + NormalizeParts(b)
    decreases |a|
  {
    if |a| == 0 {
      assert a + b == b;
    } else {
      assert (a + b)[0] == a[0] && (a + b)[1..] == a[1..] + b;
      NormalizeAppend(a[1..], b);
    }
  }

  /** Each argument on its own: a non-empty string survives as itself, a number as its
      digits, everything else (the empty string, `null`, `undefined`, booleans,
      arrays, objects) is dropped. */
  lemma NormalizeSingle(a: Arg)
    ensures a.StrArg? && a.s != "" ==> NormalizeParts([a]) == [a.s]
    ensures a.NumArg? ==> NormalizeParts([a]) == [Text.IntToString(a.n)]
    ensures !a.NumArg? && !(a.StrArg? && a.s != "") ==> NormalizeParts([a]) == []
  {
    assert NormalizeParts([a]) == (if Stringified(a).Some? && Stringified(a).value != "" then [Stringified(a).value] else []) + NormalizeParts([]);
  }

  /** Every surviving fragment comes from a string or number argument, in order. */
  lemma {:induction false} NormalizeFrom(args: seq<Arg>, k: nat)
    requires k < |NormalizeParts(args)|
    ensures exists i :: 0 <= i < |args| && Stringified(args[i]) == Some(NormalizeParts(args)[k])
    decreases |args|
  {
    var head := Stringified(args[0]);
    if head.Some? && head.value != "" {
      if k > 0 {
        NormalizeFrom(args[1..], k - 1);
        var i :| 0 <= i < |args[1..]| && Stringified(args[1..][i]) == Some(NormalizeParts(args[1..])[k - 1]);
        assert Stringified(args[i + 1]) == Some(NormalizeParts(args)[k]);
      }
    } else {
      NormalizeFrom(args[1..], k);
      var i :| 0 <= i < |args[1..]| && Stringified(args[1..][i]) == Some(NormalizeParts(args[1..])[k]);
      assert Stringified(args[i + 1]) == Some(NormalizeParts(args)[k]);
    }
  }
}
