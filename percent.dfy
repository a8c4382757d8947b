/** `encodeURIComponent` and `decodeURIComponent` as ECMAScript defines them, over Unicode
    scalar values: a character outside the unreserved set of section 2.3 of RFC 3986 and
    `! * ' ( )` is written as the `%XX` escapes (section 2.1 of RFC 3986) of its UTF-8
    octets; decoding reverses that and fails, as JavaScript throws `URIError`, on a
    malformed escape or an ill-formed UTF-8 sequence. */
module Percent {
  import opened Outcomes

  /** The characters `encodeURIComponent` leaves alone. */
  predicate Unescaped(c: char) {
    ('A' <= c <= 'Z') || ('a' <= c <= 'z') || ('0' <= c <= '9') || c in "-_.!~*'()"
  }

  predicate IsHex(c: char) {
    ('0' <= c <= '9') || ('A' <= c <= 'F') || ('a' <= c <= 'f')
  }

  function HexValue(c: char): (d: nat)
    requires IsHex(c)
    ensures d < 16
  {
    if '0' <= c <= '9' then c as int - '0' as int
    else if 'A' <= c <= 'F' then c as int - 'A' as int + 10
    else c as int - 'a' as int + 10
  }

  /** The upper-case hexadecimal digit `encodeURIComponent` writes. */
  function HexDigit(d: nat): (c: char)
    requires d < 16
    ensures IsHex(c) && Unescaped(c) && HexValue(c) == d
  {
    "0123456789ABCDEF"[d]
  }

  /** `%XX` for one octet. */
  function EscapeByte(b: nat): (r: string)
    requires b < 256
    ensures |r| == 3 && r[0] == '%'
  {
    ['%', HexDigit(b / 16), HexDigit(b % 16)]
  }

  predicate AllOctets(bs: seq<nat>) {
    forall i :: 0 <= i < |bs| ==> bs[i] < 256
  }

  function EscapeBytes(bs: seq<nat>): (r: string)
    requires AllOctets(bs)
    ensures |r| == 3 * |bs|
    decreases |bs|
  {
    if |bs| == 0 then "" else EscapeByte(bs[0]) + EscapeBytes(bs[1..])
  }

  /** Escapes are made of `%` and upper-case hexadecimal digits. */
  lemma {:induction false} EscapeBytesChars(bs: seq<nat>)
    requires AllOctets(bs)
    ensures forall i :: 0 <= i < |EscapeBytes(bs)| ==> EscapeBytes(bs)[i] == '%' || Unescaped(EscapeBytes(bs)[i])
    decreases |bs|
  {
    if |bs| > 0 {
      EscapeBytesChars(bs[1..]);
    }
  }

  /** The UTF-8 octets of a character. */
  function Utf8(c: char): (r: seq<nat>)
    ensures 1 <= |r| <= 4 && AllOctets(r)
  {
    var v := c as int;
    if v < 0x80 then [v]
    else if v < 0x800 then [0xC0 + v / 64, 0x80 + v % 64]
    else if v < 0x10000 then [0xE0 + v / 4096, 0x80 + v / 64 % 64, 0x80 + v % 64]
    else [0xF0 + v / 262144, 0x80 + v / 4096 % 64, 0x80 + v / 64 % 64, 0x80 + v % 64]
  }

  function EncodeChar(c: char): (r: string)
    ensures forall i :: 0 <= i < |r| ==> r[i] == '%' || Unescaped(r[i])
  {
    if Unescaped(c) then [c]
    else
      EscapeBytesChars(Utf8(c));
      EscapeBytes(Utf8(c))
  }

  /** `encodeURIComponent(s)`. Its output holds only unreserved characters and `%`, so it
      never contains a delimiter such as `&`, `=`, `?`, `/` or NUL. */
  function Encode(s: string): (r: string)
    ensures forall i :: 0 <= i < |r| ==> r[i] == '%' || Unescaped(r[i])
    decreases |s|
  {
    if |s| == 0 then "" else EncodeChar(s[0]) + Encode(s[1..])
  }

  /** The octet written as `%XX` at the start of `s`, if it starts with one. */
  function ByteAt(s: string): (r: Option<nat>)
    ensures r.Some? ==> |s| >= 3 && r.value < 256
  {
    if |s| >= 3 && s[0] == '%' && IsHex(s[1]) && IsHex(s[2])
    then Some(16 * HexValue(s[1]) + HexValue(s[2]))
    else None
  }

  /** The number of leading one bits of an octet. */
  function LeadingOnes(b: nat): nat
    requires b < 256
  {
    if b < 0x80 then 0
    else if b < 0xC0 then 1
    else if b < 0xE0 then 2
    else if b < 0xF0 then 3
    else if b < 0xF8 then 4
    else 5
  }

  /** The marker bits of the first octet of an `n`-octet sequence. */
  function LeadMarker(n: nat): nat
    requires 2 <= n <= 4
  {
    if n == 2 then 0xC0 else if n == 3 then 0xE0 else 0xF0
  }

  /** Reads `count` escaped continuation octets (`10xxxxxx`) from the start of `s`. */
  function Continuations(s: string, count: nat): (r: Option<seq<nat>>)
    ensures r.Some? ==> |r.value| == count && |s| >= 3 * count
    ensures r.Some? ==> forall i :: 0 <= i < count ==> 0x80 <= r.value[i] < 0xC0
    decreases count
  {
    if count == 0 then Some([])
    else match ByteAt(s)
      case None => None
      case Some(b) =>
        if b < 0x80 || b >= 0xC0 then None
        else match Continuations(s[3..], count - 1)
          case None => None
          case Some(rest) => Some([b] + rest)
  }

  /** Appends the six payload bits of each continuation octet to `acc`. */
  function Accumulate(acc: int, cont: seq<nat>): int
    decreases |cont|
  {
    if |cont| == 0 then acc else Accumulate(64 * acc + (cont[0] as int - 0x80), cont[1..])
  }

  /** The code points an `n`-octet sequence may encode: no overlong form, no surrogate,
      nothing above U+10FFFF. */
  predicate WellFormed(n: nat, v: int) {
    (n == 2 && 0x80 <= v < 0x800) ||
    (n == 3 && 0x800 <= v < 0x10000 && !(0xD800 <= v < 0xE000)) ||
    (n == 4 && 0x10000 <= v < 0x110000)
  }

  /** Decodes the escape sequence at the start of `s`: the character and the number of
      characters of `s` it spans. */
  function DecodeEscape(s: string): (r: Option<(char, nat)>)
    requires |s| > 0 && s[0] == '%'
    ensures r.Some? ==> 3 <= r.value.1 <= |s|
  {
    match ByteAt(s)
    case None => None
    case Some(b) =>
      var n := LeadingOnes(b);
      if n == 0 then Some((b as char, 3))
      else if n == 1 || n > 4 then None
      else match Continuations(s[3..], n - 1)
        case None => None
        case Some(cont) =>
          var v := Accumulate(b - LeadMarker(n), cont);
          if WellFormed(n, v) then Some((v as char, 3 * n)) else None
  }

  /** `decodeURIComponent(s)`, with `UriError` where it throws. */
  function Decode(s: string): (r: Result<string>)
    ensures '%' !in s ==> r == Ok(s)
    ensures r.Ok? ==> |r.value| <= |s|
    decreases |s|
  {
    if |s| == 0 then Ok("")
    else if s[0] != '%' then
      assert s == [s[0]] + s[1..];
      match Decode(s[1..])
      case UriError => UriError
      case Ok(t) => Ok([s[0]] + t)
    else
      match DecodeEscape(s)
      case None => UriError
      case Some((c, k)) =>
        match Decode(s[k..])
        case UriError => UriError
        case Ok(t) => Ok([c] + t)
  }

  lemma ByteAtEscape(b: nat, t: string)
    requires b < 256
    ensures ByteAt(EscapeByte(b) + t) == Some(b)
  {
  }

  /** The first escape of a run of escapes, and what follows it. */
  lemma FirstEscape(bs: seq<nat>, t: string)
    requires |bs| > 0 && AllOctets(bs)
    ensures ByteAt(EscapeBytes(bs) + t) == Some(bs[0])
    ensures (EscapeBytes(bs) + t)[3..] == EscapeBytes(bs[1..]) + t
  {
    var rest := EscapeBytes(bs[1..]) + t;
    assert EscapeBytes(bs) + t == EscapeByte(bs[0]) + rest;
    ByteAtEscape(bs[0], rest);
  }

  /** Escaped continuation octets read back as themselves. */
  lemma {:induction false} ContinuationsEscaped(bs: seq<nat>, t: string)
    requires forall i :: 0 <= i < |bs| ==> 0x80 <= bs[i] < 0xC0
    ensures Continuations(EscapeBytes(bs) + t, |bs|) == Some(bs)
    decreases |bs|
  {
    if |bs| > 0 {
      FirstEscape(bs, t);
      ContinuationsEscaped(bs[1..], t);
      assert bs == [bs[0]] + bs[1..];
    }
  }

  /** What decoding needs of a lead octet `b` and its continuations `cont` carrying `v`. */
  predicate Carries(b: nat, cont: seq<nat>, v: int) {
    b < 256 && 1 <= |cont| <= 3 && LeadingOnes(b) == |cont| + 1 &&
    (forall i :: 0 <= i < |cont| ==> 0x80 <= cont[i] < 0xC0) &&
    WellFormed(|cont| + 1, v) && Accumulate(b - LeadMarker(|cont| + 1), cont) == v
  }

  lemma TwoOctets(v: int, b: nat, cont: seq<nat>)
    requires 0x80 <= v < 0x800
    requires b == 0xC0 + v / 64 && cont == [0x80 + v % 64]
    ensures Carries(b, cont, v)
  {
    assert Accumulate(v / 64, cont) == Accumulate(64 * (v / 64) + v % 64, []);
  }

  lemma ThreeOctets(v: int, b: nat, cont: seq<nat>)
    requires 0x800 <= v < 0x10000 && !(0xD800 <= v < 0xE000)
    requires b == 0xE0 + v / 4096 && cont == [0x80 + v / 64 % 64, 0x80 + v % 64]
    ensures Carries(b, cont, v)
  {
    var q := v / 64;
    assert q / 64 == v / 4096;
    assert 64 * (v / 4096) + q % 64 == q;
    assert Accumulate(v / 4096, [0x80 + q % 64, 0x80 + v % 64])
        == Accumulate(q, [0x80 + v % 64])
        == Accumulate(64 * q + v % 64, []);
  }

  lemma FourOctets(v: int, b: nat, cont: seq<nat>)
    requires 0x10000 <= v < 0x110000
    requires b == 0xF0 + v / 262144 && cont == [0x80 + v / 4096 % 64, 0x80 + v / 64 % 64, 0x80 + v % 64]
    ensures Carries(b, cont, v)
  {
    var q := v / 64;
    var p := q / 64;
    assert p == v / 4096;
    assert p / 64 == v / 262144;
    assert 64 * (v / 262144) + p % 64 == p;
    assert 64 * p + q % 64 == q;
    assert Accumulate(v / 262144, [0x80 + p % 64, 0x80 + q % 64, 0x80 + v % 64])
        == Accumulate(p, [0x80 + q % 64, 0x80 + v % 64])
        == Accumulate(q, [0x80 + v % 64])
        == Accumulate(64 * q + v % 64, []);
  }

  /** An escaped multi-octet sequence, the lead octet `b` then the continuations `cont`,
      decodes to the code point it carries. */
  lemma DecodeEscapeSequence(b: nat, cont: seq<nat>, t: string, v: int)
    requires Carries(b, cont, v)
    ensures DecodeEscape(EscapeByte(b) + (EscapeBytes(cont) + t)) == Some((v as char, 3 * (|cont| + 1)))
  {
    var s := EscapeByte(b) + (EscapeBytes(cont) + t);
    ByteAtEscape(b, EscapeBytes(cont) + t);
    assert s[3..] == EscapeBytes(cont) + t;
    ContinuationsEscaped(cont, t);
    DecodeEscapeOf(s, b, cont, v);
  }

  lemma DecodeEscapeOf(s: string, b: nat, cont: seq<nat>, v: int)
    requires |s| > 0 && s[0] == '%' && ByteAt(s) == Some(b)
    requires 2 <= LeadingOnes(b) <= 4
    requires Continuations(s[3..], LeadingOnes(b) - 1) == Some(cont)
    requires WellFormed(LeadingOnes(b), v) && Accumulate(b - LeadMarker(LeadingOnes(b)), cont) == v
    ensures DecodeEscape(s) == Some((v as char, 3 * LeadingOnes(b)))
  {
  }

  /** The escapes `encodeURIComponent` writes for an escaped character decode back to it. */
  lemma DecodeEscapeUtf8(c: char, t: string)
    requires !Unescaped(c)
    ensures DecodeEscape(EscapeBytes(Utf8(c)) + t) == Some((c, 3 * |Utf8(c)|))
  {
    var v := c as int;
    if v < 0x80 {
      var s := EscapeBytes(Utf8(c)) + t;
      assert s == EscapeByte(v) + t;
      ByteAtEscape(v, t);
    } else {
      MultiOctet(c, t);
    }
  }

  /** A character of two to four octets: the lead octet, then its continuations. */
  lemma MultiOctet(c: char, t: string)
    requires c as int >= 0x80
    ensures DecodeEscape(EscapeBytes(Utf8(c)) + t) == Some((c, 3 * |Utf8(c)|))
  {
    var v := c as int;
    if v < 0x800 {
      TwoOctetChar(c, t);
    } else if v < 0x10000 {
      ThreeOctetChar(c, t);
    } else {
      FourOctetChar(c, t);
    }
  }

  lemma TwoOctetChar(c: char, t: string)
    requires 0x80 <= c as int < 0x800
    ensures DecodeEscape(EscapeBytes(Utf8(c)) + t) == Some((c, 3 * |Utf8(c)|))
  {
    var v := c as int;
    var b, cont := 0xC0 + v / 64, [0x80 + v % 64];
    assert Utf8(c) == [b] + cont;
    TwoOctets(v, b, cont);
    EscapeCons(Utf8(c), b, cont, t);
    DecodeEscapeSequence(b, cont, t, v);
  }

  lemma ThreeOctetChar(c: char, t: string)
    requires 0x800 <= c as int < 0x10000
    ensures DecodeEscape(EscapeBytes(Utf8(c)) + t) == Some((c, 3 * |Utf8(c)|))
  {
    var v := c as int;
    var b, cont := 0xE0 + v / 4096, [0x80 + v / 64 % 64, 0x80 + v % 64];
    assert Utf8(c) == [b] + cont;
    ThreeOctets(v, b, cont);
    EscapeCons(Utf8(c), b, cont, t);
    DecodeEscapeSequence(b, cont, t, v);
  }

  lemma FourOctetChar(c: char, t: string)
    requires 0x10000 <= c as int
    ensures DecodeEscape(EscapeBytes(Utf8(c)) + t) == Some((c, 3 * |Utf8(c)|))
  {
    var v := c as int;
    var b, cont := 0xF0 + v / 262144, [0x80 + v / 4096 % 64, 0x80 + v / 64 % 64, 0x80 + v % 64];
    assert Utf8(c) == [b] + cont;
    FourOctets(v, b, cont);
    EscapeCons(Utf8(c), b, cont, t);
    DecodeEscapeSequence(b, cont, t, v);
  }

  /** The escapes of `[b] + cont`: the escape of `b`, then those of `cont`. */
  lemma EscapeCons(bs: seq<nat>, b: nat, cont: seq<nat>, t: string)
    requires bs == [b] + cont && b < 256 && AllOctets(cont)
    ensures AllOctets(bs) && EscapeBytes(bs) + t == EscapeByte(b) + (EscapeBytes(cont) + t)
  {
    assert bs[0] == b && bs[1..] == cont;
  }

  lemma DecodeEncodeChar(c: char, t: string)
    ensures Decode(EncodeChar(c) + t) ==
      match Decode(t)
      case UriError => UriError
      case Ok(u) => Ok([c] + u)
  {
    var s := EncodeChar(c) + t;
    if Unescaped(c) {
      assert s[0] == c && s[1..] == t;
    } else {
      DecodeEscapeUtf8(c, t);
      assert s[3 * |Utf8(c)|..] == t;
    }
  }

  /** decodeURIComponent(encodeURIComponent(s)) == s, for every string. */
  lemma {:induction false} DecodeEncode(s: string)
    ensures Decode(Encode(s)) == Ok(s)
    decreases |s|
  {
    if |s| > 0 {
      DecodeEncodeChar(s[0], Encode(s[1..]));
      DecodeEncode(s[1..]);
      assert s == [s[0]] + s[1..];
    }
  }

  /** Text made only of unreserved characters is its own encoding. */
  lemma {:induction false} EncodeUnescaped(s: string)
    requires forall i :: 0 <= i < |s| ==> Unescaped(s[i])
    ensures Encode(s) == s
    decreases |s|
  {
    if |s| > 0 {
      EncodeUnescaped(s[1..]);
      assert s == [s[0]] + s[1..];
    }
  }

  /** A `%` not followed by two hex digits makes the whole decoding fail, wherever it
      stands: after any text that decodes on its own. */
  lemma {:induction false} MalformedEscape(a: string, t: string)
    requires Decode(a).Ok?
    requires |t| < 2 || !IsHex(t[0]) || !IsHex(t[1])
    ensures Decode(a + "%" + t) == UriError
    decreases |a|, 1
  {
    if |a| == 0 {
      var s := a + "%" + t;
      assert s == "%" + t;
      assert ByteAt(s).None?;
    } else if a[0] != '%' {
      MalformedAfterChar(a, t);
    } else {
      DecodeTailOk(a);
      MalformedAfterEscape(a, t, DecodeEscape(a).value.1);
    }
  }

  lemma {:induction false} MalformedAfterChar(a: string, t: string)
    requires |a| > 0 && a[0] != '%' && Decode(a).Ok?
    requires |t| < 2 || !IsHex(t[0]) || !IsHex(t[1])
    ensures Decode(a + "%" + t) == UriError
    decreases |a|, 0
  {
    var s := a + "%" + t;
    assert s[0] == a[0] && s[1..] == a[1..] + "%" + t;
    MalformedEscape(a[1..], t);
  }

  lemma {:induction false} MalformedAfterEscape(a: string, t: string, k: nat)
    requires |a| > 0 && a[0] == '%' && DecodeEscape(a).Some? && DecodeEscape(a).value.1 == k
    requires Decode(a[k..]).Ok?
    requires |t| < 2 || !IsHex(t[0]) || !IsHex(t[1])
    ensures Decode(a + "%" + t) == UriError
    decreases |a|, 0
  {
    var x := "%" + t;
    MalformedEscape(a[k..], t);
    Associate(a[k..], "%", t);
    FailsAfterEscape(a, x);
    Associate(a, "%", t);
  }

  lemma Associate(a: string, b: string, c: string)
    ensures a + b + c == a + (b + c)
  {
  }

  /** Text that decodes and starts with an escape: the escape decodes, and so does the
      text after it. */
  lemma DecodeTailOk(a: string)
    requires |a| > 0 && a[0] == '%' && Decode(a).Ok?
    ensures DecodeEscape(a).Some? && Decode(a[DecodeEscape(a).value.1..]).Ok?
  {
  }

  /** A decoding escape followed by text whose decoding fails: the whole fails. */
  lemma FailsAfterEscape(a: string, x: string)
    requires |a| > 0 && a[0] == '%' && DecodeEscape(a).Some?
    requires Decode(a[DecodeEscape(a).value.1..] + x) == UriError
    ensures Decode(a + x) == UriError
  {
    var k := DecodeEscape(a).value.1;
    DecodeEscapeAppend(a, x);
    assert (a + x)[k..] == a[k..] + x;
  }

  /** An escape that decodes is read from its own characters only: what follows it does
      not change it. */
  lemma DecodeEscapeAppend(s: string, x: string)
    requires |s| > 0 && s[0] == '%' && DecodeEscape(s).Some?
    ensures DecodeEscape(s + x) == DecodeEscape(s)
  {
    var b := ByteAt(s).value;
    assert (s + x)[..3] == s[..3];
    var n := LeadingOnes(b);
    if n >= 2 {
      assert (s + x)[3..] == s[3..] + x;
      ContinuationsAppend(s[3..], x, n - 1);
    }
  }

  lemma {:induction false} ContinuationsAppend(s: string, x: string, count: nat)
    requires Continuations(s, count).Some?
    ensures Continuations(s + x, count) == Continuations(s, count)
    decreases count
  {
    if count > 0 {
      assert (s + x)[..3] == s[..3];
      assert (s + x)[3..] == s[3..] + x;
      ContinuationsAppend(s[3..], x, count - 1);
    }
  }
}
