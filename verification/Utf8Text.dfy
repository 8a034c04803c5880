/**
 UTF-8 (RFC 3629): a reader that goes byte by byte, and the encoder of code points that it
 is the reader of.
 */
module Utf8Text {
  import opened Bytes

  /** Between the bytes of a text: `n` continuation bytes are due, the next one from `lo`
      to `hi`. */
  datatype Due = Due(n: nat, lo: byte, hi: byte)

  const NONE_DUE := Due(0, 0x80, 0xBF)

  /** Section 4 of RFC 3629, byte by byte. */
  function Next(w: Due, c: byte): (r: Option<Due>) {
    if w.n > 0 then (if w.lo <= c <= w.hi then Some(Due(w.n - 1, 0x80, 0xBF)) else None)
    else if c < 0x80 then Some(NONE_DUE)
    else if 0xC2 <= c <= 0xDF then Some(Due(1, 0x80, 0xBF))
    else if c == 0xE0 then Some(Due(2, 0xA0, 0xBF))
    else if c == 0xED then Some(Due(2, 0x80, 0x9F))
    else if 0xE1 <= c <= 0xEF then Some(Due(2, 0x80, 0xBF))
    else if c == 0xF0 then Some(Due(3, 0x90, 0xBF))
    else if 0xF1 <= c <= 0xF3 then Some(Due(3, 0x80, 0xBF))
    else if c == 0xF4 then Some(Due(3, 0x80, 0x8F))
    else None
  }

  predicate Utf8From(t: seq<byte>, w: Due) {
    if t == [] then w.n == 0
    else match Next(w, t[0]) case None => false case Some(w') => Utf8From(t[1..], w')
  }

  predicate Utf8(t: seq<byte>) { Utf8From(t, NONE_DUE) }

  predicate Continues(c: byte) { 0x80 <= c <= 0xBF }

  /** A due range lies among the continuation bytes. */
  predicate Proper(w: Due) { 0x80 <= w.lo && w.hi <= 0xBF }

  lemma ProperNext(w: Due, c: byte)
    requires Proper(w)
    ensures Next(w, c).Some? ==> Proper(Next(w, c).value)
  {
  }

  /** A prefix of a text is one exactly when it does not end inside a character. */
  lemma {:induction false} CutFromIff(s: seq<byte>, n: nat, w: Due)
    requires n <= |s| && Proper(w) && Utf8From(s, w)
    ensures Utf8From(s[..n], w) <==> n == |s| || !Continues(s[n])
  {
    if n > 0 {
      ProperNext(w, s[0]);
      CutFromIff(s[1..], n - 1, Next(w, s[0]).value);
      assert s[..n][1..] == s[1..][..n - 1];
    }
  }

  // ---------------------------------------------------------------- characters

  /** A code point that is no surrogate. */
  type scalar = p: int | 0 <= p < 0xD800 || 0xE000 <= p < 0x11_0000

  /** Section 3 of RFC 3629. */
  function EncodePoint(p: scalar): (r: seq<byte>)
    ensures |r| >= 1
  {
    if p < 0x80 then [p]
    else if p < 0x800 then [0xC0 + p / 64, 0x80 + p % 64]
    else if p < 0x1_0000 then [0xE0 + p / 4096, 0x80 + p / 64 % 64, 0x80 + p % 64]
    else [0xF0 + p / 262144, 0x80 + p / 4096 % 64, 0x80 + p / 64 % 64, 0x80 + p % 64]
  }

  function EncodePoints(ps: seq<scalar>): (r: seq<byte>) {
    if ps == [] then [] else EncodePoint(ps[0]) + EncodePoints(ps[1..])
  }

  lemma Utf8Step(c: byte, rest: seq<byte>, w: Due, w': Due)
    requires Next(w, c) == Some(w')
    ensures Utf8From([c] + rest, w) <==> Utf8From(rest, w')
  {
    assert ([c] + rest)[1..] == rest;
  }

  lemma Utf8Two(a: byte, b: byte, rest: seq<byte>)
    requires 0xC2 <= a <= 0xDF && Continues(b)
    ensures Utf8([a, b] + rest) <==> Utf8(rest)
  {
    Utf8Step(b, rest, Due(1, 0x80, 0xBF), NONE_DUE);
    Utf8Step(a, [b] + rest, NONE_DUE, Due(1, 0x80, 0xBF));
    assert [a, b] + rest == [a] + ([b] + rest);
  }

  /** The last two bytes of a character. */
  lemma Utf8Tail(b: byte, c: byte, rest: seq<byte>, w: Due)
    requires w.n == 2 && w.lo <= b <= w.hi && Continues(c)
    ensures Utf8From([b] + ([c] + rest), w) <==> Utf8(rest)
  {
    Utf8Step(c, rest, Due(1, 0x80, 0xBF), NONE_DUE);
    Utf8Step(b, [c] + rest, w, Due(1, 0x80, 0xBF));
  }

  lemma Utf8Three(a: byte, b: byte, c: byte, rest: seq<byte>)
    requires 0xE0 <= a <= 0xEF && Continues(b) && Continues(c)
    requires (a == 0xE0 ==> b >= 0xA0) && (a == 0xED ==> b <= 0x9F)
    ensures Utf8([a, b, c] + rest) <==> Utf8(rest)
  {
    var w := Next(NONE_DUE, a).value;
    Utf8Tail(b, c, rest, w);
    Utf8Step(a, [b] + ([c] + rest), NONE_DUE, w);
    assert [a, b, c] + rest == [a] + ([b] + ([c] + rest));
  }

  lemma Utf8Four(a: byte, b: byte, c: byte, d: byte, rest: seq<byte>)
    requires 0xF0 <= a <= 0xF4 && Continues(b) && Continues(c) && Continues(d)
    requires (a == 0xF0 ==> b >= 0x90) && (a == 0xF4 ==> b <= 0x8F)
    ensures Utf8([a, b, c, d] + rest) <==> Utf8(rest)
  {
    var w := Next(NONE_DUE, a).value;
    var tail := [c] + ([d] + rest);
    Utf8Tail(c, d, rest, Due(2, 0x80, 0xBF));
    Utf8Step(b, tail, w, Due(2, 0x80, 0xBF));
    Utf8Step(a, [b] + tail, NONE_DUE, w);
    assert [a, b, c, d] + rest == [a] + ([b] + tail);
  }

  lemma PointIsUtf8(p: scalar, rest: seq<byte>)
    ensures Utf8(EncodePoint(p) + rest) <==> Utf8(rest)
  {
    var e := EncodePoint(p);
    if p < 0x80 {
      assert ([p] + rest)[1..] == rest;
    } else if p < 0x800 {
      Utf8Two(e[0], e[1], rest);
    } else if p < 0x1_0000 {
      Utf8Three(e[0], e[1], e[2], rest);
    } else {
      Utf8Four(e[0], e[1], e[2], e[3], rest);
    }
  }

  /** The byte-by-byte reading accepts what the encoder makes of code points, */
  lemma {:induction false} EncodedIsUtf8(ps: seq<scalar>)
    ensures Utf8(EncodePoints(ps))
  {
    if ps != [] {
      EncodedIsUtf8(ps[1..]);
      PointIsUtf8(ps[0], EncodePoints(ps[1..]));
    }
  }

  /** and nothing else. */
  lemma {:induction false} Utf8IsEncoded(t: seq<byte>) returns (ps: seq<scalar>)
    requires Utf8(t)
    ensures EncodePoints(ps) == t
    decreases |t|
  {
    if t == [] {
      return [];
    }
    var p, n := FirstPoint(t);
    var rest := t[n..];
    assert t == EncodePoint(p) + rest;
    PointIsUtf8(p, rest);
    ps := Utf8IsEncoded(rest);
    assert ([p] + ps)[1..] == ps;
    ps := [p] + ps;
  }

  lemma FirstPoint(t: seq<byte>) returns (p: scalar, n: nat)
    requires t != [] && Utf8(t)
    ensures 1 <= n <= |t| && EncodePoint(p) == t[..n]
  {
    var w := Next(NONE_DUE, t[0]).value;
    assert Utf8From(t[1..], w);
    if w.n == 0 {
      p, n := t[0], 1;
    } else {
      SomeDue(t, 1, w);
      p, n := LongPoint(t, w);
    }
  }

  lemma LongPoint(t: seq<byte>, w: Due) returns (p: scalar, n: nat)
    requires |t| > 1 && Next(NONE_DUE, t[0]) == Some(w) && w.n > 0
    requires w.lo <= t[1] <= w.hi && Utf8From(t[2..], Due(w.n - 1, 0x80, 0xBF))
    ensures 1 <= n <= |t| && EncodePoint(p) == t[..n]
  {
    if w.n == 1 {
      p, n := PointOfTwo(t[0], t[1]), 2;
      assert t[..2] == [t[0], t[1]];
    } else {
      SomeDue(t, 2, Due(w.n - 1, 0x80, 0xBF));
      if w.n == 2 {
        p, n := PointOfThree(t[0], t[1], t[2]), 3;
        assert t[..3] == [t[0], t[1], t[2]];
      } else {
        SomeDue(t, 3, Due(1, 0x80, 0xBF));
        p, n := PointOfFour(t[0], t[1], t[2], t[3]), 4;
        assert t[..4] == [t[0], t[1], t[2], t[3]];
      }
    }
  }

  /** Where a continuation byte is due there is one. */
  lemma SomeDue(t: seq<byte>, i: nat, w: Due)
    requires i <= |t| && w.n > 0 && Utf8From(t[i..], w)
    ensures i < |t| && w.lo <= t[i] <= w.hi && Utf8From(t[i + 1..], Due(w.n - 1, 0x80, 0xBF))
  {
    assert t[i..][1..] == t[i + 1..];
  }

  lemma Digits(p: int, high: int, low: int)
    requires p == high * 64 + low && 0 <= low < 64
    ensures p / 64 == high && p % 64 == low
  {
  }

  function PointOfTwo(a: byte, b: byte): (p: scalar)
    requires 0xC2 <= a <= 0xDF && Continues(b)
    ensures EncodePoint(p) == [a, b]
  {
    var high, low := a as int - 0xC0, b as int - 0x80;
    Digits(high * 64 + low, high, low);
    high * 64 + low
  }

  function PointOfThree(a: byte, b: byte, c: byte): (p: scalar)
    requires 0xE0 <= a <= 0xEF && Continues(b) && Continues(c)
    requires (a == 0xE0 ==> b >= 0xA0) && (a == 0xED ==> b <= 0x9F)
    ensures EncodePoint(p) == [a, b, c]
  {
    var x, y, z := a as int - 0xE0, b as int - 0x80, c as int - 0x80;
    var high := x * 64 + y;
    var p := high * 64 + z;
    Digits(high, x, y);
    Digits(p, high, z);
    ThreeDigits(p);
    p
  }

  lemma ThreeDigits(p: int)
    requires p >= 0
    ensures p / 4096 == p / 64 / 64
  {
  }

  function PointOfFour(a: byte, b: byte, c: byte, d: byte): (p: scalar)
    requires 0xF0 <= a <= 0xF4 && Continues(b) && Continues(c) && Continues(d)
    requires (a == 0xF0 ==> b >= 0x90) && (a == 0xF4 ==> b <= 0x8F)
    ensures EncodePoint(p) == [a, b, c, d]
  {
    var x, y, z, u := a as int - 0xF0, b as int - 0x80, c as int - 0x80, d as int - 0x80;
    var top := x * 64 + y;
    var high := top * 64 + z;
    var p := high * 64 + u;
    Digits(top, x, y);
    Digits(high, top, z);
    Digits(p, high, u);
    ThreeDigits(p);
    FourDigits(p);
    p
  }

  lemma FourDigits(p: int)
    requires p >= 0
    ensures p / 262144 == p / 4096 / 64
  {
  }
}
