/**
 Bytes, and the C string library calls that several services build on.  A fixed-size
 `char` buffer is a `seq<byte>` of that size; the functions below give what each library
 call leaves in the whole buffer, so that bytes a call does not write stay visible.
 */
module Bytes {

  type byte = x: int | 0 <= x < 256

  datatype Option<+T> = None | Some(value: T)

  const NUL: byte := 0
  const TAB: byte := 9
  const LF: byte := 10
  const CR: byte := 13
  const SPACE: byte := 32

  /** The whole of `s`, cut to at most `n` elements. */
  function Take<T>(s: seq<T>, n: nat): (r: seq<T>)
  {
    if n <= |s| then s[..n] else s
  }

  lemma TakeAppend<T>(a: seq<T>, b: seq<T>, n: nat)
    ensures Take(a + b, n) == Take(a, n) + Take(b, n - |Take(a, n)|)
  {
  }

  lemma SliceOfPrefix<T>(s: seq<T>, k: nat, a: nat, b: nat)
    requires a <= b <= k <= |s|
    ensures s[..k][a..b] == s[a..b]
  {
  }

  /** A text literal of the source, as bytes. */
  function Ascii(s: string): (r: seq<byte>)
    ensures |r| == |s|
    ensures forall i :: 0 <= i < |s| ==> r[i] == s[i] as int % 256
  {
    seq(|s|, i requires 0 <= i < |s| => s[i] as int % 256)
  }

  /** The same byte, or the two cases of one letter. */
  predicate SameButCase(a: byte, b: byte) {
    a == b || (65 <= a <= 90 && b == a + 32) || (97 <= a <= 122 && b == a - 32)
  }

  /** `s` is `word` in any mixture of upper and lower case. */
  predicate SpelledAs(s: seq<byte>, word: string) {
    |s| == |word| && forall i :: 0 <= i < |s| ==> SameButCase(s[i], Ascii(word)[i])
  }

  function Repeat(b: byte, n: nat): (r: seq<byte>)
    ensures |r| == n
    ensures forall i :: 0 <= i < n ==> r[i] == b
  {
    seq(n, _ => b)
  }

  predicate NulFree(s: seq<byte>) {
    forall i :: 0 <= i < |s| ==> s[i] != NUL
  }

  /** What a reader of `buf` as a C string sees: the bytes before the first NUL. */
  function CStr(buf: seq<byte>): (s: seq<byte>) {
    if buf == [] || buf[0] == NUL then [] else [buf[0]] + CStr(buf[1..])
  }

  lemma {:induction false} CStrEndsAtNul(buf: seq<byte>)
    ensures CStr(buf) <= buf && NulFree(CStr(buf))
    ensures |CStr(buf)| < |buf| ==> buf[|CStr(buf)|] == NUL
  {
    if buf != [] && buf[0] != NUL {
      CStrEndsAtNul(buf[1..]);
    }
  }

  /** The first NUL decides the C string, whatever follows it. */
  lemma {:induction false} CStrUnique(buf: seq<byte>, s: seq<byte>)
    requires s <= buf && NulFree(s)
    requires |s| == |buf| || buf[|s|] == NUL
    ensures CStr(buf) == s
  {
    var c := CStr(buf);
    CStrEndsAtNul(buf);
    assert |c| == |s|;
    assert c == buf[..|c|] && s == buf[..|s|];
  }

  /** A buffer terminated at `n` reads as its first `n` bytes do. */
  lemma TerminatedCStr(buf: seq<byte>, n: nat)
    requires n < |buf| && buf[n] == NUL
    ensures CStr(buf) == CStr(buf[..n])
  {
    var s := CStr(buf[..n]);
    CStrEndsAtNul(buf[..n]);
    CStrUnique(buf, s);
  }

  /** A line without the CR and LF bytes at its end (`ftp_strip_crlf`, `smtp_strip_crlf`). */
  function StripEnd(s: seq<byte>): (r: seq<byte>) {
    if s != [] && (s[|s| - 1] == CR || s[|s| - 1] == LF) then StripEnd(s[..|s| - 1]) else s
  }

  lemma {:induction false} StripEndNulFree(s: seq<byte>)
    requires NulFree(s)
    ensures NulFree(StripEnd(s))
  {
    if s != [] && (s[|s| - 1] == CR || s[|s| - 1] == LF) {
      StripEndNulFree(s[..|s| - 1]);
    }
  }

  /** `strncpy(dst, src, n)`: pads with NULs up to `n`, and writes nothing past `n`. */
  function StrNCpy(dst: seq<byte>, src: seq<byte>, n: nat): (r: seq<byte>)
    requires n <= |dst|
    ensures |r| == |dst|
  {
    seq(|dst|, i requires 0 <= i < |dst| =>
      if i >= n then dst[i] else if i < |src| then src[i] else NUL)
  }

  /** `vsnprintf(dst, n, ...)` where the formatted text is `text`. */
  function SnPrintf(dst: seq<byte>, text: seq<byte>, n: nat): (r: seq<byte>)
    requires 0 < n <= |dst|
    ensures |r| == |dst|
  {
    var len := if |text| < n then |text| else n - 1;
    seq(|dst|, i requires 0 <= i < |dst| =>
      if i < len then text[i] else if i == len then NUL else dst[i])
  }

  /** `strncat(dst, src, n)`: appends at most `n` bytes and a terminator. */
  function StrNCat(dst: seq<byte>, src: seq<byte>, n: nat): (r: seq<byte>)
    requires |CStr(dst)| + |Take(src, n)| < |dst|
    ensures |r| == |dst|
  {
    var s := CStr(dst) + Take(src, n);
    s + [NUL] + dst[|s| + 1..]
  }

  lemma StrNCpyReads(dst: seq<byte>, src: seq<byte>, n: nat)
    requires n < |dst| && NulFree(src)
    requires dst[n] == NUL
    ensures CStr(StrNCpy(dst, src, n)) == Take(src, n)
    ensures StrNCpy(dst, src, n)[n..] == dst[n..]
  {
    CStrUnique(StrNCpy(dst, src, n), Take(src, n));
  }

  lemma SnPrintfReads(dst: seq<byte>, text: seq<byte>, n: nat)
    requires 0 < n <= |dst| && NulFree(text)
    ensures CStr(SnPrintf(dst, text, n)) == Take(text, n - 1)
  {
    CStrUnique(SnPrintf(dst, text, n), Take(text, n - 1));
  }

  lemma StrNCatReads(dst: seq<byte>, src: seq<byte>, n: nat)
    requires |CStr(dst)| + |Take(src, n)| < |dst| && NulFree(src)
    ensures CStr(StrNCat(dst, src, n)) == CStr(dst) + Take(src, n)
  {
    CStrEndsAtNul(dst);
    CStrUnique(StrNCat(dst, src, n), CStr(dst) + Take(src, n));
  }

  function CrLf(): (r: seq<byte>) { [CR, LF] }

  /** All chunks of a stream, one after the other. */
  function Concat<T>(chunks: seq<seq<T>>): (r: seq<T>)
  {
    if chunks == [] then [] else chunks[0] + Concat(chunks[1..])
  }

  /** What `recv` returned before the peer closed, which an empty chunk stands for. */
  function Received(chunks: seq<seq<byte>>): (r: seq<seq<byte>>) {
    if chunks == [] || chunks[0] == [] then [] else [chunks[0]] + Received(chunks[1..])
  }

  lemma ReceivedNext(chunks: seq<seq<byte>>, n: nat)
    requires n < |chunks| && chunks[n] != []
    ensures Received(chunks[n..]) == [chunks[n]] + Received(chunks[n + 1..])
  {
    assert chunks[n..][1..] == chunks[n + 1..];
  }
}
