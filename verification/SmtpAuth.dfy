/**
 SMTP credentials (src/service/smtp_honeypot.c): the base64 decoder and the AUTH PLAIN
 handler that splits what it decodes.  The partner is the encoder of section 4 of
 RFC 4648 applied to the message of section 2 of RFC 4616.
 */
module SmtpAuth {
  import opened Bytes

  const BUF_SIZE: nat := 4096
  const PAD: byte := 61      // '='

  type sextet = x: int | 0 <= x < 64

  predicate Blank(c: byte) { c == CR || c == LF || c == SPACE }

  /** `decode_table`, with '=' read as zero; so is every byte outside the alphabet. */
  function Sextet(c: byte): (v: sextet) {
    if 65 <= c <= 90 then c - 65
    else if 97 <= c <= 122 then c - 71
    else if 48 <= c <= 57 then c + 4
    else if c == 43 then 62
    else if c == 47 then 63
    else 0
  }

  // ---------------------------------------------------------------- encoding, RFC 4648

  function Alphabet(v: sextet): (c: byte)
    ensures Sextet(c) == v && !Blank(c) && c != PAD && c != NUL
  {
    if v < 26 then v + 65
    else if v < 52 then v + 71
    else if v < 62 then v - 4
    else if v == 62 then 43
    else 47
  }

  /** The four characters of three bytes. */
  function Quad(x: int, y: int, z: int): (q: seq<byte>)
    requires 0 <= x < 256 && 0 <= y < 256 && 0 <= z < 256
    ensures |q| == 4
  {
    [Alphabet(x / 4), Alphabet(x % 4 * 16 + y / 16),
     Alphabet(y % 16 * 4 + z / 64), Alphabet(z % 64)]
  }

  function Encode(b: seq<byte>): (e: seq<byte>) {
    if b == [] then []
    else if |b| == 1 then Quad(b[0], 0, 0)[..2]
    else if |b| == 2 then Quad(b[0], b[1], 0)[..3]
    else Quad(b[0], b[1], b[2]) + Encode(b[3..])
  }

  function Padding(b: seq<byte>): (n: nat) {
    if |b| >= 3 then Padding(b[3..]) else if b == [] then 0 else 3 - |b|
  }

  function EncodePadded(b: seq<byte>): (e: seq<byte>) {
    Encode(b) + Repeat(PAD, Padding(b))
  }

  /** Only the alphabet has values other than zero. */
  lemma SextetIsOfAlphabet(c: byte)
    ensures Sextet(c) != 0 ==> Alphabet(Sextet(c)) == c
  {
  }

  // ---------------------------------------------------------------- decoding

  function Strip(input: seq<byte>): (r: seq<byte>) {
    if input == [] then []
    else if Blank(input[0]) then Strip(input[1..])
    else [input[0]] + Strip(input[1..])
  }

  /** The bytes of one group of `valid` characters; missing ones count as zero. */
  function GroupBytes(s: seq<sextet>, valid: nat): (r: seq<byte>)
    requires |s| == 4 && 2 <= valid <= 4
  {
    [Byte0(s[0], s[1]), Byte1(s[1], s[2]), Byte2(s[2], s[3])][..valid - 1]
  }

  /** The three bytes that four sextets spell. */
  function Byte0(s0: int, s1: int): (b: byte)
    requires 0 <= s0 < 64 && 0 <= s1 < 64
  {
    s0 * 4 + s1 / 16
  }

  function Byte1(s1: int, s2: int): (b: byte)
    requires 0 <= s1 < 64 && 0 <= s2 < 64
  {
    s1 % 16 * 16 + s2 / 4
  }

  function Byte2(s2: int, s3: int): (b: byte)
    requires 0 <= s2 < 64 && 0 <= s3 < 64
  {
    s2 % 4 * 64 + s3
  }

  function GroupSextets(f: seq<byte>): (s: seq<sextet>)
    ensures |s| == 4
  {
    seq(4, i requires 0 <= i < 4 => if i < |f| then Sextet(f[i]) else 0)
  }

  /** The decoding of characters without blanks, with no bound on the output. */
  function Decode(f: seq<byte>): (r: seq<byte>) {
    if |f| < 2 then []
    else if |f| < 4 then GroupBytes(GroupSextets(f), |f|)
    else GroupBytes(GroupSextets(f[..4]), 4) + Decode(f[4..])
  }

  // ---------------------------------------------------------------- round trips

  lemma DecodeFour(a: byte, b: byte, c: byte, d: byte, rest: seq<byte>)
    ensures Decode([a, b, c, d] + rest) ==
            [Byte0(Sextet(a), Sextet(b)), Byte1(Sextet(b), Sextet(c)), Byte2(Sextet(c), Sextet(d))]
            + Decode(rest)
  {
    var f := [a, b, c, d] + rest;
    assert f[..4] == [a, b, c, d] && f[4..] == rest;
  }

  lemma QuadInverts(x: int, y: int, z: int)
    requires 0 <= x < 256 && 0 <= y < 256 && 0 <= z < 256
    ensures Byte0(x / 4, x % 4 * 16 + y / 16) == x
    ensures Byte1(x % 4 * 16 + y / 16, y % 16 * 4 + z / 64) == y
    ensures Byte2(y % 16 * 4 + z / 64, z % 64) == z
  {
  }

  lemma QuadSpells(x: byte, y: byte, z: byte)
    ensures var q := Quad(x, y, z);
            && Byte0(Sextet(q[0]), Sextet(q[1])) == x
            && Byte1(Sextet(q[1]), Sextet(q[2])) == y
            && Byte2(Sextet(q[2]), Sextet(q[3])) == z
  {
    QuadInverts(x, y, z);
  }

  lemma DecodeQuad(x: byte, y: byte, z: byte, rest: seq<byte>)
    ensures Decode(Quad(x, y, z) + rest) == [x, y, z] + Decode(rest)
  {
    var q := Quad(x, y, z);
    assert q == [q[0], q[1], q[2], q[3]];
    DecodeFour(q[0], q[1], q[2], q[3], rest);
    QuadSpells(x, y, z);
  }

  lemma DecodePair(a: byte, b: byte)
    ensures Decode([a, b]) == [Byte0(Sextet(a), Sextet(b))]
  {
    var g := GroupSextets([a, b]);
    assert g[0] == Sextet(a) && g[1] == Sextet(b);
  }

  lemma DecodeTriple(a: byte, b: byte, c: byte)
    ensures Decode([a, b, c]) == [Byte0(Sextet(a), Sextet(b)), Byte1(Sextet(b), Sextet(c))]
  {
    var g := GroupSextets([a, b, c]);
    assert g[0] == Sextet(a) && g[1] == Sextet(b) && g[2] == Sextet(c);
  }

  lemma DecodeCutQuad(x: byte, y: byte, z: byte)
    ensures Decode(Quad(x, y, z)[..2]) == [x]
    ensures Decode(Quad(x, y, z)[..3]) == [x, y]
  {
    var q := Quad(x, y, z);
    QuadSpells(x, y, z);
    DecodePair(q[0], q[1]);
    DecodeTriple(q[0], q[1], q[2]);
    assert q[..2] == [q[0], q[1]] && q[..3] == [q[0], q[1], q[2]];
  }

  lemma Byte1Vanishes(s: int, v: int)
    requires 0 <= v < 4 && s == v * 16
    ensures Byte1(s, Sextet(PAD)) == NUL
  {
    assert s == 0 || s == 16 || s == 32 || s == 48;
  }

  lemma PadsVanish()
    ensures Byte2(Sextet(PAD), Sextet(PAD)) == NUL
  {
  }

  lemma Byte2Vanishes(s: int, w: int)
    requires 0 <= w < 16 && s == w * 4
    ensures Byte2(s, Sextet(PAD)) == NUL
  {
  }

  lemma LowSextets(x: byte, y: byte, z: byte) returns (v: int, w: int)
    ensures 0 <= v < 4 && (y == 0 ==> Sextet(Quad(x, y, z)[1]) == v * 16)
    ensures 0 <= w < 16 && (z == 0 ==> Sextet(Quad(x, y, z)[2]) == w * 4)
  {
    v, w := x % 4, y % 16;
  }

  lemma DecodeEnds(q: seq<byte>, a: byte, b: byte)
    requires |q| == 4
    ensures Decode(q[..2] + [a, b]) ==
            [Byte0(Sextet(q[0]), Sextet(q[1])), Byte1(Sextet(q[1]), Sextet(a)), Byte2(Sextet(a), Sextet(b))]
    ensures Decode(q[..3] + [a]) ==
            [Byte0(Sextet(q[0]), Sextet(q[1])), Byte1(Sextet(q[1]), Sextet(q[2])), Byte2(Sextet(q[2]), Sextet(a))]
  {
    DecodeFour(q[0], q[1], a, b, []);
    DecodeFour(q[0], q[1], q[2], a, []);
    assert q[..2] + [a, b] == [q[0], q[1], a, b] + [];
    assert q[..3] + [a] == [q[0], q[1], q[2], a] + [];
  }

  /** Unpadded encodings decode to exactly the original bytes. */
  lemma {:induction false} DecodeInvertsEncode(b: seq<byte>)
    ensures Decode(Encode(b)) == b
  {
    if |b| >= 3 {
      DecodeInvertsEncode(b[3..]);
      DecodeQuad(b[0], b[1], b[2], Encode(b[3..]));
      assert b == [b[0], b[1], b[2]] + b[3..];
    } else if |b| == 2 {
      DecodeCutQuad(b[0], b[1], 0);
      assert b == [b[0], b[1]];
    } else if |b| == 1 {
      DecodeCutQuad(b[0], 0, 0);
      assert b == [b[0]];
    }
  }

  lemma PaddedTwo(x: byte, y: byte, z: byte)
    requires z == 0
    ensures Decode(Quad(x, y, z)[..3] + [PAD]) == [x, y, NUL]
  {
    var q := Quad(x, y, z);
    QuadSpells(x, y, z);
    var v, w := LowSextets(x, y, z);
    Byte2Vanishes(Sextet(q[2]), w);
    DecodeEnds(q, PAD, PAD);
  }

  lemma PaddedOne(x: byte, y: byte, z: byte)
    requires y == 0
    ensures Decode(Quad(x, y, z)[..2] + [PAD, PAD]) == [x, NUL, NUL]
  {
    var q := Quad(x, y, z);
    QuadSpells(x, y, z);
    var v, w := LowSextets(x, y, z);
    Byte1Vanishes(Sextet(q[1]), v);
    PadsVanish();
    DecodeEnds(q, PAD, PAD);
  }

  lemma EncodeOne(b: seq<byte>) returns (q: seq<byte>)
    requires |b| == 1
    ensures |q| == 4 && Encode(b) == q[..2]
    ensures Decode(q[..2] + [PAD, PAD]) == b + [NUL, NUL]
  {
    q := Quad(b[0], 0, 0);
    PaddedOne(b[0], 0, 0);
    assert b == [b[0]];
  }

  lemma EncodeTwo(b: seq<byte>) returns (q: seq<byte>)
    requires |b| == 2
    ensures |q| == 4 && Encode(b) == q[..3]
    ensures Decode(q[..3] + [PAD]) == b + [NUL]
  {
    q := Quad(b[0], b[1], 0);
    PaddedTwo(b[0], b[1], 0);
    assert b == [b[0], b[1]];
  }

  /** In a padded encoding each '=' adds one zero byte. */
  lemma {:induction false} DecodeInvertsEncodePadded(b: seq<byte>)
    ensures Decode(EncodePadded(b)) == b + Repeat(NUL, Padding(b))
  {
    if |b| >= 3 {
      DecodeInvertsEncodePadded(b[3..]);
      DecodeQuad(b[0], b[1], b[2], EncodePadded(b[3..]));
      assert EncodePadded(b) == Quad(b[0], b[1], b[2]) + EncodePadded(b[3..]);
      assert b == [b[0], b[1], b[2]] + b[3..];
    } else if |b| == 2 {
      var q := EncodeTwo(b);
      assert Repeat(PAD, 1) == [PAD] && Repeat(NUL, 1) == [NUL];
    } else if |b| == 1 {
      var q := EncodeOne(b);
      assert Repeat(PAD, 2) == [PAD, PAD] && Repeat(NUL, 2) == [NUL, NUL];
    }
  }

  lemma {:induction false} StripAppend(x: seq<byte>, y: seq<byte>)
    ensures Strip(x + y) == Strip(x) + Strip(y)
  {
    if x == [] {
      assert x + y == y;
    } else {
      StripAppend(x[1..], y);
      assert (x + y)[1..] == x[1..] + y && (x + y)[0] == x[0];
      assert [x[0]] + (Strip(x[1..]) + Strip(y)) == ([x[0]] + Strip(x[1..])) + Strip(y);
    }
  }

  /** Blanks inserted anywhere never change what is decoded. */
  lemma BlanksDoNotMatter(x: seq<byte>, y: seq<byte>, blanks: seq<byte>)
    requires forall i :: 0 <= i < |blanks| ==> blanks[i] == CR || blanks[i] == LF || blanks[i] == SPACE
    ensures Strip(x + blanks + y) == Strip(x + y)
  {
    StripAppend(x + blanks, y);
    StripAppend(x, blanks);
    StripAppend(x, y);
    StripBlanks(blanks);
  }

  lemma {:induction false} StripBlanks(blanks: seq<byte>)
    requires forall i :: 0 <= i < |blanks| ==> Blank(blanks[i])
    ensures Strip(blanks) == []
  {
    if blanks != [] {
      StripBlanks(blanks[1..]);
    }
  }

  lemma {:induction false} StripIsIdentity(f: seq<byte>)
    requires forall i :: 0 <= i < |f| ==> !Blank(f[i])
    ensures Strip(f) == f
  {
    if f != [] {
      StripIsIdentity(f[1..]);
    }
  }

  predicate Clean(f: seq<byte>) { forall i :: 0 <= i < |f| ==> !Blank(f[i]) && f[i] != NUL }

  lemma QuadIsClean(x: byte, y: byte, z: byte)
    ensures var q := Quad(x, y, z); Clean(q) && Clean(q[..2]) && Clean(q[..3])
  {
  }

  lemma {:induction false} EncodingIsClean(b: seq<byte>)
    ensures Clean(Encode(b))
  {
    if |b| >= 3 {
      QuadIsClean(b[0], b[1], b[2]);
      EncodingIsClean(b[3..]);
    } else if |b| == 2 {
      QuadIsClean(b[0], b[1], 0);
    } else if |b| == 1 {
      QuadIsClean(b[0], 0, 0);
    }
  }

  // ---------------------------------------------------------------- the code

  /** What `base64_decode` leaves in an output of `size` bytes, before its terminator. */
  function Decoded(input: seq<byte>, size: nat): (r: seq<byte>)
    requires size > 0
  {
    Take(Decode(Strip(input)), size - 1)
  }

  /** The inner loop: up to four characters that are not blank, from position `i` on. */
  method ReadGroup(input: seq<byte>, start: nat) returns (i: nat, s: seq<sextet>, valid: nat, ghost chars: seq<byte>)
    requires start <= |input|
    ensures start <= i <= |input| && (start < |input| ==> start < i)
    ensures |chars| == valid <= 4 && s == GroupSextets(chars)
    ensures valid < 4 ==> i == |input|
    ensures Strip(input[start..]) == chars + Strip(input[i..])
  {
    i, s, valid, chars := start, [0, 0, 0, 0], 0, [];
    while valid < 4 && i < |input|
      invariant start <= i <= |input| && (start < i || valid == 0)
      invariant valid <= 4 && |chars| == valid && s == GroupSextets(chars)
      invariant Strip(input[start..]) == chars + Strip(input[i..])
      invariant valid > 0 ==> i > start
      decreases |input| - i
    {
      var c := input[i];
      assert input[i..][1..] == input[i + 1..];
      i := i + 1;
      if c == CR || c == LF || c == SPACE {
        continue;
      }
      s := s[valid := if c == PAD then 0 else Sextet(c)];
      chars := chars + [c];
      valid := valid + 1;
    }
  }

  lemma DigitsOf(triple: int, a: int, b: int, c: int)
    requires triple == a * 0x10000 + b * 0x100 + c
    requires 0 <= a < 256 && 0 <= b < 256 && 0 <= c < 256
    ensures triple / 0x10000 % 0x100 == a && triple / 0x100 % 0x100 == b && triple % 0x100 == c
  {
    assert triple / 0x100 == a * 0x100 + b;
    assert triple / 0x10000 == a;
  }

  lemma TripleSpells(s0: int, s1: int, s2: int, s3: int)
    requires 0 <= s0 < 64 && 0 <= s1 < 64 && 0 <= s2 < 64 && 0 <= s3 < 64
    ensures s0 * 0x40000 + s1 * 0x1000 + s2 * 0x40 + s3
         == Byte0(s0, s1) as int * 0x10000 + Byte1(s1, s2) as int * 0x100 + Byte2(s2, s3) as int
  {
    assert s1 == s1 / 16 * 16 + s1 % 16;
    assert s2 == s2 / 4 * 4 + s2 % 4;
  }

  /** `triple` put together from four sextets and taken apart into three bytes. */
  method ShiftOut(s0: sextet, s1: sextet, s2: sextet, s3: sextet) returns (x: byte, y: byte, z: byte)
    ensures x == Byte0(s0, s1) && y == Byte1(s1, s2) && z == Byte2(s2, s3)
  {
    var triple: int := s0 as int * 0x40000 + s1 as int * 0x1000 + s2 as int * 0x40 + s3 as int;
    TripleSpells(s0, s1, s2, s3);
    DigitsOf(triple, Byte0(s0, s1), Byte1(s1, s2), Byte2(s2, s3));
    x, y, z := triple / 0x10000 % 0x100, triple / 0x100 % 0x100, triple % 0x100;
  }

  /** The writes for one group: each is skipped once only the terminator's place is left. */
  method WriteGroup(output: array<byte>, at: nat, s: seq<sextet>, valid: nat) returns (n: nat)
    requires |s| == 4 && 2 <= valid <= 4 && at < output.Length - 1
    modifies output
    ensures n == at + |Take(GroupBytes(s, valid), output.Length - 1 - at)|
    ensures output[..n] == old(output[..at]) + Take(GroupBytes(s, valid), output.Length - 1 - at)
  {
    var x, y, z := ShiftOut(s[0], s[1], s[2], s[3]);
    assert GroupBytes(s, valid) == [x, y, z][..valid - 1];
    n := WriteBytes(output, at, x, y, z, valid);
  }

  method WriteBytes(output: array<byte>, at: nat, x: byte, y: byte, z: byte, valid: nat) returns (n: nat)
    requires 2 <= valid <= 4 && at < output.Length - 1
    modifies output
    ensures n == at + |Take([x, y, z][..valid - 1], output.Length - 1 - at)|
    ensures output[..n] == old(output[..at]) + Take([x, y, z][..valid - 1], output.Length - 1 - at)
  {
    n := at;
    output[n] := x;
    n := n + 1;
    if valid > 2 && n < output.Length - 1 {
      output[n] := y;
      n := n + 1;
    }
    if valid > 3 && n < output.Length - 1 {
      output[n] := z;
      n := n + 1;
    }
    assert output[..n] == old(output[..at]) + [x, y, z][..n - at];
    assert Take([x, y, z][..valid - 1], output.Length - 1 - at) == [x, y, z][..n - at];
  }

  /** `base64_decode` */
  method Base64Decode(input: seq<byte>, output: array<byte>) returns (n: nat)
    requires output.Length > 0
    modifies output
    ensures n < output.Length && output[n] == NUL
    ensures output[..n] == Decoded(input, output.Length)
  {
    ghost var done := [];
    var i := 0;
    n := 0;
    assert input[0..] == input;
    assert [] + Decode(Strip(input)) == Decode(Strip(input));
    while i < |input| && n < output.Length - 1
      invariant i <= |input| && n < output.Length
      invariant output[..n] == Take(done, output.Length - 1)
      invariant Decode(Strip(input)) == done + Decode(Strip(input[i..]))
      decreases |input| - i
    {
      i, n, done := DecodeNext(input, i, output, n, done);
    }
    TakeAppend(done, Decode(Strip(input[i..])), output.Length - 1);
    output[n] := NUL;
  }

  /** One turn of the outer loop; a group of less than two characters ends it. */
  method DecodeNext(input: seq<byte>, start: nat, output: array<byte>, at: nat, ghost done: seq<byte>)
    returns (i: nat, n: nat, ghost done': seq<byte>)
    requires start < |input| && at < output.Length - 1
    requires output[..at] == Take(done, output.Length - 1)
    modifies output
    ensures start < i <= |input| && n < output.Length
    ensures output[..n] == Take(done', output.Length - 1)
    ensures done + Decode(Strip(input[start..])) == done' + Decode(Strip(input[i..]))
  {
    var s, valid;
    ghost var chars;
    i, s, valid, chars := ReadGroup(input, start);
    ghost var rest := Strip(input[i..]);
    GroupStep(done, chars, rest);
    if valid < 2 {
      n, done' := at, done;
      return;
    }
    TakeAppend(done, GroupBytes(s, valid), output.Length - 1);
    n := WriteGroup(output, at, s, valid);
    done' := done + GroupBytes(s, valid);
  }

  lemma GroupStep(done: seq<byte>, chars: seq<byte>, rest: seq<byte>)
    requires |chars| <= 4 && (|chars| < 4 ==> rest == [])
    ensures |chars| < 2 ==> done + Decode(chars + rest) == done + Decode(rest)
    ensures |chars| >= 2 ==>
              var g := GroupBytes(GroupSextets(chars), |chars|);
              done + Decode(chars + rest) == (done + g) + Decode(rest)
  {
    if |chars| >= 2 {
      var g := GroupBytes(GroupSextets(chars), |chars|);
      DecodeGroup(chars, rest);
      assert done + (g + Decode(rest)) == (done + g) + Decode(rest);
    } else {
      assert chars + rest == chars;
    }
  }

  lemma DecodeGroup(chars: seq<byte>, rest: seq<byte>)
    requires 2 <= |chars| <= 4 && (|chars| < 4 ==> rest == [])
    ensures Decode(chars + rest) == GroupBytes(GroupSextets(chars), |chars|) + Decode(rest)
  {
    if |chars| == 4 {
      assert (chars + rest)[..4] == chars && (chars + rest)[4..] == rest;
    } else {
      assert chars + rest == chars;
    }
  }

  // ---------------------------------------------------------------- AUTH PLAIN

  datatype Credentials = Credentials(user: seq<byte>, password: seq<byte>)

  /** What the two `memchr` calls make of `d`, with a NUL after it. */
  function Split(d: seq<byte>): (c: Credentials) {
    var authzid := CStr(d);
    if |authzid| >= |d| then Credentials([], [])
    else SplitRest(d[|authzid| + 1..])
  }

  function SplitRest(rest: seq<byte>): (c: Credentials) {
    var user := CStr(rest);
    Credentials(user, if |user| >= |rest| then [] else CStr(rest[|user| + 1..]))
  }

  /** The credentials `smtp_handle_auth_plain` logs for the base64 text `data`. */
  function Captured(data: seq<byte>): (c: Credentials) {
    Split(Decoded(Take(data, BUF_SIZE - 1), BUF_SIZE))
  }

  function PlainMessage(authzid: seq<byte>, user: seq<byte>, password: seq<byte>): (m: seq<byte>) {
    authzid + [NUL] + user + [NUL] + password
  }

  lemma SplitRestUndoes(user: seq<byte>, password: seq<byte>, zeros: seq<byte>)
    requires NulFree(user) && NulFree(password) && (zeros == [] || zeros[0] == NUL)
    ensures SplitRest(user + [NUL] + (password + zeros)) == Credentials(user, password)
  {
    var rest := user + [NUL] + (password + zeros);
    CStrUnique(rest, user);
    assert rest[|user| + 1..] == password + zeros;
    CStrUnique(password + zeros, password);
  }

  lemma SplitUndoesPlain(authzid: seq<byte>, user: seq<byte>, password: seq<byte>, zeros: nat)
    requires NulFree(authzid) && NulFree(user) && NulFree(password)
    ensures Split(PlainMessage(authzid, user, password) + Repeat(NUL, zeros)) == Credentials(user, password)
  {
    var d := PlainMessage(authzid, user, password) + Repeat(NUL, zeros);
    CStrUnique(d, authzid);
    assert d[|authzid| + 1..] == user + [NUL] + (password + Repeat(NUL, zeros));
    SplitRestUndoes(user, password, Repeat(NUL, zeros));
  }

  /** Without its first NUL a message has neither name nor password, without the second it
      has no password. */
  lemma MissingNuls(authzid: seq<byte>, user: seq<byte>)
    requires NulFree(authzid) && NulFree(user)
    ensures Split(authzid) == Credentials([], [])
    ensures Split(authzid + [NUL] + user) == Credentials(user, [])
  {
    CStrUnique(authzid, authzid);
    var d := authzid + [NUL] + user;
    CStrUnique(d, authzid);
    assert d[|authzid| + 1..] == user;
    CStrUnique(user, user);
  }

  lemma {:induction false} DecodeIsShorter(f: seq<byte>)
    ensures |Decode(f)| <= |f|
  {
    if |f| >= 4 {
      DecodeIsShorter(f[4..]);
    }
  }

  lemma {:induction false} StripIsShorter(f: seq<byte>)
    ensures |Strip(f)| <= |f|
  {
    if f != [] {
      StripIsShorter(f[1..]);
    }
  }

  lemma DecodedFits(data: seq<byte>)
    requires |data| < BUF_SIZE
    ensures Decoded(Take(data, BUF_SIZE - 1), BUF_SIZE) == Decode(Strip(data))
  {
    StripIsShorter(data);
    DecodeIsShorter(Strip(data));
    TakeAll(data, BUF_SIZE - 1);
    TakeAll(Decode(Strip(data)), BUF_SIZE - 1);
  }

  lemma TakeAll(s: seq<byte>, n: nat)
    requires |s| <= n
    ensures Take(s, n) == s
  {
  }

  /** The base64 text of AUTH PLAIN: its argument, or else the line received after the
      prompt.  There is none when the prompt cannot be sent or no line comes. */
  function AuthText(arg: seq<byte>, sent: bool, line: Option<seq<byte>>): (r: Option<seq<byte>>) {
    if CStr(arg) != [] then Some(CStr(arg))
    else if !sent || line.None? then None
    else Some(StripEnd(CStr(line.value)))
  }

  /** The credentials that are logged, if any. */
  function AuthPlain(arg: seq<byte>, sent: bool, line: Option<seq<byte>>): (c: Option<Credentials>) {
    match AuthText(arg, sent, line) case None => None case Some(text) => Some(Captured(text))
  }

  lemma CapturesEncoded(authzid: seq<byte>, user: seq<byte>, password: seq<byte>, data: seq<byte>)
    requires NulFree(authzid) && NulFree(user) && NulFree(password)
    requires |data| < BUF_SIZE
    requires var m := PlainMessage(authzid, user, password);
             Strip(data) == Encode(m) || Strip(data) == EncodePadded(m)
    ensures Captured(data) == Credentials(user, password)
  {
    var m := PlainMessage(authzid, user, password);
    DecodedFits(data);
    DecodeInvertsEncode(m);
    DecodeInvertsEncodePadded(m);
    SplitUndoesPlain(authzid, user, password, Padding(m));
    SplitUndoesPlain(authzid, user, password, 0);
    assert m + Repeat(NUL, 0) == m;
  }

  lemma {:induction false} StripKeepsNul(f: seq<byte>)
    requires NulFree(Strip(f))
    ensures NulFree(f)
  {
    if f != [] {
      if !Blank(f[0]) {
        assert Strip(f)[1..] == Strip(f[1..]);
        assert Strip(f)[0] == f[0];
      }
      StripKeepsNul(f[1..]);
      assert forall i :: 1 <= i < |f| ==> f[i] == f[1..][i - 1];
    }
  }

  lemma {:induction false} StripEndIsBlank(f: seq<byte>)
    ensures Strip(StripEnd(f)) == Strip(f) && |StripEnd(f)| <= |f|
  {
    if f != [] && (f[|f| - 1] == CR || f[|f| - 1] == LF) {
      var init, c := f[..|f| - 1], f[|f| - 1];
      StripEndIsBlank(init);
      StripAppend(init, [c]);
      assert f == init + [c];
      StripBlanks([c]);
    }
  }

  /** Data that spells an encoding is a C string that is not empty. */
  lemma EncodedIsText(m: seq<byte>, data: seq<byte>)
    requires m != [] && (Strip(data) == Encode(m) || Strip(data) == EncodePadded(m))
    ensures data != [] && CStr(data) == data
  {
    EncodingIsClean(m);
    EncodeNonEmpty(m);
    StripKeepsNul(data);
    CStrUnique(data, data);
  }

  lemma EncodeNonEmpty(m: seq<byte>)
    requires m != []
    ensures Encode(m) != []
  {
  }

  /** AUTH PLAIN end to end: whatever a client encodes, padded or not and with blanks
      anywhere, as the argument or on the next line, its user name and password are
      captured exactly. */
  lemma AuthPlainRoundTrip(authzid: seq<byte>, user: seq<byte>, password: seq<byte>, data: seq<byte>)
    requires NulFree(authzid) && NulFree(user) && NulFree(password)
    requires |data| < BUF_SIZE
    requires var m := PlainMessage(authzid, user, password);
             Strip(data) == Encode(m) || Strip(data) == EncodePadded(m)
    ensures forall sent, line :: AuthPlain(data, sent, line) == Some(Credentials(user, password))
    ensures AuthPlain([], true, Some(data)) == Some(Credentials(user, password))
  {
    var creds := Credentials(user, password);
    EncodedIsText(PlainMessage(authzid, user, password), data);
    StripEndIsBlank(data);
    CapturesEncoded(authzid, user, password, data);
    CapturesEncoded(authzid, user, password, StripEnd(data));
    TextIsCaptured(data, creds);
  }

  lemma TextIsCaptured(data: seq<byte>, creds: Credentials)
    requires data != [] && CStr(data) == data
    requires Captured(data) == creds && Captured(StripEnd(data)) == creds
    ensures forall sent, line :: AuthPlain(data, sent, line) == Some(creds)
    ensures AuthPlain([], true, Some(data)) == Some(creds)
  {
  }

  /** An encoder's own output, with no blanks in it, is such data. */
  lemma EncodingsAreAccepted(m: seq<byte>)
    ensures Strip(Encode(m)) == Encode(m) && Strip(EncodePadded(m)) == EncodePadded(m)
  {
    EncodingIsClean(m);
    StripIsIdentity(Encode(m));
    StripIsIdentity(EncodePadded(m));
  }

  /** `memchr(buf + start, 0, end - start)`, with `end` for a miss. */
  method FindNul(buf: array<byte>, start: nat, end: nat) returns (p: nat)
    requires start <= end <= buf.Length
    ensures p == start + |CStr(buf[start..end])|
    ensures p <= end && (p < end ==> buf[p] == NUL)
  {
    p := start;
    while p < end && buf[p] != NUL
      invariant start <= p <= end
      invariant forall i :: start <= i < p ==> buf[i] != NUL
    {
      p := p + 1;
    }
    CStrUnique(buf[start..end], buf[start..p]);
  }

  /** A pointer into the decoded buffer, read as a C string. */
  method ReadFrom(decoded: array<byte>, start: nat, n: nat) returns (s: seq<byte>)
    requires start <= n < decoded.Length && decoded[n] == NUL
    ensures s == CStr(decoded[start..n])
  {
    TerminatedCStr(decoded[start..], n - start);
    assert decoded[start..][..n - start] == decoded[start..n];
    s := CStr(decoded[start..]);
  }

  method SplitUser(decoded: array<byte>, start: nat, n: nat) returns (c: Credentials)
    requires start <= n < decoded.Length && decoded[n] == NUL
    ensures c == SplitRest(decoded[start..n])
  {
    var user := ReadFrom(decoded, start, n);
    var q := FindNul(decoded, start, n);
    var password := [];
    if q < n {
      password := ReadFrom(decoded, q + 1, n);
      SliceTail(decoded[..], start, q + 1, n);
    }
    return Credentials(user, password);
  }

  lemma SliceTail(s: seq<byte>, a: nat, b: nat, n: nat)
    requires a <= b <= n <= |s|
    ensures s[a..n][b - a..] == s[b..n]
  {
  }

  /** The credential split of `smtp_handle_auth_plain`, on the decoded buffer. */
  method SplitCredentials(decoded: array<byte>, n: nat) returns (c: Credentials)
    requires n < decoded.Length && decoded[n] == NUL
    ensures c == Split(decoded[..n])
  {
    c := Credentials([], []);
    if n > 0 {
      var p := FindNul(decoded, 0, n);
      assert decoded[0..n] == decoded[..n];
      if p < n {
        assert decoded[..n][p + 1..] == decoded[p + 1..n];
        c := SplitUser(decoded, p + 1, n);
      }
    }
  }

  /** `smtp_handle_auth_plain`; `sent` and `line` are what sending the prompt and
      `smtp_recv_line` come to, if they are called. */
  method HandleAuthPlain(arg: seq<byte>, sent: bool, line: Option<seq<byte>>) returns (prompted: bool, c: Option<Credentials>)
    ensures prompted <==> CStr(arg) == []
    ensures c == AuthPlain(arg, sent, line)
    ensures c.None? <==> CStr(arg) == [] && (!sent || line.None?)
  {
    var text := CStr(arg);
    prompted := |text| == 0;
    if prompted {
      if !sent || line.None? {
        return prompted, None;
      }
      text := StripEnd(CStr(line.value));
    }
    var authData := Take(text, BUF_SIZE - 1);
    var decoded := new byte[BUF_SIZE];
    var n := Base64Decode(authData, decoded);
    var split := SplitCredentials(decoded, n);
    c := Some(split);
  }
}
