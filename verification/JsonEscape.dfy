/**
 Escaping of log messages for JSON output (`escape_json_string` in
 src/utilities/logger.c).  The partners are an unescaper, the string grammar of section 7
 of RFC 8259, and UTF-8 (section 4 of RFC 3629), which section 8.1 of RFC 8259 demands.
 */
module JsonEscape {
  import opened Bytes
  import opened Utf8Text

  const QUOTE: byte := 34
  const BACKSLASH: byte := 92

  /** What one byte of the message becomes. */
  function EscapeByte(c: byte): (r: seq<byte>)
    ensures 1 <= |r| <= 2
  {
    if c == QUOTE then [BACKSLASH, QUOTE]
    else if c == BACKSLASH then [BACKSLASH, BACKSLASH]
    else if c == LF then [BACKSLASH, 110]
    else if c == CR then [BACKSLASH, 114]
    else if c == TAB then [BACKSLASH, 116]
    else [c]
  }

  function Escape(s: seq<byte>): (r: seq<byte>) {
    if s == [] then [] else EscapeByte(s[0]) + Escape(s[1..])
  }

  /** How many bytes of `s` the loop takes when `j` bytes are written and it stops at `room`. */
  function Taken(s: seq<byte>, j: nat, room: nat): (n: nat)
    ensures n <= |s|
  {
    if s == [] || j >= room then 0 else 1 + Taken(s[1..], j + |EscapeByte(s[0])|, room)
  }

  /** The part of the message that ends up, escaped, in a destination of `size` bytes. */
  function Fitting(s: seq<byte>, size: nat): (r: seq<byte>)
    requires size >= 2
  {
    s[..Taken(s, 0, size - 2)]
  }

  // ---------------------------------------------------------------- unescaping

  function UnescapeByte(c: byte): (r: byte) {
    if c == 110 then LF else if c == 114 then CR else if c == 116 then TAB else c
  }

  /** Reads pairs back; a backslash with nothing after it is a split pair. */
  function Unescape(t: seq<byte>): (r: Option<seq<byte>>) {
    if t == [] then Some([])
    else if t[0] == BACKSLASH then
      if |t| == 1 then None
      else
        var rest := Unescape(t[2..]);
        if rest.None? then None else Some([UnescapeByte(t[1])] + rest.value)
    else
      var rest := Unescape(t[1..]);
      if rest.None? then None else Some([t[0]] + rest.value)
  }

  /** The grammar of a JSON string's body, as far as it speaks of single bytes: no bare
      quote, no control byte, only known escapes. */
  predicate StringBody(t: seq<byte>) {
    t == [] ||
    if t[0] == BACKSLASH then |t| >= 2 && KnownEscape(t[1]) && StringBody(t[2..])
    else t[0] != QUOTE && t[0] >= 0x20 && StringBody(t[1..])
  }

  /** The body of a string in a JSON text. */
  predicate JsonBody(t: seq<byte>) { StringBody(t) && Utf8(t) }

  /** '"', '\', '/', 'b', 'f', 'n', 'r' and 't' */
  predicate KnownEscape(c: byte) {
    c == QUOTE || c == BACKSLASH || c == 47 || c == 98 || c == 102 || c == 110 || c == 114 || c == 116
  }

  /** Every quote is the second half of a pair. */
  predicate NoBareQuote(t: seq<byte>) {
    t == [] ||
    if t[0] == BACKSLASH then |t| >= 2 && NoBareQuote(t[2..])
    else t[0] != QUOTE && NoBareQuote(t[1..])
  }

  predicate AllWritable(s: seq<byte>) { forall i :: 0 <= i < |s| ==> Writable(s[i]) }

  predicate Writable(c: byte) { c >= 0x20 || c == TAB || c == LF || c == CR }

  lemma EscapeSplits(s: seq<byte>)
    requires s != []
    ensures Escape(s)[|EscapeByte(s[0])|..] == Escape(s[1..])
    ensures Escape(s)[..|EscapeByte(s[0])|] == EscapeByte(s[0])
  {
  }

  /** Unescaping gives back the message, and no unescaped quote appears in between. */
  lemma {:induction false} UnescapeInvertsEscape(s: seq<byte>)
    ensures Unescape(Escape(s)) == Some(s)
    ensures NoBareQuote(Escape(s))
  {
    if s != [] {
      EscapeSplits(s);
      UnescapeInvertsEscape(s[1..]);
      assert s == [s[0]] + s[1..];
    }
  }

  /** No byte breaks the grammar exactly when the message has no control byte other than
      tab, line feed and carriage return. */
  lemma {:induction false} LegalIffWritable(s: seq<byte>)
    ensures StringBody(Escape(s)) <==> AllWritable(s)
  {
    if s != [] {
      EscapeSplits(s);
      LegalIffWritable(s[1..]);
      assert forall i :: 1 <= i < |s| ==> s[i] == s[1..][i - 1];
      if StringBody(Escape(s)) {
        forall i | 0 <= i < |s| ensures Writable(s[i]) {
          if i > 0 { assert Writable(s[1..][i - 1]); }
        }
      } else if Writable(s[0]) {
        var k :| 0 <= k < |s[1..]| && !Writable(s[1..][k]);
        assert !Writable(s[k + 1]);
      }
    }
  }

  lemma Utf8Pair(a: byte, b: byte, rest: seq<byte>, w: Due)
    requires a < 0x80 && b < 0x80 && Proper(w)
    ensures Utf8From([a, b] + rest, w) <==> w.n == 0 && Utf8From(rest, NONE_DUE)
  {
    var t := [a, b] + rest;
    assert t[1..] == [b] + rest && t[1..][1..] == rest;
  }

  /** Escaping neither mends nor breaks UTF-8. */
  lemma {:induction false} EscapeKeepsUtf8(s: seq<byte>, w: Due)
    requires Proper(w)
    ensures Utf8From(Escape(s), w) <==> Utf8From(s, w)
  {
    if s != [] {
      var rest := Escape(s[1..]);
      var e := EscapeByte(s[0]);
      assert Escape(s) == e + rest;
      if |e| == 2 {
        assert e == [e[0], e[1]];
        Utf8Pair(e[0], e[1], rest, w);
        EscapeKeepsUtf8(s[1..], NONE_DUE);
      } else {
        assert Escape(s)[0] == s[0] && Escape(s)[1..] == rest;
        ProperNext(w, s[0]);
        if w' :| Next(w, s[0]) == Some(w') {
          EscapeKeepsUtf8(s[1..], w');
        }
      }
    }
  }

  /** The escaped text is the body of a JSON string if and only if the message is UTF-8
      and has no control byte other than tab, line feed and carriage return. */
  lemma JsonIffWritableUtf8(s: seq<byte>)
    ensures JsonBody(Escape(s)) <==> AllWritable(s) && Utf8(s)
  {
    LegalIffWritable(s);
    EscapeKeepsUtf8(s, NONE_DUE);
  }

  /** A bell character goes through raw, so the log line is not JSON. */
  lemma ControlBytesGoThroughRaw()
    ensures Escape([7]) == [7] && !JsonBody(Escape([7]))
  {
    assert Escape([7]) == EscapeByte(7) + Escape([]);
  }

  /** So does a byte that no UTF-8 text contains. */
  lemma MalformedBytesGoThroughRaw()
    ensures AllWritable([0xFF]) && Escape([0xFF]) == [0xFF] && !JsonBody(Escape([0xFF]))
  {
    assert Escape([0xFF]) == EscapeByte(0xFF) + Escape([]);
  }

  // ---------------------------------------------------------------- truncation

  lemma {:induction false} TakenAll(s: seq<byte>, j: nat, room: nat)
    requires s != []
    ensures Taken(s, j, room) == |s| <==> j + |Escape(s[..|s| - 1])| < room
  {
    if |s| > 1 {
      TakenAll(s[1..], j + |EscapeByte(s[0])|, room);
      assert s[..|s| - 1][1..] == s[1..][..|s[1..]| - 1];
    }
  }

  /** The whole message is kept exactly when all but its last byte, escaped, leaves three
      bytes of the destination free. */
  lemma WholeMessageFitsIff(s: seq<byte>, size: nat)
    requires size >= 2
    ensures Fitting(s, size) == s <==> s == [] || |Escape(s[..|s| - 1])| + 2 < size
  {
    if s != [] {
      TakenAll(s, 0, size - 2);
      assert Fitting(s, size) == s <==> Taken(s, 0, size - 2) == |s|;
    }
  }

  /** What is kept of a message that would be JSON is JSON if and only if the cut does not
      fall inside a character. */
  lemma CutIsJsonIff(s: seq<byte>, size: nat)
    requires size >= 2 && AllWritable(s) && Utf8(s)
    ensures var kept := Fitting(s, size);
            JsonBody(Escape(kept)) <==> kept == s || !Continues(s[|kept|])
  {
    var n := Taken(s, 0, size - 2);
    JsonIffWritableUtf8(Fitting(s, size));
    CutFromIff(s, n, NONE_DUE);
    assert Fitting(s, size) == s <==> n == |s|;
  }

  /** A character of three bytes, of which a destination of four bytes keeps two. */
  lemma CharacterIsCut()
    ensures var s := [0xE8, 0x9C, 0x9C];
            && AllWritable(s) && Utf8(s)
            && Fitting(s, 4) == [0xE8, 0x9C] && !JsonBody(Escape(Fitting(s, 4)))
  {
    var s: seq<byte> := [0xE8, 0x9C, 0x9C];
    assert s[1..] == [0x9C, 0x9C] && s[1..][1..] == [0x9C];
    assert Utf8From([0x9C], Due(1, 0x80, 0xBF));
    assert Utf8From([0x9C, 0x9C], Due(2, 0x80, 0xBF));
    assert Taken([0x9C], 2, 2) == 0;
    assert Taken([0x9C, 0x9C], 1, 2) == 1;
    assert Taken(s, 0, 2) == 2;
    CutIsJsonIff(s, 4);
  }

  lemma {:induction false} EscapeSnoc(s: seq<byte>, c: byte)
    ensures Escape(s + [c]) == Escape(s) + EscapeByte(c)
  {
    if s == [] {
      assert s + [c] == [c];
      assert Escape([c]) == EscapeByte(c) + Escape([]);
    } else {
      EscapeSnoc(s[1..], c);
      assert (s + [c])[1..] == s[1..] + [c];
    }
  }

  lemma {:induction false} EscapeNulFree(s: seq<byte>)
    requires NulFree(s)
    ensures NulFree(Escape(s))
  {
    if s != [] {
      EscapeNulFree(s[1..]);
    }
  }

  // ---------------------------------------------------------------- the code

  /** The switch in the loop; its inner tests for room always succeed. */
  method PutByte(c: byte, dst: array<byte>, at: nat) returns (j: nat)
    requires at < dst.Length - 2
    modifies dst
    ensures j == at + |EscapeByte(c)|
    ensures dst[..j] == old(dst[..at]) + EscapeByte(c)
  {
    j := at;
    if c == QUOTE {
      dst[j], dst[j + 1] := BACKSLASH, QUOTE;
      j := j + 2;
    } else if c == BACKSLASH {
      dst[j], dst[j + 1] := BACKSLASH, BACKSLASH;
      j := j + 2;
    } else if c == LF {
      dst[j], dst[j + 1] := BACKSLASH, 110;
      j := j + 2;
    } else if c == CR {
      dst[j], dst[j + 1] := BACKSLASH, 114;
      j := j + 2;
    } else if c == TAB {
      dst[j], dst[j + 1] := BACKSLASH, 116;
      j := j + 2;
    } else {
      dst[j] := c;
      j := j + 1;
    }
  }

  /** A terminated buffer that holds the escaping of `s` reads back as `s`. */
  lemma ReadsAsEscaped(buf: seq<byte>, s: seq<byte>)
    requires NulFree(s) && Escape(s) <= buf && |Escape(s)| < |buf| && buf[|Escape(s)|] == NUL
    ensures CStr(buf) == Escape(s) && Unescape(Escape(s)) == Some(s) && NoBareQuote(Escape(s))
  {
    EscapeNulFree(s);
    UnescapeInvertsEscape(s);
    CStrUnique(buf, Escape(s));
  }

  lemma TakeNext(src: seq<byte>, i: nat, j: nat, room: nat)
    requires i < |src| && j < room
    ensures Taken(src[i..], j, room) == 1 + Taken(src[i + 1..], j + |EscapeByte(src[i])|, room)
    ensures Escape(src[..i + 1]) == Escape(src[..i]) + EscapeByte(src[i])
  {
    assert src[i..][1..] == src[i + 1..];
    assert src[..i + 1] == src[..i] + [src[i]];
    EscapeSnoc(src[..i], src[i]);
  }

  /** The loop; it returns how much of the message it took and how much it wrote. */
  method EscapeFitting(src: seq<byte>, dst: array<byte>) returns (i: nat, j: nat)
    requires dst.Length >= 2
    modifies dst
    ensures i == Taken(src, 0, dst.Length - 2) && j < dst.Length
    ensures dst[..j] == Escape(src[..i])
  {
    i, j := 0, 0;
    assert src[0..] == src;
    while i < |src| && j < dst.Length - 2
      invariant i <= |src| && j <= dst.Length - 1
      invariant dst[..j] == Escape(src[..i])
      invariant Taken(src, 0, dst.Length - 2) == i + Taken(src[i..], j, dst.Length - 2)
    {
      TakeNext(src, i, j, dst.Length - 2);
      j := PutByte(src[i], dst, j);
      i := i + 1;
    }
  }

  /** `escape_json_string` */
  method EscapeJsonString(src: seq<byte>, dst: array<byte>)
    requires NulFree(src) && dst.Length >= 2
    modifies dst
    ensures CStr(dst[..]) == Escape(Fitting(src, dst.Length))
    ensures Unescape(CStr(dst[..])) == Some(Fitting(src, dst.Length)) && NoBareQuote(CStr(dst[..]))
    ensures JsonBody(CStr(dst[..])) <==> AllWritable(Fitting(src, dst.Length)) && Utf8(Fitting(src, dst.Length))
  {
    var i, j := EscapeFitting(src, dst);
    dst[j] := NUL;
    assert dst[..][..j] == dst[..j] == Escape(src[..i]);
    ReadsAsEscaped(dst[..], src[..i]);
    JsonIffWritableUtf8(src[..i]);
  }
}
