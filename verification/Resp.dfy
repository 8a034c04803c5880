/**
 Redis commands on the wire (src/service/redis_honeypot.c): the parser of RESP arrays and
 the inline parser, which work on C strings in the receive buffer.  The partner is the RESP
 encoder of commands and bulk strings.

 The scans of C strings run over `mem`, the whole buffer, until they meet a NUL; only
 explicit tests keep the parsers among the `len` valid bytes.
 */
module Resp {
  import opened Bytes

  const BUF_SIZE: nat := 4096
  const MAX_ARGS: nat := 32
  const ARG_SIZE: nat := 1024
  const STAR: byte := 42
  const DOLLAR: byte := 36

  // ---------------------------------------------------------------- C string scans

  /** `strstr(mem + p, "\r\n")` */
  function FindCrlf(mem: seq<byte>, p: nat): (r: Option<nat>)
    decreases |mem| - p
  {
    if p >= |mem| || mem[p] == NUL then None
    else if mem[p] == CR && p + 1 < |mem| && mem[p + 1] == LF then Some(p)
    else FindCrlf(mem, p + 1)
  }

  /** `strstr(mem + p, "\n")` */
  function FindLf(mem: seq<byte>, p: nat): (r: Option<nat>)
    decreases |mem| - p
  {
    if p >= |mem| || mem[p] == NUL then None
    else if mem[p] == LF then Some(p)
    else FindLf(mem, p + 1)
  }

  predicate IsSpace(c: byte) { c == SPACE || 9 <= c <= 13 }

  predicate IsDigit(c: byte) { 48 <= c <= 57 }

  function SkipSpace(mem: seq<byte>, p: nat): (q: nat)
    ensures p <= q
    decreases |mem| - p
  {
    if p < |mem| && IsSpace(mem[p]) then SkipSpace(mem, p + 1) else p
  }

  /** A number and the position after its digits. */
  datatype Number = Number(value: int, end: nat)

  function DigitsFrom(mem: seq<byte>, p: nat, acc: int): (r: Number)
    decreases |mem| - p
  {
    if p < |mem| && IsDigit(mem[p]) then DigitsFrom(mem, p + 1, acc * 10 + (mem[p] as int - 48))
    else Number(acc, p)
  }

  /** What `strtol` scans: white space, which includes CR and LF, a sign, digits. */
  function Scan(mem: seq<byte>, p: nat): (r: Number) {
    var q := SkipSpace(mem, p);
    if q < |mem| && mem[q] == 45 then
      var n := DigitsFrom(mem, q + 1, 0);
      Number(-n.value, n.end)
    else if q < |mem| && mem[q] == 43 then DigitsFrom(mem, q + 1, 0)
    else DigitsFrom(mem, q, 0)
  }

  /** The conversion of `strtol`'s clamped result to `int`. */
  function ToInt(v: int): (r: int) {
    if v >= 0x8000_0000_0000_0000 then -1
    else if v < -0x8000_0000_0000_0000 then 0
    else Wrap32(v)
  }

  /** The `int` with the same low 32 bits. */
  function Wrap32(v: int): (r: int)
    decreases if -0x8000_0000 <= v < 0x8000_0000 then 0 else if v > 0 then v else -v
  {
    if v >= 0x8000_0000 then Wrap32(v - 0x1_0000_0000)
    else if v < -0x8000_0000 then Wrap32(v + 0x1_0000_0000)
    else v
  }

  function Atoi(mem: seq<byte>, p: nat): (r: int) { ToInt(Scan(mem, p).value) }

  // ---------------------------------------------------------------- the array parser

  /** `Fail` stands for a return value of 0. */
  datatype Parsed = Fail | Command(args: seq<seq<byte>>, used: nat)

  datatype Arg = NoArg | Arg(value: seq<byte>, next: nat)

  /** One turn of the argument loop. */
  function ArgAt(mem: seq<byte>, len: nat, p: nat): (r: Arg)
    requires len < |mem|
  {
    if p >= len || mem[p] != DOLLAR then NoArg
    else ArgAfter(mem, len, FindCrlf(mem, p + 1), Atoi(mem, p + 1))
  }

  /** The argument after a header that ends at `crlf` and reads `n`. */
  function ArgAfter(mem: seq<byte>, len: nat, crlf: Option<nat>, n: int): (r: Arg)
    requires len < |mem|
  {
    if crlf.None? || crlf.value >= len then NoArg else Payload(mem, len, crlf.value + 2, n)
  }

  /** The `n` bytes at `q` and the CR LF that must follow them. */
  function Payload(mem: seq<byte>, len: nat, q: nat, n: int): (r: Arg)
    requires len < |mem|
  {
    if n < 0 || q + n + 2 > len || mem[q + n] != CR || mem[q + n + 1] != LF then NoArg
    else Arg(Take(mem[q..q + n], ARG_SIZE - 1), q + n + 2)
  }

  function ArgsFrom(mem: seq<byte>, len: nat, p: nat, n: nat): (r: Parsed)
    requires len < |mem|
    decreases n
  {
    if n == 0 then Command([], p)
    else
      match ArgAt(mem, len, p)
      case NoArg => Fail
      case Arg(value, next) =>
        Glue([value], ArgsFrom(mem, len, next, n - 1))
  }

  /** Arguments read before the rest. */
  function Glue(args: seq<seq<byte>>, r: Parsed): (r': Parsed) {
    match r case Fail => Fail case Command(more, used) => Command(args + more, used)
  }

  /** `redis_parse_resp_array` */
  function ParseArray(mem: seq<byte>, len: nat): (r: Parsed)
    requires len < |mem|
  {
    if len < 4 || mem[0] != STAR then Fail else ArrayAt(mem, len, FindCrlf(mem, 1), Atoi(mem, 1))
  }

  /** The array after a header that ends at `crlf` and reads `argc`. */
  function ArrayAt(mem: seq<byte>, len: nat, crlf: Option<nat>, argc: int): (r: Parsed)
    requires len < |mem|
  {
    if crlf.None? || crlf.value >= len || argc <= 0 || argc > MAX_ARGS then Fail
    else ArgsFrom(mem, len, crlf.value + 2, argc)
  }

  // ---------------------------------------------------------------- the encoder

  function Decimal(n: nat): (r: seq<byte>)
    ensures |r| >= 1
  {
    if n < 10 then [48 + n] else Decimal(n / 10) + [48 + n % 10]
  }

  /** A bulk string, as `redis_send_bulk_string` sends it. */
  function Bulk(s: seq<byte>): (r: seq<byte>) {
    [DOLLAR] + Decimal(|s|) + CrLf() + s + CrLf()
  }

  function Bulks(args: seq<seq<byte>>): (r: seq<byte>) {
    if args == [] then [] else Bulk(args[0]) + Bulks(args[1..])
  }

  function Encode(args: seq<seq<byte>>): (r: seq<byte>) {
    [STAR] + Decimal(|args|) + CrLf() + Bulks(args)
  }

  /** What the parser keeps of each argument. */
  function Cut(args: seq<seq<byte>>): (r: seq<seq<byte>>) {
    if args == [] then [] else [Take(args[0], ARG_SIZE - 1)] + Cut(args[1..])
  }

  predicate Sendable(args: seq<seq<byte>>) {
    1 <= |args| <= MAX_ARGS && forall i :: 0 <= i < |args| ==> |args[i]| < 0x8000_0000
  }

  // ---------------------------------------------------------------- numbers

  function Fold(acc: int, ds: seq<byte>): (r: int)
    decreases ds
  {
    if ds == [] then acc else Fold(acc * 10 + (ds[0] as int - 48), ds[1..])
  }

  predicate AllDigits(ds: seq<byte>) { forall i :: 0 <= i < |ds| ==> IsDigit(ds[i]) }

  lemma {:induction false} FoldSnoc(acc: int, ds: seq<byte>, d: byte)
    ensures Fold(acc, ds + [d]) == Fold(acc, ds) * 10 + (d as int - 48)
    decreases ds
  {
    if ds == [] {
      assert ds + [d] == [d];
      assert [d][1..] == [];
    } else {
      assert (ds + [d])[1..] == ds[1..] + [d];
      FoldSnoc(acc * 10 + (ds[0] as int - 48), ds[1..], d);
    }
  }

  lemma {:induction false} DecimalReads(n: nat)
    ensures AllDigits(Decimal(n)) && Fold(0, Decimal(n)) == n
  {
    if n < 10 {
      assert Decimal(n)[1..] == [];
    } else {
      DecimalReads(n / 10);
      FoldSnoc(0, Decimal(n / 10), 48 + n % 10);
    }
  }

  /** `x` stands in memory at `p`. */
  predicate At(mem: seq<byte>, p: nat, x: seq<byte>) {
    p + |x| <= |mem| && mem[p..p + |x|] == x
  }

  lemma AtSplit(mem: seq<byte>, p: nat, x: seq<byte>, y: seq<byte>)
    requires At(mem, p, x + y)
    ensures At(mem, p, x) && At(mem, p + |x|, y)
  {
    var xy := x + y;
    assert mem[p..p + |x|] == xy[..|x|] == x;
    assert mem[p + |x|..p + |x| + |y|] == xy[|x|..] == y;
  }

  lemma {:induction false} DigitsRead(mem: seq<byte>, p: nat, ds: seq<byte>, acc: int)
    requires At(mem, p, ds) && AllDigits(ds) && p + |ds| < |mem| && !IsDigit(mem[p + |ds|])
    ensures DigitsFrom(mem, p, acc) == Number(Fold(acc, ds), p + |ds|)
    decreases ds
  {
    if ds != [] {
      assert mem[p] == ds[0];
      assert mem[p + 1..p + 1 + |ds[1..]|] == ds[1..];
      DigitsRead(mem, p + 1, ds[1..], acc * 10 + (ds[0] as int - 48));
    }
  }

  predicate NoCrNoNul(x: seq<byte>) { forall i :: 0 <= i < |x| ==> x[i] != CR && x[i] != NUL }

  lemma {:induction false} CrlfAfterText(mem: seq<byte>, p: nat, x: seq<byte>)
    requires At(mem, p, x) && NoCrNoNul(x) && At(mem, p + |x|, CrLf())
    ensures FindCrlf(mem, p) == Some(p + |x|)
    decreases x
  {
    if x == [] {
      assert mem[p] == CrLf()[0] && mem[p + 1] == CrLf()[1];
    } else {
      assert mem[p] == x[0];
      assert mem[p + 1..p + 1 + |x[1..]|] == x[1..];
      CrlfAfterText(mem, p + 1, x[1..]);
    }
  }

  /** A decimal header is read as its number, and its CR LF is found right after it. */
  lemma HeaderReads(mem: seq<byte>, p: nat, n: nat)
    requires n < 0x8000_0000 && At(mem, p, Decimal(n) + CrLf())
    ensures Atoi(mem, p) == n && FindCrlf(mem, p) == Some(p + |Decimal(n)|)
  {
    var ds := Decimal(n);
    AtSplit(mem, p, ds, CrLf());
    DecimalReads(n);
    CrlfAfterText(mem, p, ds);
    assert mem[p + |ds|] == CrLf()[0] && mem[p] == ds[0];
    DigitsRead(mem, p, ds, 0);
  }

  // ---------------------------------------------------------------- round trip

  lemma BulkParts(mem: seq<byte>, p: nat, s: seq<byte>)
    requires At(mem, p, Bulk(s))
    ensures At(mem, p, [DOLLAR]) && At(mem, p + 1, Decimal(|s|) + CrLf())
    ensures var q := p + 1 + |Decimal(|s|)| + 2;
            At(mem, q, s) && At(mem, q + |s|, CrLf()) && |Bulk(s)| == q + |s| + 2 - p
  {
    var head := Decimal(|s|) + CrLf();
    assert Bulk(s) == [DOLLAR] + (head + (s + CrLf()));
    AtSplit(mem, p, [DOLLAR], head + (s + CrLf()));
    AtSplit(mem, p + 1, head, s + CrLf());
    AtSplit(mem, p + 1 + |head|, s, CrLf());
  }

  lemma ArgReads(mem: seq<byte>, len: nat, p: nat, s: seq<byte>)
    requires |s| < 0x8000_0000 && At(mem, p, Bulk(s)) && p + |Bulk(s)| <= len < |mem|
    ensures ArgAt(mem, len, p) == Arg(Take(s, ARG_SIZE - 1), p + |Bulk(s)|)
  {
    BulkParts(mem, p, s);
    HeaderReads(mem, p + 1, |s|);
    var q := p + 1 + |Decimal(|s|)| + 2;
    assert mem[p] == [DOLLAR][0];
    assert mem[q..q + |s|] == s;
    ArgAtIs(mem, len, p, q, |s|);
  }

  lemma ArgAtIs(mem: seq<byte>, len: nat, p: nat, q: nat, n: nat)
    requires p < len < |mem| && mem[p] == DOLLAR
    requires 2 <= q && FindCrlf(mem, p + 1) == Some(q - 2) && Atoi(mem, p + 1) == n
    requires q + n + 2 <= len && At(mem, q + n, CrLf())
    ensures ArgAt(mem, len, p) == Arg(Take(mem[q..q + n], ARG_SIZE - 1), q + n + 2)
  {
    PayloadIs(mem, len, q, n);
  }

  lemma PayloadIs(mem: seq<byte>, len: nat, q: nat, n: nat)
    requires len < |mem| && q + n + 2 <= len && At(mem, q + n, CrLf())
    ensures Payload(mem, len, q, n) == Arg(Take(mem[q..q + n], ARG_SIZE - 1), q + n + 2)
  {
    assert mem[q + n] == CrLf()[0] && mem[q + n + 1] == CrLf()[1];
  }

  lemma FirstArgReads(mem: seq<byte>, len: nat, p: nat, args: seq<seq<byte>>) returns (next: nat)
    requires args != [] && |args[0]| < 0x8000_0000
    requires At(mem, p, Bulks(args)) && p + |Bulks(args)| <= len < |mem|
    ensures ArgAt(mem, len, p) == Arg(Take(args[0], ARG_SIZE - 1), next)
    ensures At(mem, next, Bulks(args[1..])) && next + |Bulks(args[1..])| == p + |Bulks(args)|
  {
    AtSplit(mem, p, Bulk(args[0]), Bulks(args[1..]));
    ArgReads(mem, len, p, args[0]);
    next := p + |Bulk(args[0])|;
  }

  lemma {:induction false} ArgsRead(mem: seq<byte>, len: nat, p: nat, args: seq<seq<byte>>)
    requires forall i :: 0 <= i < |args| ==> |args[i]| < 0x8000_0000
    requires At(mem, p, Bulks(args)) && p + |Bulks(args)| <= len < |mem|
    ensures ArgsFrom(mem, len, p, |args|) == Command(Cut(args), p + |Bulks(args)|)
    decreases args
  {
    if args != [] {
      var next := FirstArgReads(mem, len, p, args);
      ArgsRead(mem, len, next, args[1..]);
    }
  }

  /** Parsing an encoded command gives back its arguments, cut to 1023 bytes, and consumes
      exactly the encoding, whatever follows it in the buffer and beyond. */
  lemma ParseUndoesEncode(mem: seq<byte>, len: nat, args: seq<seq<byte>>)
    requires Sendable(args) && |Encode(args)| <= len < |mem| && At(mem, 0, Encode(args))
    ensures ParseArray(mem, len) == Command(Cut(args), |Encode(args)|)
  {
    var head := Decimal(|args|) + CrLf();
    EncodingIsLong(args);
    assert Encode(args) == [STAR] + (head + Bulks(args));
    AtSplit(mem, 0, [STAR], head + Bulks(args));
    AtSplit(mem, 1, head, Bulks(args));
    assert mem[0] == [STAR][0];
    HeaderReads(mem, 1, |args|);
    ParseArrayIs(mem, len, 1 + |Decimal(|args|)|, |args|);
    ArgsRead(mem, len, 1 + |head|, args);
  }

  lemma ParseArrayIs(mem: seq<byte>, len: nat, crlf: nat, n: nat)
    requires 4 <= len < |mem| && mem[0] == STAR && 1 <= n <= MAX_ARGS
    requires FindCrlf(mem, 1) == Some(crlf) && crlf < len && Atoi(mem, 1) == n
    ensures ParseArray(mem, len) == ArgsFrom(mem, len, crlf + 2, n)
  {
  }

  lemma {:induction false} EncodingIsLong(args: seq<seq<byte>>)
    requires args != []
    ensures |Bulks(args)| >= 6
  {
  }

  /** Arguments of up to 1023 bytes are kept whole. */
  lemma {:induction false} CutShort(args: seq<seq<byte>>)
    requires forall i :: 0 <= i < |args| ==> |args[i]| <= 1023
    ensures Cut(args) == args
  {
    if args != [] {
      CutShort(args[1..]);
      assert Take(args[0], ARG_SIZE - 1) == args[0];
      assert args == [args[0]] + args[1..];
    }
  }

  /** Of commands of any number of arguments, those with 1 to 32 are parsed. */
  lemma ParsedIffCountFits(mem: seq<byte>, len: nat, args: seq<seq<byte>>)
    requires |args| < 0x8000_0000 && forall i :: 0 <= i < |args| ==> |args[i]| < 0x8000_0000
    requires |Encode(args)| <= len < |mem| && At(mem, 0, Encode(args))
    ensures ParseArray(mem, len) == if 1 <= |args| <= 32 then Command(Cut(args), |Encode(args)|) else Fail
  {
    if 1 <= |args| <= 32 {
      ParseUndoesEncode(mem, len, args);
    } else {
      var head := Decimal(|args|) + CrLf();
      assert Encode(args) == [STAR] + (head + Bulks(args));
      AtSplit(mem, 0, [STAR], head + Bulks(args));
      AtSplit(mem, 1, head, Bulks(args));
      HeaderReads(mem, 1, |args|);
    }
  }

  /** A header with a minus sign reads as the negative number. */
  lemma NegativeReads(mem: seq<byte>, p: nat, n: nat)
    requires n <= 0x8000_0000 && At(mem, p, [45] + Decimal(n) + CrLf())
    ensures Atoi(mem, p) == 0 - n
  {
    var ds := Decimal(n);
    assert [45] + ds + CrLf() == [45] + (ds + CrLf());
    AtSplit(mem, p, [45], ds + CrLf());
    AtSplit(mem, p + 1, ds, CrLf());
    DecimalReads(n);
    assert mem[p] == [45][0] && mem[p + 1 + |ds|] == CrLf()[0];
    DigitsRead(mem, p + 1, ds, 0);
  }

  /** A negative length is no argument and a negative count no array: the null values of
      RESP are refused. */
  lemma NegativeFails(mem: seq<byte>, len: nat, p: nat, n: nat)
    requires 0 < n <= 0x8000_0000 && p < len < |mem| && At(mem, p + 1, [45] + Decimal(n) + CrLf())
    ensures ArgAt(mem, len, p) == NoArg
    ensures p == 0 ==> ParseArray(mem, len) == Fail
  {
    NegativeReads(mem, p + 1, n);
  }

  // ---------------------------------------------------------------- inline commands

  predicate IsBlank(c: byte) { c == SPACE || c == TAB }

  function SkipBlanks(s: seq<byte>): (r: seq<byte>)
    ensures |r| <= |s|
  {
    if s != [] && IsBlank(s[0]) then SkipBlanks(s[1..]) else s
  }

  function Word(s: seq<byte>): (r: seq<byte>)
    ensures |r| <= |s|
    ensures s != [] && !IsBlank(s[0]) ==> |r| > 0
  {
    if s == [] || IsBlank(s[0]) then [] else [s[0]] + Word(s[1..])
  }

  /** The first `n` words, each cut to 1023 bytes. */
  function Words(s: seq<byte>, n: nat): (r: seq<seq<byte>>)
    decreases n
  {
    var t := SkipBlanks(s);
    if n == 0 || t == [] then []
    else [Take(Word(t), ARG_SIZE - 1)] + Words(t[|Word(t)|..], n - 1)
  }

  /** Where the line ends, if it does. */
  function LineEnd(mem: seq<byte>): (r: Option<nat>) {
    if FindCrlf(mem, 0).Some? then FindCrlf(mem, 0) else FindLf(mem, 0)
  }

  /** `redis_parse_inline`; nothing found is `Fail`, an empty line has no arguments. */
  function ParseInline(mem: seq<byte>, len: nat): (r: Parsed)
    requires len < |mem|
  {
    FindInRange(mem, 0);
    InlineAt(mem, len, LineEnd(mem))
  }

  function InlineAt(mem: seq<byte>, len: nat, end: Option<nat>): (r: Parsed)
    requires len < |mem| && (end.Some? ==> end.value < |mem|)
  {
    match end
    case None =>
      if len > 0 && mem[len - 1] != NUL then Command(Words(CStr(Take(mem[..len], BUF_SIZE - 1)), MAX_ARGS), len)
      else Fail
    case Some(c) =>
      if c == 0 then Command([], if mem[0] == CR then 2 else 1)
      else
        var args := Words(CStr(Take(mem[..c], BUF_SIZE - 1)), MAX_ARGS);
        if c >= len then Command(args, c)
        else Command(args, c + if mem[c] == CR && c + 1 < len && mem[c + 1] == LF then 2 else 1)
  }

  lemma {:induction false} FindInRange(mem: seq<byte>, p: nat)
    ensures FindCrlf(mem, p).Some? ==> p <= FindCrlf(mem, p).value < |mem|
    ensures FindLf(mem, p).Some? ==> p <= FindLf(mem, p).value < |mem|
    decreases |mem| - p
  {
    if p < |mem| {
      FindInRange(mem, p + 1);
    }
  }

  /** A word as typed after some blanks. */
  datatype Token = Token(gap: seq<byte>, word: seq<byte>)

  predicate AllBlank(s: seq<byte>) { forall i :: 0 <= i < |s| ==> s[i] == 32 || s[i] == 9 }

  predicate PlainWord(w: seq<byte>) {
    w != [] && forall i :: 0 <= i < |w| ==> w[i] != 32 && w[i] != 9 && w[i] != NUL && w[i] != CR && w[i] != LF
  }

  /** Every word but perhaps the first has a blank before it. */
  predicate TypedWell(ts: seq<Token>, first: bool) {
    ts == [] ||
    (AllBlank(ts[0].gap) && PlainWord(ts[0].word) && (first || ts[0].gap != []) && TypedWell(ts[1..], false))
  }

  function Typed(ts: seq<Token>): (r: seq<byte>) {
    if ts == [] then [] else ts[0].gap + ts[0].word + Typed(ts[1..])
  }

  function WordsOf(ts: seq<Token>): (r: seq<seq<byte>>) {
    if ts == [] then [] else [ts[0].word] + WordsOf(ts[1..])
  }

  lemma {:induction false} SkipBlanksSkips(gap: seq<byte>, rest: seq<byte>)
    requires AllBlank(gap) && (rest == [] || !IsBlank(rest[0]))
    ensures SkipBlanks(gap + rest) == rest
  {
    if gap == [] {
      assert gap + rest == rest;
    } else {
      assert (gap + rest)[1..] == gap[1..] + rest;
      SkipBlanksSkips(gap[1..], rest);
    }
  }

  lemma {:induction false} WordEnds(word: seq<byte>, rest: seq<byte>)
    requires forall i :: 0 <= i < |word| ==> word[i] != 32 && word[i] != 9
    requires rest == [] || IsBlank(rest[0])
    ensures Word(word + rest) == word
  {
    if word == [] {
      assert word + rest == rest;
    } else {
      assert (word + rest)[1..] == word[1..] + rest;
      WordEnds(word[1..], rest);
    }
  }

  lemma FirstWord(t: Token, rest: seq<byte>, n: nat)
    requires AllBlank(t.gap) && PlainWord(t.word) && n > 0 && (rest == [] || IsBlank(rest[0]))
    ensures Words(t.gap + t.word + rest, n) == [Take(t.word, ARG_SIZE - 1)] + Words(rest, n - 1)
  {
    assert t.gap + t.word + rest == t.gap + (t.word + rest);
    SkipBlanksSkips(t.gap, t.word + rest);
    WordEnds(t.word, rest);
    assert (t.word + rest)[|t.word|..] == rest;
  }

  /** Splitting undoes typing, whatever blanks were typed: the first `n` words come out. */
  lemma {:induction false} WordsUndoTyping(ts: seq<Token>, tail: seq<byte>, n: nat, first: bool)
    requires TypedWell(ts, first) && AllBlank(tail)
    ensures Words(Typed(ts) + tail, n) == Cut(Take(WordsOf(ts), n))
    decreases ts
  {
    if ts == [] {
      assert Typed(ts) + tail == tail + [];
      SkipBlanksSkips(tail, []);
    } else if n > 0 {
      TypedNext(ts, tail);
      FirstWord(ts[0], Typed(ts[1..]) + tail, n);
      WordsUndoTyping(ts[1..], tail, n - 1, false);
      CutNext(WordsOf(ts), n);
      assert WordsOf(ts)[1..] == WordsOf(ts[1..]);
    }
  }

  lemma TypedNext(ts: seq<Token>, tail: seq<byte>)
    requires ts != [] && TypedWell(ts[1..], false) && AllBlank(tail)
    ensures var rest := Typed(ts[1..]) + tail;
            Typed(ts) + tail == ts[0].gap + ts[0].word + rest && (rest == [] || IsBlank(rest[0]))
  {
  }

  lemma CutNext(words: seq<seq<byte>>, n: nat)
    requires words != [] && n > 0
    ensures Cut(Take(words, n)) == [Take(words[0], ARG_SIZE - 1)] + Cut(Take(words[1..], n - 1))
  {
    assert Take(words, n)[1..] == Take(words[1..], n - 1);
  }

  lemma {:induction false} TypedIsText(ts: seq<Token>, first: bool)
    requires TypedWell(ts, first)
    ensures NoCrNoNul(Typed(ts)) && LF !in Typed(ts)
  {
    if ts != [] {
      TypedIsText(ts[1..], false);
    }
  }

  /** A line of words as a client may type it. */
  ghost predicate IsTyped(line: seq<byte>, ts: seq<Token>) {
    && TypedWell(ts, true) && Typed(ts) <= line && AllBlank(line[|Typed(ts)|..])
  }

  /** An inline command that is whole in the buffer is parsed into the words typed, at most
      32 of them and each cut to 1023 bytes, and consumed with its CR LF; an empty line is
      consumed without a command. */
  lemma InlineUndoesTyping(mem: seq<byte>, len: nat, ts: seq<Token>, line: seq<byte>)
    requires IsTyped(line, ts) && |line| < 4096 && |line| + 2 <= len < |mem| && At(mem, 0, line + CrLf())
    ensures ParseInline(mem, len) == Command(Cut(Take(WordsOf(ts), 32)), |line| + 2)
  {
    LineIsText(ts, line);
    AtSplit(mem, 0, line, CrLf());
    CrlfAfterText(mem, 0, line);
    LineIsParsed(mem, len, line);
  }

  /** A line that ends in a bare LF is taken in the same way, as long as no CR LF is found
      anywhere behind it; and so is one that has not ended yet. */
  lemma OtherLinesAreInline(mem: seq<byte>, len: nat, ts: seq<Token>, line: seq<byte>)
    requires IsTyped(line, ts) && 0 < |line| < 4096 && |line| <= len < |mem| && At(mem, 0, line)
    requires FindCrlf(mem, 0).None?
    ensures |line| < len && mem[|line|] == LF ==>
              ParseInline(mem, len) == Command(Cut(Take(WordsOf(ts), 32)), |line| + 1)
    ensures |line| == len && mem[len] == NUL ==>
              ParseInline(mem, len) == Command(Cut(Take(WordsOf(ts), 32)), len)
  {
    LineIsText(ts, line);
    assert mem[..|line|] == mem[0..|line|] == line;
    assert Take(line, 4095) == line;
    CStrUnique(line, line);
    LfAfterText(mem, 0, line);
    assert mem[|line| - 1] == line[|line| - 1];
  }

  lemma {:induction false} LfAfterText(mem: seq<byte>, p: nat, x: seq<byte>)
    requires At(mem, p, x) && NoCrNoNul(x) && LF !in x && p + |x| < |mem|
    ensures mem[p + |x|] == LF ==> FindLf(mem, p) == Some(p + |x|)
    ensures mem[p + |x|] == NUL ==> FindLf(mem, p) == None
    decreases x
  {
    if x != [] {
      assert mem[p] == x[0];
      assert mem[p + 1..p + 1 + |x[1..]|] == x[1..];
      LfAfterText(mem, p + 1, x[1..]);
    }
  }

  lemma LineIsText(ts: seq<Token>, line: seq<byte>)
    requires IsTyped(line, ts)
    ensures NoCrNoNul(line) && LF !in line && Words(line, 32) == Cut(Take(WordsOf(ts), 32))
  {
    var tail := line[|Typed(ts)|..];
    TypedIsText(ts, true);
    WordsUndoTyping(ts, tail, 32, true);
    assert line == Typed(ts) + tail;
  }

  /** The array parser is not asked unless the line starts with a star. */
  lemma InlineIsReached(mem: seq<byte>, len: nat, line: seq<byte>)
    requires len < |mem| && At(mem, 0, line + CrLf()) && (line == [] || line[0] != STAR)
    ensures ParseOne(mem, len) == ParseInline(mem, len)
  {
    var whole := line + CrLf();
    assert mem[0] == mem[0..|whole|][0] == whole[0];
  }

  lemma LineIsParsed(mem: seq<byte>, len: nat, line: seq<byte>)
    requires |line| + 2 <= len < |mem| && |line| < 4096 && NoCrNoNul(line)
    requires At(mem, 0, line) && At(mem, |line|, CrLf()) && FindCrlf(mem, 0) == Some(|line|)
    ensures ParseInline(mem, len) == Command(Words(line, MAX_ARGS), |line| + 2)
  {
    assert mem[..|line|] == mem[0..|line|] == line;
    assert mem[|line|] == CrLf()[0] && mem[|line| + 1] == CrLf()[1];
    assert Take(line, BUF_SIZE - 1) == line;
    CStrUnique(line, line);
  }

  // ---------------------------------------------------------------- the parsing loop

  function ParseOne(mem: seq<byte>, len: nat): (r: Parsed)
    requires len < |mem|
  {
    var array_ := if mem[0] == STAR then ParseArray(mem, len) else Fail;
    if array_.Fail? then ParseInline(mem, len) else array_
  }

  lemma NextIsFurther(mem: seq<byte>, len: nat, p: nat)
    requires len < |mem|
    ensures var arg := ArgAt(mem, len, p); arg.Arg? ==> p < arg.next <= len
  {
    FindCrlfFrom(mem, p + 1);
  }

  lemma {:induction false} ArgsConsume(mem: seq<byte>, len: nat, p: nat, n: nat)
    requires len < |mem|
    ensures ArgsFrom(mem, len, p, n).Command? ==> ArgsFrom(mem, len, p, n).used >= p
    decreases n
  {
    if n > 0 {
      var arg := ArgAt(mem, len, p);
      if arg.Arg? {
        NextIsFurther(mem, len, p);
        ArgsConsume(mem, len, arg.next, n - 1);
      }
    }
  }

  /** Whatever is parsed, something is consumed, so the loop ends. */
  lemma ParseConsumes(mem: seq<byte>, len: nat)
    requires 0 < len < |mem|
    ensures ParseOne(mem, len).Command? ==> ParseOne(mem, len).used > 0
  {
    FindInRange(mem, 0);
    var crlf := FindCrlf(mem, 1);
    if ParseArray(mem, len).Command? {
      FindCrlfFrom(mem, 1);
      ArgsConsume(mem, len, crlf.value + 2, Atoi(mem, 1));
    }
  }

  lemma {:induction false} FindCrlfFrom(mem: seq<byte>, p: nat)
    ensures FindCrlf(mem, p).Some? ==> FindCrlf(mem, p).value >= p
    decreases |mem| - p
  {
    if p < |mem| {
      FindCrlfFrom(mem, p + 1);
    }
  }

  // ---------------------------------------------------------------- commands that are not whole

  lemma {:induction false} NoCrNoCrlf(mem: seq<byte>, p: nat, k: nat)
    requires p <= k <= |mem| && forall i :: p <= i < k ==> mem[i] != CR
    ensures FindCrlf(mem, p).Some? ==> FindCrlf(mem, p).value >= k
    decreases k - p
  {
    if p < k {
      NoCrNoCrlf(mem, p + 1, k);
    } else {
      FindCrlfFrom(mem, p);
    }
  }

  /** The first `len` bytes of memory hold `x` from `p` on, as far as they go. */
  predicate Begins(mem: seq<byte>, len: nat, p: nat, x: seq<byte>) {
    p <= len <= |mem| && len - p <= |x| && mem[p..len] == x[..len - p]
  }

  lemma BeginsSplit(mem: seq<byte>, len: nat, p: nat, x: seq<byte>, y: seq<byte>)
    requires Begins(mem, len, p, x + y)
    ensures len - p < |x| ==> Begins(mem, len, p, x)
    ensures len - p >= |x| ==> At(mem, p, x) && Begins(mem, len, p + |x|, y)
  {
    var xy := x + y;
    if len - p < |x| {
      assert xy[..len - p] == x[..len - p];
    } else {
      assert mem[p..len][..|x|] == mem[p..p + |x|];
      assert mem[p..len][|x|..] == mem[p + |x|..len];
      assert xy[..len - p][..|x|] == x;
      assert xy[..len - p][|x|..] == y[..len - p - |x|];
    }
  }

  /** Of a header that is not whole no CR LF is found before the last valid byte. */
  lemma CutHeader(mem: seq<byte>, len: nat, p: nat, n: nat)
    requires Begins(mem, len, p, Decimal(n) + CrLf()) && len - p < |Decimal(n)| + 2
    ensures FindCrlf(mem, p).Some? ==> FindCrlf(mem, p).value + 1 >= len
  {
    var h, k := Decimal(n) + CrLf(), if len > p then len - 1 else p;
    DecimalReads(n);
    forall i | p <= i < k ensures mem[i] != CR {
      assert mem[i] == mem[p..len][i - p] == h[i - p] == Decimal(n)[i - p];
    }
    NoCrNoCrlf(mem, p, k);
  }

  /** An argument that is not whole is no argument. */
  lemma CutArgFails(mem: seq<byte>, len: nat, p: nat, s: seq<byte>)
    requires |s| < 0x8000_0000 && len < |mem| && Begins(mem, len, p, Bulk(s)) && len - p < |Bulk(s)|
    ensures ArgAt(mem, len, p) == NoArg
  {
    if p < len {
      var head, body := Decimal(|s|) + CrLf(), s + CrLf();
      assert Bulk(s) == [DOLLAR] + (head + body);
      BeginsSplit(mem, len, p, [DOLLAR], head + body);
      BeginsSplit(mem, len, p + 1, head, body);
      if len - (p + 1) < |head| {
        CutHeader(mem, len, p + 1, |s|);
        ArgPastEndFails(mem, len, FindCrlf(mem, p + 1), Atoi(mem, p + 1));
      } else {
        HeaderReads(mem, p + 1, |s|);
        assert |Bulk(s)| == 1 + |head| + |s| + 2;
      }
    }
  }

  lemma ArgPastEndFails(mem: seq<byte>, len: nat, crlf: Option<nat>, n: int)
    requires len < |mem| && (crlf.Some? ==> crlf.value + 1 >= len)
    ensures ArgAfter(mem, len, crlf, n) == NoArg
  {
  }

  /** The first argument is cut, or it is whole and a later one is cut. */
  lemma CutArgsStep(mem: seq<byte>, len: nat, p: nat, args: seq<seq<byte>>) returns (arg: Arg)
    requires args != [] && |args[0]| < 0x8000_0000
    requires len < |mem| && Begins(mem, len, p, Bulks(args)) && len - p < |Bulks(args)|
    ensures ArgAt(mem, len, p) == arg
    ensures arg.Arg? ==> Begins(mem, len, arg.next, Bulks(args[1..])) && len - arg.next < |Bulks(args[1..])|
  {
    BeginsSplit(mem, len, p, Bulk(args[0]), Bulks(args[1..]));
    if len - p < |Bulk(args[0])| {
      CutArgFails(mem, len, p, args[0]);
      arg := NoArg;
    } else {
      ArgReads(mem, len, p, args[0]);
      arg := Arg(Take(args[0], ARG_SIZE - 1), p + |Bulk(args[0])|);
    }
  }

  lemma {:induction false} CutArgsFail(mem: seq<byte>, len: nat, p: nat, args: seq<seq<byte>>)
    requires forall i :: 0 <= i < |args| ==> |args[i]| < 0x8000_0000
    requires len < |mem| && Begins(mem, len, p, Bulks(args)) && len - p < |Bulks(args)|
    ensures ArgsFrom(mem, len, p, |args|) == Fail
    decreases args
  {
    var arg := CutArgsStep(mem, len, p, args);
    if arg.Arg? {
      CutArgsFail(mem, len, arg.next, args[1..]);
    }
  }

  lemma ArgsPastEndFail(mem: seq<byte>, len: nat, crlf: Option<nat>, argc: int)
    requires len < |mem| && (crlf.Some? ==> crlf.value + 1 >= len)
    ensures ArrayAt(mem, len, crlf, argc) == Fail
  {
  }

  lemma CutArrayFails(mem: seq<byte>, len: nat, args: seq<seq<byte>>)
    requires Sendable(args) && 4 <= len < |mem| && len < |Encode(args)| && Begins(mem, len, 0, Encode(args))
    ensures ParseArray(mem, len) == Fail
  {
    var head := Decimal(|args|) + CrLf();
    assert Encode(args) == [STAR] + (head + Bulks(args));
    BeginsSplit(mem, len, 0, [STAR], head + Bulks(args));
    BeginsSplit(mem, len, 1, head, Bulks(args));
    if len - 1 < |head| {
      CutHeader(mem, len, 1, |args|);
      ArgsPastEndFail(mem, len, FindCrlf(mem, 1), Atoi(mem, 1));
    } else {
      assert mem[0] == [STAR][0];
      CutAfterHeader(mem, len, args);
    }
  }

  lemma CutAfterHeader(mem: seq<byte>, len: nat, args: seq<seq<byte>>)
    requires Sendable(args) && 4 <= len < |mem| && mem[0] == STAR && At(mem, 1, Decimal(|args|) + CrLf())
    requires var p := 1 + |Decimal(|args|)| + 2; Begins(mem, len, p, Bulks(args)) && len - p < |Bulks(args)|
    ensures ParseArray(mem, len) == Fail
  {
    var c := 1 + |Decimal(|args|)|;
    HeaderReads(mem, 1, |args|);
    ParseArrayIs(mem, len, c, |args|);
    CutArgsFail(mem, len, c + 2, args);
  }

  lemma InlineTakes(mem: seq<byte>, len: nat)
    requires 0 < len < |mem| && (LineEnd(mem).Some? || mem[len - 1] != NUL)
    ensures ParseInline(mem, len).Command?
  {
  }

  /** The start of a command has a line end or does not end in a NUL. */
  lemma InlineTakesStart(mem: seq<byte>, len: nat, args: seq<seq<byte>>)
    requires 0 < len < |mem| && |args| < 0x8000_0000 && Begins(mem, len, 0, Encode(args))
    ensures ParseInline(mem, len).Command?
  {
    var n, head := |args|, Decimal(|args|) + CrLf();
    assert Encode(args) == [STAR] + (head + Bulks(args));
    BeginsSplit(mem, len, 0, [STAR], head + Bulks(args));
    BeginsSplit(mem, len, 1, head, Bulks(args));
    assert mem[0] == [STAR][0];
    if len - 1 >= |head| {
      HeaderReads(mem, 1, n);
      assert FindCrlf(mem, 0) == FindCrlf(mem, 1);
    } else if len > 1 {
      DecimalReads(n);
      assert mem[len - 1] == mem[1..len][len - 2] == head[len - 2];
    }
    InlineTakes(mem, len);
  }

  /** The start of a command is never parsed as an array, whatever stale bytes follow: a
      command that comes in two receives falls to the inline parser, which takes some of it
      for a command of its own. */
  lemma SplitCommandIsInline(mem: seq<byte>, len: nat, args: seq<seq<byte>>)
    requires Sendable(args) && 0 < len < |mem| && len < |Encode(args)| && mem[..len] == Encode(args)[..len]
    ensures ParseArray(mem, len) == Fail
    ensures ParseOne(mem, len) == ParseInline(mem, len) && ParseInline(mem, len).Command?
  {
    assert mem[0..len] == mem[..len];
    InlineTakesStart(mem, len, args);
    if len >= 4 {
      CutArrayFails(mem, len, args);
    }
  }

  /** So of a command that is being received, the array parser reads all or nothing. */
  lemma ParsedIffWhole(mem: seq<byte>, len: nat, args: seq<seq<byte>>)
    requires Sendable(args) && 0 < len < |mem| && len <= |Encode(args)| && mem[..len] == Encode(args)[..len]
    ensures ParseArray(mem, len) == if len == |Encode(args)| then Command(Cut(args), len) else Fail
  {
    if len == |Encode(args)| {
      assert mem[0..len] == mem[..len];
      ParseUndoesEncode(mem, len, args);
    } else {
      SplitCommandIsInline(mem, len, args);
    }
  }

  // ---------------------------------------------------------------- nothing is read past a NUL

  /** Two memories are the same up to a NUL at `k`. */
  predicate SameToNul(a: seq<byte>, b: seq<byte>, k: nat) {
    k < |a| && k < |b| && a[k] == NUL && a[..k + 1] == b[..k + 1]
  }

  lemma SameAt(a: seq<byte>, b: seq<byte>, k: nat, i: nat)
    requires SameToNul(a, b, k) && i <= k
    ensures a[i] == b[i]
  {
    assert a[i] == a[..k + 1][i];
  }

  lemma SameSlice(a: seq<byte>, b: seq<byte>, k: nat, i: nat, j: nat)
    requires SameToNul(a, b, k) && i <= j <= k
    ensures a[i..j] == b[i..j]
  {
    SliceOfPrefix(a, k + 1, i, j);
    SliceOfPrefix(b, k + 1, i, j);
  }

  lemma {:induction false} FindsStopAtNul(a: seq<byte>, b: seq<byte>, p: nat, k: nat)
    requires SameToNul(a, b, k) && p <= k
    ensures FindCrlf(a, p) == FindCrlf(b, p) && FindLf(a, p) == FindLf(b, p)
    ensures FindCrlf(a, p).Some? ==> FindCrlf(a, p).value < k
    ensures FindLf(a, p).Some? ==> FindLf(a, p).value < k
    decreases k - p
  {
    SameAt(a, b, k, p);
    if p < k {
      SameAt(a, b, k, p + 1);
      FindsStopAtNul(a, b, p + 1, k);
    }
  }

  lemma {:induction false} SpaceStopsAtNul(a: seq<byte>, b: seq<byte>, p: nat, k: nat)
    requires SameToNul(a, b, k) && p <= k
    ensures SkipSpace(a, p) == SkipSpace(b, p) <= k
    decreases k - p
  {
    SameAt(a, b, k, p);
    if p < k {
      SpaceStopsAtNul(a, b, p + 1, k);
    }
  }

  lemma {:induction false} DigitsStopAtNul(a: seq<byte>, b: seq<byte>, p: nat, k: nat, acc: int)
    requires SameToNul(a, b, k) && p <= k
    ensures DigitsFrom(a, p, acc) == DigitsFrom(b, p, acc)
    decreases k - p
  {
    SameAt(a, b, k, p);
    if p < k && IsDigit(a[p]) {
      DigitsStopAtNul(a, b, p + 1, k, acc * 10 + (a[p] as int - 48));
    }
  }

  lemma ScanStopsAtNul(a: seq<byte>, b: seq<byte>, p: nat, k: nat)
    requires SameToNul(a, b, k) && p <= k
    ensures Scan(a, p) == Scan(b, p)
  {
    var q := SkipSpace(a, p);
    SpaceStopsAtNul(a, b, p, k);
    SameAt(a, b, k, q);
    DigitsStopAtNul(a, b, q, k, 0);
    if q < k {
      DigitsStopAtNul(a, b, q + 1, k, 0);
    }
  }

  /** Where the header at `p` ends and what it reads. */
  lemma HeaderStopsAtNul(a: seq<byte>, b: seq<byte>, p: nat, k: nat) returns (crlf: Option<nat>, n: int)
    requires SameToNul(a, b, k) && p <= k
    ensures FindCrlf(a, p) == FindCrlf(b, p) == crlf && Atoi(a, p) == Atoi(b, p) == n
  {
    FindsStopAtNul(a, b, p, k);
    ScanStopsAtNul(a, b, p, k);
    crlf, n := FindCrlf(a, p), Atoi(a, p);
  }

  lemma PayloadIsAmongValid(a: seq<byte>, b: seq<byte>, len: nat, q: nat, n: int, k: nat)
    requires SameToNul(a, b, k) && len <= k
    ensures Payload(a, len, q, n) == Payload(b, len, q, n)
  {
    if n >= 0 && q + n + 2 <= len {
      SameSlice(a, b, k, q, q + n);
      SameAt(a, b, k, q + n);
      SameAt(a, b, k, q + n + 1);
    }
  }

  lemma ArgAfterIsLocal(a: seq<byte>, b: seq<byte>, len: nat, crlf: Option<nat>, n: int, k: nat)
    requires SameToNul(a, b, k) && len <= k
    ensures ArgAfter(a, len, crlf, n) == ArgAfter(b, len, crlf, n)
  {
    if crlf.Some? && crlf.value < len {
      PayloadIsAmongValid(a, b, len, crlf.value + 2, n, k);
    }
  }

  lemma HeadedArg(mem: seq<byte>, len: nat, p: nat, crlf: Option<nat>, n: int)
    requires p < len < |mem| && mem[p] == DOLLAR && FindCrlf(mem, p + 1) == crlf && Atoi(mem, p + 1) == n
    ensures ArgAt(mem, len, p) == ArgAfter(mem, len, crlf, n)
  {
  }

  lemma ArgStopsAtNul(a: seq<byte>, b: seq<byte>, len: nat, p: nat, k: nat) returns (arg: Arg)
    requires SameToNul(a, b, k) && len <= k
    ensures ArgAt(a, len, p) == ArgAt(b, len, p) == arg
  {
    arg := NoArg;
    if p < len {
      SameAt(a, b, k, p);
      if a[p] == DOLLAR {
        var crlf, n := HeaderStopsAtNul(a, b, p + 1, k);
        HeadedArg(a, len, p, crlf, n);
        HeadedArg(b, len, p, crlf, n);
        ArgAfterIsLocal(a, b, len, crlf, n, k);
        arg := ArgAfter(a, len, crlf, n);
      }
    }
  }

  lemma {:induction false} ArgsStopAtNul(a: seq<byte>, b: seq<byte>, len: nat, p: nat, n: nat, k: nat)
    requires SameToNul(a, b, k) && len <= k
    ensures ArgsFrom(a, len, p, n) == ArgsFrom(b, len, p, n)
    decreases n
  {
    if n > 0 {
      var arg := ArgStopsAtNul(a, b, len, p, k);
      if arg.Arg? {
        ArgsStopAtNul(a, b, len, arg.next, n - 1, k);
      }
    }
  }

  lemma ArrayStopsAtNul(a: seq<byte>, b: seq<byte>, len: nat, k: nat)
    requires SameToNul(a, b, k) && 0 < len <= k
    ensures ParseArray(a, len) == ParseArray(b, len)
  {
    SameAt(a, b, k, 0);
    var crlf, argc := HeaderStopsAtNul(a, b, 1, k);
    ArrayAtIsLocal(a, b, len, crlf, argc, k);
  }

  lemma ArrayAtIsLocal(a: seq<byte>, b: seq<byte>, len: nat, crlf: Option<nat>, argc: int, k: nat)
    requires SameToNul(a, b, k) && len <= k
    ensures ArrayAt(a, len, crlf, argc) == ArrayAt(b, len, crlf, argc)
  {
    if crlf.Some? && argc > 0 {
      ArgsStopAtNul(a, b, len, crlf.value + 2, argc, k);
    }
  }

  lemma InlineAtIsLocal(a: seq<byte>, b: seq<byte>, len: nat, end: Option<nat>, k: nat)
    requires SameToNul(a, b, k) && len <= k && (end.Some? ==> end.value < k)
    ensures InlineAt(a, len, end) == InlineAt(b, len, end)
  {
    SameSlice(a, b, k, 0, len);
    assert a[0..len] == a[..len] && b[0..len] == b[..len];
    if len > 0 {
      SameAt(a, b, k, len - 1);
    }
    if end.Some? {
      var c := end.value;
      SameSlice(a, b, k, 0, c);
      assert a[0..c] == a[..c] && b[0..c] == b[..c];
      SameAt(a, b, k, 0);
      SameAt(a, b, k, c);
      SameAt(a, b, k, c + 1);
    }
  }

  lemma InlineStopsAtNul(a: seq<byte>, b: seq<byte>, len: nat, k: nat)
    requires SameToNul(a, b, k) && len <= k
    ensures ParseInline(a, len) == ParseInline(b, len)
  {
    FindsStopAtNul(a, b, 0, k);
    InlineAtIsLocal(a, b, len, LineEnd(a), k);
  }

  /** Nothing past the first NUL behind the valid bytes has a say in what is parsed: none of
      the C string scans, wherever it starts, runs beyond it. */
  lemma ParseStopsAtNul(mem: seq<byte>, len: nat, k: nat)
    requires 0 < len <= k < |mem| && mem[k] == NUL
    ensures ParseOne(mem, len) == ParseOne(mem[..k + 1], len)
  {
    var cut := mem[..k + 1];
    assert cut[..k + 1] == cut;
    SameAt(mem, cut, k, 0);
    ArrayStopsAtNul(mem, cut, len, k);
    InlineStopsAtNul(mem, cut, len, k);
  }

  // ---------------------------------------------------------------- the code

  /** `redis_parse_resp_array` */
  method ParseRespArray(mem: seq<byte>, len: nat) returns (r: Parsed)
    requires len < |mem|
    ensures r == ParseArray(mem, len)
    ensures forall args {:trigger Encode(args)} ::
              Sendable(args) && |Encode(args)| <= len && At(mem, 0, Encode(args)) ==>
              r == Command(Cut(args), |Encode(args)|)
  {
    forall args | Sendable(args) && |Encode(args)| <= len && At(mem, 0, Encode(args))
      ensures ParseArray(mem, len) == Command(Cut(args), |Encode(args)|)
    {
      ParseUndoesEncode(mem, len, args);
    }
    if len < 4 || mem[0] != STAR {
      return Fail;
    }
    var crlf := FindCrlf(mem, 1);
    if crlf.None? || crlf.value >= len {
      return Fail;
    }
    var argc := Atoi(mem, 1);
    if argc <= 0 || argc > MAX_ARGS {
      return Fail;
    }
    r := ParseArgs(mem, len, crlf.value + 2, argc);
  }

  /** The argument loop. */
  method ParseArgs(mem: seq<byte>, len: nat, start: nat, argc: nat) returns (r: Parsed)
    requires len < |mem|
    ensures r == ArgsFrom(mem, len, start, argc)
  {
    var p := start;
    var args: seq<seq<byte>> := [];
    ghost var whole := ArgsFrom(mem, len, start, argc);
    GlueNothing(whole);
    for i := 0 to argc
      invariant 0 <= p && whole == Glue(args, ArgsFrom(mem, len, p, argc - i))
    {
      var arg := ParseArg(mem, len, p);
      if arg.NoArg? {
        return Fail;
      }
      GlueOne(args, arg.value, ArgsFrom(mem, len, arg.next, argc - i - 1));
      args := args + [arg.value];
      p := arg.next;
    }
    assert args + [] == args;
    r := Command(args, p);
  }

  lemma GlueNothing(r: Parsed)
    ensures Glue([], r) == r
  {
    if r.Command? {
      assert [] + r.args == r.args;
    }
  }

  lemma GlueOne(args: seq<seq<byte>>, value: seq<byte>, r: Parsed)
    ensures Glue(args, Glue([value], r)) == Glue(args + [value], r)
  {
    if r.Command? {
      assert args + ([value] + r.args) == args + [value] + r.args;
    }
  }

  /** The body of the argument loop. */
  method ParseArg(mem: seq<byte>, len: nat, p: nat) returns (r: Arg)
    requires len < |mem|
    ensures r == ArgAt(mem, len, p)
  {
    if p >= len || mem[p] != DOLLAR {
      return NoArg;
    }
    var crlf := FindCrlf(mem, p + 1);
    if crlf.None? || crlf.value >= len {
      return NoArg;
    }
    var argLen := Atoi(mem, p + 1);
    r := TakePayload(mem, len, crlf.value + 2, argLen);
  }

  method TakePayload(mem: seq<byte>, len: nat, at: nat, argLen: int) returns (r: Arg)
    requires len < |mem|
    ensures r == Payload(mem, len, at, argLen)
  {
    var p: int := at;
    if argLen < 0 || p + argLen + 2 > len {
      return NoArg;
    }
    var copyLen := if argLen < ARG_SIZE - 1 then argLen else ARG_SIZE - 1;
    var value := mem[p..p + copyLen];
    assert value == Take(mem[p..p + argLen], ARG_SIZE - 1);
    p := p + argLen;
    if mem[p] != CR || mem[p + 1] != LF {
      return NoArg;
    }
    r := Arg(value, p + 2);
  }
}
