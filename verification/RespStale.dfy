/**
 What stale bytes can do to the RESP array parser.  After a shift the receive buffer is not
 terminated again, so the parser's C string scans can run past the valid bytes into bytes
 of earlier commands.
 */
module RespStale {
  import opened Bytes
  import opened Resp

  // ---------------------------------------------------------------- bytes beyond the valid ones

  lemma {:induction false} SkipSpaceAppend(front: seq<byte>, tail: seq<byte>, p: nat)
    requires p <= |front|
    ensures SkipSpace(front, p) <= |front|
    ensures SkipSpace(front + tail, p) ==
            if SkipSpace(front, p) < |front| then SkipSpace(front, p) else SkipSpace(front + tail, |front|)
    decreases |front| - p
  {
    if p < |front| {
      assert (front + tail)[p] == front[p];
      if IsSpace(front[p]) {
        SkipSpaceAppend(front, tail, p + 1);
      }
    }
  }

  lemma {:induction false} DigitsAppend(front: seq<byte>, tail: seq<byte>, p: nat, acc: int)
    requires p <= |front|
    ensures var n := DigitsFrom(front, p, acc);
            && n.end <= |front|
            && DigitsFrom(front + tail, p, acc) ==
               if n.end < |front| then n else DigitsFrom(front + tail, |front|, n.value)
    decreases |front| - p
  {
    if p < |front| {
      assert (front + tail)[p] == front[p];
      if IsDigit(front[p]) {
        DigitsAppend(front, tail, p + 1, acc * 10 + (front[p] as int - 48));
      }
    }
  }

  /** A scan that ends among the valid bytes does not look further. */
  lemma ScanIsLocal(front: seq<byte>, tail: seq<byte>, p: nat)
    requires p <= |front| && Scan(front, p).end < |front|
    ensures Scan(front + tail, p) == Scan(front, p)
  {
    var q := SkipSpace(front, p);
    SkipSpaceAppend(front, tail, p);
    DigitsAppend(front, tail, q, 0);
    if q < |front| {
      assert (front + tail)[q] == front[q];
      DigitsAppend(front, tail, q + 1, 0);
    }
  }

  /** The number at `p` is negated. */
  predicate Minus(front: seq<byte>, p: nat) {
    SkipSpace(front, p) < |front| && front[SkipSpace(front, p)] == 45
  }

  function Signed(minus: bool, n: int): (r: int) { if minus then -n else n }

  /** A scan that reaches the end of the valid bytes goes on with the digits after them. */
  lemma ScanGoesOn(front: seq<byte>, tail: seq<byte>, p: nat) returns (acc: nat)
    requires p <= |front| && Scan(front, p).end >= |front|
    requires tail != [] && !IsSpace(tail[0]) && tail[0] != 43 && tail[0] != 45
    ensures Scan(front, p).value == Signed(Minus(front, p), acc)
    ensures Scan(front + tail, p).value == Signed(Minus(front, p), DigitsFrom(front + tail, |front|, acc).value)
  {
    var q := SkipSpace(front, p);
    SkipSpaceAppend(front, tail, p);
    assert (front + tail)[|front|] == tail[0];
    if q == |front| {
      acc := 0;
    } else {
      assert (front + tail)[q] == front[q];
      var start := if front[q] == 45 || front[q] == 43 then q + 1 else q;
      DigitsAppend(front, tail, start, 0);
      DigitsGrow(front, start, 0);
      acc := DigitsFrom(front, start, 0).value;
    }
  }

  lemma {:induction false} DigitsGrow(mem: seq<byte>, p: nat, acc: nat)
    ensures DigitsFrom(mem, p, acc).value >= acc
    decreases |mem| - p
  {
    if p < |mem| && IsDigit(mem[p]) {
      DigitsGrow(mem, p + 1, acc * 10 + (mem[p] as int - 48));
    }
  }

  lemma {:induction false} FindCrlfAppend(front: seq<byte>, tail: seq<byte>, p: nat)
    requires p <= |front|
    ensures var r := FindCrlf(front, p);
            var s := FindCrlf(front + tail, p);
            && (r.Some? ==> p <= r.value < |front| - 1 && s == r)
            && (r.None? ==> s.None? || s.value >= |front| - 1)
    decreases |front| - p
  {
    if p < |front| {
      assert (front + tail)[p] == front[p];
      if p + 1 < |front| {
        assert (front + tail)[p + 1] == front[p + 1];
      }
      FindCrlfAppend(front, tail, p + 1);
    } else {
      FindCrlfFrom(front + tail, p);
    }
  }

  /** The header number at `p` is scanned to its end among the valid bytes. */
  predicate Closed(front: seq<byte>, p: nat) {
    p <= |front| ==> Scan(front, p).end < |front|
  }

  lemma PayloadIsLocal(front: seq<byte>, a: seq<byte>, b: seq<byte>, q: nat, n: int)
    requires a != [] && b != []
    ensures Payload(front + a, |front|, q, n) == Payload(front + b, |front|, q, n)
  {
    if n >= 0 && q + n + 2 <= |front| {
      assert (front + a)[q..q + n] == front[q..q + n] == (front + b)[q..q + n];
    }
  }

  lemma {:induction false} DigitsStopAt(mem: seq<byte>, p: nat, k: nat, acc: int)
    requires p <= k < |mem| && !IsDigit(mem[k])
    ensures DigitsFrom(mem, p, acc).end <= k
    decreases k - p
  {
    if p < k && IsDigit(mem[p]) {
      DigitsStopAt(mem, p + 1, k, acc * 10 + (mem[p] as int - 48));
    }
  }

  lemma {:induction false} FindCrlfFinds(mem: seq<byte>, p: nat)
    ensures FindCrlf(mem, p).Some? ==>
              var c := FindCrlf(mem, p).value; p <= c < |mem| - 1 && mem[c] == CR && mem[c + 1] == LF
    decreases |mem| - p
  {
    if p < |mem| {
      FindCrlfFinds(mem, p + 1);
    }
  }

  /** A header line that is not blank is closed. */
  lemma NonBlankHeaderIsClosed(front: seq<byte>, p: nat)
    requires p <= |front| && FindCrlf(front, p).Some? && SkipSpace(front, p) < FindCrlf(front, p).value
    ensures Closed(front, p)
  {
    var q, c := SkipSpace(front, p), FindCrlf(front, p).value;
    FindCrlfFinds(front, p);
    DigitsStopAt(front, q, c, 0);
    DigitsStopAt(front, q + 1, c, 0);
  }

  lemma {:induction false} SkippedAreSpaces(mem: seq<byte>, p: nat, i: nat)
    requires p <= i < SkipSpace(mem, p)
    ensures i < |mem| && IsSpace(mem[i])
    decreases |mem| - p
  {
    if i > p {
      SkippedAreSpaces(mem, p + 1, i);
    }
  }

  lemma {:induction false} ScannedAreDigits(mem: seq<byte>, p: nat, acc: int, i: nat)
    requires p <= i < DigitsFrom(mem, p, acc).end
    ensures i < |mem| && IsDigit(mem[i])
    decreases |mem| - p
  {
    if i > p {
      ScannedAreDigits(mem, p + 1, acc * 10 + (mem[p] as int - 48), i);
    }
  }

  /** After an open header there is no further argument. */
  lemma OpenHasNoDollar(front: seq<byte>, p: nat, i: nat)
    requires p <= i < |front| && !Closed(front, p)
    ensures front[i] != DOLLAR
  {
    var q := SkipSpace(front, p);
    if i < q {
      SkippedAreSpaces(front, p, i);
    } else {
      var signed := front[q] == 45 || front[q] == 43;
      if i > q || !signed {
        ScannedAreDigits(front, if signed then q + 1 else q, 0, i);
      }
    }
  }

  predicate HeaderAt(front: seq<byte>, p: nat) { p < |front| && front[p] == DOLLAR }

  /** The parser, at `p` with `n` arguments to go, reaches the header of the last one, and
      that header is open: the position of its number. */
  function OpenArg(front: seq<byte>, p: nat, n: nat): (r: Option<nat>)
    decreases n
  {
    if n == 0 then None
    else if HeaderAt(front, p) && !Closed(front, p + 1) then (if n == 1 then Some(p + 1) else None)
    else
      match ArgAt(front + [NUL], |front|, p)
      case NoArg => None
      case Arg(_, next) => OpenArg(front, next, n - 1)
  }

  function OpenHeader(front: seq<byte>): (r: Option<nat>) {
    if |front| < 4 || front[0] != STAR || !Closed(front, 1) then None
    else
      match FindCrlf(front, 1)
      case None => None
      case Some(c) => if 0 < Atoi(front, 1) <= MAX_ARGS then OpenArg(front, c + 2, Atoi(front, 1)) else None
  }

  /** What the header of the number at `h` stands for when the bytes `a` follow. */
  function Completed(front: seq<byte>, a: seq<byte>, h: nat): (r: Arg)
    requires a != []
  {
    PayloadAfter(front, a, FindCrlf(front, h), Atoi(front + a, h))
  }

  function PayloadAfter(front: seq<byte>, a: seq<byte>, crlf: Option<nat>, n: int): (r: Arg)
    requires a != []
  {
    match crlf case None => NoArg case Some(c) => Payload(front + a, |front|, c + 2, n)
  }

  lemma OpenArgAt(front: seq<byte>, a: seq<byte>, p: nat)
    requires a != [] && HeaderAt(front, p)
    ensures ArgAt(front + a, |front|, p) == Completed(front, a, p + 1)
  {
    FindCrlfAppend(front, a, p + 1);
    assert (front + a)[p] == front[p];
  }

  lemma NumberIsLocal(front: seq<byte>, a: seq<byte>, h: nat) returns (n: int)
    requires h <= |front| && Closed(front, h)
    ensures n == Atoi(front, h) && Atoi(front + a, h) == n
  {
    ScanIsLocal(front, a, h);
    n := Atoi(front, h);
  }

  lemma CompletedIsLocal(front: seq<byte>, a: seq<byte>, h: nat)
    requires a != [] && h <= |front| && Closed(front, h)
    ensures Completed(front, a, h) == Completed(front, [NUL], h)
  {
    var n := NumberIsLocal(front, a, h);
    var m := NumberIsLocal(front, [NUL], h);
    PayloadAfterIsLocal(front, a, FindCrlf(front, h), n);
  }

  lemma PayloadAfterIsLocal(front: seq<byte>, a: seq<byte>, crlf: Option<nat>, n: int)
    requires a != []
    ensures PayloadAfter(front, a, crlf, n) == PayloadAfter(front, [NUL], crlf, n)
  {
    if crlf.Some? {
      PayloadIsLocal(front, a, [NUL], crlf.value + 2, n);
    }
  }

  lemma ArgAtIsLocal(front: seq<byte>, a: seq<byte>, p: nat)
    requires a != [] && (HeaderAt(front, p) ==> Closed(front, p + 1))
    ensures ArgAt(front + a, |front|, p) == ArgAt(front + [NUL], |front|, p)
  {
    if HeaderAt(front, p) {
      OpenArgAt(front, a, p);
      OpenArgAt(front, [NUL], p);
      CompletedIsLocal(front, a, p + 1);
    } else if p < |front| {
      assert (front + a)[p] == front[p] == (front + [NUL])[p];
    }
  }

  lemma OpenThenFail(front: seq<byte>, a: seq<byte>, p: nat, n: nat)
    requires a != [] && n >= 2 && HeaderAt(front, p) && !Closed(front, p + 1)
    ensures ArgsFrom(front + a, |front|, p, n) == Fail
  {
    var arg := ArgAt(front + a, |front|, p);
    if arg.Arg? {
      NextIsFurther(front + a, |front|, p);
      NoDollarFails(front, a, p, arg.next, n - 1);
    }
  }

  lemma NoDollarFails(front: seq<byte>, a: seq<byte>, p: nat, next: nat, n: nat)
    requires a != [] && n >= 1 && !Closed(front, p + 1) && p < next
    ensures ArgsFrom(front + a, |front|, next, n) == Fail
  {
    if next < |front| {
      OpenHasNoDollar(front, p + 1, next);
      assert (front + a)[next] == front[next];
    }
    assert ArgAt(front + a, |front|, next) == NoArg;
  }

  /** With no open last header the stale bytes have no say. */
  lemma {:induction false} ArgsAreLocal(front: seq<byte>, a: seq<byte>, p: nat, n: nat)
    requires a != [] && OpenArg(front, p, n) == None
    ensures ArgsFrom(front + a, |front|, p, n) == ArgsFrom(front + [NUL], |front|, p, n)
    decreases n
  {
    if n > 0 {
      if HeaderAt(front, p) && !Closed(front, p + 1) {
        OpenThenFail(front, a, p, n);
        OpenThenFail(front, [NUL], p, n);
      } else {
        ArgAtIsLocal(front, a, p);
        var arg := ArgAt(front + [NUL], |front|, p);
        if arg.Arg? {
          ArgsAreLocal(front, a, arg.next, n - 1);
        }
      }
    }
  }

  /** Where the result ends, if the argument is read. */
  predicate EndsWith(r: Parsed, arg: Arg) {
    match arg case NoArg => r == Fail case Arg(_, next) => r.Command? && r.used == next
  }

  lemma {:induction false} OpenArgIsOpen(front: seq<byte>, p: nat, n: nat, h: nat)
    requires OpenArg(front, p, n) == Some(h)
    ensures h >= 1 && HeaderAt(front, h - 1) && !Closed(front, h)
    decreases n
  {
    if !(HeaderAt(front, p) && !Closed(front, p + 1)) {
      OpenArgIsOpen(front, ArgAt(front + [NUL], |front|, p).next, n - 1, h);
    }
  }

  /** From `p` the argument loop reads `n - 1` arguments and comes to the one at `last`. */
  predicate LeadsTo(mem: seq<byte>, len: nat, p: nat, n: nat, last: nat)
    requires len < |mem|
    decreases n
  {
    if n <= 1 then n == 1 && p == last
    else
      match ArgAt(mem, len, p)
      case NoArg => false
      case Arg(_, next) => LeadsTo(mem, len, next, n - 1, last)
  }

  lemma {:induction false} LastArgDecides(mem: seq<byte>, len: nat, p: nat, n: nat, last: nat, arg: Arg)
    requires len < |mem| && LeadsTo(mem, len, p, n, last) && arg == ArgAt(mem, len, last)
    ensures EndsWith(ArgsFrom(mem, len, p, n), arg)
    decreases n
  {
    if n == 1 {
      LastArg(mem, len, p);
    } else {
      LastArgDecides(mem, len, ArgAt(mem, len, p).next, n - 1, last, arg);
    }
  }

  /** Whatever the stale bytes are, the parser comes to the open header. */
  lemma {:induction false} LeadsToOpenArg(front: seq<byte>, a: seq<byte>, p: nat, n: nat, h: nat)
    requires a != [] && OpenArg(front, p, n) == Some(h) && h >= 1
    ensures LeadsTo(front + a, |front|, p, n, h - 1)
    decreases n
  {
    if !(HeaderAt(front, p) && !Closed(front, p + 1)) {
      var next := OpenArgNext(front, a, p, n, h);
      LeadsToOpenArg(front, a, next, n - 1, h);
    }
  }

  lemma OpenArgNext(front: seq<byte>, a: seq<byte>, p: nat, n: nat, h: nat) returns (next: nat)
    requires a != [] && OpenArg(front, p, n) == Some(h) && (HeaderAt(front, p) ==> Closed(front, p + 1))
    ensures n > 1 && ArgAt(front + a, |front|, p).Arg? && ArgAt(front + a, |front|, p).next == next
    ensures OpenArg(front, next, n - 1) == Some(h)
  {
    ArgAtIsLocal(front, a, p);
    next := ArgAt(front + a, |front|, p).next;
  }

  lemma LastArg(mem: seq<byte>, len: nat, p: nat)
    requires len < |mem|
    ensures EndsWith(ArgsFrom(mem, len, p, 1), ArgAt(mem, len, p))
  {
    var arg := ArgAt(mem, len, p);
    if arg.Arg? {
      assert ArgsFrom(mem, len, arg.next, 0) == Command([], arg.next);
    }
  }

  lemma CommandIsLocal(front: seq<byte>, a: seq<byte>)
    requires a != [] && |front| >= 1 && OpenHeader(front) == None
    ensures ParseArray(front + a, |front|) == ParseArray(front + [NUL], |front|)
  {
    if |front| >= 4 && front[0] == STAR {
      if !Closed(front, 1) {
        OpenCountFails(front, a);
        OpenCountFails(front, [NUL]);
      } else {
        ClosedCount(front, a);
        ClosedCount(front, [NUL]);
        var crlf := FindCrlf(front, 1);
        if crlf.Some? && 0 < Atoi(front, 1) <= MAX_ARGS {
          ArgsAreLocal(front, a, crlf.value + 2, Atoi(front, 1));
        }
      }
    } else {
      assert (front + a)[0] == front[0] == (front + [NUL])[0];
    }
  }

  lemma OpenCountFails(front: seq<byte>, a: seq<byte>)
    requires a != [] && |front| >= 4 && !Closed(front, 1)
    ensures ParseArray(front + a, |front|) == Fail
  {
    var mem := front + a;
    FindCrlfFrom(mem, 1);
    var crlf, argc := FindCrlf(mem, 1), Atoi(mem, 1);
    if crlf.Some? && argc > 0 {
      NoDollarFails(front, a, 0, crlf.value + 2, argc);
    }
  }

  lemma ClosedCount(front: seq<byte>, a: seq<byte>)
    requires a != [] && |front| >= 4 && front[0] == STAR && Closed(front, 1)
    ensures var crlf, argc := FindCrlf(front, 1), Atoi(front, 1);
            ParseArray(front + a, |front|) ==
            if crlf.None? || argc <= 0 || argc > MAX_ARGS then Fail
            else ArgsFrom(front + a, |front|, crlf.value + 2, argc)
  {
    var mem := front + a;
    assert mem[0] == front[0];
    FindCrlfAppend(front, a, 1);
    ScanIsLocal(front, a, 1);
    var c := FindCrlf(mem, 1);
    if FindCrlf(front, 1).None? && c.Some? && 0 < Atoi(mem, 1) {
      PastEndFails(mem, |front|, c.value + 2, Atoi(mem, 1));
    }
  }

  lemma PastEndFails(mem: seq<byte>, len: nat, p: nat, n: nat)
    requires len < |mem| && p >= len && n > 0
    ensures ArgsFrom(mem, len, p, n) == Fail
  {
  }

  lemma OpenHeaderIsOpen(front: seq<byte>) returns (h: nat)
    requires OpenHeader(front).Some?
    ensures h >= 1 && OpenHeader(front) == Some(h) && HeaderAt(front, h - 1) && !Closed(front, h)
  {
    h := OpenHeader(front).value;
    OpenArgIsOpen(front, FindCrlf(front, 1).value + 2, Atoi(front, 1), h);
  }

  /** Where the argument loop starts and how many arguments it is to read. */
  lemma OpenHeaderLeads(front: seq<byte>, a: seq<byte>, h: nat) returns (p: nat, argc: nat)
    requires a != [] && h >= 1 && OpenHeader(front) == Some(h)
    ensures LeadsTo(front + a, |front|, p, argc, h - 1)
    ensures ParseArray(front + a, |front|) == ArgsFrom(front + a, |front|, p, argc)
  {
    ClosedCount(front, a);
    p, argc := FindCrlf(front, 1).value + 2, Atoi(front, 1);
    LeadsToOpenArg(front, a, p, argc, h);
  }

  lemma LeadingArgsDecide(front: seq<byte>, a: seq<byte>, h: nat, arg: Arg, p: nat, argc: nat)
    requires a != [] && h >= 1 && arg == ArgAt(front + a, |front|, h - 1)
    requires LeadsTo(front + a, |front|, p, argc, h - 1)
    requires ParseArray(front + a, |front|) == ArgsFrom(front + a, |front|, p, argc)
    ensures EndsWith(ParseArray(front + a, |front|), arg)
  {
    LastArgDecides(front + a, |front|, p, argc, h - 1, arg);
  }

  /** The open header decides the result. */
  lemma OpenHeaderDecides(front: seq<byte>, a: seq<byte>, h: nat, arg: Arg)
    requires a != [] && h >= 1 && OpenHeader(front) == Some(h) && arg == ArgAt(front + a, |front|, h - 1)
    ensures EndsWith(ParseArray(front + a, |front|), arg)
  {
    var p, argc := OpenHeaderLeads(front, a, h);
    LeadingArgsDecide(front, a, h, arg, p, argc);
  }

  // ---------------------------------------------------------------- completing a number

  /** Writing at most `k` digits after `v` gives `n`. */
  predicate Extends(n: nat, v: int, k: nat)
    decreases k
  {
    n == v || (k > 0 && Extends(n / 10, v, k - 1))
  }

  /** At most `k` stale digits can turn the open number at `p` into `n`. */
  predicate Completes(front: seq<byte>, p: nat, n: nat, k: nat) {
    if Minus(front, p) then Scan(front, p).value == 0 && n == 0 else Extends(n, Scan(front, p).value, k)
  }

  lemma {:induction false} ExtendsFewer(n: nat, v: nat, d: nat, k: nat)
    requires d < 10 && Extends(n, v * 10 + d, k)
    ensures Extends(n, v, k + 1)
    decreases k
  {
    if n == v * 10 + d {
      assert n / 10 == v;
    } else {
      ExtendsFewer(n / 10, v, d, k - 1);
    }
  }

  lemma {:induction false} ExtendsMore(n: nat, v: int, k: nat, m: nat)
    requires Extends(n, v, k) && k <= m
    ensures Extends(n, v, m)
    decreases k
  {
    if n != v {
      ExtendsMore(n / 10, v, k - 1, m - 1);
    }
  }

  lemma {:induction false} ExtendsAtLeast(n: nat, v: int, k: nat)
    requires Extends(n, v, k)
    ensures n >= v
    decreases k
  {
    if n != v {
      ExtendsAtLeast(n / 10, v, k - 1);
    }
  }

  lemma {:induction false} DigitsExtend(mem: seq<byte>, p: nat, acc: nat)
    ensures var n := DigitsFrom(mem, p, acc);
            n.end >= p && n.value >= 0 && Extends(n.value, acc, n.end - p)
    decreases |mem| - p
  {
    if p < |mem| && IsDigit(mem[p]) {
      var d := mem[p] as int - 48;
      DigitsExtend(mem, p + 1, acc * 10 + d);
      var n := DigitsFrom(mem, p, acc);
      ExtendsFewer(n.value, acc, d, n.end - (p + 1));
    }
  }

  /** Digits before position `z`, which holds none. */
  lemma DigitsExtendBefore(mem: seq<byte>, p: nat, acc: nat, z: nat, k: nat)
    requires p <= z < |mem| && !IsDigit(mem[z]) && z - p <= k
    ensures var n := DigitsFrom(mem, p, acc).value; n >= acc && Extends(n, acc, k)
  {
    var n := DigitsFrom(mem, p, acc);
    DigitsExtend(mem, p, acc);
    DigitsStopAt(mem, p, z, acc);
    DigitsGrow(mem, p, acc);
    ExtendsMore(n.value, acc, n.end - p, k);
  }

  lemma {:induction false} ExtendingDigits(n: nat, v: int, k: nat) returns (ds: seq<byte>)
    requires Extends(n, v, k)
    ensures |ds| <= k && AllDigits(ds) && Fold(v, ds) == n
    decreases k
  {
    if n == v {
      ds := [];
    } else {
      ds := ExtendingDigits(n / 10, v, k - 1);
      FoldSnoc(v, ds, 48 + n % 10);
      ds := ds + [48 + n % 10];
    }
  }

  /** A number that starts after the valid bytes. */
  lemma NewNumber(front: seq<byte>, a: seq<byte>, p: nat, z: nat)
    requires p <= |front| && SkipSpace(front, p) == |front|
    requires z < |a| && a[z] == NUL && Scan(front + a, p).value >= 0
    ensures Extends(Scan(front + a, p).value, 0, z)
  {
    var mem := front + a;
    SkipSpaceAppend(front, a, p);
    assert mem[|front| + z] == NUL;
    SkipSpaceStops(mem, |front|, |front| + z);
    var q := SkipSpace(mem, |front|);
    DigitsExtendBefore(mem, q, 0, |front| + z, z);
    if q < |front| + z {
      DigitsExtendBefore(mem, q + 1, 0, |front| + z, z);
    }
  }

  lemma {:induction false} SkipSpaceStops(mem: seq<byte>, p: nat, z: nat)
    requires p <= z < |mem| && mem[z] == NUL
    ensures SkipSpace(mem, p) <= z
    decreases z - p
  {
    if p < z {
      SkipSpaceStops(mem, p + 1, z);
    }
  }

  /** Whatever the stale bytes before their NUL are, the number they complete is one of those. */
  lemma CompletedNumber(front: seq<byte>, a: seq<byte>, p: nat, z: nat)
    requires p <= |front| && !Closed(front, p) && z < |a| && a[z] == NUL
    requires Scan(front + a, p).value >= 0
    ensures Completes(front, p, Scan(front + a, p).value, z)
  {
    var q, mem := SkipSpace(front, p), front + a;
    SkipSpaceAppend(front, a, p);
    if q == |front| {
      NewNumber(front, a, p, z);
    } else {
      assert mem[q] == front[q];
      assert mem[|front| + z] == NUL;
      var start := if front[q] == 45 || front[q] == 43 then q + 1 else q;
      DigitsAppend(front, a, start, 0);
      DigitsGrow(front, start, 0);
      DigitsExtendBefore(mem, |front|, DigitsFrom(front, start, 0).value, |front| + z, z);
    }
  }

  lemma TailDigits(front: seq<byte>, ds: seq<byte>, rest: seq<byte>, acc: int)
    requires AllDigits(ds) && rest != [] && rest[0] == NUL
    ensures DigitsFrom(front + (ds + rest), |front|, acc).value == Fold(acc, ds)
  {
    var mem := front + (ds + rest);
    assert mem[|front|..|front| + |ds|] == ds;
    assert mem[|front| + |ds|] == NUL;
    DigitsRead(mem, |front|, ds, acc);
  }

  /** `k + 1` bytes of which the first are `ds`, and the others NUL. */
  function Padded(ds: seq<byte>, k: nat): (a: seq<byte>)
    requires |ds| <= k
    ensures |a| == k + 1 && a[k] == NUL
  {
    ds + Repeat(NUL, k + 1 - |ds|)
  }

  /** The number that digits and NULs after the valid bytes complete. */
  lemma PaddedNumber(front: seq<byte>, p: nat, ds: seq<byte>, k: nat) returns (acc: nat)
    requires p <= |front| && !Closed(front, p) && AllDigits(ds) && |ds| <= k
    ensures Scan(front, p).value == Signed(Minus(front, p), acc)
    ensures Scan(front + Padded(ds, k), p).value == Signed(Minus(front, p), Fold(acc, ds))
  {
    var a := Padded(ds, k);
    assert a[0] == if ds == [] then NUL else ds[0];
    acc := ScanGoesOn(front, a, p);
    TailDigits(front, ds, Repeat(NUL, k + 1 - |ds|), acc);
  }

  /** And each of those numbers is completed by some stale bytes. */
  lemma CompletingTail(front: seq<byte>, p: nat, n: nat, k: nat) returns (a: seq<byte>)
    requires p <= |front| && !Closed(front, p) && Completes(front, p, n, k)
    ensures |a| == k + 1 && a[k] == NUL && Scan(front + a, p).value == n
  {
    var ds := [];
    if !Minus(front, p) {
      ds := ExtendingDigits(n, Scan(front, p).value, k);
    }
    var acc := PaddedNumber(front, p, ds, k);
    a := Padded(ds, k);
  }

  /** Where there is room for a digit, other stale bytes complete another number. */
  lemma OtherTail(front: seq<byte>, p: nat, n: nat, k: nat) returns (b: seq<byte>)
    requires p <= |front| && !Closed(front, p) && Completes(front, p, n, k) && k > 0
    ensures |b| == k + 1 && b[k] == NUL && Scan(front + b, p).value != n
    ensures Signed(true, n * 10 + 1) <= Scan(front + b, p).value <= n * 10 + 1
  {
    var acc := PaddedNumber(front, p, [], k);
    var acc' := PaddedNumber(front, p, [49], k);
    assert [49][1..] == [];
    assert Fold(acc, [49]) == acc * 10 + 1;
    if !Minus(front, p) {
      ExtendsAtLeast(n, acc, k);
    }
    b := if Scan(front + Padded([], k), p).value != n then Padded([], k) else Padded([49], k);
  }

  // ---------------------------------------------------------------- when stale bytes matter

  predicate FitsInt(v: int) { -0x8000_0000 <= v < 0x8000_0000 }

  /** What may fill the buffer behind the valid bytes: there is a NUL in it, and the number
      that it completes, if any, is one that `atoi` is defined for. */
  predicate Stale(front: seq<byte>, a: seq<byte>) {
    && |front| + |a| == BUF_SIZE && NUL in a
    && (OpenHeader(front).Some? ==> FitsInt(Scan(front + a, OpenHeader(front).value).value))
  }

  /** The result of the array parser depends on the first `buf_len` bytes alone. */
  ghost predicate DecidedByValidBytes(front: seq<byte>)
    requires |front| >= 1
  {
    forall a: seq<byte>, b: seq<byte> :: Stale(front, a) && Stale(front, b) ==>
      ParseArray(front + a, |front|) == ParseArray(front + b, |front|)
  }

  /** The digits for which there is room before the last byte of the buffer. */
  function Room(front: seq<byte>): (k: nat)
    requires |front| < BUF_SIZE
  {
    BUF_SIZE - 1 - |front|
  }

  /** Some CR LF among the valid bytes ends a payload of a length to which stale digits can
      complete the number at `h`. */
  predicate Swayed(front: seq<byte>, h: nat)
    requires |front| < BUF_SIZE
  {
    match FindCrlf(front, h)
    case None => false
    case Some(c) =>
      exists k :: c + 2 <= k < |front| - 1 && front[k] == CR && front[k + 1] == LF
               && Completes(front, h, k - c - 2, Room(front))
  }

  /** The payload that the number `n` gives. */
  lemma CompletedIs(front: seq<byte>, a: seq<byte>, h: nat, c: nat, n: int)
    requires a != [] && FindCrlf(front, h) == Some(c) && Scan(front + a, h).value == n && FitsInt(n)
    ensures var r := Completed(front, a, h); var k := c + 2 + n;
            && (r.Arg? <==> n >= 0 && k + 2 <= |front| && front[k] == CR && front[k + 1] == LF)
            && (r.Arg? ==> r.next == k + 2)
  {
    var k := c + 2 + n;
    if n >= 0 && k + 2 <= |front| {
      assert (front + a)[k] == front[k] && (front + a)[k + 1] == front[k + 1];
    }
  }

  lemma UnswayedFails(front: seq<byte>, a: seq<byte>)
    requires |front| < BUF_SIZE && OpenHeader(front).Some? && Stale(front, a)
    requires !Swayed(front, OpenHeader(front).value)
    ensures ParseArray(front + a, |front|) == Fail
  {
    var h := OpenHeaderIsOpen(front);
    UnswayedHeader(front, a, h);
    OpenHeaderDecides(front, a, h, NoArg);
  }

  lemma UnswayedHeader(front: seq<byte>, a: seq<byte>, h: nat)
    requires |front| + |a| == BUF_SIZE && NUL in a && |front| < BUF_SIZE
    requires 1 <= h <= |front| && HeaderAt(front, h - 1) && !Closed(front, h)
    requires FitsInt(Scan(front + a, h).value) && !Swayed(front, h)
    ensures ArgAt(front + a, |front|, h - 1) == NoArg
  {
    OpenArgAt(front, a, h - 1);
    if c :| FindCrlf(front, h) == Some(c) {
      UnswayedIsNoArg(front, a, h, c);
    }
  }

  lemma UnswayedIsNoArg(front: seq<byte>, a: seq<byte>, h: nat, c: nat)
    requires |front| + |a| == BUF_SIZE && NUL in a && |front| < BUF_SIZE
    requires h <= |front| && !Closed(front, h) && FitsInt(Scan(front + a, h).value)
    requires FindCrlf(front, h) == Some(c) && !Swayed(front, h)
    ensures Completed(front, a, h) == NoArg
  {
    var n := Scan(front + a, h).value;
    CompletedIs(front, a, h, c, n);
    if n >= 0 {
      var z :| 0 <= z < |a| && a[z] == NUL;
      CompletedNumber(front, a, h, z);
      CompletesMore(front, h, n, z, Room(front));
      assert (c + 2 + n) - c - 2 == n;
    }
  }

  lemma CompletesMore(front: seq<byte>, p: nat, n: nat, k: nat, m: nat)
    requires Completes(front, p, n, k) && k <= m
    ensures Completes(front, p, n, m)
  {
    if !Minus(front, p) {
      ExtendsMore(n, Scan(front, p).value, k, m);
    }
  }

  lemma SwayedDiffers(front: seq<byte>) returns (a: seq<byte>, b: seq<byte>)
    requires |front| < BUF_SIZE - 1 && OpenHeader(front).Some? && Swayed(front, OpenHeader(front).value)
    ensures Stale(front, a) && Stale(front, b)
    ensures ParseArray(front + a, |front|) != ParseArray(front + b, |front|)
  {
    var h := OpenHeaderIsOpen(front);
    a, b := SwayingTails(front, h);
    OpenArgAt(front, a, h - 1);
    OpenArgAt(front, b, h - 1);
    OpenHeaderDecides(front, a, h, Completed(front, a, h));
    OpenHeaderDecides(front, b, h, Completed(front, b, h));
  }

  lemma SwayingTails(front: seq<byte>, h: nat) returns (a: seq<byte>, b: seq<byte>)
    requires |front| < BUF_SIZE - 1 && h <= |front| && !Closed(front, h) && Swayed(front, h)
    ensures |front| + |a| == BUF_SIZE && NUL in a && FitsInt(Scan(front + a, h).value)
    ensures |front| + |b| == BUF_SIZE && NUL in b && FitsInt(Scan(front + b, h).value)
    ensures var x, y := Completed(front, a, h), Completed(front, b, h);
            x.Arg? && (y.Arg? ==> x.next != y.next)
  {
    var c, k := SwayingPayload(front, h);
    var n := k - c - 2;
    a := CompletingTail(front, h, n, Room(front));
    b := OtherTail(front, h, n, Room(front));
    CompletedIs(front, a, h, c, n);
    CompletedIs(front, b, h, c, Scan(front + b, h).value);
  }

  lemma SwayingPayload(front: seq<byte>, h: nat) returns (c: nat, k: nat)
    requires |front| < BUF_SIZE && Swayed(front, h)
    ensures FindCrlf(front, h) == Some(c) && c + 2 <= k < |front| - 1
    ensures front[k] == CR && front[k + 1] == LF && Completes(front, h, k - c - 2, Room(front))
  {
    c := FindCrlf(front, h).value;
    k :| c + 2 <= k < |front| - 1 && front[k] == CR && front[k + 1] == LF
      && Completes(front, h, k - c - 2, Room(front));
  }

  lemma DecidedByNone(front: seq<byte>)
    requires 1 <= |front| < BUF_SIZE && OpenHeader(front).None?
    ensures DecidedByValidBytes(front)
  {
    forall a: seq<byte>, b: seq<byte> | Stale(front, a) && Stale(front, b)
      ensures ParseArray(front + a, |front|) == ParseArray(front + b, |front|)
    {
      CommandIsLocal(front, a);
      CommandIsLocal(front, b);
    }
  }

  lemma DecidedByFailure(front: seq<byte>)
    requires 1 <= |front| < BUF_SIZE && OpenHeader(front).Some? && !Swayed(front, OpenHeader(front).value)
    ensures DecidedByValidBytes(front)
  {
    forall a: seq<byte>, b: seq<byte> | Stale(front, a) && Stale(front, b)
      ensures ParseArray(front + a, |front|) == ParseArray(front + b, |front|)
    {
      UnswayedFails(front, a);
      UnswayedFails(front, b);
    }
  }

  lemma DecidedByLackOfRoom(front: seq<byte>)
    requires |front| == BUF_SIZE - 1
    ensures DecidedByValidBytes(front)
  {
    forall a: seq<byte>, b: seq<byte> | Stale(front, a) && Stale(front, b)
      ensures a == b
    {
      assert a[0] == NUL == b[0];
    }
  }

  /** Stale bytes change nothing, unless the parser reaches a last argument whose length is
      left open by the valid bytes, and digits for which there is room can complete it to
      one that fits. */
  lemma StaleBytesMatterIff(front: seq<byte>)
    requires 1 <= |front| < BUF_SIZE
    ensures DecidedByValidBytes(front) <==>
            !(OpenHeader(front).Some? && Room(front) > 0 && Swayed(front, OpenHeader(front).value))
  {
    if OpenHeader(front).None? {
      DecidedByNone(front);
    } else if !Swayed(front, OpenHeader(front).value) {
      DecidedByFailure(front);
    } else if Room(front) > 0 {
      var a, b := SwayedDiffers(front);
    } else {
      DecidedByLackOfRoom(front);
    }
  }

  /** A command whose one length is empty: the scan runs over CR and LF into the payload
      and past the valid bytes, to the number `n`. */
  lemma BlankLength(mem: seq<byte>, n: nat)
    requires |mem| > 10 && mem[..10] == [42, 49, 13, 10, 36, 13, 10, 13, 10, 48]
    requires DigitsFrom(mem, 10, 0).value == n <= 2
    ensures ParseArray(mem, 10) == if n == 0 then Command([[]], 9) else Fail
  {
    var front: seq<byte> := [42, 49, 13, 10, 36, 13, 10, 13, 10, 48];
    assert forall i :: 0 <= i < 10 ==> mem[i] == front[i];
    assert FindCrlf(mem, 2) == Some(2);
    assert FindCrlf(mem, 1) == Some(2);
    assert DigitsFrom(mem, 2, 1) == Number(1, 2);
    assert DigitsFrom(mem, 1, 0) == Number(1, 2);
    assert Atoi(mem, 1) == 1;
    assert FindCrlf(mem, 5) == Some(5);
    assert SkipSpace(mem, 9) == 9;
    assert SkipSpace(mem, 8) == 9;
    assert SkipSpace(mem, 7) == 9;
    assert SkipSpace(mem, 6) == 9;
    assert SkipSpace(mem, 5) == 9;
    assert DigitsFrom(mem, 9, 0) == DigitsFrom(mem, 10, 0);
    assert Atoi(mem, 5) == n;
    if n == 0 {
      assert mem[7..7] == [];
      assert ArgAt(mem, 10, 4) == Arg([], 9);
      assert ArgsFrom(mem, 10, 9, 0) == Command([], 9);
    }
  }
}
