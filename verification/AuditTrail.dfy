/**
 The audit trail: a ring of 4096 fixed-layout records filled by every protocol handler
 and drained by one flush thread (src/utilities/audit.c).

 Three layers: the class `AuditTrail` updates the ring in place; `Trail` and `Step` are
 its value-level meaning, one atomic step per critical section; `Fifo` is the bounded
 queue of log lines that the trail is for, with no ring, no indices and no buffers.
 */
module AuditRing {
  import opened Bytes

  const CAPACITY: nat := 4096
  const WORD: nat := 0x1_0000_0000_0000_0000

  /** `size_t` and `uint64_t` values, with the wrap-around of their arithmetic. */
  type word = x: int | 0 <= x < WORD

  function WrapInc(x: word): (r: word) {
    if x + 1 == WORD then 0 else x + 1
  }

  function WrapSub(a: word, b: word): (r: word) {
    if a >= b then a - b else WORD + a - b
  }

  /** What a counter shows after `n` increments from zero. */
  function Wrapped(n: nat): (r: word) {
    if n < WORD then n else Wrapped(n - WORD)
  }

  lemma {:induction false} WrapIncCounts(n: nat)
    ensures WrapInc(Wrapped(n)) == Wrapped(n + 1)
  {
    if n >= WORD {
      WrapIncCounts(n - WORD);
    }
  }

  /** The ring position after `i`. */
  function Next(i: nat): (r: nat)
    requires i < CAPACITY
    ensures r < CAPACITY
  {
    if i + 1 == CAPACITY then 0 else i + 1
  }

  const IP_LEN: nat := 46
  const USER_LEN: nat := 128
  const DETAIL_LEN: nat := 2048
  const SESSION_LEN: nat := 64

  /** One call of `audit_record_event`; `details` is the text the format produces. */
  datatype Request = Request(
    time: int, kind: int, severity: int, protocol: int, port: int,
    ip: Option<seq<byte>>, session: Option<seq<byte>>, user: Option<seq<byte>>,
    details: seq<byte>)

  /** C strings contain no NUL. */
  predicate Proper(r: Request) {
    && (r.ip.Some? ==> NulFree(r.ip.value))
    && (r.session.Some? ==> NulFree(r.session.value))
    && (r.user.Some? ==> NulFree(r.user.value))
    && NulFree(r.details)
  }

  /** A ring slot, with its string fields as raw buffers. */
  datatype RawSlot = Slot(
    time: int, sequence: nat, kind: int, severity: int, protocol: int, port: int,
    ip: seq<byte>, session: seq<byte>, user: seq<byte>, details: seq<byte>)

  /** Buffer sizes, and the last byte of each `strncpy` field still zero from `calloc`. */
  predicate ValidSlot(s: RawSlot) {
    && |s.ip| == IP_LEN && s.ip[IP_LEN - 1] == NUL
    && |s.session| == SESSION_LEN && s.session[SESSION_LEN - 1] == NUL
    && |s.user| == USER_LEN && s.user[USER_LEN - 1] == NUL
    && |s.details| == DETAIL_LEN
  }

  type Slot = s: RawSlot | ValidSlot(s) witness ZeroSlot()

  function ZeroSlot(): (s: RawSlot) {
    Slot(0, 0, 0, 0, 0, 0, Repeat(NUL, IP_LEN), Repeat(NUL, SESSION_LEN),
         Repeat(NUL, USER_LEN), Repeat(NUL, DETAIL_LEN))
  }

  function OrElse(s: Option<seq<byte>>, fallback: string): (r: seq<byte>) {
    match s case Some(v) => v case None => Ascii(fallback)
  }

  function FillSlot(s: Slot, r: Request, sequence: nat): (s': Slot)
  {
    Slot(r.time, sequence, r.kind, r.severity, r.protocol, r.port,
         StrNCpy(s.ip, OrElse(r.ip, "unknown"), IP_LEN - 1),
         StrNCpy(s.session, OrElse(r.session, "-"), SESSION_LEN - 1),
         StrNCpy(s.user, OrElse(r.user, ""), USER_LEN - 1),
         SnPrintf(s.details, r.details, DETAIL_LEN))
  }

  /** The values a written log line shows. */
  datatype Line = Line(
    time: int, sequence: nat, kind: int, severity: int, protocol: int, port: int,
    ip: seq<byte>, session: seq<byte>, user: seq<byte>, details: seq<byte>)

  /** `write_record`: every string field is read up to its first NUL. */
  function Written(s: Slot): (l: Line) {
    Line(s.time, s.sequence, s.kind, s.severity, s.protocol, s.port,
         CStr(s.ip), CStr(s.session),
         if s.user[0] != NUL then CStr(s.user) else Ascii("-"),
         CStr(s.details))
  }

  /** The line a request stands for, said without any buffer. */
  function LineOf(r: Request, sequence: nat): (l: Line) {
    var user := Take(OrElse(r.user, ""), USER_LEN - 1);
    Line(r.time, sequence, r.kind, r.severity, r.protocol, r.port,
         Take(OrElse(r.ip, "unknown"), IP_LEN - 1),
         Take(OrElse(r.session, "-"), SESSION_LEN - 1),
         if user == [] then Ascii("-") else user,
         Take(r.details, DETAIL_LEN - 1))
  }

  /** Whatever record a slot held before, nothing of it reaches the log line written next. */
  lemma SlotReuseLeaksNothing(old_: Slot, r: Request, sequence: nat)
    requires Proper(r)
    ensures Written(FillSlot(old_, r, sequence)) == LineOf(r, sequence)
  {
    StrNCpyReads(old_.ip, OrElse(r.ip, "unknown"), IP_LEN - 1);
    StrNCpyReads(old_.session, OrElse(r.session, "-"), SESSION_LEN - 1);
    StrNCpyReads(old_.user, OrElse(r.user, ""), USER_LEN - 1);
    SnPrintfReads(old_.details, r.details, DETAIL_LEN);
    var u := FillSlot(old_, r, sequence).user;
    assert u[0] == NUL <==> CStr(u) == [];
  }

  /** A line shows a request: each text that was passed in, cut to its field, and a fixed
      text in the place of one that was not. */
  predicate Shows(l: Line, r: Request) {
    && l.time == r.time && l.kind == r.kind && l.severity == r.severity
    && l.protocol == r.protocol && l.port == r.port
    && (r.ip.Some? ==> l.ip == Take(r.ip.value, 45))
    && (r.ip.None? ==> l.ip == Ascii("unknown"))
    && (r.session.Some? ==> l.session == Take(r.session.value, 63))
    && (r.session.None? ==> l.session == Ascii("-"))
    && (r.user.Some? && r.user.value != [] ==> l.user == Take(r.user.value, 127))
    && (r.user == Some([]) || r.user.None? ==> l.user == Ascii("-"))
    && l.details == Take(r.details, 2047)
  }

  lemma LineShowsRequest(r: Request, sequence: nat)
    ensures Shows(LineOf(r, sequence), r) && LineOf(r, sequence).sequence == sequence
  {
  }

  /** What is written from a slot, whatever it held before, shows the request that filled
      it. */
  lemma SlotShowsRequest(old_: Slot, r: Request, sequence: nat)
    requires Proper(r)
    ensures var l := Written(FillSlot(old_, r, sequence)); Shows(l, r) && l.sequence == sequence
  {
    SlotReuseLeaksNothing(old_, r, sequence);
    LineShowsRequest(r, sequence);
  }

  // ---------------------------------------------------------------- the ring

  datatype RawTrail = Trail(
    slots: seq<Slot>, head: word, count: word, nextSequence: word,
    total: word, dropped: word, running: bool, log: seq<Line>)

  predicate ValidTrail(t: RawTrail) {
    && |t.slots| == CAPACITY
    && t.head < CAPACITY && t.count <= CAPACITY
  }

  type Trail = t: RawTrail | ValidTrail(t) witness InitTrail()

  function InitTrail(): (t: RawTrail) {
    Trail(seq(CAPACITY, _ => ZeroSlot()), 0, 0, 1, 0, 0, true, [])
  }

  /** `(head - count) % capacity` in `size_t`: the subtraction wraps below zero. */
  function ReadIndex(head: word, count: word, capacity: word): (i: nat)
    requires capacity > 0
    ensures i < capacity
  {
    WrapSub(head, count) % capacity
  }

  /** The cell that lies `n` cells before `head` round the ring. */
  function Back(head: nat, n: nat): (i: nat)
    requires head < CAPACITY && n <= CAPACITY
    ensures i < CAPACITY
  {
    if n <= head then head - n else head + CAPACITY - n
  }

  lemma ReadIndexIsOldest(head: nat, count: nat)
    requires head < CAPACITY && 0 < count <= CAPACITY
    ensures ReadIndex(head, count, CAPACITY) == Back(head, count)
  {
    if head < count {
      assert WrapSub(head, count) == CAPACITY * 0xF_FFFF_FFFF_FFFF + (CAPACITY + head - count);
    }
  }

  lemma ModShift(x: int, k: int, c: nat)
    requires c > 0
    ensures (x + k * c) % c == x % c
  {
    var q, r := x / c, x % c;
    assert x + k * c == (q + k) * c + r;
    DivModUnique(x + k * c, q + k, r, c);
  }

  lemma MulMonotone(a: int, b: int, c: nat)
    requires a <= b
    ensures a * c <= b * c
  {
    assert (b - a) * c >= 0;
  }

  lemma DivModUnique(x: int, q: int, r: int, c: nat)
    requires c > 0 && 0 <= r < c && x == q * c + r
    ensures x % c == r
  {
    var q', r' := x / c, x % c;
    if q' < q { MulMonotone(q' + 1, q, c); }
    if q' > q { MulMonotone(q + 1, q', c); }
  }

  ghost predicate ReadsAreExact(capacity: word)
    requires capacity > 0
  {
    forall head: word, count: word :: head < capacity && count <= capacity ==>
      ReadIndex(head, count, capacity) == (head - count) % capacity
  }

  lemma DividingCapacityReadsExactly(head: word, count: word, capacity: word)
    requires capacity > 0 && WORD % capacity == 0
    requires head < capacity && count <= capacity
    ensures ReadIndex(head, count, capacity) == (head - count) % capacity
  {
    var k := WORD / capacity;
    ModShift(head - count, k, capacity);
  }

  lemma ExactReadOfMinusOne(capacity: word)
    requires capacity > 0
    requires ReadIndex(0, 1, capacity) == (0 - 1) % capacity
    ensures WORD % capacity == 0
  {
    DivModUnique(-1, -1, capacity - 1, capacity);
    var q := (WORD - 1) / capacity;
    assert WORD - 1 == q * capacity + (capacity - 1);
    DivModUnique(WORD, q + 1, 0, capacity);
  }

  /** The wrapped read index is right exactly for the capacities that divide 2^64. */
  lemma ReadsAreExactIffCapacityDividesWord(capacity: word)
    requires capacity > 0
    ensures ReadsAreExact(capacity) <==> WORD % capacity == 0
  {
    if WORD % capacity == 0 {
      forall head: word, count: word | head < capacity && count <= capacity
        ensures ReadIndex(head, count, capacity) == (head - count) % capacity
      {
        DividingCapacityReadsExactly(head, count, capacity);
      }
    }
    if ReadsAreExact(capacity) {
      assert ReadIndex(0, 1, capacity) == (0 - 1) % capacity;
      ExactReadOfMinusOne(capacity);
    }
  }

  // ------------------------------------------------- what each critical section does

  function Push(t: Trail, s: Slot): (t': Trail)
    requires t.count < CAPACITY
  {
    t.(slots := t.slots[t.head := s],
       nextSequence := WrapInc(t.nextSequence),
       head := Next(t.head),
       count := t.count + 1,
       total := WrapInc(t.total))
  }

  function Record(t: Trail, r: Request): (t': Trail)
  {
    if t.count >= CAPACITY then t.(dropped := WrapInc(t.dropped))
    else Push(t, FillSlot(t.slots[t.head], r, t.nextSequence))
  }

  function DrainOne(t: Trail): (t': Trail)
    requires t.count > 0
    ensures t'.count == t.count - 1
  {
    t.(log := t.log + [Written(t.slots[Back(t.head, t.count)])],
       count := t.count - 1)
  }

  function Drain(t: Trail): (t': Trail)
    ensures t'.count == 0
    decreases t.count
  {
    if t.count == 0 then t else Drain(DrainOne(t))
  }

  /** Where the flush thread is: at the unlocked test of `running`, holding the mutex at
      the wait loop's test, inside the timed wait, before the last critical section, or
      returned. */
  datatype FlushPc = Top | Testing | Waiting | Final | Done

  datatype System = System(trail: Trail, pc: FlushPc)

  /** A producer records, somebody shuts the trail down, or the flush thread moves on.
      A timed wait ends by signal, by timeout or spuriously: each is a `Flush` step. */
  datatype Event = Producer(request: Request) | Shutdown | Flush

  predicate ProperEvent(e: Event) {
    e.Producer? ==> Proper(e.request)
  }

  predicate ProperRun(es: seq<Event>) {
    forall i :: 0 <= i < |es| ==> ProperEvent(es[i])
  }

  function Step(s: System, e: Event): (s': System)
  {
    match e
    case Producer(r) => s.(trail := Record(s.trail, r))
    case Shutdown => s.(trail := s.trail.(running := false))
    case Flush =>
      match s.pc
      case Top => s.(pc := if s.trail.running then Testing else Final)
      case Testing =>
        if s.trail.count == 0 && s.trail.running then s.(pc := Waiting)
        else System(Drain(s.trail), Top)
      case Waiting => s.(pc := Testing)
      case Final => System(Drain(s.trail), Done)
      case Done => s
  }

  function Run(es: seq<Event>): (s: System)
  {
    if es == [] then System(InitTrail(), Top)
    else Step(Run(es[..|es| - 1]), es[|es| - 1])
  }

  // ---------------------------------------------------------------- the bounded FIFO

  /** Everything ever accepted, how much of it has been written, and how many requests
      were turned away. */
  datatype RawFifo = Fifo(accepted: seq<Line>, written: nat, rejected: nat, running: bool)

  type Fifo = f: RawFifo | f.written <= |f.accepted| <= f.written + CAPACITY
    witness Fifo([], 0, 0, true)

  datatype Spec = Spec(fifo: Fifo, pc: FlushPc)

  function Offer(f: Fifo, r: Request): (f': Fifo)
  {
    if |f.accepted| - f.written < CAPACITY
    then f.(accepted := f.accepted + [LineOf(r, Wrapped(|f.accepted| + 1))])
    else f.(rejected := f.rejected + 1)
  }

  function WriteAll(f: Fifo): (f': Fifo)
  {
    f.(written := |f.accepted|)
  }

  function SpecStep(s: Spec, e: Event): (s': Spec)
  {
    match e
    case Producer(r) => s.(fifo := Offer(s.fifo, r))
    case Shutdown => s.(fifo := s.fifo.(running := false))
    case Flush =>
      match s.pc
      case Top => s.(pc := if s.fifo.running then Testing else Final)
      case Testing =>
        if |s.fifo.accepted| == s.fifo.written && s.fifo.running then s.(pc := Waiting)
        else Spec(WriteAll(s.fifo), Top)
      case Waiting => s.(pc := Testing)
      case Final => Spec(WriteAll(s.fifo), Done)
      case Done => s
  }

  function SpecRun(es: seq<Event>): (s: Spec)
  {
    if es == [] then Spec(Fifo([], 0, 0, true), Top)
    else SpecStep(SpecRun(es[..|es| - 1]), es[|es| - 1])
  }

  /** The ring's cells in age order: the cell to be written next comes first. */
  function Rotated<T>(cells: seq<T>, head: nat): (r: seq<T>)
    requires head < |cells|
    ensures |r| == |cells|
  {
    cells[head..] + cells[..head]
  }

  /** The `count` newest cells, oldest first. */
  function Window<T>(cells: seq<T>, head: nat, count: nat): (q: seq<T>)
    requires |cells| == CAPACITY && head < CAPACITY && count <= CAPACITY
    ensures |q| == count
  {
    Rotated(cells, head)[CAPACITY - count..]
  }

  lemma WindowPush<T>(cells: seq<T>, head: nat, count: nat, x: T)
    requires |cells| == CAPACITY && head < CAPACITY && count < CAPACITY
    ensures Window(cells[head := x], Next(head), count + 1) == Window(cells, head, count) + [x]
  {
    assert Rotated(cells[head := x], Next(head)) == Rotated(cells, head)[1..] + [x];
  }

  lemma WindowPop<T>(cells: seq<T>, head: nat, count: nat)
    requires |cells| == CAPACITY && head < CAPACITY && 0 < count <= CAPACITY
    ensures Window(cells, head, count) == [cells[Back(head, count)]] + Window(cells, head, count - 1)
  {
    assert Rotated(cells, head)[CAPACITY - count] == cells[Back(head, count)];
  }

  function AllWritten(slots: seq<Slot>): (lines: seq<Line>)
    ensures |lines| == |slots|
  {
    seq(|slots|, i requires 0 <= i < |slots| => Written(slots[i]))
  }

  ghost function Pending(t: Trail): (q: seq<Line>)
    ensures |q| == t.count
  {
    AllWritten(Window(t.slots, t.head, t.count))
  }

  datatype Counters = Counters(nextSequence: word, total: word, dropped: word)

  function CountersAfter(accepted: nat, rejected: nat): (c: Counters) {
    Counters(Wrapped(accepted + 1), Wrapped(accepted), Wrapped(rejected))
  }

  /** What the trail and the FIFO have in common: the written lines, the lines still to
      be written (oldest first), the counters and whether the trail is running. */
  datatype Observation = Observation(log: seq<Line>, pending: seq<Line>, counters: Counters, running: bool)

  ghost function Observe(t: Trail): (o: Observation) {
    Observation(t.log, Pending(t), Counters(t.nextSequence, t.total, t.dropped), t.running)
  }

  ghost function Expect(f: Fifo): (o: Observation) {
    Observation(f.accepted[..f.written], f.accepted[f.written..],
                CountersAfter(|f.accepted|, f.rejected), f.running)
  }

  lemma CountersAdvance(accepted: nat, rejected: nat)
    ensures var c := CountersAfter(accepted, rejected);
            && CountersAfter(accepted + 1, rejected)
               == Counters(WrapInc(c.nextSequence), WrapInc(c.total), c.dropped)
            && CountersAfter(accepted, rejected + 1)
               == Counters(c.nextSequence, c.total, WrapInc(c.dropped))
  {
    WrapIncCounts(accepted);
    WrapIncCounts(accepted + 1);
    WrapIncCounts(rejected);
  }

  lemma PushAppends(t: Trail, s: Slot)
    requires t.count < CAPACITY
    ensures Pending(Push(t, s)) == Pending(t) + [Written(s)]
  {
    WindowPush(t.slots, t.head, t.count, s);
  }

  lemma PushRefinesAppend(t: Trail, f: Fifo, s: Slot)
    requires Observe(t) == Expect(f) && t.count < CAPACITY
    ensures Observe(Push(t, s)) == Expect(f.(accepted := f.accepted + [Written(s)]))
  {
    var line := Written(s);
    PushAppends(t, s);
    CountersAdvance(|f.accepted|, f.rejected);
    assert f.accepted[f.written..] + [line] == (f.accepted + [line])[f.written..];
  }

  lemma DropRefinesReject(t: Trail, f: Fifo)
    requires Observe(t) == Expect(f)
    ensures Observe(t.(dropped := WrapInc(t.dropped))) == Expect(f.(rejected := f.rejected + 1))
  {
    CountersAdvance(|f.accepted|, f.rejected);
  }

  lemma ObservedParts(t: Trail, f: Fifo)
    requires Observe(t) == Expect(f)
    ensures t.count == |f.accepted| - f.written
    ensures t.log == f.accepted[..f.written]
    ensures t.running == f.running
    ensures t.nextSequence == Wrapped(|f.accepted| + 1)
    ensures t.total == Wrapped(|f.accepted|)
    ensures t.dropped == Wrapped(f.rejected)
  {
    assert |Pending(t)| == |f.accepted[f.written..]|;
  }

  lemma RecordRefinesOffer(t: Trail, f: Fifo, r: Request)
    requires Observe(t) == Expect(f) && Proper(r)
    ensures Observe(Record(t, r)) == Expect(Offer(f, r))
  {
    ObservedParts(t, f);
    if t.count >= CAPACITY {
      DropRefinesReject(t, f);
    } else {
      FillRefinesOffer(t, f, r, FillSlot(t.slots[t.head], r, t.nextSequence));
    }
  }

  lemma FillRefinesOffer(t: Trail, f: Fifo, r: Request, s: Slot)
    requires Observe(t) == Expect(f) && Proper(r) && t.count < CAPACITY
    requires s == FillSlot(t.slots[t.head], r, t.nextSequence)
    ensures Observe(Push(t, s)) == Expect(Offer(f, r))
  {
    ObservedParts(t, f);
    var line := FilledLine(t.slots[t.head], r, t.nextSequence, s);
    OfferAppends(f, r, line);
    PushRefinesAppend(t, f, s);
  }

  lemma FilledLine(before: Slot, r: Request, sequence: nat, s: Slot) returns (line: Line)
    requires Proper(r) && s == FillSlot(before, r, sequence)
    ensures line == LineOf(r, sequence) && Written(s) == line
  {
    SlotReuseLeaksNothing(before, r, sequence);
    line := LineOf(r, sequence);
  }

  lemma OfferAppends(f: Fifo, r: Request, line: Line)
    requires |f.accepted| - f.written < CAPACITY && line == LineOf(r, Wrapped(|f.accepted| + 1))
    ensures Offer(f, r) == f.(accepted := f.accepted + [line])
  {
  }

  lemma DrainOnePops(t: Trail)
    requires t.count > 0
    ensures DrainOne(t).log == t.log + [Pending(t)[0]]
    ensures Pending(DrainOne(t)) == Pending(t)[1..]
  {
    WindowPop(t.slots, t.head, t.count);
  }

  lemma SplitAt<T>(s: seq<T>, i: nat)
    requires i < |s|
    ensures s[i..][0] == s[i] && s[i..][1..] == s[i + 1..] && s[..i + 1] == s[..i] + [s[i]]
  {
  }

  lemma DrainOneRefinesWrite(t: Trail, f: Fifo)
    requires Observe(t) == Expect(f) && t.count > 0
    ensures Observe(DrainOne(t)) == Expect(f.(written := f.written + 1))
  {
    ObservedParts(t, f);
    DrainOnePops(t);
    SplitAt(f.accepted, f.written);
  }

  lemma {:induction false} DrainRefinesWriteAll(t: Trail, f: Fifo)
    requires Observe(t) == Expect(f)
    ensures Observe(Drain(t)) == Expect(WriteAll(f))
    decreases t.count
  {
    if t.count > 0 {
      DrainOneRefinesWrite(t, f);
      DrainRefinesWriteAll(DrainOne(t), f.(written := f.written + 1));
    }
  }

  lemma StepRefinesSpec(s: System, sp: Spec, e: Event)
    requires Observe(s.trail) == Expect(sp.fifo) && s.pc == sp.pc && ProperEvent(e)
    ensures Observe(Step(s, e).trail) == Expect(SpecStep(sp, e).fifo)
    ensures Step(s, e).pc == SpecStep(sp, e).pc
  {
    match e
    case Producer(r) => RecordRefinesOffer(s.trail, sp.fifo, r);
    case Shutdown =>
    case Flush =>
      if s.pc.Testing? || s.pc.Final? {
        DrainRefinesWriteAll(s.trail, sp.fifo);
      }
  }

  /** Every interleaving of producers, the flush thread and shutdown behaves as the
      bounded FIFO does. */
  lemma {:induction false} RingRefinesFifo(es: seq<Event>)
    requires ProperRun(es)
    ensures Observe(Run(es).trail) == Expect(SpecRun(es).fifo)
    ensures Run(es).pc == SpecRun(es).pc
  {
    if es == [] {
      InitRepresents();
    } else {
      var before := es[..|es| - 1];
      RingRefinesFifo(before);
      StepRefinesSpec(Run(before), SpecRun(before), es[|es| - 1]);
    }
  }

  lemma InitRepresents()
    ensures Observe(InitTrail()) == Expect(Fifo([], 0, 0, true))
  {
  }

  function Attempts(es: seq<Event>): (n: nat)
  {
    if es == [] then 0
    else Attempts(es[..|es| - 1]) + if es[|es| - 1].Producer? then 1 else 0
  }

  /** The k-th line has number k. */
  predicate Numbered(lines: seq<Line>) {
    forall k :: 0 <= k < |lines| ==> lines[k].sequence == Wrapped(k + 1)
  }

  lemma OfferNumbers(f: Fifo, r: Request)
    requires Numbered(f.accepted)
    ensures Numbered(Offer(f, r).accepted)
    ensures |Offer(f, r).accepted| + Offer(f, r).rejected == |f.accepted| + f.rejected + 1
  {
    if |f.accepted| - f.written < CAPACITY {
      var line := LineOf(r, Wrapped(|f.accepted| + 1));
      assert Offer(f, r).accepted == f.accepted + [line];
    }
  }

  lemma {:induction false} FifoConserves(es: seq<Event>)
    ensures Attempts(es) == |SpecRun(es).fifo.accepted| + SpecRun(es).fifo.rejected
    ensures Numbered(SpecRun(es).fifo.accepted)
  {
    if es != [] {
      var before, e := SpecRun(es[..|es| - 1]), es[|es| - 1];
      FifoConserves(es[..|es| - 1]);
      match e
      case Producer(r) => OfferNumbers(before.fifo, r);
      case Shutdown => assert SpecRun(es).fifo.accepted == before.fifo.accepted;
      case Flush => assert SpecRun(es).fifo.accepted == before.fifo.accepted;
    }
  }

  /** The requests that found room in the ring, in order. */
  function Accepted(es: seq<Event>): (rs: seq<Request>)
  {
    if es == [] then []
    else
      var before, e := es[..|es| - 1], es[|es| - 1];
      Accepted(before) + if e.Producer? && Run(before).trail.count < 4096 then [e.request] else []
  }

  /** Line by line, the requests and the numbers 1, 2, 3, ... */
  ghost predicate ShowsAll(lines: seq<Line>, rs: seq<Request>) {
    && |lines| <= |rs|
    && forall k :: 0 <= k < |lines| ==> Shows(lines[k], rs[k]) && lines[k].sequence == Wrapped(k + 1)
  }

  lemma OfferShows(f: Fifo, r: Request, rs: seq<Request>)
    requires |f.accepted| == |rs| && ShowsAll(f.accepted, rs)
    ensures var f', rs' := Offer(f, r), rs + if |f.accepted| - f.written < 4096 then [r] else [];
            |f'.accepted| == |rs'| && ShowsAll(f'.accepted, rs')
  {
    LineShowsRequest(r, Wrapped(|f.accepted| + 1));
  }

  lemma SpecShows(sp: Spec, e: Event, rs: seq<Request>)
    requires |sp.fifo.accepted| == |rs| && ShowsAll(sp.fifo.accepted, rs)
    ensures var room := |sp.fifo.accepted| - sp.fifo.written < 4096;
            var lines, rs' := SpecStep(sp, e).fifo.accepted, rs + if e.Producer? && room then [e.request] else [];
            |lines| == |rs'| && ShowsAll(lines, rs')
  {
    match e
    case Producer(r) => OfferShows(sp.fifo, r, rs);
    case Shutdown => assert rs + [] == rs;
    case Flush =>
      assert rs + [] == rs;
      assert SpecStep(sp, e).fifo.accepted == sp.fifo.accepted;
  }

  lemma CountIsBacklog(es: seq<Event>)
    requires ProperRun(es)
    ensures Run(es).trail.count == |SpecRun(es).fifo.accepted| - SpecRun(es).fifo.written
  {
    RingRefinesFifo(es);
    ObservedParts(Run(es).trail, SpecRun(es).fifo);
  }

  lemma {:induction false} AcceptedAreShown(es: seq<Event>)
    requires ProperRun(es)
    ensures |SpecRun(es).fifo.accepted| == |Accepted(es)|
    ensures ShowsAll(SpecRun(es).fifo.accepted, Accepted(es))
  {
    if es != [] {
      var before := es[..|es| - 1];
      AcceptedAreShown(before);
      CountIsBacklog(before);
      SpecShows(SpecRun(before), es[|es| - 1], Accepted(before));
    }
  }

  /** In every run the k-th line of the log shows the k-th request that found room, and has
      number k. */
  lemma LogShowsRequests(es: seq<Event>)
    requires ProperRun(es)
    ensures ShowsAll(Run(es).trail.log, Accepted(es))
    ensures |Run(es).trail.log| + Run(es).trail.count == |Accepted(es)|
  {
    AcceptedAreShown(es);
    RingRefinesFifo(es);
    ObservedParts(Run(es).trail, SpecRun(es).fifo);
  }

  /** Nothing is turned away before 4096 requests wait. */
  lemma {:induction false} RejectsOnlyWhenFull(es: seq<Event>)
    ensures SpecRun(es).fifo.rejected > 0 ==> |SpecRun(es).fifo.accepted| >= 4096
  {
    if es != [] {
      RejectsOnlyWhenFull(es[..|es| - 1]);
    }
  }

  /** So a run of at most 4096 requests drops none. */
  lemma ShortRunDropsNothing(es: seq<Event>)
    requires ProperRun(es) && Attempts(es) <= 4096
    ensures Run(es).trail.dropped == 0 && Run(es).trail.total == Attempts(es)
  {
    RingRefinesFifo(es);
    FifoConserves(es);
    RejectsOnlyWhenFull(es);
    ObservedParts(Run(es).trail, SpecRun(es).fifo);
  }

  lemma {:induction false} WrappedAdd(a: nat, b: nat)
    ensures Wrapped(Wrapped(a) + Wrapped(b)) == Wrapped(a + b)
  {
    if a >= WORD {
      WrappedAdd(a - WORD, b);
    } else if b >= WORD {
      WrappedAdd(a, b - WORD);
    }
  }

  /** No record is lost or made up: the counters account for every attempt, what is not
      yet written is in the ring, and written sequence numbers run 1, 2, 3, ... without
      a gap, whatever was dropped in between. */
  lemma AuditConservation(es: seq<Event>)
    requires ProperRun(es)
    ensures Accounted(Run(es).trail, Attempts(es))
  {
    RingRefinesFifo(es);
    FifoConserves(es);
    RepresentedCounts(Run(es).trail, SpecRun(es).fifo, Attempts(es));
  }

  ghost predicate Accounted(t: Trail, attempts: nat) {
    && Wrapped(t.total + t.dropped) == Wrapped(attempts)
    && t.total == Wrapped(|t.log| + t.count)
    && Numbered(t.log)
  }

  lemma RepresentedCounts(t: Trail, f: Fifo, attempts: nat)
    requires Observe(t) == Expect(f) && attempts == |f.accepted| + f.rejected
    requires Numbered(f.accepted)
    ensures Accounted(t, attempts)
  {
    ObservedParts(t, f);
    WrappedAdd(|f.accepted|, f.rejected);
  }

  /** Lines once accepted are never changed or lost, in any later step. */
  lemma {:induction false} AcceptedGrows(es: seq<Event>, more: seq<Event>)
    ensures SpecRun(es).fifo.accepted <= SpecRun(es + more).fifo.accepted
  {
    if more == [] {
      assert es + more == es;
    } else {
      var init := more[..|more| - 1];
      AcceptedGrows(es, init);
      assert (es + more)[..|es + more| - 1] == es + init;
    }
  }

  lemma {:induction false} DoneStays(es: seq<Event>, more: seq<Event>)
    requires SpecRun(es).pc.Done?
    ensures SpecRun(es + more).pc.Done?
    ensures SpecRun(es + more).fifo.written == SpecRun(es).fifo.written
  {
    if more == [] {
      assert es + more == es;
    } else {
      var init := more[..|more| - 1];
      DoneStays(es, init);
      assert (es + more)[..|es + more| - 1] == es + init;
    }
  }

  lemma FinalStepWritesAll(before: seq<Event>, after: seq<Event>)
    requires SpecRun(before).pc.Final?
    ensures var sp := SpecRun(before + [Flush] + after);
            && sp.pc.Done?
            && sp.fifo.written == |SpecRun(before).fifo.accepted|
            && SpecRun(before).fifo.accepted <= sp.fifo.accepted
  {
    var mid := before + [Flush];
    assert mid[..|mid| - 1] == before;
    DoneStays(mid, after);
    AcceptedGrows(mid, after);
  }

  /** Once the flush thread has returned, the log is exactly what had been accepted
      before its last critical section, whatever happens later. */
  lemma FinalDrainWritesEverything(before: seq<Event>, after: seq<Event>)
    requires ProperRun(before + [Flush] + after)
    requires SpecRun(before).pc.Final?
    ensures var s := Run(before + [Flush] + after);
            s.pc.Done? && s.trail.log == SpecRun(before).fifo.accepted
  {
    FinalStepWritesAll(before, after);
    RingRefinesFifo(before + [Flush] + after);
  }

  /** A finished flush thread did pass through its last critical section. */
  lemma {:induction false} DoneHasFinalStep(es: seq<Event>) returns (before: seq<Event>, after: seq<Event>)
    requires SpecRun(es).pc.Done?
    ensures es == before + [Flush] + after && SpecRun(before).pc.Final?
  {
    var init, e := es[..|es| - 1], es[|es| - 1];
    assert es == init + [e];
    if SpecRun(init).pc.Done? {
      before, after := DoneHasFinalStep(init);
      after := after + [e];
      assert es == before + [Flush] + after;
    } else {
      before, after := init, [];
      assert es == before + [Flush] + after;
    }
  }

  function FlushSteps(es: seq<Event>): (n: nat)
  {
    if es == [] then 0 else FlushSteps(es[..|es| - 1]) + if es[|es| - 1].Flush? then 1 else 0
  }

  function Remaining(pc: FlushPc): (n: nat) {
    match pc case Waiting => 4 case Testing => 3 case Top => 2 case Final => 1 case Done => 0
  }

  /** Shutdown is prompt: after it, four steps of the flush thread end it, however the
      producers interleave. */
  lemma {:induction false} ShutdownEndsFlushThread(es: seq<Event>, more: seq<Event>)
    ensures !SpecRun(es + [Shutdown] + more).fifo.running
    ensures Remaining(SpecRun(es + [Shutdown] + more).pc) + FlushSteps(more) <= 4
         || SpecRun(es + [Shutdown] + more).pc.Done?
  {
    var all := es + [Shutdown] + more;
    if more == [] {
      assert all[..|all| - 1] == es;
    } else {
      var init := more[..|more| - 1];
      ShutdownEndsFlushThread(es, init);
      assert all[..|all| - 1] == es + [Shutdown] + init;
    }
  }

  /** How many steps of the flush thread it takes at most until it drains. */
  function StepsToDrain(pc: FlushPc): (n: nat) {
    match pc case Top => 2 case Testing => 1 case Waiting => 2 case Final => 1 case Done => 0
  }

  /** The first `n` lines are written, or will be by two flush steps, of which `done` were made. */
  ghost predicate Due(sp: Spec, n: nat, done: nat) {
    || sp.fifo.written >= n
    || (!sp.pc.Done? && StepsToDrain(sp.pc) + done <= 2)
  }

  lemma DueStep(sp: Spec, e: Event, n: nat, done: nat)
    requires Due(sp, n, done) && n <= |sp.fifo.accepted|
    ensures Due(SpecStep(sp, e), n, done + if e.Flush? then 1 else 0)
  {
  }

  /** Records do not wait for long: unless the flush thread had returned, what was accepted
      has been written once it has made two more steps, however producers and shutdown
      interleave. */
  lemma {:induction false} AcceptedIsWrittenSoon(es: seq<Event>, more: seq<Event>)
    requires !SpecRun(es).pc.Done?
    ensures Due(SpecRun(es + more), |SpecRun(es).fifo.accepted|, FlushSteps(more))
  {
    var all := es + more;
    if more == [] {
      assert all == es;
    } else {
      var init := more[..|more| - 1];
      AcceptedIsWrittenSoon(es, init);
      assert all[..|all| - 1] == es + init;
      AcceptedGrows(es, init);
      DueStep(SpecRun(es + init), more[|more| - 1], |SpecRun(es).fifo.accepted|, FlushSteps(init));
    }
  }

  /** The same of the ring's own log. */
  lemma TwoFlushStepsWriteEverything(es: seq<Event>, more: seq<Event>)
    requires ProperRun(es + more) && !SpecRun(es).pc.Done? && FlushSteps(more) >= 2
    ensures SpecRun(es).fifo.accepted <= Run(es + more).trail.log
  {
    AcceptedIsWrittenSoon(es, more);
    AcceptedGrows(es, more);
    LogIsWritten(es + more);
    PrefixOfWritten(SpecRun(es).fifo.accepted, SpecRun(es + more), FlushSteps(more));
  }

  lemma LogIsWritten(es: seq<Event>)
    requires ProperRun(es)
    ensures Run(es).trail.log == SpecRun(es).fifo.accepted[..SpecRun(es).fifo.written]
  {
    RingRefinesFifo(es);
    ObservedParts(Run(es).trail, SpecRun(es).fifo);
  }

  lemma PrefixOfWritten(lines: seq<Line>, sp: Spec, done: nat)
    requires lines <= sp.fifo.accepted && Due(sp, |lines|, done) && done >= 2
    ensures lines <= sp.fifo.accepted[..sp.fifo.written]
  {
  }

  // ---------------------------------------------------------------- the code

  class AuditTrail {
    const ring: array<Slot>
    var head: word
    var count: word
    var nextSequence: word
    var total: word
    var dropped: word
    var running: bool
    var log: seq<Line>    // what has been handed to the log file
    var pc: FlushPc       // the flush thread's position

    ghost predicate Valid()
      reads this, ring
    {
      && ring.Length == CAPACITY
      && head < CAPACITY && count <= CAPACITY
    }

    ghost function View(): (t: Trail)
      requires Valid()
      reads this, ring
    {
      Trail(ring[..], head, count, nextSequence, total, dropped, running, log)
    }

    constructor ()
      ensures Valid() && fresh(ring)
      ensures View() == InitTrail() && pc == Top
    {
      ring := new Slot[CAPACITY](_ => ZeroSlot());
      head, count, nextSequence := 0, 0, 1;
      total, dropped, running := 0, 0, true;
      log := [];
      pc := Top;
    }

    /** `audit_record_event`, one critical section. */
    method RecordEvent(r: Request)
      requires Valid()
      modifies this, ring
      ensures Valid() && pc == old(pc)
      ensures View() == Record(old(View()), r)
      ensures old(count) < 4096 && Proper(r) ==>
                Shows(Written(ring[old(head)]), r) && Written(ring[old(head)]).sequence == old(nextSequence)
    {
      if Proper(r) {
        SlotShowsRequest(ring[head], r, nextSequence);
      }
      if count >= CAPACITY {
        dropped := WrapInc(dropped);
        return;
      }
      ring[head] := FillSlot(ring[head], r, nextSequence);
      nextSequence := WrapInc(nextSequence);
      head := (head + 1) % CAPACITY;
      count := count + 1;
      total := WrapInc(total);
      assert ring[..] == Record(old(View()), r).slots;
    }

    /** The drain loop that the flush thread runs under the mutex. */
    method DrainRing()
      requires Valid()
      modifies this`count, this`log
      ensures Valid() && View() == Drain(old(View()))
    {
      while count > 0
        invariant Valid()
        invariant Drain(View()) == Drain(old(View()))
      {
        ghost var before := View();
        ReadIndexIsOldest(head, count);
        var idx := ReadIndex(head, count, CAPACITY);
        log := log + [Written(ring[idx])];
        count := count - 1;
        assert View() == DrainOne(before);
      }
    }

    /** The flush thread up to the next point where another thread may run. */
    method FlushStep()
      requires Valid()
      modifies this
      ensures Valid()
      ensures System(View(), pc) == Step(System(old(View()), old(pc)), Flush)
    {
      match pc
      case Top => pc := if running then Testing else Final;
      case Testing =>
        if count == 0 && running {
          pc := Waiting;
        } else {
          DrainRing();
          pc := Top;
        }
      case Waiting => pc := Testing;
      case Final =>
        DrainRing();
        pc := Done;
      case Done =>
    }

    /** `audit_shutdown` up to joining the flush thread. */
    method RequestShutdown()
      requires Valid()
      modifies this`running
      ensures Valid() && View() == old(View()).(running := false)
    {
      running := false;
    }
  }
}
