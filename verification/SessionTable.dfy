/**
 The table of live connections (src/service/session.c): 256 chains of linked nodes, keyed
 by descriptor, with removal by unlinking through a pointer to the link.

 The class `SessionTable` edits nodes in place.  `Buckets` is its value-level meaning, and
 the reference is a single list of live connections, newest first, with no hashing.
 */
module SessionTables {
  import opened Bytes

  const TABLE_SIZE: nat := 0x100

  /** `id` tells apart connections that share a descriptor. */
  datatype Conn = Conn(fd: int, id: nat)

  /** `(unsigned int)key % SESSION_TABLE_SIZE` */
  function Hash(key: int): (b: nat)
    ensures b < TABLE_SIZE
  {
    (key % 0x1_0000_0000) % TABLE_SIZE
  }

  /** The bucket is the low byte of the descriptor, of a negative one too. */
  lemma HashIsLowByte(key: int)
    ensures Hash(key) == key % 256
  {
    var q, r := key / 0x1_0000_0000, key % 0x1_0000_0000;
    assert key == 256 * (0x100_0000 * q + r / 256) + r % 256;
  }

  // ---------------------------------------------------------------- lists of connections

  /** The position of the first entry for `fd`, or the length if there is none. */
  function IndexOf(chain: seq<Conn>, fd: int): (i: nat)
    ensures i <= |chain|
    ensures i < |chain| ==> chain[i].fd == fd
    ensures forall j :: 0 <= j < i ==> chain[j].fd != fd
  {
    if chain == [] || chain[0].fd == fd then 0 else 1 + IndexOf(chain[1..], fd)
  }

  function First(chain: seq<Conn>, fd: int): (r: Option<Conn>) {
    var i := IndexOf(chain, fd);
    if i < |chain| then Some(chain[i]) else None
  }

  function RemoveFirst(chain: seq<Conn>, fd: int): (r: seq<Conn>) {
    var i := IndexOf(chain, fd);
    if i < |chain| then chain[..i] + chain[i + 1..] else chain
  }

  function OptionToSeq<T>(o: Option<T>): (r: seq<T>) {
    match o case Some(v) => [v] case None => []
  }

  /** The entries of `live` that hash to bucket `b`, in order. */
  function InBucket(live: seq<Conn>, b: nat): (r: seq<Conn>) {
    if live == [] then []
    else (if Hash(live[0].fd) == b then [live[0]] else []) + InBucket(live[1..], b)
  }

  /** The entries of `live` for descriptor `fd`, newest first. */
  function StackOf(live: seq<Conn>, fd: int): (r: seq<Conn>) {
    if live == [] then []
    else (if live[0].fd == fd then [live[0]] else []) + StackOf(live[1..], fd)
  }

  lemma {:induction false} FirstInBucket(live: seq<Conn>, fd: int)
    ensures First(InBucket(live, Hash(fd)), fd) == First(live, fd)
  {
    if live != [] {
      FirstInBucket(live[1..], fd);
      FirstCons(live, fd);
      var chain := InBucket(live, Hash(fd));
      if Hash(live[0].fd) == Hash(fd) {
        assert chain[1..] == InBucket(live[1..], Hash(fd));
        FirstCons(chain, fd);
      } else {
        assert chain == InBucket(live[1..], Hash(fd));
      }
    }
  }

  lemma FirstCons(chain: seq<Conn>, fd: int)
    requires chain != []
    ensures First(chain, fd) == if chain[0].fd == fd then Some(chain[0]) else First(chain[1..], fd)
  {
  }

  lemma RemoveCons(chain: seq<Conn>, fd: int)
    requires chain != []
    ensures RemoveFirst(chain, fd) ==
            if chain[0].fd == fd then chain[1..] else [chain[0]] + RemoveFirst(chain[1..], fd)
  {
    if chain[0].fd != fd {
      var i := IndexOf(chain[1..], fd);
      assert IndexOf(chain, fd) == i + 1;
      if i < |chain| - 1 {
        assert chain[..i + 1] == [chain[0]] + chain[1..][..i];
        assert chain[i + 2..] == chain[1..][i + 1..];
      }
    }
  }

  lemma {:induction false} RemoveInBucket(live: seq<Conn>, fd: int, b: nat)
    ensures InBucket(RemoveFirst(live, fd), b) ==
            if b == Hash(fd) then RemoveFirst(InBucket(live, b), fd) else InBucket(live, b)
  {
    if live != [] {
      RemoveInBucket(live[1..], fd, b);
      RemoveCons(live, fd);
      var chain, rest := InBucket(live, b), InBucket(live[1..], b);
      if Hash(live[0].fd) == b {
        assert chain == [live[0]] + rest;
        assert chain[1..] == rest;
        RemoveCons(chain, fd);
      } else {
        assert chain == rest;
      }
      if live[0].fd != fd {
        var r := [live[0]] + RemoveFirst(live[1..], fd);
        assert r[1..] == RemoveFirst(live[1..], fd);
      }
    }
  }

  /** The first entry for a descriptor is the top of its stack. */
  lemma {:induction false} FirstIsTop(live: seq<Conn>, fd: int)
    ensures First(live, fd) == if StackOf(live, fd) == [] then None else Some(StackOf(live, fd)[0])
  {
    if live != [] {
      FirstCons(live, fd);
      if live[0].fd != fd {
        FirstIsTop(live[1..], fd);
        assert StackOf(live, fd) == StackOf(live[1..], fd);
      }
    }
  }

  lemma StackCons(c: Conn, live: seq<Conn>, fd: int)
    ensures StackOf([c] + live, fd) == if c.fd == fd then [c] + StackOf(live, fd) else StackOf(live, fd)
  {
    assert ([c] + live)[1..] == live;
  }

  /** Removing pops the stack of its descriptor and leaves every other stack alone,
      colliding or not. */
  lemma {:induction false} RemovePopsOneStack(live: seq<Conn>, fd: int, other: int)
    ensures StackOf(RemoveFirst(live, fd), other) ==
            if other == fd && StackOf(live, fd) != [] then StackOf(live, fd)[1..] else StackOf(live, other)
  {
    if live != [] {
      var c, rest := live[0], live[1..];
      assert live == [c] + rest;
      RemoveCons(live, fd);
      StackCons(c, rest, fd);
      StackCons(c, rest, other);
      if c.fd != fd {
        RemovePopsOneStack(rest, fd, other);
        StackCons(c, RemoveFirst(rest, fd), other);
      }
    }
  }

  // ---------------------------------------------------------------- the hashed table

  type Buckets = t: seq<seq<Conn>> | |t| == TABLE_SIZE witness seq(TABLE_SIZE, _ => [])

  function EmptyBuckets(): (t: Buckets) { seq(TABLE_SIZE, _ => []) }

  function Add(t: Buckets, c: Conn): (t': Buckets) {
    t[Hash(c.fd) := [c] + t[Hash(c.fd)]]
  }

  function Get(t: Buckets, fd: int): (r: Option<Conn>) { First(t[Hash(fd)], fd) }

  function Remove(t: Buckets, fd: int): (t': Buckets) {
    t[Hash(fd) := RemoveFirst(t[Hash(fd)], fd)]
  }

  datatype Op = OpAdd(c: Conn) | OpGet(fd: int) | OpRemove(fd: int)

  /** What a caller can observe of a table: the answers of `get` and what was destroyed. */
  datatype Trace = Trace(answers: seq<Option<Conn>>, destroyed: seq<Conn>)

  function TableRun(ops: seq<Op>): (r: (Buckets, Trace)) {
    if ops == [] then (EmptyBuckets(), Trace([], []))
    else
      var (t, trace) := TableRun(ops[..|ops| - 1]);
      match ops[|ops| - 1]
      case OpAdd(c) => (Add(t, c), trace)
      case OpGet(fd) => (t, trace.(answers := trace.answers + [Get(t, fd)]))
      case OpRemove(fd) =>
        (Remove(t, fd), trace.(destroyed := trace.destroyed + OptionToSeq(Get(t, fd))))
  }

  function ListRun(ops: seq<Op>): (r: (seq<Conn>, Trace)) {
    if ops == [] then ([], Trace([], []))
    else
      var (live, trace) := ListRun(ops[..|ops| - 1]);
      match ops[|ops| - 1]
      case OpAdd(c) => ([c] + live, trace)
      case OpGet(fd) => (live, trace.(answers := trace.answers + [First(live, fd)]))
      case OpRemove(fd) =>
        (RemoveFirst(live, fd), trace.(destroyed := trace.destroyed + OptionToSeq(First(live, fd))))
  }

  ghost predicate Hashes(t: Buckets, live: seq<Conn>) {
    forall b :: 0 <= b < TABLE_SIZE ==> t[b] == InBucket(live, b)
  }

  lemma AddHashes(t: Buckets, live: seq<Conn>, c: Conn)
    requires Hashes(t, live)
    ensures Hashes(Add(t, c), [c] + live)
  {
    assert ([c] + live)[1..] == live;
  }

  lemma RemoveHashes(t: Buckets, live: seq<Conn>, fd: int)
    requires Hashes(t, live)
    ensures Hashes(Remove(t, fd), RemoveFirst(live, fd))
    ensures Get(t, fd) == First(live, fd)
  {
    forall b | 0 <= b < TABLE_SIZE ensures Remove(t, fd)[b] == InBucket(RemoveFirst(live, fd), b) {
      RemoveInBucket(live, fd, b);
    }
    FirstInBucket(live, fd);
  }

  /** Every run of the chained table answers and destroys exactly as the plain list. */
  lemma {:induction false} TableRefinesList(ops: seq<Op>)
    ensures Hashes(TableRun(ops).0, ListRun(ops).0)
    ensures TableRun(ops).1 == ListRun(ops).1
  {
    if ops != [] {
      var before, op := ops[..|ops| - 1], ops[|ops| - 1];
      TableRefinesList(before);
      var t, live := TableRun(before).0, ListRun(before).0;
      match op
      case OpAdd(c) => AddHashes(t, live, c);
      case OpGet(fd) => FirstInBucket(live, fd);
      case OpRemove(fd) => RemoveHashes(t, live, fd);
    }
  }

  function Added(ops: seq<Op>): (m: multiset<Conn>) {
    if ops == [] then multiset{}
    else Added(ops[..|ops| - 1]) + match ops[|ops| - 1] case OpAdd(c) => multiset{c} case _ => multiset{}
  }

  lemma {:induction false} RemoveTakesFirst(live: seq<Conn>, fd: int)
    ensures multiset(live) == multiset(RemoveFirst(live, fd)) + multiset(OptionToSeq(First(live, fd)))
  {
    if live != [] {
      RemoveCons(live, fd);
      FirstCons(live, fd);
      assert live == [live[0]] + live[1..];
      if live[0].fd != fd {
        RemoveTakesFirst(live[1..], fd);
      }
    }
  }

  /** Each added connection is live or was destroyed, and never both or twice. */
  lemma {:induction false} ConnectionsConserved(ops: seq<Op>)
    ensures Added(ops) == multiset(ListRun(ops).0) + multiset(ListRun(ops).1.destroyed)
  {
    if ops != [] {
      var before, op := ops[..|ops| - 1], ops[|ops| - 1];
      ConnectionsConserved(before);
      var live := ListRun(before).0;
      match op
      case OpAdd(c) =>
      case OpGet(fd) =>
      case OpRemove(fd) => RemoveTakesFirst(live, fd);
    }
  }

  // ---------------------------------------------------------------- who destroys whom

  /** A handler thread starts by adding its connection and ends by removing by descriptor. */
  datatype HandlerEvent = Start(c: Conn) | Finish(c: Conn)

  function OpOf(e: HandlerEvent): (op: Op) {
    match e case Start(c) => OpAdd(c) case Finish(c) => OpRemove(c.fd)
  }

  function OpsOf(es: seq<HandlerEvent>): (ops: seq<Op>)
    ensures |ops| == |es|
  {
    seq(|es|, i requires 0 <= i < |es| => OpOf(es[i]))
  }

  /** The connections of the handlers that end, in order. */
  function Finished(es: seq<HandlerEvent>): (r: seq<Conn>) {
    if es == [] then []
    else Finished(es[..|es| - 1]) + match es[|es| - 1] case Start(_) => [] case Finish(c) => [c]
  }

  /** Every handler starts at most once and ends at most once, after it started. */
  predicate Feasible(es: seq<HandlerEvent>) {
    && (forall i, j :: 0 <= i < j < |es| ==> es[i] != es[j])
    && (forall k :: 0 <= k < |es| && es[k].Finish? ==> Start(es[k].c) in es[..k])
  }

  /** The handler of `c` ends after event `j` and before event `k`. */
  predicate EndsBetween(es: seq<HandlerEvent>, c: Conn, j: nat, k: nat) {
    exists m :: j < m < k && m < |es| && es[m] == Finish(c)
  }

  /** Two handlers for the same descriptor, of which the one started at `j` is the later. */
  predicate Share(es: seq<HandlerEvent>, i: nat, j: nat) {
    i < j < |es| && es[i].Start? && es[j].Start? && es[i].c.fd == es[j].c.fd
  }

  /** Handlers that share a descriptor are nested in time: one that starts while another is
      running ends before that other does. */
  ghost predicate Nested(es: seq<HandlerEvent>) {
    forall i: nat, j: nat, k: nat :: Share(es, i, j) && j < k < |es| && es[k] == Finish(es[i].c) ==>
      EndsBetween(es, es[j].c, j, k)
  }

  /** No descriptor is handed out again before the handler for it has ended. */
  ghost predicate DistinctKeys(es: seq<HandlerEvent>) {
    forall i: nat, j: nat :: Share(es, i, j) ==> EndsBetween(es, es[i].c, i, j)
  }

  /** If the handler of `c` ended now, handlers that started after it would be nested. */
  ghost predicate NestedIn(es: seq<HandlerEvent>, c: Conn) {
    forall i: nat, j: nat :: Share(es, i, j) && es[i] == Start(c) ==> EndsBetween(es, es[j].c, j, |es|)
  }

  lemma EndsBetweenSnoc(es: seq<HandlerEvent>, e: HandlerEvent, c: Conn, j: nat, k: nat)
    requires k <= |es|
    ensures EndsBetween(es + [e], c, j, k) <==> EndsBetween(es, c, j, k)
  {
    var all := es + [e];
    if m :| j < m < k && m < |all| && all[m] == Finish(c) {
      assert es[m] == Finish(c);
    }
    if m :| j < m < k && m < |es| && es[m] == Finish(c) {
      assert all[m] == Finish(c);
    }
  }

  lemma NestedSnoc(es: seq<HandlerEvent>, e: HandlerEvent)
    ensures Nested(es + [e]) <==> Nested(es) && (e.Finish? ==> NestedIn(es, e.c))
  {
    if Nested(es + [e]) {
      NestedShrinks(es, e);
    }
    if Nested(es) && (e.Finish? ==> NestedIn(es, e.c)) {
      NestedGrows(es, e);
    }
  }

  lemma NestedShrinks(es: seq<HandlerEvent>, e: HandlerEvent)
    requires Nested(es + [e])
    ensures Nested(es) && (e.Finish? ==> NestedIn(es, e.c))
  {
    var all := es + [e];
    forall i: nat, j: nat, k: nat | Share(es, i, j) && j < k < |es| && es[k] == Finish(es[i].c)
      ensures EndsBetween(es, es[j].c, j, k)
    {
      assert Share(all, i, j) && all[k] == es[k];
      EndsBetweenSnoc(es, e, es[j].c, j, k);
    }
    if e.Finish? {
      forall i: nat, j: nat | Share(es, i, j) && es[i] == Start(e.c)
        ensures EndsBetween(es, es[j].c, j, |es|)
      {
        assert Share(all, i, j) && all[|es|] == e;
        EndsBetweenSnoc(es, e, es[j].c, j, |es|);
      }
    }
  }

  lemma NestedGrows(es: seq<HandlerEvent>, e: HandlerEvent)
    requires Nested(es) && (e.Finish? ==> NestedIn(es, e.c))
    ensures Nested(es + [e])
  {
    var all := es + [e];
    forall i: nat, j: nat, k: nat | Share(all, i, j) && j < k < |all| && all[k] == Finish(all[i].c)
      ensures EndsBetween(all, all[j].c, j, k)
    {
      assert Share(es, i, j);
      assert k < |es| ==> es[k] == all[k];
      EndsBetweenSnoc(es, e, es[j].c, j, k);
    }
  }

  lemma FeasibleInit(es: seq<HandlerEvent>, e: HandlerEvent)
    requires Feasible(es + [e])
    ensures Feasible(es) && e !in es && (e.Finish? ==> Start(e.c) in es)
    ensures e.Start? ==> Finish(e.c) !in es
  {
    var all := es + [e];
    assert forall i :: 0 <= i < |es| ==> all[i] == es[i] && all[..i] == es[..i];
    assert all[|es|] == e && all[..|es|] == es;
  }

  /** The connections of running handlers among the first `n` events, newest first. */
  function ActiveFrom(es: seq<HandlerEvent>, n: nat): (r: seq<Conn>)
    requires n <= |es|
  {
    if n == 0 then []
    else if Running(es, n - 1) then [es[n - 1].c] + ActiveFrom(es, n - 1)
    else ActiveFrom(es, n - 1)
  }

  function Active(es: seq<HandlerEvent>): (r: seq<Conn>) { ActiveFrom(es, |es|) }

  /** The start of the newest running handler for `fd`, or -1. */
  lemma {:induction false} NewestActive(es: seq<HandlerEvent>, fd: int, n: nat) returns (i: int)
    requires n <= |es|
    ensures -1 <= i < n
    ensures First(ActiveFrom(es, n), fd) == if i < 0 then None else Some(es[i].c)
    ensures i >= 0 ==> es[i].Start? && es[i].c.fd == fd && Finish(es[i].c) !in es
    ensures forall j :: i < j < n && es[j].Start? && es[j].c.fd == fd ==> Finish(es[j].c) in es
  {
    if n == 0 {
      return -1;
    }
    FirstActive(es, fd, n);
    if Running(es, n - 1) && es[n - 1].c.fd == fd {
      return n - 1;
    }
    i := NewestActive(es, fd, n - 1);
  }

  predicate Running(es: seq<HandlerEvent>, i: nat)
    requires i < |es|
  {
    es[i].Start? && Finish(es[i].c) !in es
  }

  lemma FirstActive(es: seq<HandlerEvent>, fd: int, n: nat)
    requires 0 < n <= |es|
    ensures First(ActiveFrom(es, n), fd) ==
            if Running(es, n - 1) && es[n - 1].c.fd == fd then Some(es[n - 1].c)
            else First(ActiveFrom(es, n - 1), fd)
  {
    if Running(es, n - 1) {
      var active := ActiveFrom(es, n);
      assert active[0] == es[n - 1].c && active[1..] == ActiveFrom(es, n - 1);
      FirstCons(active, fd);
    }
  }

  lemma FinishIsLater(es: seq<HandlerEvent>, j: nat)
    requires Feasible(es) && j < |es| && es[j].Start? && Finish(es[j].c) in es
    ensures EndsBetween(es, es[j].c, j, |es|)
  {
    var m :| 0 <= m < |es| && es[m] == Finish(es[j].c);
    assert Start(es[j].c) in es[..m];
    var i :| 0 <= i < m && es[i] == es[j];
    assert i == j;
  }

  /** The table's first entry for the descriptor of a running handler is its own exactly
      when the handlers that started after it are nested. */
  lemma OwnIsFirstIff(es: seq<HandlerEvent>, c: Conn)
    requires Feasible(es) && Start(c) in es && Finish(c) !in es
    ensures First(Active(es), c.fd) == Some(c) <==> NestedIn(es, c)
  {
    var p :| 0 <= p < |es| && es[p] == Start(c);
    var i := NewestActive(es, c.fd, |es|);
    assert i >= p;
    if i == p {
      forall x: nat, j: nat | Share(es, x, j) && es[x] == Start(c)
        ensures EndsBetween(es, es[j].c, j, |es|)
      {
        assert x == p;
        FinishIsLater(es, j);
      }
    } else {
      assert es[i] != es[p];
      assert Share(es, p, i) && !EndsBetween(es, es[i].c, i, |es|);
    }
  }

  function Without(active: seq<Conn>, c: Conn): (r: seq<Conn>) {
    if active == [] then [] else if active[0] == c then active[1..] else [active[0]] + Without(active[1..], c)
  }

  lemma {:induction false} RemoveIsWithout(active: seq<Conn>, c: Conn)
    requires First(active, c.fd) == Some(c)
    ensures RemoveFirst(active, c.fd) == Without(active, c)
  {
    FirstCons(active, c.fd);
    RemoveCons(active, c.fd);
    if active[0].fd != c.fd {
      RemoveIsWithout(active[1..], c);
    }
  }

  lemma {:induction false} NotActive(es: seq<HandlerEvent>, c: Conn, n: nat)
    requires n <= |es| && forall i :: 0 <= i < n ==> es[i] != Start(c)
    ensures Without(ActiveFrom(es, n), c) == ActiveFrom(es, n)
  {
    if n > 0 {
      NotActive(es, c, n - 1);
      if Running(es, n - 1) {
        var active := ActiveFrom(es, n);
        assert active[0] == es[n - 1].c && active[1..] == ActiveFrom(es, n - 1);
      }
    }
  }

  lemma RunningAfterFinish(es: seq<HandlerEvent>, c: Conn, i: nat)
    requires i < |es|
    ensures Running(es + [Finish(c)], i) <==> Running(es, i) && es[i].c != c
  {
    var all := es + [Finish(c)];
    assert all[i] == es[i] && all[|es|] == Finish(c);
  }

  lemma {:induction false} ActiveAfterFinish(es: seq<HandlerEvent>, c: Conn, n: nat)
    requires Feasible(es) && n <= |es|
    ensures ActiveFrom(es + [Finish(c)], n) == Without(ActiveFrom(es, n), c)
  {
    if n > 0 {
      ActiveAfterFinish(es, c, n - 1);
      RunningAfterFinish(es, c, n - 1);
      if Running(es, n - 1) {
        var active := ActiveFrom(es, n);
        assert active[0] == es[n - 1].c && active[1..] == ActiveFrom(es, n - 1);
        if es[n - 1].c == c {
          NotActive(es, c, n - 1);
        }
      }
    }
  }

  lemma {:induction false} ActiveAfterStart(es: seq<HandlerEvent>, c: Conn, n: nat)
    requires n <= |es|
    ensures ActiveFrom(es + [Start(c)], n) == ActiveFrom(es, n)
  {
    if n > 0 {
      ActiveAfterStart(es, c, n - 1);
      assert (es + [Start(c)])[n - 1] == es[n - 1];
    }
  }

  lemma OpsSnoc(es: seq<HandlerEvent>, e: HandlerEvent)
    ensures var ops := OpsOf(es + [e]); ops[..|ops| - 1] == OpsOf(es) && ops[|ops| - 1] == OpOf(e)
    ensures var all := es + [e]; all[..|all| - 1] == es && all[|all| - 1] == e
  {
  }

  /** The list of live connections after handlers have run. */
  function LiveAfter(es: seq<HandlerEvent>): (live: seq<Conn>) { ListRun(OpsOf(es)).0 }

  /** What their removals destroyed. */
  function DestroyedAfter(es: seq<HandlerEvent>): (r: seq<Conn>) { ListRun(OpsOf(es)).1.destroyed }

  lemma HandlerStarts(es: seq<HandlerEvent>, c: Conn)
    ensures LiveAfter(es + [Start(c)]) == [c] + LiveAfter(es)
    ensures DestroyedAfter(es + [Start(c)]) == DestroyedAfter(es)
    ensures Finished(es + [Start(c)]) == Finished(es)
  {
    OpsSnoc(es, Start(c));
    assert Finished(es) + [] == Finished(es);
  }

  lemma HandlerFinishes(es: seq<HandlerEvent>, c: Conn)
    ensures LiveAfter(es + [Finish(c)]) == RemoveFirst(LiveAfter(es), c.fd)
    ensures DestroyedAfter(es + [Finish(c)]) == DestroyedAfter(es) + OptionToSeq(First(LiveAfter(es), c.fd))
    ensures Finished(es + [Finish(c)]) == Finished(es) + [c]
  {
    OpsSnoc(es, Finish(c));
  }

  lemma SameEndsIff(d: seq<Conn>, f: seq<Conn>, o: Option<Conn>, c: Conn)
    requires |d| <= |f|
    ensures d + OptionToSeq(o) == f + [c] <==> d == f && o == Some(c)
  {
    var x, y := d + OptionToSeq(o), f + [c];
    if x == y {
      assert |d| == |f|;
      assert d == x[..|d|] == y[..|f|] == f;
      assert x[|d|] == c;
    }
  }

  /** While handlers are nested, and only then, what was destroyed is what ended, and what
      is live is what is running. */
  ghost predicate Agrees(es: seq<HandlerEvent>) {
    && (DestroyedAfter(es) == Finished(es) <==> Nested(es))
    && (Nested(es) ==> LiveAfter(es) == Active(es))
    && |DestroyedAfter(es)| <= |Finished(es)|
  }

  lemma {:induction false} DestroyedIffNested(es: seq<HandlerEvent>)
    requires Feasible(es)
    ensures Agrees(es)
  {
    if es != [] {
      var init, e := es[..|es| - 1], es[|es| - 1];
      assert es == init + [e];
      FeasibleInit(init, e);
      DestroyedIffNested(init);
      AgreesNext(init, e);
    }
  }

  lemma AgreesNext(es: seq<HandlerEvent>, e: HandlerEvent)
    requires Agrees(es) && Feasible(es) && (e.Start? ==> Finish(e.c) !in es)
    requires e.Finish? ==> Start(e.c) in es && Finish(e.c) !in es
    ensures Agrees(es + [e])
  {
    match e
    case Start(c) => AgreesAfterStart(es, c);
    case Finish(c) => AgreesAfterFinish(es, c);
  }

  lemma AgreesAfterStart(es: seq<HandlerEvent>, c: Conn)
    requires Agrees(es) && Finish(c) !in es
    ensures Agrees(es + [Start(c)])
  {
    NestedSnoc(es, Start(c));
    HandlerStarts(es, c);
    StartActive(es, c);
  }

  lemma AgreesAfterFinish(es: seq<HandlerEvent>, c: Conn)
    requires Agrees(es) && Feasible(es) && Start(c) in es && Finish(c) !in es
    ensures Agrees(es + [Finish(c)])
  {
    NestedSnoc(es, Finish(c));
    HandlerFinishes(es, c);
    OwnIsFirstIff(es, c);
    FinishActive(es, c);
    RemovalIffOwn(DestroyedAfter(es), Finished(es), LiveAfter(es), Active(es), c);
  }

  lemma StartActive(es: seq<HandlerEvent>, c: Conn)
    requires Finish(c) !in es
    ensures Active(es + [Start(c)]) == [c] + Active(es)
  {
    var all := es + [Start(c)];
    assert all[|es|] == Start(c) && Running(all, |es|);
    ActiveAfterStart(es, c, |es|);
  }

  lemma FinishActive(es: seq<HandlerEvent>, c: Conn)
    requires Feasible(es)
    ensures Active(es + [Finish(c)]) == Without(Active(es), c)
  {
    var all := es + [Finish(c)];
    assert all[|es|] == Finish(c) && !Running(all, |es|);
    ActiveAfterFinish(es, c, |es|);
  }

  /** One removal: `d` was destroyed before it and `f` should have been. */
  lemma RemovalIffOwn(d: seq<Conn>, f: seq<Conn>, live: seq<Conn>, active: seq<Conn>, c: Conn)
    requires |d| <= |f| && (d == f ==> live == active)
    ensures d + OptionToSeq(First(live, c.fd)) == f + [c] <==> d == f && First(active, c.fd) == Some(c)
    ensures d == f && First(active, c.fd) == Some(c) ==> RemoveFirst(live, c.fd) == Without(active, c)
  {
    SameEndsIff(d, f, First(live, c.fd), c);
    if d == f && First(active, c.fd) == Some(c) {
      RemoveIsWithout(active, c);
    }
  }

  /** Each handler's removal destroys exactly its own connection if and only if handlers
      that share a descriptor are nested in time. */
  lemma OwnDestroyedIffNested(es: seq<HandlerEvent>)
    requires Feasible(es)
    ensures TableRun(OpsOf(es)).1.destroyed == Finished(es) <==> Nested(es)
  {
    TableRefinesList(OpsOf(es));
    DestroyedIffNested(es);
  }

  /** With distinct live descriptors every handler destroys its own connection. */
  lemma DistinctKeysDestroyOwn(es: seq<HandlerEvent>)
    requires Feasible(es) && DistinctKeys(es)
    ensures TableRun(OpsOf(es)).1.destroyed == Finished(es)
  {
    forall i: nat, j: nat | Share(es, i, j)
      ensures forall k :: j < k < |es| ==> es[k] != Finish(es[i].c)
    {
      var m :| i < m < j && m < |es| && es[m] == Finish(es[i].c);
      assert forall k :: j < k < |es| ==> es[m] != es[k];
    }
    OwnDestroyedIffNested(es);
  }

  /** A handler closes its descriptor before its table entry goes, so the descriptor can
      be accepted again in between; then the first handler destroys the second's entry. */
  lemma ReusedDescriptorDestroysAnother()
    ensures var first, second := Conn(7, 0), Conn(7, 1);
            var es := [Start(first), Start(second), Finish(first)];
            && Feasible(es) && Finished(es) == [first]
            && TableRun(OpsOf(es)).1.destroyed == [second]
  {
    var first, second := Conn(7, 0), Conn(7, 1);
    var es0, es1, es2 := [], [Start(first)], [Start(first), Start(second)];
    var es := [Start(first), Start(second), Finish(first)];
    assert es1 == es0 + [Start(first)] && es2 == es1 + [Start(second)] && es == es2 + [Finish(first)];
    HandlerStarts(es0, first);
    HandlerStarts(es1, second);
    HandlerFinishes(es2, first);
    assert LiveAfter(es2) == [second, first];
    assert First([second, first], 7) == Some(second);
    assert es[..2][0] == Start(first);
    TableRefinesList(OpsOf(es));
  }

  // ---------------------------------------------------------------- the code

  class Node {
    const conn: Conn
    var next: Node?
    ghost const home: nat   // the bucket the node belongs to

    constructor (conn: Conn, next: Node?, ghost home: nat)
      ensures this.conn == conn && this.next == next && this.home == home
    {
      this.conn, this.next, this.home := conn, next, home;
    }
  }

  function Conns(chain: seq<Node>): (r: seq<Conn>)
    ensures |r| == |chain|
  {
    seq(|chain|, i requires 0 <= i < |chain| => chain[i].conn)
  }

  ghost function NodeAt(chain: seq<Node>, i: int): (n: Node?) {
    if 0 <= i < |chain| then chain[i] else null
  }

  /** `chain` is what following `next` from `head` visits, and it is bucket `b`'s. */
  ghost predicate Linked(b: nat, head: Node?, chain: seq<Node>)
    reads chain
  {
    && head == NodeAt(chain, 0)
    && (forall i :: 0 <= i < |chain| ==> chain[i].next == NodeAt(chain, i + 1))
    && (forall i :: 0 <= i < |chain| ==> chain[i].home == b)
    && (forall i, j :: 0 <= i < j < |chain| ==> chain[i] != chain[j])
  }

  ghost predicate Owned(chains: seq<seq<Node>>, nodes: set<Node>) {
    forall b, i :: 0 <= b < |chains| && 0 <= i < |chains[b]| ==> chains[b][i] in nodes
  }

  ghost function BucketsOf(chains: seq<seq<Node>>): (t: Buckets)
    requires |chains| == TABLE_SIZE
  {
    seq(TABLE_SIZE, b requires 0 <= b < TABLE_SIZE => Conns(chains[b]))
  }

  /** `*prev = curr->next` where `prev` is the link in the node before. */
  method SpliceOut(prev: Node, ghost b: nat, ghost head: Node?, ghost chain: seq<Node>, ghost i: nat)
    requires Linked(b, head, chain) && 0 < i < |chain| && prev == chain[i - 1]
    modifies prev
    ensures Linked(b, head, Unlinked(chain, i))
  {
    prev.next := prev.next.next;
    ghost var rest := Unlinked(chain, i);
    UnlinkedAt(chain, i);
    forall j | 0 <= j < |rest| ensures rest[j].next == NodeAt(rest, j + 1) {
      if j != i - 1 {
        assert rest[j] != prev;
        assert rest[j].next == old(rest[j].next);
      }
    }
  }

  class SessionTable {
    const buckets: array<Node?>
    var destroyed: seq<Conn>          // connections given to `connection_destroy`
    ghost var chains: seq<seq<Node>>
    ghost var nodes: set<Node>

    ghost predicate Valid()
      reads this, buckets, nodes
    {
      && buckets.Length == |chains| == TABLE_SIZE
      && Owned(chains, nodes)
      && (forall b :: 0 <= b < TABLE_SIZE ==> Linked(b, buckets[b], chains[b]))
    }

    ghost function View(): (t: Buckets)
      requires Valid()
      reads this, buckets, nodes
    {
      BucketsOf(chains)
    }

    constructor ()
      ensures Valid() && fresh(buckets) && fresh(nodes)
      ensures View() == EmptyBuckets() && destroyed == []
    {
      buckets := new Node?[TABLE_SIZE](_ => null);
      destroyed := [];
      chains := seq(TABLE_SIZE, _ => []);
      nodes := {};
    }

    method AddConnection(c: Conn)
      requires Valid()
      modifies this, buckets
      ensures Valid() && fresh(nodes - old(nodes))
      ensures View() == Add(old(View()), c) && destroyed == old(destroyed)
    {
      var idx := Hash(c.fd);
      var node := new Node(c, buckets[idx], idx);
      buckets[idx] := node;
      ghost var chain := chains[idx];
      chains := chains[idx := [node] + chain];
      nodes := nodes + {node};
      forall b | 0 <= b < TABLE_SIZE ensures Linked(b, buckets[b], chains[b]) {
        assert old(Linked(b, buckets[b], chains[b]));
      }
      assert Conns(chains[idx]) == [c] + Conns(chain);
    }

    method GetConnection(fd: int) returns (r: Option<Conn>)
      requires Valid()
      ensures r == Get(View(), fd)
    {
      var idx := Hash(fd);
      var curr := buckets[idx];
      ghost var chain := chains[idx];
      ghost var i := 0;
      while curr != null
        invariant 0 <= i <= |chain|
        invariant curr == NodeAt(chain, i)
        invariant forall j :: 0 <= j < i ==> chain[j].conn.fd != fd
        decreases |chain| - i
      {
        assert Linked(idx, buckets[idx], chain);
        if curr.conn.fd == fd {
          IndexAt(chain, fd, i);
          return Some(curr.conn);
        }
        curr := curr.next;
        i := i + 1;
      }
      IndexAt(chain, fd, i);
      return None;
    }

    /** Follows the chain for `fd`; `prev` is the node before `curr`, or null when the
        link to `curr` is the bucket's own. */
    method FindLink(idx: nat, fd: int) returns (prev: Node?, curr: Node?, ghost i: nat)
      requires Valid() && idx < TABLE_SIZE
      ensures i == IndexOf(Conns(chains[idx]), fd)
      ensures curr == NodeAt(chains[idx], i) && prev == NodeAt(chains[idx], i - 1)
    {
      ghost var chain := chains[idx];
      prev, curr, i := null, buckets[idx], 0;
      assert Linked(idx, buckets[idx], chain);
      while curr != null && curr.conn.fd != fd
        invariant 0 <= i <= |chain|
        invariant curr == NodeAt(chain, i) && prev == NodeAt(chain, i - 1)
        invariant forall j :: 0 <= j < i ==> chain[j].conn.fd != fd
        decreases |chain| - i
      {
        prev := curr;
        curr := curr.next;
        i := i + 1;
      }
      IndexAt(chain, fd, i);
    }

    /** `*prev = curr->next` where `prev` is the bucket's own link. */
    method UnlinkHead(idx: nat)
      requires Valid() && idx < TABLE_SIZE && chains[idx] != []
      modifies this`chains, buckets
      ensures Valid() && chains == old(chains)[idx := Unlinked(old(chains[idx]), 0)]
    {
      ghost var chain := chains[idx];
      assert Linked(idx, buckets[idx], chain);
      buckets[idx] := buckets[idx].next;
      UnlinkedAt(chain, 0);
      UnlinkedOwned(chains, nodes, idx, 0);
      chains := chains[idx := Unlinked(chain, 0)];
    }

    method UnlinkAfter(idx: nat, prev: Node, ghost i: nat)
      requires Valid() && idx < TABLE_SIZE && 0 < i < |chains[idx]|
      requires prev == chains[idx][i - 1]
      modifies this`chains, nodes
      ensures Valid() && chains == old(chains)[idx := Unlinked(old(chains[idx]), i)]
    {
      ghost var chain := chains[idx];
      SpliceOut(prev, idx, buckets[idx], chain, i);
      ghost var rest := Unlinked(chain, i);
      chains := chains[idx := rest];
      forall b | 0 <= b < TABLE_SIZE && b != idx ensures Linked(b, buckets[b], chains[b]) {
        assert old(Linked(b, buckets[b], chains[b]));
        assert forall k :: 0 <= k < |chains[b]| ==> chains[b][k].home != prev.home;
      }
      UnlinkedOwned(old(chains), nodes, idx, i);
    }

    method UnlinkFirst(idx: nat, fd: int) returns (victim: Option<Conn>)
      requires Valid() && idx < TABLE_SIZE
      modifies this`chains, buckets, nodes
      ensures Valid()
      ensures chains == WithoutFirst(old(chains), idx, fd)
      ensures victim == First(Conns(old(chains)[idx]), fd)
    {
      var prev, curr, i := FindLink(idx, fd);
      if curr == null {
        return None;
      }
      victim := Some(curr.conn);
      if prev == null {
        UnlinkHead(idx);
      } else {
        UnlinkAfter(idx, prev, i);
      }
    }

    method RemoveConnection(fd: int)
      requires Valid()
      modifies this, buckets, nodes
      ensures Valid() && nodes == old(nodes)
      ensures View() == Remove(old(View()), fd)
      ensures destroyed == old(destroyed) + OptionToSeq(Get(old(View()), fd))
    {
      UnlinkIsRemove(chains, Hash(fd), fd);
      var victim := UnlinkFirst(Hash(fd), fd);
      if victim.Some? {
        destroyed := destroyed + [victim.value];
      }
    }

    method DestroyChain(b: nat)
      requires Valid() && b < TABLE_SIZE
      modifies this`destroyed
      ensures destroyed == old(destroyed) + Conns(chains[b])
    {
      ghost var chain, i := chains[b], 0;
      assert Linked(b, buckets[b], chain);
      var node := buckets[b];
      while node != null
        invariant 0 <= i <= |chain| && node == NodeAt(chain, i)
        invariant destroyed == old(destroyed) + Conns(chain[..i])
        decreases |chain| - i
      {
        destroyed := destroyed + [node.conn];
        assert Conns(chain[..i + 1]) == Conns(chain[..i]) + [node.conn];
        node := node.next;
        i := i + 1;
      }
      assert chain[..i] == chain;
    }

    /** `session_table_destroy`: every entry left is destroyed, bucket by bucket. */
    method DestroyAll()
      requires Valid()
      modifies this`destroyed
      ensures destroyed == old(destroyed) + Concat(View())
    {
      ghost var view := View();
      for b := 0 to TABLE_SIZE
        invariant destroyed == old(destroyed) + Concat(view[..b])
      {
        DestroyChain(b);
        ConcatNext(view, b);
      }
      assert view[..TABLE_SIZE] == view;
    }
  }

  lemma {:induction false} ConcatSnoc<T>(chunks: seq<seq<T>>, last: seq<T>)
    ensures Concat(chunks + [last]) == Concat(chunks) + last
  {
    if chunks == [] {
      assert chunks + [last] == [last];
      assert Concat([last]) == last + Concat([]);
    } else {
      assert (chunks + [last])[1..] == chunks[1..] + [last];
      ConcatSnoc(chunks[1..], last);
    }
  }

  lemma ConcatNext<T>(chunks: seq<seq<T>>, b: nat)
    requires b < |chunks|
    ensures Concat(chunks[..b + 1]) == Concat(chunks[..b]) + chunks[b]
  {
    ConcatSnoc(chunks[..b], chunks[b]);
    assert chunks[..b] + [chunks[b]] == chunks[..b + 1];
  }

  ghost function WithoutFirst(chains: seq<seq<Node>>, idx: nat, fd: int): (r: seq<seq<Node>>)
    requires idx < |chains|
    ensures |r| == |chains|
  {
    var i := IndexOf(Conns(chains[idx]), fd);
    if i < |chains[idx]| then chains[idx := Unlinked(chains[idx], i)] else chains
  }

  lemma UnlinkIsRemove(chains: seq<seq<Node>>, idx: nat, fd: int)
    requires |chains| == TABLE_SIZE && idx == Hash(fd)
    ensures Remove(BucketsOf(chains), fd) == BucketsOf(WithoutFirst(chains, idx, fd))
    ensures Get(BucketsOf(chains), fd) == First(Conns(chains[idx]), fd)
  {
    var chain, i := chains[idx], IndexOf(Conns(chains[idx]), fd);
    if i < |chain| {
      assert Conns(Unlinked(chain, i)) == RemoveFirst(Conns(chain), fd);
    }
  }

  ghost function Unlinked(chain: seq<Node>, i: nat): (rest: seq<Node>)
    requires i < |chain|
  {
    chain[..i] + chain[i + 1..]
  }

  lemma UnlinkedOwned(chains: seq<seq<Node>>, nodes: set<Node>, idx: nat, i: nat)
    requires Owned(chains, nodes) && idx < |chains| && i < |chains[idx]|
    ensures Owned(chains[idx := Unlinked(chains[idx], i)], nodes)
  {
  }

  lemma UnlinkedAt(chain: seq<Node>, i: nat)
    requires i < |chain|
    ensures forall j {:trigger NodeAt(Unlinked(chain, i), j)} :: 0 <= j ==>
              NodeAt(Unlinked(chain, i), j) == NodeAt(chain, if j < i then j else j + 1)
    ensures forall j {:trigger Unlinked(chain, i)[j]} :: 0 <= j < |chain| - 1 ==>
              Unlinked(chain, i)[j] == chain[if j < i then j else j + 1]
  {
  }

  lemma IndexAt(chain: seq<Node>, fd: int, i: nat)
    requires i <= |chain|
    requires forall j :: 0 <= j < i ==> chain[j].conn.fd != fd
    requires i < |chain| ==> chain[i].conn.fd == fd
    ensures IndexOf(Conns(chain), fd) == i
  {
    var cs := Conns(chain);
    assert forall j :: 0 <= j < |chain| ==> cs[j] == chain[j].conn;
    assert IndexOf(cs, fd) >= i;
  }
}
