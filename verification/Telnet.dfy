/**
 Removal of Telnet negotiation from received bytes (`telnet_strip_iac` in
 src/service/telnet_honeypot.c).  The partner is the sender of RFC 854, "TELNET Command
 Structure", together with the option subnegotiations of RFC 855.
 */
module Telnet {
  import opened Bytes

  const IAC: byte := 0xFF
  const SB: byte := 0xFA
  const SE: byte := 0xF0

  /** The rest of `s` from position `n` on, empty once `n` is past the end. */
  function Drop(s: seq<byte>, n: nat): (r: seq<byte>) {
    if n <= |s| then s[n..] else []
  }

  predicate Takes3(cmd: byte) { 0xFB <= cmd <= 0xFE }

  /** What follows the end of a subnegotiation, or nothing if it does not end. */
  function AfterSub(s: seq<byte>): (r: seq<byte>)
    ensures |r| <= |s|
  {
    if s == [] then []
    else if s[0] == IAC && |s| > 1 && s[1] == SE then s[2..]
    else AfterSub(s[1..])
  }

  /** What `telnet_strip_iac` keeps, with no bound on the output. */
  function Clean(src: seq<byte>): (r: seq<byte>)
    decreases |src|
  {
    if src == [] then []
    else if src[0] == IAC && |src| > 1 then
      if src[1] == SB then Clean(AfterSub(src[2..]))
      else if Takes3(src[1]) then Clean(Drop(src, 3))
      else if src[1] == IAC then [IAC] + Clean(src[2..])
      else Clean(src[2..])
    else [src[0]] + Clean(src[1..])
  }

  // ---------------------------------------------------------------- the sender

  /** What a sender puts on the wire.  A subnegotiation is given either by its parameters,
      of which RFC 855 doubles every 255, or by its raw bytes. */
  datatype Item =
    | Data(b: byte)
    | Command(cmd: byte)
    | Negotiate(verb: byte, opt: byte)
    | Params(d: seq<byte>)
    | Raw(payload: seq<byte>)

  /** IAC SE occurs somewhere in `s`. */
  predicate HasEnd(s: seq<byte>) {
    |s| > 1 && ((s[0] == IAC && s[1] == SE) || HasEnd(s[1..]))
  }

  predicate Sendable(x: Item) {
    match x
    case Data(_) => true
    case Command(cmd) => cmd < SB
    case Negotiate(verb, _) => 251 <= verb <= 254
    case Params(_) => true
    case Raw(payload) => !HasEnd(payload)
  }

  predicate AllSendable(xs: seq<Item>) {
    forall i :: 0 <= i < |xs| ==> Sendable(xs[i])
  }

  function Wire(x: Item): (r: seq<byte>) {
    match x
    case Data(b) => if b == IAC then [IAC, IAC] else [b]
    case Command(cmd) => [IAC, cmd]
    case Negotiate(verb, opt) => [IAC, verb, opt]
    case Params(d) => [IAC, SB] + Doubled(d) + [IAC, SE]
    case Raw(payload) => [IAC, SB] + payload + [IAC, SE]
  }

  function Doubled(d: seq<byte>): (r: seq<byte>) {
    if d == [] then [] else (if d[0] == IAC then [IAC, IAC] else [d[0]]) + Doubled(d[1..])
  }

  /** What follows the first 255, 240 among parameters; nothing if there is no such pair. */
  function Leaked(d: seq<byte>): (r: seq<byte>) {
    if |d| < 2 then [] else if d[0] == IAC && d[1] == SE then d[2..] else Leaked(d[1..])
  }

  function WireAll(xs: seq<Item>): (r: seq<byte>) {
    if xs == [] then [] else Wire(xs[0]) + WireAll(xs[1..])
  }

  function DataOf(xs: seq<Item>): (r: seq<byte>) {
    if xs == [] then []
    else (if xs[0].Data? then [xs[0].b] else []) + DataOf(xs[1..])
  }

  /** What is kept of an item. */
  function KeptOne(x: Item): (r: seq<byte>) {
    match x case Data(b) => [b] case Params(d) => Leaked(d) case _ => []
  }

  function Kept(xs: seq<Item>): (r: seq<byte>) {
    if xs == [] then [] else KeptOne(xs[0]) + Kept(xs[1..])
  }

  lemma {:induction false} AfterSubSkips(payload: seq<byte>, rest: seq<byte>)
    requires !HasEnd(payload)
    ensures AfterSub(payload + [IAC, SE] + rest) == rest
  {
    var s := payload + [IAC, SE] + rest;
    if payload == [] {
      assert s == [IAC, SE] + rest;
    } else {
      assert s[1..] == payload[1..] + [IAC, SE] + rest;
      AfterSubSkips(payload[1..], rest);
    }
  }

  lemma AfterOther(b: byte, more: seq<byte>)
    requires b != IAC
    ensures AfterSub([b] + more) == AfterSub(more)
  {
    assert ([b] + more)[1..] == more;
  }

  lemma AfterDoubledIac(more: seq<byte>)
    requires more != []
    ensures AfterSub([IAC, IAC] + more) == if more[0] == SE then more[1..] else AfterSub(more)
  {
    var s := [IAC, IAC] + more;
    assert s[1..] == [IAC] + more && s[1..][1..] == more;
    assert s[1..][2..] == more[1..];
  }

  /** The end that is found in doubled parameters: their own, or a 240 after a 255 whose
      doubling is taken for the start of it. */
  lemma {:induction false} AfterDoubled(d: seq<byte>, rest: seq<byte>)
    ensures AfterSub(Doubled(d) + ([IAC, SE] + rest)) ==
            if HasEnd(d) then Doubled(Leaked(d)) + ([IAC, SE] + rest) else rest
  {
    if d == [] {
      assert Doubled(d) + ([IAC, SE] + rest) == [IAC, SE] + rest;
    } else {
      AfterDoubledNext(d, rest);
      AfterDoubled(d[1..], rest);
    }
  }

  lemma AfterDoubledNext(d: seq<byte>, rest: seq<byte>)
    requires d != []
    ensures var end := [IAC, SE] + rest;
            AfterSub(Doubled(d) + end) ==
            if |d| > 1 && d[0] == IAC && d[1] == SE then Doubled(d[2..]) + end
            else AfterSub(Doubled(d[1..]) + end)
  {
    var more := DoubledSplits(d, [IAC, SE] + rest);
    if d[0] != IAC {
      AfterOther(d[0], more);
    } else {
      DoubledHead(d[1..], rest);
      AfterDoubledIac(more);
      if |d| > 1 {
        assert d[1..][1..] == d[2..];
      }
    }
  }

  lemma DoubledSplits(d: seq<byte>, end: seq<byte>) returns (more: seq<byte>)
    requires d != []
    ensures more == Doubled(d[1..]) + end
    ensures Doubled(d) + end == (if d[0] == IAC then [IAC, IAC] else [d[0]]) + more
  {
    Associate(if d[0] == IAC then [IAC, IAC] else [d[0]], Doubled(d[1..]), end);
    more := Doubled(d[1..]) + end;
  }

  lemma DoubledHead(d: seq<byte>, rest: seq<byte>)
    ensures var more := Doubled(d) + ([IAC, SE] + rest);
            && more != []
            && (more[0] == SE <==> d != [] && d[0] == SE)
            && (more[0] == SE ==> more[1..] == Doubled(d[1..]) + ([IAC, SE] + rest))
  {
  }

  lemma CleanByte(b: byte, rest: seq<byte>)
    ensures Clean((if b == IAC then [IAC, IAC] else [b]) + rest) == [b] + Clean(rest)
  {
    if b == IAC {
      assert ([IAC, IAC] + rest)[2..] == rest;
    } else {
      assert ([b] + rest)[1..] == rest;
    }
  }

  /** Doubled bytes outside a subnegotiation are data. */
  lemma {:induction false} CleanDoubled(d: seq<byte>, rest: seq<byte>)
    ensures Clean(Doubled(d) + rest) == d + Clean(rest)
  {
    if d == [] {
      assert Doubled(d) + rest == rest;
    } else {
      CleanDoubled(d[1..], rest);
      CleanByte(d[0], Doubled(d[1..]) + rest);
      Associate(if d[0] == IAC then [IAC, IAC] else [d[0]], Doubled(d[1..]), rest);
      Associate([d[0]], d[1..], Clean(rest));
      assert d == [d[0]] + d[1..];
    }
  }

  lemma {:induction false} NothingLeaked(d: seq<byte>)
    requires !HasEnd(d)
    ensures Leaked(d) == []
  {
    if |d| > 1 {
      NothingLeaked(d[1..]);
    }
  }

  /** Of a subnegotiation nothing is kept, unless its parameters hold 255, 240: then the
      parameters after that pair are kept as data. */
  lemma CleanParams(d: seq<byte>, rest: seq<byte>)
    ensures Clean([IAC, SB] + Doubled(d) + [IAC, SE] + rest) == Leaked(d) + Clean(rest)
  {
    var s, end := [IAC, SB] + Doubled(d) + [IAC, SE] + rest, [IAC, SE] + rest;
    assert s[2..] == Doubled(d) + end;
    AfterDoubled(d, rest);
    if HasEnd(d) {
      CleanDoubled(Leaked(d), end);
      assert end[2..] == rest;
    } else {
      NothingLeaked(d);
      assert [] + Clean(rest) == Clean(rest);
    }
  }

  lemma CleanItem(x: Item, rest: seq<byte>)
    requires Sendable(x)
    ensures Clean(Wire(x) + rest) == KeptOne(x) + Clean(rest)
  {
    var s := Wire(x) + rest;
    match x
    case Data(b) =>
      assert s[|Wire(x)|..] == rest;
    case Command(cmd) =>
      assert s[2..] == rest;
    case Negotiate(verb, opt) =>
      assert s[3..] == rest;
    case Params(d) =>
      CleanParams(d, rest);
    case Raw(payload) =>
      assert s[2..] == payload + [IAC, SE] + rest;
      AfterSubSkips(payload, rest);
  }

  /** Stripping any interleaving of data and negotiation keeps the data, in order, and what
      leaks out of subnegotiations. */
  lemma {:induction false} StripKeeps(xs: seq<Item>, tail: seq<byte>)
    requires AllSendable(xs)
    ensures Clean(WireAll(xs) + tail) == Kept(xs) + Clean(tail)
  {
    if xs == [] {
      assert WireAll(xs) + tail == tail;
    } else {
      var rest := WireAll(xs[1..]) + tail;
      StripKeeps(xs[1..], tail);
      CleanItem(xs[0], rest);
      Associate(Wire(xs[0]), WireAll(xs[1..]), tail);
      Associate(KeptOne(xs[0]), Kept(xs[1..]), Clean(tail));
    }
  }

  /** No parameters have a 255, 240 before their end. */
  predicate NothingLeaks(xs: seq<Item>) {
    forall i :: 0 <= i < |xs| && xs[i].Params? ==> Leaked(xs[i].d) == []
  }

  lemma {:induction false} KeptIsDataIff(xs: seq<Item>)
    ensures |Kept(xs)| >= |DataOf(xs)|
    ensures |Kept(xs)| == |DataOf(xs)| <==> NothingLeaks(xs)
    ensures NothingLeaks(xs) ==> Kept(xs) == DataOf(xs)
  {
    if xs != [] {
      var rest := xs[1..];
      KeptIsDataIff(rest);
      if NothingLeaks(xs) {
        assert forall i :: 0 <= i < |rest| ==> rest[i] == xs[i + 1];
      }
      if NothingLeaks(rest) && (xs[0].Params? ==> Leaked(xs[0].d) == []) {
        assert forall i :: 1 <= i < |xs| ==> xs[i] == rest[i - 1];
      }
    }
  }

  /** Stripping undoes sending exactly when nothing leaks. */
  lemma StripUndoesSending(xs: seq<Item>)
    requires AllSendable(xs)
    ensures Clean(WireAll(xs)) == DataOf(xs) <==> NothingLeaks(xs)
  {
    StripKeeps(xs, []);
    KeptIsDataIff(xs);
    assert WireAll(xs) + [] == WireAll(xs) && Kept(xs) + [] == Kept(xs);
  }

  /** A subnegotiation with the parameters 255, 240, 65, whose last byte becomes data. */
  lemma ParametersLeak()
    ensures var x := Params([255, 240, 65]);
            Wire(x) == [255, 250, 255, 255, 240, 65, 255, 240] && Clean(Wire(x)) == [65]
  {
    var d: seq<byte> := [255, 240, 65];
    assert d[1..] == [240, 65] && d[1..][1..] == [65] && d[2..] == [65];
    assert Doubled([65]) == [65] + Doubled([]);
    assert Doubled([240, 65]) == [240] + Doubled([65]);
    assert Doubled(d) == [255, 255, 240, 65];
    CleanParams(d, []);
    var w := Wire(Params(d));
    assert [IAC, SB] + Doubled(d) + [IAC, SE] + [] == w;
    assert [65] + Clean([]) == [65];
  }

  lemma Associate(a: seq<byte>, b: seq<byte>, c: seq<byte>)
    ensures a + (b + c) == (a + b) + c
  {
  }

  // ---------------------------------------------------------------- every input

  /** A sequence that the input ends before completing. */
  predicate Unfinished(tail: seq<byte>) {
    || tail == [] || tail == [IAC]
    || (|tail| == 2 && tail[0] == IAC && Takes3(tail[1]))
    || (|tail| >= 2 && tail[0] == IAC && tail[1] == SB && !HasEnd(tail[2..]))
  }

  lemma {:induction false} SubEnds(s: seq<byte>) returns (payload: seq<byte>, rest: seq<byte>)
    requires HasEnd(s)
    ensures s == payload + [IAC, SE] + rest && !HasEnd(payload)
  {
    if s[0] == IAC && s[1] == SE {
      payload, rest := [], s[2..];
    } else {
      var p;
      p, rest := SubEnds(s[1..]);
      payload := [s[0]] + p;
      assert s == payload + [IAC, SE] + rest;
      assert payload[1..] == p;
    }
  }

  lemma {:induction false} UnfinishedSub(s: seq<byte>)
    requires !HasEnd(s)
    ensures AfterSub(s) == []
  {
    if s != [] {
      UnfinishedSub(s[1..]);
    }
  }

  lemma CleanUnfinished(tail: seq<byte>)
    requires Unfinished(tail)
    ensures Clean(tail) == if tail == [IAC] then [IAC] else []
  {
    if |tail| >= 2 && tail[1] == SB {
      UnfinishedSub(tail[2..]);
    }
  }

  /** Every input is such a sending followed by at most one unfinished sequence, and what
      is kept is its data, plus a lone final IAC. */
  lemma {:induction false} EveryInputIsASending(src: seq<byte>) returns (xs: seq<Item>, tail: seq<byte>)
    ensures AllSendable(xs) && Unfinished(tail) && NothingLeaks(xs)
    ensures src == WireAll(xs) + tail
    ensures Clean(src) == DataOf(xs) + if tail == [IAC] then [IAC] else []
    decreases |src|
  {
    xs, tail := ParseInput(src);
    StripKeeps(xs, tail);
    KeptIsDataIff(xs);
    CleanUnfinished(tail);
  }

  lemma {:induction false} ParseInput(src: seq<byte>) returns (xs: seq<Item>, tail: seq<byte>)
    ensures AllSendable(xs) && Unfinished(tail) && src == WireAll(xs) + tail
    ensures forall i :: 0 <= i < |xs| ==> !xs[i].Params?
    decreases |src|
  {
    if Unfinished(src) {
      return [], src;
    }
    var x, rest := FirstItem(src);
    xs, tail := ParseInput(rest);
    assert ([x] + xs)[1..] == xs;
    assert src == Wire(x) + (WireAll(xs) + tail) == WireAll([x] + xs) + tail;
    xs := [x] + xs;
  }

  lemma FirstItem(src: seq<byte>) returns (x: Item, rest: seq<byte>)
    requires !Unfinished(src)
    ensures Sendable(x) && !x.Params? && src == Wire(x) + rest && |rest| < |src|
  {
    if src[0] != IAC || |src| == 1 {
      x, rest := Data(src[0]), src[1..];
    } else if src[1] == SB {
      var payload;
      payload, rest := SubEnds(src[2..]);
      x := Raw(payload);
      assert src == [IAC, SB] + src[2..];
    } else if Takes3(src[1]) {
      x, rest := Negotiate(src[1], src[2]), src[3..];
    } else if src[1] == IAC {
      x, rest := Data(IAC), src[2..];
    } else {
      x, rest := Command(src[1]), src[2..];
    }
  }

  // ---------------------------------------------------------------- the code

  /** The inner loop that skips a subnegotiation. */
  method SkipSub(src: seq<byte>, start: nat) returns (si: nat)
    requires start <= |src|
    ensures start <= si <= |src| && src[si..] == AfterSub(src[start..])
  {
    si := start;
    while si < |src|
      invariant start <= si <= |src|
      invariant AfterSub(src[si..]) == AfterSub(src[start..])
    {
      assert src[si..][1..] == src[si + 1..];
      if src[si] == IAC && si + 1 < |src| && src[si + 1] == SE {
        assert src[si..][2..] == src[si + 2..];
        si := si + 2;
        return;
      }
      si := si + 1;
    }
  }

  /** Where the scan stands after the sequence at `si`, and what that sequence yields. */
  function NextAt(src: seq<byte>, si: nat): (n: nat)
    requires si < |src|
    ensures n > si
  {
    if src[si] == IAC && si + 1 < |src| then
      if src[si + 1] == SB then |src| - |AfterSub(src[si + 2..])|
      else if Takes3(src[si + 1]) then si + 3
      else si + 2
    else si + 1
  }

  function YieldAt(src: seq<byte>, si: nat): (r: seq<byte>)
    requires si < |src|
  {
    if src[si] == IAC && si + 1 < |src| then
      if src[si + 1] == IAC then [IAC] else []
    else [src[si]]
  }

  lemma {:induction false} AfterSubIsSuffix(s: seq<byte>)
    ensures AfterSub(s) == s[|s| - |AfterSub(s)|..]
  {
    if s != [] && !(s[0] == IAC && |s| > 1 && s[1] == SE) {
      AfterSubIsSuffix(s[1..]);
    }
  }

  lemma CleanStep(src: seq<byte>, si: nat)
    requires si < |src|
    ensures Clean(Drop(src, si)) == YieldAt(src, si) + Clean(Drop(src, NextAt(src, si)))
  {
    var here, next := src[si..], Drop(src, NextAt(src, si));
    assert next == CleanRest(here) by {
      if si + 1 < |src| {
        assert here[2..] == src[si + 2..];
        AfterSubIsSuffix(src[si + 2..]);
      }
    }
    CleanFirst(here);
  }

  /** What is left after the sequence at the front of `s`. */
  function CleanRest(s: seq<byte>): (r: seq<byte>)
    requires s != []
  {
    if s[0] == IAC && |s| > 1 then
      if s[1] == SB then AfterSub(s[2..]) else if Takes3(s[1]) then Drop(s, 3) else s[2..]
    else s[1..]
  }

  lemma CleanFirst(s: seq<byte>)
    requires s != []
    ensures Clean(s) == YieldAt(s, 0) + Clean(CleanRest(s))
  {
  }

  /** One turn of the outer loop. */
  method StripOne(src: seq<byte>, at: nat, dst: array<byte>, used: nat) returns (si: nat, di: nat)
    requires at < |src| && used < dst.Length
    modifies dst
    ensures si == NextAt(src, at) && di == used + |YieldAt(src, at)|
    ensures dst[..di] == old(dst[..used]) + YieldAt(src, at)
  {
    si, di := at, used;
    if src[si] == IAC && si + 1 < |src| {
      var cmd := src[si + 1];
      if cmd == SB {
        si := SkipSub(src, si + 2);
        return;
      }
      if 0xFB <= cmd <= 0xFE {
        si := si + 3;
        return;
      }
      if cmd == IAC {
        dst[di] := IAC;
        di, si := di + 1, si + 2;
        return;
      }
      si := si + 2;
      return;
    }
    dst[di] := src[si];
    di, si := di + 1, si + 1;
  }

  lemma TakeFull(a: seq<byte>, b: seq<byte>, n: nat)
    requires |a| <= n && (b == [] || |a| == n)
    ensures Take(a + b, n) == a
  {
  }

  /** `telnet_strip_iac` */
  method StripIac(src: seq<byte>, dst: array<byte>) returns (di: nat)
    requires dst.Length > 0
    modifies dst
    ensures di < dst.Length && dst[di] == NUL
    ensures dst[..di] == Take(Clean(src), dst.Length - 1)
  {
    di := 0;
    var si := 0;
    assert Drop(src, 0) == src;
    while si < |src| && di < dst.Length - 1
      invariant di <= dst.Length - 1
      invariant Clean(src) == dst[..di] + Clean(Drop(src, si))
      decreases |src| - si
    {
      CleanStep(src, si);
      Associate(dst[..di], YieldAt(src, si), Clean(Drop(src, NextAt(src, si))));
      si, di := StripOne(src, si, dst, di);
    }
    ghost var kept := dst[..di];
    TakeFull(kept, Clean(Drop(src, si)), dst.Length - 1);
    dst[di] := NUL;
    assert dst[..di] == kept;
  }
}
