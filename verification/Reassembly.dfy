/**
 Reassembly of a TCP byte stream: the growable buffer of a connection
 (src/service/session.c), line extraction and the HTTP service loop
 (src/service/dispatcher.c), and the HTTP states (src/service/finite_state.c).
 */
module Reassembly {
  import opened Bytes

  // ---------------------------------------------------------------- lines of a stream

  /** The position of the first newline, or the length if there is none. */
  function NewlineAt(data: seq<byte>): (i: nat)
    ensures i <= |data|
  {
    if data == [] || data[0] == LF then 0 else 1 + NewlineAt(data[1..])
  }

  lemma {:induction false} NewlineAtIs(data: seq<byte>, i: nat)
    requires i <= |data| && (i < |data| ==> data[i] == LF)
    requires forall j :: 0 <= j < i ==> data[j] != LF
    ensures NewlineAt(data) == i
  {
    if i > 0 {
      NewlineAtIs(data[1..], i - 1);
    }
  }

  lemma {:induction false} NewlineAtFinds(data: seq<byte>)
    ensures var i := NewlineAt(data);
            (i < |data| ==> data[i] == LF) && forall j :: 0 <= j < i ==> data[j] != LF
  {
    if data != [] && data[0] != LF {
      NewlineAtFinds(data[1..]);
      assert forall j :: 1 <= j < NewlineAt(data) ==> data[j] == data[1..][j - 1];
    }
  }

  lemma HasLineIffNewline(data: seq<byte>)
    ensures HasLine(data) <==> LF in data
  {
    NewlineAtFinds(data);
  }

  predicate HasLine(data: seq<byte>) { NewlineAt(data) < |data| }

  /** The first line, without its newline and without a carriage return just before it. */
  function FirstLine(data: seq<byte>): (line: seq<byte>)
    requires HasLine(data)
  {
    var i := NewlineAt(data);
    if i > 0 && data[i - 1] == CR then data[..i - 1] else data[..i]
  }

  function AfterLine(data: seq<byte>): (rest: seq<byte>)
    requires HasLine(data)
    ensures |rest| < |data|
  {
    data[NewlineAt(data) + 1..]
  }

  /** All complete lines, and what is left over. */
  datatype Split = Split(lines: seq<seq<byte>>, rest: seq<byte>)

  function Lines(data: seq<byte>): (s: Split)
    decreases |data|
  {
    if !HasLine(data) then Split([], data)
    else
      var s := Lines(AfterLine(data));
      Split([FirstLine(data)] + s.lines, s.rest)
  }

  lemma AppendKeepsFirstLine(data: seq<byte>, more: seq<byte>)
    requires HasLine(data)
    ensures HasLine(data + more)
    ensures FirstLine(data + more) == FirstLine(data)
    ensures AfterLine(data + more) == AfterLine(data) + more
  {
    NewlineAtFinds(data);
    NewlineAtIs(data + more, NewlineAt(data));
  }

  function Join(first: Split, second: Split): (s: Split) {
    Split(first.lines + second.lines, second.rest)
  }

  /** More data never changes the lines already complete. */
  lemma {:induction false} LinesAppend(data: seq<byte>, more: seq<byte>)
    ensures Lines(data + more) == Join(Lines(data), Lines(Lines(data).rest + more))
    decreases |data|
  {
    if HasLine(data) {
      AppendKeepsFirstLine(data, more);
      LinesAppend(AfterLine(data), more);
      JoinAssociates(FirstLine(data), Lines(AfterLine(data)), Lines(Lines(data).rest + more));
    } else {
      assert [] + Lines(data + more).lines == Lines(data + more).lines;
    }
  }

  lemma JoinAssociates(line: seq<byte>, a: Split, b: Split)
    ensures Join(Split([line] + a.lines, a.rest), b) == Split([line] + Join(a, b).lines, Join(a, b).rest)
  {
    assert [line] + a.lines + b.lines == [line] + (a.lines + b.lines);
  }

  /** The outcome when `lines` were taken, `line` was extracted last and `data` is left. */
  function Outcome(lines: seq<seq<byte>>, line: Option<seq<byte>>, data: seq<byte>): (s: Split) {
    match line case None => Split(lines, data) case Some(l) => Join(Split(lines + [l], []), Lines(data))
  }

  lemma OutcomeNext(lines: seq<seq<byte>>, data: seq<byte>)
    ensures Join(Split(lines, []), Lines(data)) ==
            if HasLine(data) then Outcome(lines, Some(FirstLine(data)), AfterLine(data))
            else Outcome(lines, None, data)
  {
    if HasLine(data) {
      var after := Lines(AfterLine(data)).lines;
      assert lines + ([FirstLine(data)] + after) == lines + [FirstLine(data)] + after;
    } else {
      assert lines + [] == lines;
    }
  }

  /** Receiving chunk by chunk: append, then take out every complete line. */
  function Feed(buffer: seq<byte>, chunks: seq<seq<byte>>): (s: Split)
    decreases |chunks|
  {
    if chunks == [] then Split([], buffer)
    else
      var s := Lines(buffer + chunks[0]);
      Join(s, Feed(s.rest, chunks[1..]))
  }

  lemma {:induction false} RestHasNoLine(data: seq<byte>)
    ensures !HasLine(Lines(data).rest)
    decreases |data|
  {
    if HasLine(data) {
      RestHasNoLine(AfterLine(data));
    }
  }

  /** However TCP cuts the stream, the same lines come out and the same bytes stay. */
  lemma {:induction false} ChunkingIndependence(buffer: seq<byte>, chunks: seq<seq<byte>>)
    requires !HasLine(buffer)
    ensures Feed(buffer, chunks) == Lines(buffer + Concat(chunks))
    decreases |chunks|
  {
    if chunks == [] {
      assert buffer + Concat(chunks) == buffer;
    } else {
      var s := Lines(buffer + chunks[0]);
      RestHasNoLine(buffer + chunks[0]);
      ChunkingIndependence(s.rest, chunks[1..]);
      LinesAppend(buffer + chunks[0], Concat(chunks[1..]));
      assert buffer + chunks[0] + Concat(chunks[1..]) == buffer + Concat(chunks);
    }
  }

  /** A sender's text: each line ended by a bare newline or by CR LF. */
  datatype Sent = Sent(line: seq<byte>, crlf: bool)

  predicate Sendable(x: Sent) {
    && !HasLine(x.line)
    && (!x.crlf ==> x.line == [] || x.line[|x.line| - 1] != CR)
  }

  function Ending(x: Sent): (r: seq<byte>) { if x.crlf then [CR, LF] else [LF] }

  function Render(xs: seq<Sent>): (r: seq<byte>) {
    if xs == [] then [] else xs[0].line + Ending(xs[0]) + Render(xs[1..])
  }

  function Texts(xs: seq<Sent>): (r: seq<seq<byte>>) {
    if xs == [] then [] else [xs[0].line] + Texts(xs[1..])
  }

  /** Line extraction undoes sending, whatever mixture of line ends was sent. */
  lemma {:induction false} LinesUndoRender(xs: seq<Sent>, tail: seq<byte>)
    requires forall i :: 0 <= i < |xs| ==> Sendable(xs[i])
    requires !HasLine(tail)
    ensures Lines(Render(xs) + tail) == Split(Texts(xs), tail)
  {
    if xs == [] {
      assert Render(xs) + tail == tail;
    } else {
      var rest := Render(xs[1..]) + tail;
      assert Render(xs) + tail == xs[0].line + Ending(xs[0]) + rest;
      LineUndoesOne(xs[0], rest);
      LinesUndoRender(xs[1..], tail);
    }
  }

  lemma LineUndoesOne(x: Sent, rest: seq<byte>)
    requires Sendable(x)
    ensures var data := x.line + Ending(x) + rest;
            HasLine(data) && FirstLine(data) == x.line && AfterLine(data) == rest
  {
    var data := x.line + Ending(x) + rest;
    NewlineAtFinds(x.line);
    assert data[..|x.line|] == x.line;
    NewlineAtIs(data, if x.crlf then |x.line| + 1 else |x.line|);
  }

  // ---------------------------------------------------------------- capacity

  /** `new_cap` after the doubling loop. */
  function Doubled(cap: nat, need: nat): (r: nat)
    requires cap > 0
    ensures r >= need && r >= cap
    ensures r == cap || r < 2 * need
    decreases need - cap
  {
    if need <= cap then cap else Doubled(2 * cap, need)
  }

  function Grown(cap: nat, need: nat): (r: nat)
    ensures r >= need && r >= cap
    ensures r == cap || r == 4096 || r < 2 * need
  {
    if need <= cap then cap else Doubled(if cap != 0 then 2 * cap else 4096, need)
  }

  /** What is appended is lost when it needs an allocation that is refused. */
  predicate Lost(cap: nat, length: nat, data: seq<byte>, granted: bool) {
    !granted && length + |data| > cap
  }

  /** What is appended of the chunks received before the peer closed, given the allocator's
      answer for each. */
  function Kept(cap: nat, length: nat, chunks: seq<seq<byte>>, granted: seq<bool>): (r: seq<byte>)
    requires |granted| == |chunks|
    decreases chunks
  {
    if chunks == [] || chunks[0] == [] then []
    else if Lost(cap, length, chunks[0], granted[0]) then Kept(cap, length, chunks[1..], granted[1..])
    else
      var need := length + |chunks[0]|;
      chunks[0] + Kept(Grown(cap, need), need, chunks[1..], granted[1..])
  }

  /** When every allocation is granted, everything is kept. */
  lemma {:induction false} AllKept(cap: nat, length: nat, chunks: seq<seq<byte>>, granted: seq<bool>)
    requires |granted| == |chunks| && forall i :: 0 <= i < |granted| ==> granted[i]
    ensures Kept(cap, length, chunks, granted) == Concat(Received(chunks))
    decreases chunks
  {
    if chunks != [] && chunks[0] != [] {
      var need := length + |chunks[0]|;
      AllKept(Grown(cap, need), need, chunks[1..], granted[1..]);
      var rest := Received(chunks[1..]);
      assert ([chunks[0]] + rest)[1..] == rest;
    }
  }

  // ---------------------------------------------------------------- the code

  datatype HttpState = Banner | WaitCmd | Process | Close

  datatype Response = AdminPage

  class Connection {
    var buffer: array<byte>       // its length is the capacity
    var length: nat
    var state: HttpState
    ghost var peak: nat           // the most that was ever buffered

    ghost predicate Valid()
      reads this
    {
      && length <= buffer.Length && length <= peak
      && (buffer.Length == 0 || buffer.Length == 4096 || buffer.Length < 2 * peak)
    }

    ghost function Contents(): (s: seq<byte>)
      requires Valid()
      reads this, buffer
    {
      buffer[..length]
    }

    constructor ()
      ensures Valid() && fresh(buffer) && Contents() == [] && state == Banner
      ensures buffer.Length == 0 && peak == 0
    {
      buffer, length, state, peak := new byte[0], 0, Banner, 0;
    }

    /** `memcpy(dst + at, data, |data|)` */
    static method Write(dst: array<byte>, at: nat, data: seq<byte>)
      requires at + |data| <= dst.Length
      modifies dst
      ensures dst[..at + |data|] == old(dst[..at]) + data
    {
      for k := 0 to |data|
        invariant dst[..at + k] == old(dst[..at]) + data[..k]
      {
        dst[at + k] := data[k];
      }
    }

    /** The growing part of `connection_append_data`: room for `need` bytes, if the
        allocation is granted. */
    method Reserve(need: nat, granted: bool) returns (ok: bool)
      requires Valid() && length <= need
      modifies this`buffer
      ensures ok <==> granted || need <= old(buffer.Length)
      ensures !ok ==> buffer == old(buffer)
      ensures ok ==> buffer.Length == Grown(old(buffer.Length), need)
      ensures buffer == old(buffer) || fresh(buffer)
      ensures length <= buffer.Length && buffer[..length] == old(buffer[..length])
    {
      if need <= buffer.Length {
        return true;
      }
      var newCap := if buffer.Length != 0 then buffer.Length * 2 else 4096;
      ghost var final := Doubled(newCap, need);
      while need > newCap
        invariant newCap > 0 && Doubled(newCap, need) == final
        decreases need - newCap
      {
        newCap := newCap * 2;
      }
      if !granted {
        return false;
      }
      var newBuf := new byte[newCap];
      for k := 0 to length
        modifies newBuf
        invariant newBuf[..k] == buffer[..k]
      {
        newBuf[k] := buffer[k];
      }
      buffer := newBuf;
      return true;
    }

    /** `connection_append_data`; `granted` says whether a needed `realloc` succeeds. */
    method AppendData(data: seq<byte>, granted: bool)
      requires Valid()
      modifies this`buffer, this`length, this`peak, buffer
      ensures Valid() && (buffer == old(buffer) || fresh(buffer))
      ensures var lost := Lost(old(buffer.Length), old(length), data, granted);
              && Contents() == (if lost then old(Contents()) else old(Contents()) + data)
              && buffer.Length == (if lost then old(buffer.Length) else Grown(old(buffer.Length), old(length) + |data|))
      ensures peak == if length > old(peak) then length else old(peak)
    {
      var ok := Reserve(length + |data|, granted);
      if !ok {
        return;
      }
      Write(buffer, length, data);
      length := length + |data|;
      peak := if length > peak then length else peak;
    }

    /** `memmove` of the unread bytes to the front. */
    method Shift(n: nat)
      requires Valid() && n <= length
      modifies this`length, buffer
      ensures Valid() && Contents() == old(Contents())[n..]
    {
      ghost var was := buffer[..length];
      for k := 0 to length - n
        modifies buffer
        invariant forall j :: 0 <= j < k ==> buffer[j] == was[n + j]
        invariant forall j :: k <= j < length ==> buffer[j] == was[j]
      {
        buffer[k] := buffer[n + k];
      }
      assert buffer[..length - n] == was[n..];
      length := length - n;
    }

    /** `connection_consume_buffer` */
    method ConsumeBuffer(n: nat)
      requires Valid()
      modifies this`length, buffer
      ensures Valid()
      ensures Contents() == if n >= old(length) then [] else old(Contents())[n..]
    {
      if n >= length {
        length := 0;
      } else {
        Shift(n);
      }
    }

    method ExtractLine() returns (line: Option<seq<byte>>)
      requires Valid()
      modifies this`length, buffer
      ensures Valid()
      ensures line.Some? <==> HasLine(old(Contents()))
      ensures line.None? ==> Contents() == old(Contents())
      ensures line.Some? ==> line.value == FirstLine(old(Contents())) && Contents() == AfterLine(old(Contents()))
    {
      ghost var data := Contents();
      var i := 0;
      while i < length
        invariant 0 <= i <= length
        invariant forall j :: 0 <= j < i ==> data[j] != LF
      {
        if buffer[i] == LF {
          NewlineAtIs(data, i);
          var lineLen := if i > 0 && buffer[i - 1] == CR then i - 1 else i;
          line := Some(buffer[..lineLen]);
          Shift(i + 1);
          return;
        }
        i := i + 1;
      }
      NewlineAtIs(data, |data|);
      return None;
    }

    /** The inner loop of a line service: extract until nothing complete is left. */
    method TakeLines() returns (lines: seq<seq<byte>>)
      requires Valid()
      modifies this`length, buffer
      ensures Valid() && Split(lines, Contents()) == Lines(old(Contents()))
    {
      lines := [];
      OutcomeNext([], Contents());
      assert Join(Split([], []), Lines(Contents())) == Lines(Contents());
      var line := ExtractLine();
      while line.Some?
        invariant Valid()
        invariant Lines(old(Contents())) == Outcome(lines, line, Contents())
        decreases line.Some?, length
      {
        lines := lines + [line.value];
        OutcomeNext(lines, Contents());
        line := ExtractLine();
      }
    }

    method HandleHttp() returns (response: Option<Response>)
      modifies this`state
      ensures state == match old(state) case Banner => WaitCmd case WaitCmd => Close case s => s
      ensures response == if old(state) == WaitCmd then Some(AdminPage) else None
    {
      match state
      case Banner => state := WaitCmd; response := None;
      case WaitCmd => state := Close; response := Some(AdminPage);
      case _ => response := None;
    }

    /** One pass of the service loop for a chunk from `recv`.  The first line closes the
        session, so at most one line is taken. */
    method ReceiveHttp(chunk: seq<byte>, granted: bool) returns (sent: seq<Response>)
      requires Valid() && state == WaitCmd && !HasLine(Contents())
      modifies this, buffer
      ensures Valid() && (buffer == old(buffer) || fresh(buffer))
      ensures var lost := Lost(old(buffer.Length), old(length), chunk, granted);
              var data := if lost then old(Contents()) else old(Contents()) + chunk;
              && sent == (if HasLine(data) then [AdminPage] else [])
              && state == (if HasLine(data) then Close else WaitCmd)
              && (sent == [] ==> Contents() == data)
              && (!lost ==> buffer.Length == Grown(old(buffer.Length), old(length) + |chunk|))
              && (lost ==> buffer.Length == old(buffer.Length))
    {
      AppendData(chunk, granted);
      var line := ExtractLine();
      if line.None? {
        return [];
      }
      var response := HandleHttp();
      return SentBy(response);
    }

    /** What is true between two receives, when `all` is what the whole session keeps. */
    ghost predicate OnCourse(sent: seq<Response>, chunks: seq<seq<byte>>, granted: seq<bool>, all: seq<byte>)
      requires Valid() && |granted| == |chunks|
      reads this, buffer
    {
      || (state == Close && sent == [AdminPage] && HasLine(all))
      || (state == WaitCmd && sent == [] && !HasLine(Contents())
          && all == Contents() + Kept(buffer.Length, length, chunks, granted))
    }

    method ReceiveNext(chunks: seq<seq<byte>>, granted: seq<bool>, n: nat, ghost all: seq<byte>) returns (sent: seq<Response>)
      requires Valid() && |granted| == |chunks| && n < |chunks| && chunks[n] != []
      requires state != Close && OnCourse([], chunks[n..], granted[n..], all)
      modifies this, buffer
      ensures Valid() && (buffer == old(buffer) || fresh(buffer))
      ensures OnCourse(sent, chunks[n + 1..], granted[n + 1..], all)
    {
      KeptStep(chunks, granted, n, buffer.Length, Contents());
      sent := ReceiveHttp(chunks[n], granted[n]);
    }

    /** `run_http_service` over what `recv` returns, call by call, with the allocator's
        answer for each; an empty chunk means that the peer closed. */
    method ServeHttp(chunks: seq<seq<byte>>, granted: seq<bool>) returns (sent: seq<Response>)
      requires Valid() && Contents() == [] && state == Banner && |granted| == |chunks|
      modifies this, buffer
      ensures Valid()
      ensures sent == if LF in Kept(old(buffer.Length), 0, chunks, granted) then [AdminPage] else []
    {
      var first := HandleHttp();
      sent := SentBy(first);
      ghost var all := Kept(buffer.Length, 0, chunks, granted);
      HasLineIffNewline(all);
      var n := 0;
      assert chunks[0..] == chunks && granted[0..] == granted;
      assert [] + all == all;
      while n < |chunks| && chunks[n] != [] && state != Close
        invariant n <= |chunks| && Valid() && (buffer == old(buffer) || fresh(buffer))
        invariant OnCourse(sent, chunks[n..], granted[n..], all)
      {
        sent := ReceiveNext(chunks, granted, n, all);
        n := n + 1;
      }
      if state == WaitCmd {
        assert all == Contents();
      }
    }
  }

  function SentBy(response: Option<Response>): (r: seq<Response>) {
    match response case Some(page) => [page] case None => []
  }

  lemma KeptStep(chunks: seq<seq<byte>>, granted: seq<bool>, n: nat, cap: nat, was: seq<byte>)
    requires |granted| == |chunks| && n < |chunks| && chunks[n] != []
    ensures var all := was + Kept(cap, |was|, chunks[n..], granted[n..]);
            var now := was + chunks[n];
            if Lost(cap, |was|, chunks[n], granted[n])
            then all == was + Kept(cap, |was|, chunks[n + 1..], granted[n + 1..])
            else && all == now + Kept(Grown(cap, |now|), |now|, chunks[n + 1..], granted[n + 1..])
                 && (HasLine(now) ==> HasLine(all))
  {
    assert chunks[n..][0] == chunks[n] && chunks[n..][1..] == chunks[n + 1..];
    assert granted[n..][0] == granted[n] && granted[n..][1..] == granted[n + 1..];
    var now := was + chunks[n];
    var rest := Kept(Grown(cap, |now|), |now|, chunks[n + 1..], granted[n + 1..]);
    assert was + (chunks[n] + rest) == now + rest;
    if HasLine(now) {
      AppendKeepsFirstLine(now, rest);
    }
  }
}
