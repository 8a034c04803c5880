/**
 The Redis service (src/service/redis_honeypot.c): the loop that accumulates, parses and
 shifts the receive buffer, the reply to ECHO, and the audited text of a command.

 After a shift the buffer is not terminated again, so the model keeps all 4096 bytes.
 */
module Redis {
  import opened Bytes
  import opened Resp
  import RespStale

  // ---------------------------------------------------------------- the parsing loop

  function Upper(s: seq<byte>): (r: seq<byte>)
    ensures |r| == |s|
  {
    seq(|s|, i requires 0 <= i < |s| => if 97 <= s[i] <= 122 then s[i] - 32 else s[i])
  }

  /** `redis_dispatch_command` returns 1. */
  predicate Closes(args: seq<seq<byte>>) {
    args != [] && (Upper(CStr(args[0])) == Ascii("SHUTDOWN") || Upper(CStr(args[0])) == Ascii("QUIT"))
  }

  /** Said without folding any case: read as a C string, the first argument has the letters
      of QUIT or of SHUTDOWN. */
  predicate SpellsEnd(args: seq<seq<byte>>) {
    args != [] && (SpelledAs(CStr(args[0]), "QUIT") || SpelledAs(CStr(args[0]), "SHUTDOWN"))
  }

  lemma UpperIffSpelled(s: seq<byte>, word: string)
    requires forall i :: 0 <= i < |word| ==> 'A' <= word[i] <= 'Z'
    ensures Upper(s) == Ascii(word) <==> SpelledAs(s, word)
  {
    if |s| == |word| {
      assert forall i :: 0 <= i < |s| ==> (Upper(s)[i] == Ascii(word)[i] <==> SameButCase(s[i], Ascii(word)[i]));
    }
  }

  /** A command ends the session if and only if it spells QUIT or SHUTDOWN. */
  lemma ClosesIffSpelled(args: seq<seq<byte>>)
    ensures Closes(args) <==> SpellsEnd(args)
  {
    if args != [] {
      UpperIffSpelled(CStr(args[0]), "QUIT");
      UpperIffSpelled(CStr(args[0]), "SHUTDOWN");
    }
  }

  /** The `memmove` that drops `n` bytes; what lies beyond the moved bytes stays. */
  function Shift(mem: seq<byte>, used: nat, n: nat): (r: seq<byte>)
    requires n <= used <= |mem|
    ensures |r| == |mem|
  {
    mem[n..used] + mem[used - n..]
  }

  /** The buffer, the number of valid bytes, whether the session goes on, and the commands
      dispatched so far. */
  datatype Service = Service(mem: seq<byte>, used: nat, running: bool, log: seq<seq<seq<byte>>>)

  predicate ValidService(s: Service) { |s.mem| == BUF_SIZE && s.used < BUF_SIZE }

  /** One turn of the inner loop, after a successful parse. */
  function Accept(s: Service, args: seq<seq<byte>>, n: nat): (s': Service)
    requires ValidService(s)
    ensures ValidService(s')
  {
    var s1 := if args == [] then s else s.(log := s.log + [args], running := !Closes(args));
    if n < s.used then s1.(mem := Shift(s.mem, s.used, n), used := s.used - n) else s1.(used := 0)
  }

  function Process(s: Service): (s': Service)
    requires ValidService(s)
    ensures ValidService(s')
    decreases s.used
  {
    if s.used == 0 || !s.running then s
    else
      match ParseOne(s.mem, s.used)
      case Fail => s
      case Command(args, n) =>
        ParseConsumes(s.mem, s.used);
        Process(Accept(s, args, n))
  }

  function EncodeAll(cmds: seq<seq<seq<byte>>>): (r: seq<byte>) {
    if cmds == [] then [] else Encode(cmds[0]) + EncodeAll(cmds[1..])
  }

  /** The commands up to the first QUIT or SHUTDOWN, as they are dispatched. */
  function Dispatched(cmds: seq<seq<seq<byte>>>): (r: seq<seq<seq<byte>>>) {
    if cmds == [] then []
    else if SpellsEnd(Cut(cmds[0])) then [Cut(cmds[0])]
    else [Cut(cmds[0])] + Dispatched(cmds[1..])
  }

  /** None of the commands is QUIT or SHUTDOWN. */
  predicate NoneEnds(cmds: seq<seq<seq<byte>>>) {
    forall i :: 0 <= i < |cmds| ==> !SpellsEnd(Cut(cmds[i]))
  }

  lemma FirstCommandIsParsed(mem: seq<byte>, used: nat, cmd: seq<seq<byte>>, rest: seq<byte>)
    requires Sendable(cmd) && used < |mem| && mem[..used] == Encode(cmd) + rest
    ensures ParseOne(mem, used) == Command(Cut(cmd), |Encode(cmd)|)
    ensures Cut(cmd) != [] && 0 < |Encode(cmd)| <= used
    ensures Shift(mem, used, |Encode(cmd)|)[..used - |Encode(cmd)|] == rest
  {
    var first := Encode(cmd);
    assert At(mem, 0, first + rest);
    AtSplit(mem, 0, first, rest);
    ParseUndoesEncode(mem, used, cmd);
    assert mem[0] == first[0];
    assert mem[|first|..used] == mem[..used][|first|..] == rest;
  }

  lemma ProcessStep(s: Service, cmd: seq<seq<byte>>, rest: seq<byte>) returns (s1: Service)
    requires ValidService(s) && s.running && Sendable(cmd) && s.mem[..s.used] == Encode(cmd) + rest
    ensures s1 == Accept(s, Cut(cmd), |Encode(cmd)|) && Process(s) == Process(s1)
    ensures s1.mem[..s1.used] == rest
    ensures s1.log == s.log + [Cut(cmd)] && s1.running == !SpellsEnd(Cut(cmd))
  {
    ClosesIffSpelled(Cut(cmd));
    FirstCommandIsParsed(s.mem, s.used, cmd, rest);
    s1 := Accept(s, Cut(cmd), |Encode(cmd)|);
  }

  lemma {:induction false} LogGrows(s: Service)
    requires ValidService(s)
    ensures s.log <= Process(s).log
    decreases s.used
  {
    if s.used > 0 && s.running {
      var r := ParseOne(s.mem, s.used);
      if r.Command? {
        ParseConsumes(s.mem, s.used);
        LogGrows(Accept(s, r.args, r.used));
      }
    }
  }

  lemma {:induction false} PipelineStep(s: Service, cmds: seq<seq<seq<byte>>>, tail: seq<byte>) returns (s1: Service)
    requires ValidService(s) && s.running && s.mem[..s.used] == EncodeAll(cmds) + tail
    requires forall i :: 0 <= i < |cmds| ==> Sendable(cmds[i])
    ensures ValidService(s1) && Process(s) == Process(s1)
    ensures s1.log == s.log + Dispatched(cmds)
    ensures s1.running <==> NoneEnds(cmds)
    ensures s1.running ==> s1.mem[..s1.used] == tail
    decreases cmds
  {
    if cmds == [] {
      s1 := s;
      assert EncodeAll(cmds) + tail == tail;
    } else {
      var rest := EncodeAllNext(cmds, tail);
      s1 := ProcessStep(s, cmds[0], rest);
      DispatchedNext(s.log, cmds, !s1.running);
      if s1.running {
        s1 := PipelineStep(s1, cmds[1..], tail);
      }
    }
  }

  lemma EncodeAllNext(cmds: seq<seq<seq<byte>>>, tail: seq<byte>) returns (rest: seq<byte>)
    requires cmds != []
    ensures rest == EncodeAll(cmds[1..]) + tail && EncodeAll(cmds) + tail == Encode(cmds[0]) + rest
  {
    rest := EncodeAll(cmds[1..]) + tail;
  }

  lemma DispatchedNext(before: seq<seq<seq<byte>>>, cmds: seq<seq<seq<byte>>>, ends: bool)
    requires cmds != [] && ends == SpellsEnd(Cut(cmds[0]))
    ensures var now := before + [Cut(cmds[0])];
            before + Dispatched(cmds) == if ends then now else now + Dispatched(cmds[1..])
    ensures NoneEnds(cmds) <==> !ends && NoneEnds(cmds[1..])
  {
    NoneEndsNext(cmds);
  }

  lemma NoneEndsNext(cmds: seq<seq<seq<byte>>>)
    requires cmds != []
    ensures NoneEnds(cmds) <==> !SpellsEnd(Cut(cmds[0])) && NoneEnds(cmds[1..])
  {
    if !SpellsEnd(Cut(cmds[0])) && NoneEnds(cmds[1..]) {
      forall i | 0 <= i < |cmds| ensures !SpellsEnd(Cut(cmds[i])) {
        assert i > 0 ==> cmds[i] == cmds[1..][i - 1];
      }
    }
    if NoneEnds(cmds) {
      forall i | 0 <= i < |cmds[1..]| ensures !SpellsEnd(Cut(cmds[1..][i])) {
        assert cmds[1..][i] == cmds[i + 1];
      }
    }
  }

  /** Pipelining: the commands that are whole in the buffer are dispatched first, in order,
      each once, up to the first QUIT or SHUTDOWN, whatever valid bytes follow them and
      whatever stale bytes lie beyond.  The session ends there exactly when one of them
      is a QUIT or a SHUTDOWN; otherwise it goes on with `tail`. */
  lemma PipelineIsDispatchedInOrder(s: Service, cmds: seq<seq<seq<byte>>>, tail: seq<byte>) returns (s1: Service)
    requires ValidService(s) && s.running && s.mem[..s.used] == EncodeAll(cmds) + tail
    requires forall i :: 0 <= i < |cmds| ==> Sendable(cmds[i])
    ensures ValidService(s1) && Process(s) == Process(s1)
    ensures s1.log == s.log + Dispatched(cmds) && s1.log <= Process(s).log
    ensures s1.running <==> NoneEnds(cmds)
    ensures s1.running ==> s1.mem[..s1.used] == tail
    ensures !s1.running || tail == [] ==> Process(s) == s1
  {
    s1 := PipelineStep(s, cmds, tail);
    LogGrows(s1);
  }

  lemma QuitSpellsEnd(args: seq<seq<byte>>)
    requires args != [] && SpelledAs(args[0], "QUIT")
    ensures SpellsEnd(Cut(args))
  {
    assert Ascii("QUIT") == [81, 85, 73, 84];
    CStrUnique(args[0], args[0]);
    assert Cut(args)[0] == args[0];
  }

  lemma EndComesFirst(cmds: seq<seq<seq<byte>>>)
    requires cmds != [] && SpellsEnd(Cut(cmds[0]))
    ensures Dispatched(cmds) == [Cut(cmds[0])] && !NoneEnds(cmds)
  {
  }

  /** QUIT, in any letter case and with any arguments, is the last command dispatched. */
  lemma QuitEndsPipeline(s: Service, cmds: seq<seq<seq<byte>>>, tail: seq<byte>)
    requires ValidService(s) && s.running && s.mem[..s.used] == EncodeAll(cmds) + tail
    requires forall i :: 0 <= i < |cmds| ==> Sendable(cmds[i])
    requires cmds != [] && cmds[0] != [] && SpelledAs(cmds[0][0], "QUIT")
    ensures Process(s).log == s.log + [Cut(cmds[0])] && !Process(s).running
  {
    QuitSpellsEnd(cmds[0]);
    EndComesFirst(cmds);
    var s1 := PipelineIsDispatchedInOrder(s, cmds, tail);
  }

  // ---------------------------------------------------------------- the terminator

  /** A NUL at or after the valid bytes, which every C string scan relies on. */
  ghost predicate Terminated(s: Service) { ValidService(s) && NulFrom(s.mem, s.used) }

  ghost predicate NulFrom(mem: seq<byte>, used: nat) {
    exists k :: used <= k < |mem| && mem[k] == NUL
  }

  lemma ShiftKeepsNul(mem: seq<byte>, used: nat, n: nat)
    requires n <= used <= |mem| && NulFrom(mem, used)
    ensures NulFrom(Shift(mem, used, n), used - n) && NulFrom(mem, 0)
  {
    var k :| used <= k < |mem| && mem[k] == NUL;
    assert Shift(mem, used, n)[k] == mem[k];
  }

  /** `data` written over `s` at `at`. */
  function Patch(s: seq<byte>, at: nat, data: seq<byte>): (r: seq<byte>)
    requires at + |data| <= |s|
    ensures |r| == |s|
  {
    s[..at] + data + s[at + |data|..]
  }

  lemma PatchSnoc(s: seq<byte>, at: nat, data: seq<byte>, x: byte)
    requires at + |data| < |s|
    ensures Patch(s, at, data)[at + |data| := x] == Patch(s, at, data + [x])
  {
  }

  /** A received chunk is appended after the valid bytes and terminated. */
  function Fill(s: Service, chunk: seq<byte>): (s': Service)
    requires ValidService(s) && Start(s) + |chunk| < BUF_SIZE
    ensures ValidService(s')
  {
    var u := Start(s);
    s.(mem := Patch(s.mem, u, chunk + [NUL]), used := u + |chunk|)
  }

  /** Where the next chunk goes: a full buffer is thrown away. */
  function Start(s: Service): (u: nat) { if s.used >= BUF_SIZE - 1 then 0 else s.used }

  lemma FillTerminates(s: Service, chunk: seq<byte>)
    requires ValidService(s) && Start(s) + |chunk| < BUF_SIZE
    ensures Terminated(Fill(s, chunk))
    ensures Fill(s, chunk).mem[..Fill(s, chunk).used] == s.mem[..Start(s)] + chunk
  {
    var s' := Fill(s, chunk);
    assert s'.mem[s'.used] == NUL;
  }

  /** A shift leaves the terminator where it was, so it never moves into the valid bytes. */
  lemma AcceptKeepsTerminator(s: Service, args: seq<seq<byte>>, n: nat)
    requires Terminated(s)
    ensures Terminated(Accept(s, args, n))
  {
    ShiftKeepsNul(s.mem, s.used, if n < s.used then n else s.used);
  }

  /** A received chunk sets the terminator and no turn of the parsing loop loses it. */
  lemma {:induction false} ProcessKeepsTerminator(s: Service)
    requires Terminated(s)
    ensures Terminated(Process(s))
    decreases s.used
  {
    if s.used > 0 && s.running {
      var r := ParseOne(s.mem, s.used);
      if r.Command? {
        ParseConsumes(s.mem, s.used);
        AcceptKeepsTerminator(s, r.args, r.used);
        ProcessKeepsTerminator(Accept(s, r.args, r.used));
      }
    }
  }

  /** The same for what a receive completes: bytes left from before, which a full buffer
      loses, and the new chunk. */
  lemma ReceivedPipelineIsDispatched(s: Service, chunk: seq<byte>, cmds: seq<seq<seq<byte>>>, tail: seq<byte>) returns (s1: Service)
    requires ValidService(s) && s.running && Start(s) + |chunk| < BUF_SIZE
    requires (if s.used == 4095 then [] else s.mem[..s.used]) + chunk == EncodeAll(cmds) + tail
    requires forall i :: 0 <= i < |cmds| ==> Sendable(cmds[i])
    ensures ValidService(s1) && Process(Fill(s, chunk)) == Process(s1)
    ensures s1.log == s.log + Dispatched(cmds) && s1.log <= Process(s1).log
    ensures s1.running <==> NoneEnds(cmds)
    ensures s1.running ==> s1.mem[..s1.used] == tail
    ensures !s1.running || tail == [] ==> Process(s1) == s1
  {
    FillTerminates(s, chunk);
    s1 := PipelineIsDispatchedInOrder(Fill(s, chunk), cmds, tail);
  }

  // ---------------------------------------------------------------- no scan leaves the buffer

  /** A run of receives.  It ends when a command closes the session or nothing is received;
      a chunk that `recv` has no room for cannot come. */
  function Session(s: Service, chunks: seq<seq<byte>>): (s': Service)
    requires ValidService(s)
    ensures ValidService(s')
    decreases chunks
  {
    if chunks == [] || !s.running || !Receivable(s, chunks[0]) then s
    else Session(Process(Fill(s, chunks[0])), chunks[1..])
  }

  /** The session is over exactly when its last command is QUIT or SHUTDOWN, and no command
      before that is one. */
  ghost predicate EndsAtQuit(s: Service) {
    && (forall i :: 0 <= i < |s.log| - 1 ==> !SpellsEnd(s.log[i]))
    && (s.running <==> s.log == [] || !SpellsEnd(s.log[|s.log| - 1]))
  }

  lemma AcceptEndsAtQuit(s: Service, args: seq<seq<byte>>, n: nat)
    requires ValidService(s) && s.running && EndsAtQuit(s)
    ensures EndsAtQuit(Accept(s, args, n))
  {
    ClosesIffSpelled(args);
  }

  lemma {:induction false} ProcessEndsAtQuit(s: Service)
    requires ValidService(s) && EndsAtQuit(s)
    ensures EndsAtQuit(Process(s))
    decreases s.used
  {
    if s.used > 0 && s.running {
      var r := ParseOne(s.mem, s.used);
      if r.Command? {
        ParseConsumes(s.mem, s.used);
        AcceptEndsAtQuit(s, r.args, r.used);
        ProcessEndsAtQuit(Accept(s, r.args, r.used));
      }
    }
  }

  /** In every run, whatever is received and however it is parsed, nothing is dispatched
      after the first QUIT or SHUTDOWN. */
  lemma {:induction false} NothingAfterQuit(s: Service, chunks: seq<seq<byte>>)
    requires ValidService(s) && EndsAtQuit(s)
    ensures EndsAtQuit(Session(s, chunks))
    decreases chunks
  {
    if chunks != [] && s.running && Receivable(s, chunks[0]) {
      ProcessEndsAtQuit(Fill(s, chunks[0]));
      NothingAfterQuit(Process(Fill(s, chunks[0])), chunks[1..]);
    }
  }

  lemma SessionNext(s: Service, chunks: seq<seq<byte>>, n: nat)
    requires ValidService(s) && s.running && n < |chunks| && Receivable(s, chunks[n])
    ensures Session(s, chunks[n..]) == Session(Process(Fill(s, chunks[n])), chunks[n + 1..])
  {
    assert chunks[n..][1..] == chunks[n + 1..];
  }

  lemma SessionEnds(s: Service, chunks: seq<seq<byte>>, n: nat)
    requires ValidService(s) && n <= |chunks|
    requires n == |chunks| || !s.running || !Receivable(s, chunks[n])
    ensures Session(s, chunks[n..]) == s
  {
  }

  predicate Receivable(s: Service, chunk: seq<byte>) { chunk != [] && Start(s) + |chunk| < BUF_SIZE }

  function FirstNul(mem: seq<byte>, p: nat): (k: nat)
    requires p < |mem|
    ensures p <= k < |mem|
    decreases |mem| - p
  {
    if mem[p] == NUL || p + 1 == |mem| then p else FirstNul(mem, p + 1)
  }

  lemma {:induction false} FirstNulIsNul(mem: seq<byte>, p: nat)
    requires p < |mem| && NulFrom(mem, p)
    ensures mem[FirstNul(mem, p)] == NUL
    decreases |mem| - p
  {
    if mem[p] != NUL {
      var k :| p <= k < |mem| && mem[k] == NUL;
      FirstNulIsNul(mem, p + 1);
    }
  }

  /** A parser that is given no byte past the first NUL behind the valid ones. */
  function ParseVisible(s: Service): (r: Parsed)
    requires ValidService(s)
    ensures s.used > 0 && r.Command? ==> r.used > 0
  {
    var visible := s.mem[..FirstNul(s.mem, s.used) + 1];
    if s.used > 0 then ParseConsumes(visible, s.used); ParseOne(visible, s.used) else Fail
  }

  function ProcessVisible(s: Service): (s': Service)
    requires ValidService(s)
    ensures ValidService(s')
    decreases s.used
  {
    if s.used == 0 || !s.running then s
    else
      match ParseVisible(s)
      case Fail => s
      case Command(args, n) => ProcessVisible(Accept(s, args, n))
  }

  function SessionVisible(s: Service, chunks: seq<seq<byte>>): (s': Service)
    requires ValidService(s)
    decreases chunks
  {
    if chunks == [] || !s.running || !Receivable(s, chunks[0]) then s
    else SessionVisible(ProcessVisible(Fill(s, chunks[0])), chunks[1..])
  }

  lemma VisibleSuffices(s: Service)
    requires Terminated(s) && s.used > 0
    ensures ParseOne(s.mem, s.used) == ParseVisible(s)
  {
    FirstNulIsNul(s.mem, s.used);
    ParseStopsAtNul(s.mem, s.used, FirstNul(s.mem, s.used));
  }

  lemma {:induction false} ProcessSeesVisible(s: Service)
    requires Terminated(s)
    ensures Process(s) == ProcessVisible(s)
    decreases s.used
  {
    if s.used > 0 && s.running {
      VisibleSuffices(s);
      var r := ParseVisible(s);
      if r.Command? {
        AcceptKeepsTerminator(s, r.args, r.used);
        ProcessSeesVisible(Accept(s, r.args, r.used));
      }
    }
  }

  /** No scan of a C string leaves the buffer, in any run of receives and whatever the
      buffer held at first: the session is that of a parser which cannot see past the NUL. */
  lemma {:induction false} NoScanLeavesTheBuffer(s: Service, chunks: seq<seq<byte>>)
    requires ValidService(s)
    ensures Session(s, chunks) == SessionVisible(s, chunks)
    decreases chunks
  {
    if chunks != [] && s.running && Receivable(s, chunks[0]) {
      var f := Fill(s, chunks[0]);
      FillTerminates(s, chunks[0]);
      ProcessSeesVisible(f);
      NoScanLeavesTheBuffer(Process(f), chunks[1..]);
    }
  }

  // ---------------------------------------------------------------- stale bytes in a session

  const PI2G: seq<byte> := [80, 73, 50, 71]

  /** The command PI2G. */
  function PlainCommand(): (r: seq<byte>) { [42, 49, 13, 10, 36, 52, 13, 10, 80, 73, 50, 71, 13, 10] }

  /** A command whose length is empty, and the first byte of what follows it. */
  function BlankCommand(): (r: seq<byte>) { [42, 49, 13, 10, 36, 13, 10, 13, 10, 48] }

  lemma PlainIsEncoded()
    ensures Sendable([PI2G]) && Encode([PI2G]) == PlainCommand()
    ensures Cut([PI2G]) == [PI2G]
  {
    assert Decimal(1) == [49] && Decimal(4) == [52];
    assert Bulks([PI2G]) == Bulk(PI2G) + Bulks([]);
    CutShort([PI2G]);
  }

  lemma PlainDoesNotClose()
    ensures !Closes([PI2G])
  {
    CStrUnique(PI2G, PI2G);
    assert Upper(PI2G)[0] == 80 && Ascii("QUIT")[0] == 81 && |Ascii("SHUTDOWN")| == 8;
  }

  /** What is left of a receive that starts with the plain command. */
  lemma AfterPlain(s: Service, y: seq<byte>) returns (f: Service, s1: Service)
    requires ValidService(s) && s.running && s.used == 0 && |y| <= 10
    ensures f == Fill(s, PlainCommand() + y) && ValidService(s1)
    ensures Process(f) == Process(s1) && s1.running && s1.log == s.log + [[PI2G]]
    ensures s1.used == |y| && s1.mem[..|y|] == y
    ensures |y| == 10 ==> s1.mem[10] == 50 && s1.mem[11] == 71
  {
    PlainIsEncoded();
    PlainDoesNotClose();
    var x := PlainCommand();
    f := Fill(s, x + y);
    FillTerminates(s, x + y);
    assert s.mem[..0] + (x + y) == x + y;
    s1 := ProcessStep(f, [PI2G], y);
    if |y| == 10 {
      ShiftedBytes(f.mem, x, y);
    }
  }

  lemma ShiftedBytes(mem: seq<byte>, x: seq<byte>, y: seq<byte>)
    requires |x| == 14 && |y| == 10 && 24 <= |mem| && mem[..24] == x + y
    ensures Shift(mem, 24, 14)[10] == x[10] && Shift(mem, 24, 14)[11] == x[11]
  {
    assert mem[10] == mem[..24][10] && mem[11] == mem[..24][11];
  }

  lemma DigitsBehind(mem: seq<byte>)
    requires |mem| > 11
    ensures mem[10] == 50 && mem[11] == 71 ==> DigitsFrom(mem, 10, 0).value == 2
    ensures mem[10] == NUL ==> DigitsFrom(mem, 10, 0).value == 0
  {
    assert mem[11] == 71 ==> DigitsFrom(mem, 11, 2) == Number(2, 11);
  }

  lemma BlankAsInline(mem: seq<byte>)
    requires |mem| > 10 && mem[..10] == BlankCommand()
    ensures ParseInline(mem, 10) == Command([[42, 49]], 4)
  {
    assert forall i :: 0 <= i < 10 ==> mem[i] == BlankCommand()[i];
    assert FindCrlf(mem, 2) == Some(2);
    assert FindCrlf(mem, 1) == Some(2);
    assert FindCrlf(mem, 0) == Some(2);
    assert mem[..2] == [42, 49];
    OneWord();
  }

  lemma OneWord()
    ensures Words(CStr(Take([42, 49], BUF_SIZE - 1)), MAX_ARGS) == [[42, 49]]
  {
    var w: seq<byte> := [42, 49];
    CStrUnique(w, w);
    assert w[1..] == [49] && w[2..] == [];
    assert Word([49]) == [49] + Word([]);
    assert Word(w) == [42] + Word([49]);
    assert Words([], 31) == [];
    assert Words(w, 32) == [Take(w, ARG_SIZE - 1)] + Words(w[2..], 31);
  }

  /** With a digit right behind it the blank command is no array, and falls to the inline
      parser; with a NUL there it is a command with one empty argument. */
  lemma BlankIsParsed(s: Service) returns (first: seq<seq<byte>>)
    requires ValidService(s) && s.running && s.used == 10 && s.mem[..10] == BlankCommand()
    requires (s.mem[10] == 50 && s.mem[11] == 71) || s.mem[10] == NUL
    ensures first == if s.mem[10] == NUL then [[]] else [[42, 49]]
    ensures s.log + [first] <= Process(s).log
  {
    DigitsBehind(s.mem);
    RespStale.BlankLength(s.mem, if s.mem[10] == NUL then 0 else 2);
    BlankAsInline(s.mem);
    assert s.mem[0] == BlankCommand()[0];
    first := if s.mem[10] == NUL then [[]] else [[42, 49]];
    LogGrows(Accept(s, first, if s.mem[10] == NUL then 9 else 4));
  }

  /** Received together, the shift leaves a digit of the plain command behind the blank one. */
  lemma BlankInOneChunk(s: Service)
    requires ValidService(s) && s.running && s.used == 0
    ensures s.log + [[PI2G]] + [[[42, 49]]] <= Process(Fill(s, PlainCommand() + BlankCommand())).log
  {
    var f, s1 := AfterPlain(s, BlankCommand());
    var first := BlankIsParsed(s1);
  }

  /** Received one after the other, the terminator stands there. */
  lemma BlankInTwoChunks(s: Service) returns (t: Service)
    requires ValidService(s) && s.running && s.used == 0
    ensures t == Process(Fill(s, PlainCommand())) && t.running && t.used == 0
    ensures s.log + [[PI2G]] + [[[]]] <= Process(Fill(t, BlankCommand())).log
  {
    assert PlainCommand() + [] == PlainCommand();
    var f;
    f, t := AfterPlain(s, []);
    FillTerminates(t, BlankCommand());
    var u := Fill(t, BlankCommand());
    assert t.mem[..0] + BlankCommand() == BlankCommand();
    assert u.mem[10] == NUL;
    var first := BlankIsParsed(u);
  }

  /** So the commands that are dispatched depend on how the stream is cut, even where an
      array ends within each chunk. */
  lemma StaleBytesChangeCommands(s: Service)
    requires ValidService(s) && s.running && s.used == 0
    ensures Session(s, [PlainCommand() + BlankCommand()]).log != Session(s, [PlainCommand(), BlankCommand()]).log
  {
    BlankInOneChunk(s);
    var t := BlankInTwoChunks(s);
    OneReceive(s, PlainCommand() + BlankCommand(), []);
    OneReceive(s, PlainCommand(), [BlankCommand()]);
    OneReceive(t, BlankCommand(), []);
    var n := |s.log| + 1;
    assert (s.log + [[PI2G]] + [[[42, 49]]])[n] == [[42, 49]];
    assert (s.log + [[PI2G]] + [[[]]])[n] == [[]];
  }

  lemma OneReceive(s: Service, chunk: seq<byte>, more: seq<seq<byte>>)
    requires ValidService(s) && s.running && Receivable(s, chunk)
    ensures Session(s, [chunk] + more) == Session(Process(Fill(s, chunk)), more)
  {
    var chunks := [chunk] + more;
    assert chunks[0..] == chunks && chunks[1..] == more;
    SessionNext(s, chunks, 0);
  }

  // ---------------------------------------------------------------- replies and audit

  /** The reply to ECHO with an argument. */
  function EchoReply(args: seq<seq<byte>>): (r: Option<seq<byte>>) {
    if |args| >= 2 && Upper(CStr(args[0])) == Ascii("ECHO") then Some(Bulk(CStr(args[1]))) else None
  }

  /** A bulk reply is read back as the string it was made from. */
  lemma BulkReadsBack(text: seq<byte>)
    requires |text| < ARG_SIZE
    ensures ArgAt(Bulk(text) + [NUL], |Bulk(text)|, 0) == Arg(text, |Bulk(text)|)
  {
    var reply := Bulk(text) + [NUL];
    assert reply[0..|Bulk(text)|] == Bulk(text);
    ArgReads(reply, |Bulk(text)|, 0, text);
    assert Take(text, ARG_SIZE - 1) == text;
  }

  /** A client that sends ECHO reads its own argument back. */
  lemma EchoRoundTrip(name: seq<byte>, text: seq<byte>, mem: seq<byte>, len: nat)
    requires |name| < ARG_SIZE && |text| < ARG_SIZE && NulFree(text)
    requires SpelledAs(CStr(name), "ECHO")
    requires |Encode([name, text])| <= len < |mem| && At(mem, 0, Encode([name, text]))
    ensures var r := ParseArray(mem, len);
            && r.Command? && EchoReply(r.args) == Some(Bulk(text))
            && ArgAt(Bulk(text) + [NUL], |Bulk(text)|, 0) == Arg(text, |Bulk(text)|)
  {
    ParseUndoesEncode(mem, len, [name, text]);
    CutShort([name, text]);
    EchoIsReplied(name, text);
    BulkReadsBack(text);
  }

  lemma EchoIsReplied(name: seq<byte>, text: seq<byte>)
    requires NulFree(text) && SpelledAs(CStr(name), "ECHO")
    ensures EchoReply([name, text]) == Some(Bulk(text))
  {
    UpperIffSpelled(CStr(name), "ECHO");
    CStrUnique(text, text);
  }

  /** The arguments as C strings, with a space between each two. */
  function Joined(args: seq<seq<byte>>, first: bool): (r: seq<byte>) {
    if args == [] then [] else (if first then [] else [SPACE]) + CStr(args[0]) + Joined(args[1..], false)
  }

  /** The words with a space between each two. */
  function Spaced(words: seq<seq<byte>>, first: bool): (ts: seq<Token>) {
    if words == [] then []
    else [Token(if first then [] else [SPACE], words[0])] + Spaced(words[1..], false)
  }

  lemma {:induction false} JoinedIsTyped(args: seq<seq<byte>>, first: bool)
    requires forall i :: 0 <= i < |args| ==> PlainWord(args[i])
    ensures var ts := Spaced(args, first);
            TypedWell(ts, first) && Joined(args, first) == Typed(ts) && WordsOf(ts) == args
  {
    if args != [] {
      CStrUnique(args[0], args[0]);
      JoinedIsTyped(args[1..], false);
      var ts := Spaced(args, first);
      assert ts[1..] == Spaced(args[1..], false);
      assert args == [args[0]] + args[1..];
    }
  }

  /** The audited text tells the arguments apart: those without blanks, cut to 1023 bytes,
      are its words. */
  lemma AuditedTextSplits(args: seq<seq<byte>>)
    requires |args| <= 32 && forall i :: 0 <= i < |args| ==> PlainWord(args[i])
    ensures Words(Joined(args, true), 32) == Cut(args)
  {
    JoinedIsTyped(args, true);
    TypedSplits(Spaced(args, true), args, Joined(args, true));
  }

  lemma TypedSplits(ts: seq<Token>, args: seq<seq<byte>>, text: seq<byte>)
    requires |args| <= 32 && TypedWell(ts, true) && text == Typed(ts) && WordsOf(ts) == args
    ensures Words(text, 32) == Cut(args)
  {
    WordsUndoTyping(ts, [], 32, true);
    assert text + [] == text;
    assert Take(args, 32) == args;
  }

  // ---------------------------------------------------------------- the code

  /** The loop of `redis_dispatch_command` that builds the audited text. */
  method JoinCommand(args: seq<seq<byte>>) returns (text: seq<byte>)
    ensures text == Take(Joined(args, true), BUF_SIZE - 1)
  {
    text := [];
    var i := 0;
    ghost var done := [];
    assert args[0..] == args;
    assert [] + Joined(args, true) == Joined(args, true);
    while i < |args| && |text| < BUF_SIZE - 1
      invariant i <= |args| && text == Take(done, BUF_SIZE - 1)
      invariant Joined(args, true) == done + Joined(args[i..], i == 0)
    {
      ghost var piece := (if i > 0 then [SPACE] else []) + CStr(args[i]);
      JoinStep(args, i, done, piece);
      text := AppendArg(text, CStr(args[i]), i > 0, done);
      done := done + piece;
      i := i + 1;
    }
    TakeAppend(done, Joined(args[i..], i == 0), BUF_SIZE - 1);
  }

  method AppendArg(before: seq<byte>, arg: seq<byte>, spaced: bool, ghost done: seq<byte>) returns (text: seq<byte>)
    requires |before| < BUF_SIZE - 1 && before == Take(done, BUF_SIZE - 1)
    ensures text == Take(done + ((if spaced then [SPACE] else []) + arg), BUF_SIZE - 1)
  {
    text := before;
    ghost var gap := if spaced then [SPACE] else [];
    if spaced {
      text := text + [SPACE];
    }
    assert text == done + gap;
    TakeAppend(done + gap, arg, BUF_SIZE - 1);
    assert done + gap + arg == done + (gap + arg);
    text := text + Take(arg, BUF_SIZE - 1 - |text|);
  }

  lemma JoinStep(args: seq<seq<byte>>, i: nat, done: seq<byte>, piece: seq<byte>)
    requires i < |args| && piece == (if i > 0 then [SPACE] else []) + CStr(args[i])
    ensures done + Joined(args[i..], i == 0) == (done + piece) + Joined(args[i + 1..], false)
  {
    var rest := args[i..];
    assert rest[0] == args[i] && rest[1..] == args[i + 1..];
    assert Joined(rest, i == 0) == piece + Joined(rest[1..], false);
    assert done + (piece + Joined(rest[1..], false)) == (done + piece) + Joined(rest[1..], false);
  }

  class RedisService {
    const buf: array<byte>
    var used: nat
    var running: bool
    var log: seq<seq<seq<byte>>>    // the commands dispatched

    ghost predicate Valid()
      reads this
    {
      buf.Length == BUF_SIZE && used < BUF_SIZE
    }

    ghost function View(): (s: Service)
      requires Valid()
      reads this, buf
    {
      Service(buf[..], used, running, log)
    }

    constructor ()
      ensures Valid() && fresh(buf) && used == 0 && running && log == []
    {
      buf := new byte[BUF_SIZE];
      used, running, log := 0, true, [];
    }

    /** `memmove(buf, buf + n, used - n)` */
    method MoveDown(n: nat)
      requires Valid() && n <= used
      modifies buf
      ensures buf[..] == Shift(old(buf[..]), used, n)
    {
      ghost var was := buf[..];
      for i := 0 to used - n
        invariant buf[..i] == was[n..n + i]
        invariant buf[i..] == was[i..]
      {
        assert buf[n + i] == buf[i..][n] == was[i..][n];
        buf[i] := buf[n + i];
      }
      assert buf[..] == buf[..used - n] + buf[used - n..];
    }

    /** One turn of the inner loop; false when nothing could be parsed. */
    method ParseNext() returns (progress: bool)
      requires Valid() && used > 0 && running
      modifies this`used, this`running, this`log, buf
      ensures Valid()
      ensures progress <==> ParseOne(old(buf[..]), old(used)).Command?
      ensures !progress ==> View() == old(View())
      ensures progress ==> used < old(used)
      ensures progress ==> View() == Accept(old(View()), ParseOne(old(buf[..]), old(used)).args,
                                            ParseOne(old(buf[..]), old(used)).used)
    {
      ParseConsumes(buf[..], used);
      var r := Fail;
      if buf[0] == STAR {
        r := ParseRespArray(buf[..], used);
      }
      if r.Fail? {
        r := ParseInline(buf[..], used);
      }
      if r.Fail? {
        return false;
      }
      if r.args != [] {
        log := log + [r.args];
        running := !Closes(r.args);
      }
      if r.used < used {
        MoveDown(r.used);
        used := used - r.used;
      } else {
        used := 0;
      }
      return true;
    }

    /** The inner loop of `run_redis_service`. */
    method ProcessBuffer()
      requires Valid()
      modifies this`used, this`running, this`log, buf
      ensures Valid() && View() == Process(old(View()))
    {
      var progress := true;
      while used > 0 && running && progress
        invariant Valid()
        invariant Process(View()) == Process(old(View()))
        invariant !progress ==> used > 0 && running && ParseOne(buf[..], used).Fail?
        decreases progress, used
      {
        progress := ParseNext();
      }
    }

    /** What `recv` and the terminator after it put into the buffer. */
    method Append(chunk: seq<byte>)
      requires Valid() && used + |chunk| < BUF_SIZE
      modifies buf
      ensures buf[..] == Patch(old(buf[..]), used, chunk + [NUL])
    {
      ghost var was := buf[..];
      for i := 0 to |chunk|
        invariant buf[..] == Patch(was, used, chunk[..i])
      {
        PatchSnoc(was, used, chunk[..i], chunk[i]);
        buf[used + i] := chunk[i];
        assert chunk[..i + 1] == chunk[..i] + [chunk[i]];
      }
      assert chunk[..|chunk|] == chunk;
      PatchSnoc(was, used, chunk, NUL);
      buf[used + |chunk|] := NUL;
    }

    /** One turn of the outer loop, for a chunk that `recv` had room for. */
    method Receive(chunk: seq<byte>)
      requires Valid() && running && Start(View()) + |chunk| < BUF_SIZE
      modifies this`used, this`running, this`log, buf
      ensures Valid() && View() == Process(Fill(old(View()), chunk))
    {
      if used >= BUF_SIZE - 1 {
        used := 0;
      }
      Append(chunk);
      used := used + |chunk|;
      assert View() == Fill(old(View()), chunk);
      ProcessBuffer();
    }

    /** `run_redis_service` over what `recv` returns, call by call. */
    method Serve(chunks: seq<seq<byte>>)
      requires Valid()
      modifies this`used, this`running, this`log, buf
      ensures Valid() && View() == Session(old(View()), chunks)
      ensures old(EndsAtQuit(View())) ==> EndsAtQuit(View())
    {
      if EndsAtQuit(View()) {
        NothingAfterQuit(View(), chunks);
      }
      var n := 0;
      assert chunks[0..] == chunks;
      while n < |chunks| && running && chunks[n] != [] && (used >= BUF_SIZE - 1 || used + |chunks[n]| < BUF_SIZE)
            && |chunks[n]| < BUF_SIZE
        invariant n <= |chunks| && Valid()
        invariant Session(View(), chunks[n..]) == Session(old(View()), chunks)
      {
        SessionNext(View(), chunks, n);
        Receive(chunks[n]);
        n := n + 1;
      }
      SessionEnds(View(), chunks, n);
    }
  }
}
