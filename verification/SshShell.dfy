/**
 The line editor of the fake SSH shell (the read loop of `run_ssh_service` in
 src/service/ssh_honeypot.c), seen from the attacker's terminal.
 */
module SshShells {
  import opened Bytes

  const CMD_SIZE: nat := 1024
  const ETX: byte := 3
  const BS: byte := 8
  const DEL: byte := 127

  function Prompt(): (r: seq<byte>) { Ascii("root@honeydew:~# ") }

  /** `fake_command_response`: the text of a response, without the CR LF that each response
      ends with, or `None` for the commands that end the session. */
  type Responder = seq<byte> -> Option<seq<byte>>

  // ---------------------------------------------------------------- the editor

  /** The command being typed, everything written to the channel, the commands audited,
      whether the session goes on, and how commands are answered. */
  datatype Shell = Shell(cmd: seq<byte>, out: seq<byte>, submitted: seq<seq<byte>>, open: bool, respond: Responder)

  function Start(motd: seq<byte>, respond: Responder): (s: Shell) { Shell([], motd + Prompt(), [], true, respond) }

  function Key(s: Shell, c: byte): (s': Shell) {
    if !s.open then s
    else if c == CR || c == LF then
      if s.cmd == [] then s.(out := s.out + CrLf() + Prompt())
      else
        var done := s.(out := s.out + CrLf(), submitted := s.submitted + [CStr(s.cmd)]);
        match s.respond(CStr(s.cmd))
        case None => done.(open := false)
        case Some(text) => done.(out := done.out + (text + CrLf()) + Prompt(), cmd := [])
    else if c == DEL || c == BS then
      if s.cmd == [] then s
      else s.(cmd := s.cmd[..|s.cmd| - 1], out := s.out + [BS, SPACE, BS])
    else if c == ETX then s.(cmd := [], out := s.out + ([94, 67] + CrLf()) + Prompt())
    else if |s.cmd| < CMD_SIZE - 1 then s.(cmd := s.cmd + [c], out := s.out + [c])
    else s
  }

  function Keys(s: Shell, input: seq<byte>): (s': Shell)
    decreases input
  {
    if input == [] then s else Keys(Key(s, input[0]), input[1..])
  }

  lemma {:induction false} KeysAppend(s: Shell, a: seq<byte>, b: seq<byte>)
    ensures Keys(s, a + b) == Keys(Keys(s, a), b)
    decreases a
  {
    if a == [] {
      assert a + b == b;
    } else {
      assert (a + b)[1..] == a[1..] + b;
      KeysAppend(Key(s, a[0]), a[1..], b);
    }
  }

  // ---------------------------------------------------------------- the terminal

  /** The current line and the cursor's column. */
  datatype Screen = Screen(line: seq<byte>, col: nat)

  function Show(t: Screen, c: byte): (t': Screen) {
    if c == CR then t.(col := 0)
    else if c == LF then Screen([], t.col)
    else if c == BS then (if t.col > 0 then t.(col := t.col - 1) else t)
    else if t.col < |t.line| then Screen(t.line[t.col := c], t.col + 1)
    else Screen(t.line + Repeat(SPACE, t.col - |t.line|) + [c], t.col + 1)
  }

  function ShowAll(t: Screen, out: seq<byte>): (t': Screen)
    decreases out
  {
    if out == [] then t else ShowAll(Show(t, out[0]), out[1..])
  }

  /** The line reads `text`, the cursor is right after it, and right of it is blank. */
  predicate Reads(t: Screen, text: seq<byte>) {
    && t.col == |text| <= |t.line|
    && t.line[..t.col] == text
    && forall i :: t.col <= i < |t.line| ==> t.line[i] == SPACE
  }

  predicate Printable(c: byte) { 0x20 <= c < 0x7F }

  predicate Typable(c: byte) {
    Printable(c) || c == CR || c == LF || c == BS || c == DEL || c == ETX
  }

  lemma {:induction false} ShowAppend(t: Screen, a: seq<byte>, b: seq<byte>)
    ensures ShowAll(t, a + b) == ShowAll(ShowAll(t, a), b)
    decreases a
  {
    if a == [] {
      assert a + b == b;
    } else {
      assert (a + b)[1..] == a[1..] + b;
      ShowAppend(Show(t, a[0]), a[1..], b);
    }
  }

  lemma ShowOne(t: Screen, text: seq<byte>, c: byte)
    requires Reads(t, text) && Printable(c)
    ensures Reads(Show(t, c), text + [c])
  {
  }

  lemma {:induction false} ShowText(t: Screen, text: seq<byte>, more: seq<byte>)
    requires Reads(t, text)
    requires forall i :: 0 <= i < |more| ==> Printable(more[i])
    ensures Reads(ShowAll(t, more), text + more)
    decreases more
  {
    if more == [] {
      assert text + more == text;
    } else {
      ShowOne(t, text, more[0]);
      ShowText(Show(t, more[0]), text + [more[0]], more[1..]);
      assert text + [more[0]] + more[1..] == text + more;
    }
  }

  lemma ShowErase(t: Screen, text: seq<byte>)
    requires Reads(t, text) && text != []
    ensures Reads(ShowAll(t, [BS, SPACE, BS]), text[..|text| - 1])
  {
    var t1 := Show(t, BS);
    var t2 := Show(t1, SPACE);
    var t3 := Show(t2, BS);
    assert [BS, SPACE, BS][1..] == [SPACE, BS];
    assert [SPACE, BS][1..] == [BS];
    assert ShowAll(t2, [BS]) == t3;
    assert t2.line == t.line[t.col - 1 := SPACE];
  }

  lemma ShowLineEnd(t: Screen, out: seq<byte>)
    ensures ShowAll(t, out + CrLf()) == Screen([], 0)
  {
    ShowAppend(t, out, CrLf());
    var u := ShowAll(t, out);
    assert CrLf()[1..] == [LF];
    assert ShowAll(Show(u, CR), [LF]) == Show(Show(u, CR), LF);
  }

  /** After anything that ends a line, the prompt is all there is on the line. */
  lemma ShowPrompt(t: Screen, out: seq<byte>)
    ensures Reads(ShowAll(t, out + CrLf() + Prompt()), Prompt())
  {
    ShowAppend(t, out + CrLf(), Prompt());
    ShowLineEnd(t, out);
    PromptIsPrintable();
    ShowText(Screen([], 0), [], Prompt());
    assert [] + Prompt() == Prompt();
  }

  lemma PromptIsPrintable()
    ensures forall i :: 0 <= i < |Prompt()| ==> Printable(Prompt()[i])
  {
  }

  // ---------------------------------------------------------------- what the attacker sees

  /** While the session is open the terminal shows exactly the prompt and the buffered
      command; in particular backspace never eats the prompt. */
  ghost predicate InStep(s: Shell, t0: Screen) {
    && (forall i :: 0 <= i < |s.cmd| ==> Printable(s.cmd[i]))
    && |s.cmd| < CMD_SIZE
    && (s.open ==> Reads(ShowAll(t0, s.out), Prompt() + s.cmd))
  }

  lemma PromptStep(s: Shell, t0: Screen, before: seq<byte>)
    requires s.cmd == [] && s.out == before + CrLf() + Prompt()
    ensures InStep(s, t0)
  {
    ShowPrompt(t0, before);
    assert Prompt() + s.cmd == Prompt();
  }

  lemma LineEndStep(s: Shell, t0: Screen, c: byte)
    requires InStep(s, t0) && s.open && (c == CR || c == LF)
    ensures InStep(Key(s, c), t0)
  {
    var s' := Key(s, c);
    if s.cmd == [] {
      PromptStep(s', t0, s.out);
    } else {
      match s.respond(CStr(s.cmd))
      case None =>
      case Some(text) =>
        assert s'.out == (s.out + CrLf() + text) + CrLf() + Prompt();
        PromptStep(s', t0, s.out + CrLf() + text);
    }
  }

  lemma KeyStep(s: Shell, t0: Screen, c: byte)
    requires InStep(s, t0) && Typable(c)
    ensures InStep(Key(s, c), t0)
  {
    if !s.open {
    } else if c == CR || c == LF {
      LineEndStep(s, t0, c);
    } else if c == DEL || c == BS {
      if s.cmd != [] {
        EraseStep(s, t0, c);
      }
    } else if c == ETX {
      assert s.out + ([94, 67] + CrLf()) == (s.out + [94, 67]) + CrLf();
      PromptStep(Key(s, c), t0, s.out + [94, 67]);
    } else {
      TypeStep(s, t0, c);
    }
  }

  lemma EraseStep(s: Shell, t0: Screen, c: byte)
    requires InStep(s, t0) && s.open && s.cmd != [] && (c == DEL || c == BS)
    ensures InStep(Key(s, c), t0)
  {
    ShowAppend(t0, s.out, [BS, SPACE, BS]);
    ShowErase(ShowAll(t0, s.out), Prompt() + s.cmd);
    assert (Prompt() + s.cmd)[..|Prompt() + s.cmd| - 1] == Prompt() + s.cmd[..|s.cmd| - 1];
  }

  lemma TypeStep(s: Shell, t0: Screen, c: byte)
    requires InStep(s, t0) && s.open && Printable(c)
    ensures InStep(Key(s, c), t0)
  {
    if |s.cmd| < CMD_SIZE - 1 {
      ShowAppend(t0, s.out, [c]);
      assert ShowAll(ShowAll(t0, s.out), [c]) == Show(ShowAll(t0, s.out), c);
      ShowOne(ShowAll(t0, s.out), Prompt() + s.cmd, c);
      assert Prompt() + s.cmd + [c] == Prompt() + (s.cmd + [c]);
    }
  }

  lemma {:induction false} KeysStep(s: Shell, t0: Screen, input: seq<byte>)
    requires InStep(s, t0)
    requires forall i :: 0 <= i < |input| ==> Typable(input[i])
    ensures InStep(Keys(s, input), t0)
    decreases input
  {
    if input != [] {
      KeyStep(s, t0, input[0]);
      KeysStep(Key(s, input[0]), t0, input[1..]);
    }
  }

  /** For every stream of printable bytes, erasures, Ctrl-C and line ends, cut into reads
      in any way, and whatever the terminal showed before. */
  lemma TerminalShowsPromptAndCommand(motd: seq<byte>, respond: Responder, t0: Screen, chunks: seq<seq<byte>>)
    requires forall i :: 0 <= i < |Concat(chunks)| ==> Typable(Concat(chunks)[i])
    ensures var s := Keys(Start(motd + CrLf(), respond), Concat(chunks));
            && |s.cmd| < CMD_SIZE
            && (s.open ==> Reads(ShowAll(t0, s.out), Prompt() + s.cmd))
  {
    PromptStep(Start(motd + CrLf(), respond), t0, motd);
    KeysStep(Start(motd + CrLf(), respond), t0, Concat(chunks));
  }

  // ---------------------------------------------------------------- what is submitted

  predicate EndsLine(c: byte) { c == CR || c == LF }

  /** A bounded stack: a printable byte pushes unless it is full, an erasure pops, and
      Ctrl-C empties it. */
  function Edit(stack: seq<byte>, keys: seq<byte>): (r: seq<byte>)
    decreases keys
  {
    if keys == [] then stack
    else if keys[0] == DEL || keys[0] == BS then
      Edit(if stack == [] then [] else stack[..|stack| - 1], keys[1..])
    else if keys[0] == ETX then Edit([], keys[1..])
    else Edit(if |stack| < CMD_SIZE - 1 then stack + [keys[0]] else stack, keys[1..])
  }

  lemma {:induction false} KeysEdit(s: Shell, keys: seq<byte>)
    requires s.open && forall i :: 0 <= i < |keys| ==> !EndsLine(keys[i])
    ensures var s' := Keys(s, keys);
            s'.open && s'.cmd == Edit(s.cmd, keys) && s'.submitted == s.submitted && s'.respond == s.respond
    decreases keys
  {
    if keys != [] {
      KeysEdit(Key(s, keys[0]), keys[1..]);
    }
  }

  /** The keys of one line, and the CR or LF that ends it. */
  datatype Entry = Entry(keys: seq<byte>, end: byte)

  predicate IsEntry(e: Entry) {
    EndsLine(e.end) && forall i :: 0 <= i < |e.keys| ==> !EndsLine(e.keys[i])
  }

  /** The commands that whole lines of keys submit, up to the first that ends the session. */
  function Submitted(lines: seq<Entry>, respond: Responder): (r: seq<seq<byte>>) {
    if lines == [] then []
    else
      var cmd := Edit([], lines[0].keys);
      if cmd == [] then Submitted(lines[1..], respond)
      else if respond(CStr(cmd)).None? then [CStr(cmd)]
      else [CStr(cmd)] + Submitted(lines[1..], respond)
  }

  function Typed(lines: seq<Entry>): (r: seq<byte>) {
    if lines == [] then [] else lines[0].keys + [lines[0].end] + Typed(lines[1..])
  }

  lemma {:induction false} ClosedStays(s: Shell, input: seq<byte>)
    requires !s.open
    ensures Keys(s, input) == s
    decreases input
  {
    if input != [] {
      ClosedStays(s, input[1..]);
    }
  }

  lemma LineSubmits(s: Shell, line: seq<byte>, end: byte, rest: seq<byte>) returns (s2: Shell)
    requires s.open && s.cmd == [] && EndsLine(end)
    requires forall j :: 0 <= j < |line| ==> !EndsLine(line[j])
    ensures Keys(s, line + [end] + rest) == Keys(s2, rest)
    ensures var cmd := Edit([], line);
            && s2.submitted == s.submitted + (if cmd == [] then [] else [CStr(cmd)])
            && s2.respond == s.respond
            && s2.open == (cmd == [] || s.respond(CStr(cmd)).Some?)
            && (s2.open ==> s2.cmd == [])
  {
    KeysEdit(s, line);
    KeysAppend(s, line, [end] + rest);
    assert line + [end] + rest == line + ([end] + rest);
    assert ([end] + rest)[1..] == rest;
    s2 := Key(Keys(s, line), end);
    assert s.submitted + [] == s.submitted;
  }

  /** The audited commands are those of the bounded stack, line by line; keys after the
      last line end submit nothing, and are what is buffered while the session is open. */
  lemma {:induction false} SubmitsWhatTheStackHolds(s: Shell, lines: seq<Entry>, rest: seq<byte>)
    requires s.open && s.cmd == []
    requires forall i :: 0 <= i < |lines| ==> IsEntry(lines[i])
    requires forall i :: 0 <= i < |rest| ==> !EndsLine(rest[i])
    ensures var s' := Keys(s, Typed(lines) + rest);
            && s'.submitted == s.submitted + Submitted(lines, s.respond)
            && (s'.open ==> s'.cmd == Edit([], rest))
    decreases lines
  {
    if lines == [] {
      assert s.submitted + [] == s.submitted && [] + rest == rest;
      KeysEdit(s, rest);
    } else {
      var more := Typed(lines[1..]) + rest;
      TypedMore(lines, rest);
      var s2 := LineSubmits(s, lines[0].keys, lines[0].end, more);
      SubmittedMore(s.submitted, lines, s.respond);
      if s2.open {
        SubmitsWhatTheStackHolds(s2, lines[1..], rest);
      } else {
        ClosedStays(s2, more);
      }
    }
  }

  lemma TypedMore(lines: seq<Entry>, rest: seq<byte>)
    requires lines != []
    ensures Typed(lines) + rest == lines[0].keys + [lines[0].end] + (Typed(lines[1..]) + rest)
  {
  }

  lemma SubmittedMore(before: seq<seq<byte>>, lines: seq<Entry>, respond: Responder)
    requires lines != []
    ensures var cmd := Edit([], lines[0].keys);
            var now := before + (if cmd == [] then [] else [CStr(cmd)]);
            before + Submitted(lines, respond) ==
            if cmd == [] || respond(CStr(cmd)).Some? then now + Submitted(lines[1..], respond) else now
  {
  }

  /** Every stream of keys is such lines followed by such a rest. */
  lemma {:induction false} EveryStreamIsTyped(input: seq<byte>) returns (lines: seq<Entry>, rest: seq<byte>)
    ensures input == Typed(lines) + rest
    ensures forall i :: 0 <= i < |lines| ==> IsEntry(lines[i])
    ensures forall i :: 0 <= i < |rest| ==> !EndsLine(rest[i])
  {
    if input == [] {
      return [], [];
    }
    var c := input[0];
    lines, rest := EveryStreamIsTyped(input[1..]);
    assert input == [c] + (Typed(lines) + rest);
    if EndsLine(c) {
      var e := Entry([], c);
      assert ([e] + lines)[1..] == lines;
      assert Typed([e] + lines) == [c] + Typed(lines);
      lines := [e] + lines;
    } else if lines == [] {
      rest := [c] + rest;
    } else {
      var e := lines[0].(keys := [c] + lines[0].keys);
      assert ([e] + lines[1..])[1..] == lines[1..];
      assert Typed([e] + lines[1..]) == [c] + Typed(lines);
      lines := [e] + lines[1..];
    }
  }

  lemma {:induction false} EditAppend(stack: seq<byte>, a: seq<byte>, b: seq<byte>)
    ensures Edit(stack, a + b) == Edit(Edit(stack, a), b)
    decreases a
  {
    if a == [] {
      assert a + b == b;
    } else {
      assert (a + b)[1..] == a[1..] + b;
      var next := if a[0] == DEL || a[0] == BS then if stack == [] then [] else stack[..|stack| - 1]
                  else if a[0] == ETX then []
                  else if |stack| < CMD_SIZE - 1 then stack + [a[0]] else stack;
      EditAppend(next, a[1..], b);
    }
  }

  /** A keystroke that had room, and the erasure after it, cancel. */
  lemma EraseUndoesType(a: seq<byte>, c: byte, b: seq<byte>)
    requires |Edit([], a)| < CMD_SIZE - 1 && Printable(c)
    ensures Edit([], a + [c, DEL] + b) == Edit([], a + b)
  {
    var stack := Edit([], a);
    EditAppend([], a + [c, DEL], b);
    EditAppend([], a, [c, DEL]);
    EditAppend([], a, b);
    assert [c, DEL][1..] == [DEL] && [DEL][1..] == [];
    assert Edit(stack + [c], [DEL]) == (stack + [c])[..|stack + [c]| - 1] == stack;
  }

  // ---------------------------------------------------------------- what is written

  /** What the end of a line adds to the output: CR LF, the response with its own CR LF, and
      the prompt; only CR LF for a command that ends the session. */
  lemma LineEndWrites(s: Shell, keys: seq<byte>, end: byte)
    requires s.open && EndsLine(end) && forall i :: 0 <= i < |keys| ==> !EndsLine(keys[i])
    ensures var typed, s' := Keys(s, keys), Keys(s, keys + [end]);
            var response := s.respond(CStr(typed.cmd));
            s'.out == typed.out + [13, 10] +
              (if typed.cmd == [] then Ascii("root@honeydew:~# ")
               else if response.None? then []
               else response.value + [13, 10] + Ascii("root@honeydew:~# "))
  {
    KeysEdit(s, keys);
    KeysAppend(s, keys, [end]);
    OneKey(Keys(s, keys), end);
    LineEndKey(Keys(s, keys), end);
  }

  lemma OneKey(s: Shell, c: byte)
    ensures Keys(s, [c]) == Key(s, c)
  {
    assert [c][1..] == [];
    assert Keys(Key(s, c), []) == Key(s, c);
  }

  lemma LineEndKey(s: Shell, end: byte)
    requires s.open && EndsLine(end)
    ensures var response := s.respond(CStr(s.cmd));
            Key(s, end).out == s.out + [13, 10] +
              (if s.cmd == [] then Prompt() else if response.None? then [] else response.value + [13, 10] + Prompt())
  {
    assert CrLf() == [13, 10];
    var response := s.respond(CStr(s.cmd));
    if s.cmd != [] && response.Some? {
      var text := response.value;
      assert s.out + [13, 10] + (text + [13, 10]) + Prompt() == s.out + [13, 10] + (text + [13, 10] + Prompt());
    } else if s.cmd != [] {
      assert s.out + [13, 10] + [] == s.out + [13, 10];
    }
  }

  /** Printable text for which there is room is echoed as it is. */
  lemma {:induction false} TextIsEchoed(s: Shell, text: seq<byte>)
    requires s.open && |s.cmd| + |text| <= 1023 && forall i :: 0 <= i < |text| ==> Printable(text[i])
    ensures Keys(s, text) == s.(cmd := s.cmd + text, out := s.out + text)
    decreases text
  {
    if text == [] {
      assert s.cmd + text == s.cmd && s.out + text == s.out;
    } else {
      TextIsEchoed(Key(s, text[0]), text[1..]);
      assert s.cmd + [text[0]] + text[1..] == s.cmd + text;
      assert s.out + [text[0]] + text[1..] == s.out + text;
    }
  }

  /** A command as it is typed without corrections. */
  predicate PlainCommand(text: seq<byte>) {
    0 < |text| <= 1023 && forall i :: 0 <= i < |text| ==> Printable(text[i])
  }

  function TypedPlain(cmds: seq<seq<byte>>): (r: seq<byte>) {
    if cmds == [] then [] else cmds[0] + [CR] + TypedPlain(cmds[1..])
  }

  /** The session as the attacker sees it scroll by: each command echoed, then its response
      and the next prompt, up to the command that ends it. */
  function Transcript(cmds: seq<seq<byte>>, respond: Responder): (r: seq<byte>) {
    if cmds == [] then []
    else
      cmds[0] + [13, 10] +
      match respond(cmds[0])
      case None => []
      case Some(text) => text + [13, 10] + Ascii("root@honeydew:~# ") + Transcript(cmds[1..], respond)
  }

  lemma {:induction false} SessionIsTranscribed(s: Shell, cmds: seq<seq<byte>>)
    requires s.open && s.cmd == [] && forall i :: 0 <= i < |cmds| ==> PlainCommand(cmds[i])
    ensures Keys(s, TypedPlain(cmds)).out == s.out + Transcript(cmds, s.respond)
    decreases cmds
  {
    if cmds == [] {
      assert s.out + [] == s.out;
    } else {
      var more := TypedPlain(cmds[1..]);
      var s1 := PlainLine(s, cmds[0]);
      KeysAppend(s, cmds[0] + [CR], more);
      if s1.open {
        SessionIsTranscribed(s1, cmds[1..]);
        var text := s.respond(cmds[0]).value;
        Associates(s.out, cmds[0] + [13, 10], text + [13, 10] + Prompt(), Transcript(cmds[1..], s.respond));
      } else {
        ClosedStays(s1, more);
        assert cmds[0] + [13, 10] + [] == cmds[0] + [13, 10];
      }
    }
  }

  lemma Associates(a: seq<byte>, b: seq<byte>, c: seq<byte>, d: seq<byte>)
    ensures a + (b + c) + d == a + (b + (c + d))
  {
  }

  lemma PlainLine(s: Shell, cmd: seq<byte>) returns (s': Shell)
    requires s.open && s.cmd == [] && PlainCommand(cmd)
    ensures s' == Keys(s, cmd + [CR]) && s'.respond == s.respond
    ensures var response := s.respond(cmd);
            if response.None? then !s'.open && s'.out == s.out + (cmd + [13, 10])
            else s'.open && s'.cmd == [] && s'.out == s.out + (cmd + [13, 10] + (response.value + [13, 10] + Prompt()))
  {
    TextIsEchoed(s, cmd);
    KeysAppend(s, cmd, [CR]);
    var typed := s.(cmd := cmd, out := s.out + cmd);
    assert s.cmd + cmd == cmd;
    OneKey(typed, CR);
    LineEndKey(typed, CR);
    CStrUnique(cmd, cmd);
    s' := Key(typed, CR);
    var response := s.respond(cmd);
    if response.Some? {
      assert s.out + cmd + [13, 10] + (response.value + [13, 10] + Prompt())
          == s.out + (cmd + [13, 10] + (response.value + [13, 10] + Prompt()));
    }
  }

  // ---------------------------------------------------------------- the code

  class SshShell {
    const buf: array<byte>
    var len: nat
    var out: seq<byte>
    var submitted: seq<seq<byte>>
    var open: bool
    const respond: Responder

    ghost predicate Valid()
      reads this
    {
      buf.Length == CMD_SIZE && len < CMD_SIZE
    }

    ghost function View(): (s: Shell)
      requires Valid()
      reads this, buf
    {
      Shell(buf[..len], out, submitted, open, respond)
    }

    constructor (motd: seq<byte>, respond: Responder)
      ensures Valid() && fresh(buf) && View() == Start(motd, respond)
    {
      buf, this.respond := new byte[CMD_SIZE], respond;
      len, out, submitted, open := 0, motd + Prompt(), [], true;
    }

    /** The body of the byte loop. */
    method PressKey(c: byte)
      requires Valid() && open
      modifies this, buf
      ensures Valid() && View() == Key(old(View()), c)
    {
      if c == CR || c == LF {
        out := out + CrLf();
        buf[len] := NUL;
        if len > 0 {
          var cmd := CStr(buf[..len]);
          submitted := submitted + [cmd];
          var response := respond(cmd);
          if response.None? {
            open := false;
            return;
          }
          out := out + (response.value + CrLf());
        }
        out := out + Prompt();
        len := 0;
      } else if c == DEL || c == BS {
        if len > 0 {
          len := len - 1;
          out := out + [BS, SPACE, BS];
        }
      } else if c == ETX {
        out := out + ([94, 67] + CrLf());
        out := out + Prompt();
        len := 0;
      } else if len < CMD_SIZE - 1 {
        buf[len] := c;
        len := len + 1;
        out := out + [c];
      }
    }

    /** The read loop over what the channel delivers; nothing read ends the session. */
    method Serve(chunks: seq<seq<byte>>)
      requires Valid() && open
      modifies this, buf
      ensures Valid() && View() == Keys(old(View()), Concat(Received(chunks)))
    {
      var n := 0;
      assert chunks[0..] == chunks;
      while n < |chunks| && chunks[n] != [] && open
        invariant n <= |chunks| && Valid()
        invariant Keys(View(), Concat(Received(chunks[n..]))) == Keys(old(View()), Concat(Received(chunks)))
      {
        var chunk := chunks[n];
        ReceivedNext(chunks, n);
        assert ([chunk] + Received(chunks[n + 1..]))[1..] == Received(chunks[n + 1..]);
        KeysAppend(View(), chunk, Concat(Received(chunks[n + 1..])));
        ReadChunk(chunk);
        n := n + 1;
      }
      if !open {
        ClosedStays(View(), Concat(Received(chunks[n..])));
      }
    }

    method ReadChunk(chunk: seq<byte>)
      requires Valid() && open
      modifies this, buf
      ensures Valid() && View() == Keys(old(View()), chunk)
    {
      var i := 0;
      assert chunk[0..] == chunk;
      while i < |chunk| && open
        invariant i <= |chunk| && Valid()
        invariant Keys(View(), chunk[i..]) == Keys(old(View()), chunk)
      {
        assert chunk[i..][1..] == chunk[i + 1..];
        PressKey(chunk[i]);
        i := i + 1;
      }
      if !open {
        ClosedStays(View(), chunk[i..]);
      }
    }
  }
}
