/**
 The FTP session (src/service/ftp_honeypot.c): line assembly byte by byte, the USER, PASS,
 QUIT, PWD, CWD and CDUP commands, and what any run of them adds up to.  The commands that
 only send a fixed reply change nothing here.
 */
module Ftp {
  import opened Bytes

  const LINE_SIZE: nat := 4096
  const MAX_ATTEMPTS: nat := 6
  const SUCCEED_ON: nat := 2
  const NAME_SIZE: nat := 256
  const PATH_SIZE: nat := 512
  const PWD_SIZE: nat := 600
  const SLASH: byte := 47

  // ---------------------------------------------------------------- reading a line

  function Lower(c: byte): (r: byte) { if 65 <= c <= 90 then c + 32 else c }

  /** `strncasecmp(text, word, strlen(word)) == 0` */
  predicate Starts(text: seq<byte>, word: string) {
    |word| <= |text| && forall i :: 0 <= i < |word| ==> Lower(text[i]) == Lower(Ascii(word)[i])
  }

  function SkipSpaces(s: seq<byte>): (r: seq<byte>) {
    if s != [] && s[0] == SPACE then SkipSpaces(s[1..]) else s
  }

  /** `ftp_extract_argument` */
  function Argument(text: seq<byte>, n: nat): (r: seq<byte>) {
    if |text| <= n then [] else SkipSpaces(text[n..])
  }

  /** The command text that a buffered line stands for. */
  function TextOf(line: seq<byte>): (r: seq<byte>) { StripEnd(CStr(line)) }

  predicate IsUser(text: seq<byte>) { Starts(text, "USER ") }
  predicate IsPass(text: seq<byte>) { Starts(text, "PASS ") }
  predicate IsQuit(text: seq<byte>) { Starts(text, "QUIT") }
  predicate IsPwd(text: seq<byte>) { Starts(text, "PWD") || Starts(text, "XPWD") }
  predicate IsCwd(text: seq<byte>) { Starts(text, "CWD ") || Starts(text, "XCWD ") }
  predicate IsCdup(text: seq<byte>) { Starts(text, "CDUP") || Starts(text, "XCUP") }

  lemma UserPassQuitDiffer(text: seq<byte>)
    ensures !(IsUser(text) && IsPass(text)) && !(IsUser(text) && IsQuit(text)) && !(IsPass(text) && IsQuit(text))
  {
    assert Ascii("USER ")[0] == 85 && Ascii("PASS ")[0] == 80 && Ascii("QUIT")[0] == 81;
  }

  lemma {:induction false} SkipSpacesNulFree(s: seq<byte>)
    requires NulFree(s)
    ensures NulFree(SkipSpaces(s))
  {
    if s != [] && s[0] == SPACE {
      SkipSpacesNulFree(s[1..]);
    }
  }

  lemma ArgumentNulFree(text: seq<byte>, n: nat)
    requires NulFree(text)
    ensures NulFree(Argument(text, n))
  {
    if n < |text| {
      SkipSpacesNulFree(text[n..]);
    }
  }

  lemma TextOfNulFree(line: seq<byte>)
    ensures NulFree(TextOf(line))
  {
    CStrEndsAtNul(line);
    StripEndNulFree(CStr(line));
  }

  // ---------------------------------------------------------------- the session

  type Name = s: seq<byte> | |s| == NAME_SIZE && s[NAME_SIZE - 1] == NUL witness Repeat(NUL, NAME_SIZE)

  /** A path buffer is terminated and holds an absolute path. */
  type Path = s: seq<byte> | |s| == PATH_SIZE && s[PATH_SIZE - 1] == NUL && s[0] == SLASH
    witness [SLASH] + Repeat(NUL, PATH_SIZE - 1)

  /** What `audit_record_auth` is told. */
  datatype Cred = Cred(user: seq<byte>, password: seq<byte>, success: bool)

  datatype Session = Session(
    authenticated: bool, attempts: nat, user: Name, password: Name, cwd: Path, running: bool,
    creds: seq<Cred>, pwdReplies: seq<seq<byte>>)

  function RootPath(): (p: Path) { [SLASH] + Repeat(NUL, PATH_SIZE - 1) }

  function NewSession(): (s: Session) {
    Session(false, 0, Repeat(NUL, NAME_SIZE), Repeat(NUL, NAME_SIZE), RootPath(), true, [], [])
  }

  function SetName(old_: Name, value: seq<byte>): (r: Name) {
    StrNCpy(old_, value, NAME_SIZE - 1)[NAME_SIZE - 1 := NUL]
  }

  function SetPath(old_: Path, value: seq<byte>): (r: Path)
    requires value != [] && value[0] == SLASH
  {
    StrNCpy(old_, value, PATH_SIZE - 1)[PATH_SIZE - 1 := NUL]
  }

  function HandleUser(s: Session, text: seq<byte>): (s': Session) {
    s.(user := SetName(s.user, Argument(text, 4)), authenticated := false, password := Repeat(NUL, NAME_SIZE))
  }

  function HandlePass(s: Session, text: seq<byte>): (s': Session) {
    var password := SetName(s.password, Argument(text, 4));
    var success := s.attempts + 1 >= SUCCEED_ON;
    var s1 := s.(password := password, attempts := s.attempts + 1,
                 creds := s.creds + [Cred(CStr(s.user), CStr(password), success)]);
    if success then s1.(authenticated := true, cwd := SetPath(s.cwd, Ascii("/var/www/html"))) else s1
  }

  /** PASS said on texts: the attempt is recorded with the name in force, and from the
      second on it is a login to the fake root directory. */
  predicate PassMeans(s: Session, text: seq<byte>, s': Session) {
    var success := s'.attempts >= SUCCEED_ON;
    && s'.attempts == s.attempts + 1
    && s'.creds == s.creds + [Cred(CStr(s.user), Take(Argument(text, 4), NAME_SIZE - 1), success)]
    && s'.authenticated == (success || s.authenticated)
    && CStr(s'.cwd) == if success then Ascii("/var/www/html") else CStr(s.cwd)
  }

  lemma PassReads(s: Session, text: seq<byte>)
    requires NulFree(text)
    ensures PassMeans(s, text, HandlePass(s, text))
  {
    ArgumentNulFree(text, 4);
    SetNameReads(s.password, Argument(text, 4));
    FixedPaths(s.cwd);
  }

  /** The check after PASS that would end the session. */
  function CutOff(s: Session): (s': Session) {
    if s.attempts >= MAX_ATTEMPTS && !s.authenticated then s.(running := false) else s
  }

  lemma PathLength(p: Path)
    ensures 0 < |CStr(p)| < PATH_SIZE && CStr(p)[0] == SLASH && NulFree(CStr(p))
  {
    CStrEndsAtNul(p);
  }

  /** `strncat(cwd, text, sizeof(cwd) - strlen(cwd) - 1)` */
  function AppendPath(cwd: Path, text: seq<byte>): (r: Path) {
    PathLength(cwd);
    CStrEndsAtNul(cwd);
    StrNCat(cwd, text, PATH_SIZE - |CStr(cwd)| - 1)
  }

  function EndWithSlash(cwd: Path): (r: Path) {
    PathLength(cwd);
    if CStr(cwd)[|CStr(cwd)| - 1] != SLASH then AppendPath(cwd, [SLASH]) else cwd
  }

  function HandleCwd(s: Session, text: seq<byte>): (s': Session) {
    var dir := Argument(text, 3);
    if dir != [] && dir[0] == SLASH then s.(cwd := SetPath(s.cwd, dir))
    else s.(cwd := AppendPath(EndWithSlash(s.cwd), dir))
  }

  function PwdText(cwd: Path): (r: seq<byte>) { PwdLine(CStr(cwd)) }

  function PwdLine(cwd: seq<byte>): (r: seq<byte>) {
    Ascii("257 \"") + cwd + Ascii("\" is the current directory\r\n")
  }

  /** What `snprintf` leaves in the 600-byte reply buffer. */
  function PwdReply(cwd: Path): (r: seq<byte>) {
    CStr(SnPrintf(Repeat(NUL, PWD_SIZE), PwdText(cwd), PWD_SIZE))
  }

  function HandleCdup(s: Session): (s': Session) {
    s.(cwd := SetPath(s.cwd, Ascii("/var/www")))
  }

  /** The chain of comparisons in the loop. */
  function Dispatch(s: Session, text: seq<byte>): (s': Session) {
    if IsUser(text) then HandleUser(s, text)
    else if IsPass(text) then CutOff(HandlePass(s, text))
    else if IsQuit(text) then s.(running := false)
    else if !s.authenticated then s
    else DispatchLoggedIn(s, text)
  }

  /** Its part for sessions that are logged in. */
  function DispatchLoggedIn(s: Session, text: seq<byte>): (s': Session) {
    if IsPwd(text) then s.(pwdReplies := s.pwdReplies + [PwdReply(s.cwd)])
    else if IsCwd(text) then HandleCwd(s, text)
    else if IsCdup(text) then HandleCdup(s)
    else s
  }

  // ---------------------------------------------------------------- runs

  /** The line being assembled, the session, and the command texts dispatched so far. */
  datatype State = State(line: seq<byte>, sess: Session, log: seq<seq<byte>>)

  function Init(): (s: State) { State([], NewSession(), []) }

  function Byte(s: State, c: byte): (s': State) {
    if c == LF then
      if s.line == [] then s
      else
        var text := TextOf(s.line);
        State([], Dispatch(s.sess, text), s.log + [text])
    else if |s.line| < LINE_SIZE - 1 then s.(line := s.line + [c])
    else s
  }

  function BytesRun(s: State, input: seq<byte>): (s': State)
    decreases input
  {
    if input == [] then s else BytesRun(Byte(s, input[0]), input[1..])
  }

  /** The receive loop over the chunks that came before the peer closed; `running` is
      tested only between them. */
  function ChunksRun(s: State, chunks: seq<seq<byte>>): (s': State)
    decreases chunks
  {
    if chunks == [] || !s.sess.running then s
    else ChunksRun(BytesRun(s, chunks[0]), chunks[1..])
  }

  lemma {:induction false} BytesAppend(s: State, a: seq<byte>, b: seq<byte>)
    ensures BytesRun(s, a + b) == BytesRun(BytesRun(s, a), b)
    decreases a
  {
    if a == [] {
      assert a + b == b;
    } else {
      assert (a + b)[1..] == a[1..] + b;
      BytesAppend(Byte(s, a[0]), a[1..], b);
    }
  }

  // ---------------------------------------------------------------- closed form

  function Passes(log: seq<seq<byte>>): (n: nat) {
    if log == [] then 0 else Passes(log[..|log| - 1]) + if IsPass(log[|log| - 1]) then 1 else 0
  }

  /** The last USER or PASS line exists and is a PASS. */
  predicate LastIsPass(log: seq<seq<byte>>) {
    log != [] &&
    var text := log[|log| - 1];
    if IsPass(text) then true else if IsUser(text) then false else LastIsPass(log[..|log| - 1])
  }

  predicate HasQuit(log: seq<seq<byte>>) {
    log != [] && (IsQuit(log[|log| - 1]) || HasQuit(log[..|log| - 1]))
  }

  /** The name in the last USER line, cut to its buffer. */
  function LastUser(log: seq<seq<byte>>): (r: seq<byte>) {
    if log == [] then []
    else if IsUser(log[|log| - 1]) then Take(Argument(log[|log| - 1], 4), NAME_SIZE - 1)
    else LastUser(log[..|log| - 1])
  }

  /** One record per PASS line: the name in force, the password, and success from the
      second on. */
  function CredsOf(log: seq<seq<byte>>): (r: seq<Cred>) {
    if log == [] then []
    else
      var before, text := log[..|log| - 1], log[|log| - 1];
      CredsOf(before) +
      if IsPass(text) then
        [Cred(LastUser(before), Take(Argument(text, 4), NAME_SIZE - 1), Passes(before) + 1 >= SUCCEED_ON)]
      else []
  }

  predicate LoggedIn(log: seq<seq<byte>>) { Passes(log) >= SUCCEED_ON && LastIsPass(log) }

  /** CWD said on texts: an absolute argument replaces the directory, a relative one is
      appended after exactly one slash, and the result is cut to 511 bytes. */
  function ChangeDir(cwd: seq<byte>, dir: seq<byte>): (r: seq<byte>) {
    if dir != [] && dir[0] == SLASH then Take(dir, PATH_SIZE - 1)
    else
      var base := if cwd != [] && cwd[|cwd| - 1] != SLASH then Take(cwd + [SLASH], PATH_SIZE - 1) else cwd;
      Take(base + dir, PATH_SIZE - 1)
  }

  function CwdOf(log: seq<seq<byte>>): (r: seq<byte>) {
    if log == [] then [SLASH]
    else
      var before, text := log[..|log| - 1], log[|log| - 1];
      if IsPass(text) && Passes(log) >= SUCCEED_ON then Ascii("/var/www/html")
      else if IsUser(text) || IsPass(text) || IsQuit(text) || !LoggedIn(before) || IsPwd(text) then CwdOf(before)
      else if IsCwd(text) then ChangeDir(CwdOf(before), Argument(text, 3))
      else if IsCdup(text) then Ascii("/var/www")
      else CwdOf(before)
  }

  /** The PWD replies, each with the whole directory in force. */
  function PwdsOf(log: seq<seq<byte>>): (r: seq<seq<byte>>) {
    if log == [] then []
    else
      var before, text := log[..|log| - 1], log[|log| - 1];
      PwdsOf(before) +
      if !IsUser(text) && !IsPass(text) && !IsQuit(text) && LoggedIn(before) && IsPwd(text)
      then [PwdLine(CwdOf(before))] else []
  }

  /** What can be seen of a session, with every buffer read as the string it holds. */
  datatype Login = Login(authenticated: bool, attempts: nat, user: seq<byte>, running: bool, creds: seq<Cred>)
  datatype Place = Place(cwd: seq<byte>, pwdReplies: seq<seq<byte>>)

  function LoginOf(s: Session): (r: Login) {
    Login(s.authenticated, s.attempts, CStr(s.user), s.running, s.creds)
  }

  function PlaceOf(s: Session): (r: Place) { Place(CStr(s.cwd), s.pwdReplies) }

  function LoginAfter(log: seq<seq<byte>>): (r: Login) {
    Login(LoggedIn(log), Passes(log), LastUser(log), !HasQuit(log), CredsOf(log))
  }

  function PlaceAfter(log: seq<seq<byte>>): (r: Place) { Place(CwdOf(log), PwdsOf(log)) }

  ghost predicate Determined(s: Session, log: seq<seq<byte>>) {
    LoginOf(s) == LoginAfter(log) && PlaceOf(s) == PlaceAfter(log)
  }

  lemma SetNameReads(old_: Name, value: seq<byte>)
    requires NulFree(value)
    ensures CStr(SetName(old_, value)) == Take(value, NAME_SIZE - 1)
  {
    StrNCpyReads(old_, value, NAME_SIZE - 1);
    assert SetName(old_, value) == StrNCpy(old_, value, NAME_SIZE - 1);
  }

  lemma SetPathReads(old_: Path, value: seq<byte>)
    requires NulFree(value) && value != [] && value[0] == SLASH
    ensures CStr(SetPath(old_, value)) == Take(value, PATH_SIZE - 1)
  {
    StrNCpyReads(old_, value, PATH_SIZE - 1);
    assert SetPath(old_, value) == StrNCpy(old_, value, PATH_SIZE - 1);
  }

  lemma AppendPathReads(cwd: Path, text: seq<byte>)
    requires NulFree(text)
    ensures CStr(AppendPath(cwd, text)) == Take(CStr(cwd) + text, PATH_SIZE - 1)
  {
    PathLength(cwd);
    StrNCatReads(cwd, text, PATH_SIZE - |CStr(cwd)| - 1);
    TakeOfAppend(CStr(cwd), text, PATH_SIZE - 1);
  }

  lemma TakeOfAppend(a: seq<byte>, b: seq<byte>, n: nat)
    requires |a| <= n
    ensures Take(a + b, n) == a + Take(b, n - |a|)
  {
  }

  lemma AsciiNulFree(text: string)
    requires forall i :: 0 <= i < |text| ==> '\0' < text[i] < '~'
    ensures NulFree(Ascii(text))
  {
  }

  lemma PwdHeadNulFree()
    ensures NulFree(Ascii("257 \""))
  {
    AsciiNulFree("257 \"");
  }

  lemma PwdTailNulFree()
    ensures NulFree(Ascii("\" is the current directory\r\n"))
  {
    AsciiNulFree("\" is the current directory\r\n");
  }

  lemma JoinNulFree(a: seq<byte>, b: seq<byte>, c: seq<byte>)
    requires NulFree(a) && NulFree(b) && NulFree(c)
    ensures NulFree(a + b + c)
  {
  }

  lemma PwdTextNulFree(cwd: seq<byte>)
    requires NulFree(cwd)
    ensures NulFree(PwdLine(cwd))
  {
    PwdHeadNulFree();
    PwdTailNulFree();
    JoinNulFree(Ascii("257 \""), cwd, Ascii("\" is the current directory\r\n"));
  }

  /** The 600-byte reply buffer always holds the whole PWD reply. */
  lemma PwdReplyIsWhole(cwd: Path)
    ensures PwdReply(cwd) == PwdLine(CStr(cwd))
  {
    PathLength(cwd);
    var text := PwdText(cwd);
    PwdTextNulFree(CStr(cwd));
    assert |text| < PWD_SIZE;
    SnPrintfReads(Repeat(NUL, PWD_SIZE), text, PWD_SIZE);
  }

  lemma FixedPaths(cwd: Path)
    ensures CStr(SetPath(cwd, Ascii("/var/www/html"))) == Ascii("/var/www/html")
    ensures CStr(SetPath(cwd, Ascii("/var/www"))) == Ascii("/var/www")
  {
    SetPathReads(cwd, Ascii("/var/www/html"));
    SetPathReads(cwd, Ascii("/var/www"));
  }

  lemma PassLogin(s: Session, log: seq<seq<byte>>, text: seq<byte>)
    requires LoginOf(s) == LoginAfter(log) && NulFree(text) && IsPass(text)
    ensures LoginOf(CutOff(HandlePass(s, text))) == LoginAfter(log + [text])
  {
    var log' := log + [text];
    assert log'[..|log'| - 1] == log && log'[|log'| - 1] == text;
    UserPassQuitDiffer(text);
    ArgumentNulFree(text, 4);
    SetNameReads(s.password, Argument(text, 4));
  }

  lemma DispatchLogin(s: Session, log: seq<seq<byte>>, text: seq<byte>)
    requires LoginOf(s) == LoginAfter(log) && NulFree(text)
    ensures LoginOf(Dispatch(s, text)) == LoginAfter(log + [text])
  {
    var log' := log + [text];
    assert log'[..|log'| - 1] == log && log'[|log'| - 1] == text;
    UserPassQuitDiffer(text);
    if IsPass(text) {
      PassLogin(s, log, text);
    } else if IsUser(text) {
      ArgumentNulFree(text, 4);
      SetNameReads(s.user, Argument(text, 4));
    }
  }

  lemma HandleCwdReads(s: Session, text: seq<byte>)
    requires NulFree(text)
    ensures CStr(HandleCwd(s, text).cwd) == ChangeDir(CStr(s.cwd), Argument(text, 3))
  {
    var dir := Argument(text, 3);
    ArgumentNulFree(text, 3);
    if dir != [] && dir[0] == SLASH {
      SetPathReads(s.cwd, dir);
    } else {
      EndWithSlashReads(s.cwd);
      AppendPathReads(EndWithSlash(s.cwd), dir);
    }
  }

  lemma EndWithSlashReads(cwd: Path)
    ensures var c := CStr(cwd);
            c != [] && CStr(EndWithSlash(cwd)) == if c[|c| - 1] != SLASH then Take(c + [SLASH], PATH_SIZE - 1) else c
  {
    PathLength(cwd);
    var c := CStr(cwd);
    if c[|c| - 1] != SLASH {
      AppendPathReads(cwd, [SLASH]);
    }
  }

  lemma PassPlace(s: Session, log: seq<seq<byte>>, text: seq<byte>)
    requires Determined(s, log) && IsPass(text)
    ensures PlaceOf(CutOff(HandlePass(s, text))) == PlaceAfter(log + [text])
  {
    var log' := log + [text];
    assert log'[..|log'| - 1] == log && log'[|log'| - 1] == text;
    FixedPaths(s.cwd);
  }

  /** A line that is neither USER, PASS nor QUIT, in a session that is logged in. */
  function Commanded(s: Session, text: seq<byte>): (r: Place) {
    var place := PlaceOf(s);
    if IsPwd(text) then place.(pwdReplies := place.pwdReplies + [PwdLine(place.cwd)])
    else if IsCwd(text) then place.(cwd := ChangeDir(place.cwd, Argument(text, 3)))
    else if IsCdup(text) then place.(cwd := Ascii("/var/www"))
    else place
  }

  lemma CommandPlace(s: Session, text: seq<byte>)
    requires NulFree(text) && s.authenticated && !IsUser(text) && !IsPass(text) && !IsQuit(text)
    ensures PlaceOf(Dispatch(s, text)) == Commanded(s, text)
  {
    if IsPwd(text) {
      PwdReplyIsWhole(s.cwd);
    } else if IsCwd(text) {
      HandleCwdReads(s, text);
    } else if IsCdup(text) {
      FixedPaths(s.cwd);
    }
  }

  lemma DispatchPlace(s: Session, log: seq<seq<byte>>, text: seq<byte>)
    requires Determined(s, log) && NulFree(text)
    ensures PlaceOf(Dispatch(s, text)) == PlaceAfter(log + [text])
  {
    var log' := log + [text];
    assert log'[..|log'| - 1] == log && log'[|log'| - 1] == text;
    UserPassQuitDiffer(text);
    if IsPass(text) {
      PassPlace(s, log, text);
    } else if !IsUser(text) && !IsQuit(text) && s.authenticated {
      CommandPlace(s, text);
    }
  }

  lemma ByteClosedForm(s: State, c: byte)
    requires Determined(s.sess, s.log)
    ensures Determined(Byte(s, c).sess, Byte(s, c).log)
  {
    if c == LF && s.line != [] {
      TextOfNulFree(s.line);
      DispatchLogin(s.sess, s.log, TextOf(s.line));
      DispatchPlace(s.sess, s.log, TextOf(s.line));
    }
  }

  lemma {:induction false} BytesClosedForm(s: State, input: seq<byte>)
    requires Determined(s.sess, s.log)
    ensures Determined(BytesRun(s, input).sess, BytesRun(s, input).log)
    decreases input
  {
    if input != [] {
      ByteClosedForm(s, input[0]);
      BytesClosedForm(Byte(s, input[0]), input[1..]);
    }
  }

  lemma {:induction false} ChunksClosedForm(s: State, chunks: seq<seq<byte>>)
    requires Determined(s.sess, s.log)
    ensures Determined(ChunksRun(s, chunks).sess, ChunksRun(s, chunks).log)
    decreases chunks
  {
    if chunks != [] && s.sess.running {
      BytesClosedForm(s, chunks[0]);
      ChunksClosedForm(BytesRun(s, chunks[0]), chunks[1..]);
    }
  }

  lemma InitDetermined()
    ensures Determined(NewSession(), [])
  {
    assert CStr(Repeat(NUL, NAME_SIZE)) == [];
    CStrUnique(RootPath(), [SLASH]);
  }

  /** After any run the session is authenticated exactly when at least two PASS lines were
      seen and the last USER or PASS line was a PASS; it goes on exactly while no QUIT was
      seen, so the six-attempt cut-off never fires; and the credentials captured, the
      directory and the PWD replies are those that the lines spell. */
  lemma SessionClosedForm(chunks: seq<seq<byte>>)
    ensures var s := ChunksRun(Init(), chunks);
            && (s.sess.authenticated <==> Passes(s.log) >= 2 && LastIsPass(s.log))
            && (s.sess.running <==> !HasQuit(s.log))
            && s.sess.attempts == Passes(s.log)
            && s.sess.creds == CredsOf(s.log)
            && CStr(s.sess.cwd) == CwdOf(s.log)
            && s.sess.pwdReplies == PwdsOf(s.log)
  {
    InitDetermined();
    ChunksClosedForm(Init(), chunks);
  }

  /** The directory is always absolute and leaves room for its terminator. */
  lemma DirectoryStaysAbsolute(chunks: seq<seq<byte>>)
    ensures var cwd := CwdOf(ChunksRun(Init(), chunks).log);
            0 < |cwd| <= 511 && cwd[0] == SLASH
  {
    SessionClosedForm(chunks);
    PathLength(ChunksRun(Init(), chunks).sess.cwd);
  }

  /** XCWD takes its argument from the fourth byte on, as CWD does, so the argument starts
      with its own 'D' and can never be absolute. */
  lemma XcwdIsNeverAbsolute(text: seq<byte>)
    requires Starts(text, "XCWD ")
    ensures var dir := Argument(text, 3);
            && |dir| >= 2 && Lower(dir[0]) == 100
            && forall cwd: seq<byte> {:trigger ChangeDir(cwd, dir)} :: 0 < |cwd| <= 511 ==> cwd <= ChangeDir(cwd, dir)
  {
    assert Ascii("XCWD ")[3] == 68;
    assert Lower(text[3]) == Lower(Ascii("XCWD ")[3]);
    assert text[3..][0] == text[3];
  }

  // ---------------------------------------------------------------- independence of chunking

  /** The dispatched lines up to and including the first QUIT. */
  function UpToQuit(log: seq<seq<byte>>): (r: seq<seq<byte>>) {
    if log == [] then []
    else if HasQuit(log[..|log| - 1]) then UpToQuit(log[..|log| - 1])
    else log
  }

  lemma {:induction false} QuitStays(log: seq<seq<byte>>, more: seq<seq<byte>>)
    requires HasQuit(log)
    ensures HasQuit(log + more) && UpToQuit(log + more) == UpToQuit(log)
    decreases more
  {
    if more == [] {
      assert log + more == log;
    } else {
      var init := more[..|more| - 1];
      assert (log + more)[..|log + more| - 1] == log + init;
      QuitStays(log, init);
    }
  }

  lemma {:induction false} LogGrows(s: State, input: seq<byte>) returns (more: seq<seq<byte>>)
    ensures BytesRun(s, input).log == s.log + more
    decreases input
  {
    if input == [] {
      more := [];
    } else {
      more := LogGrows(Byte(s, input[0]), input[1..]);
      var first := Byte(s, input[0]).log[|s.log|..];
      assert Byte(s, input[0]).log == s.log + first;
      assert s.log + first + more == s.log + (first + more);
      more := first + more;
    }
  }

  /** However the stream is cut, the same lines are dispatched up to the first QUIT. */
  lemma {:induction false} ChunkingIndependence(s: State, chunks: seq<seq<byte>>)
    requires Determined(s.sess, s.log)
    ensures UpToQuit(ChunksRun(s, chunks).log) == UpToQuit(BytesRun(s, Concat(chunks)).log)
    decreases chunks
  {
    if !s.sess.running {
      var more := LogGrows(s, Concat(chunks));
      QuitStays(s.log, more);
    } else if chunks != [] {
      BytesAppend(s, chunks[0], Concat(chunks[1..]));
      BytesClosedForm(s, chunks[0]);
      ChunkingIndependence(BytesRun(s, chunks[0]), chunks[1..]);
    }
  }

  /** `a`, received next, ends with the newline that dispatches the first QUIT. */
  ghost predicate FirstQuit(s: State, a: seq<byte>) {
    a != [] && !HasQuit(BytesRun(s, a[..|a| - 1]).log) && HasQuit(BytesRun(s, a).log)
  }

  /** Some newline in `b` ends a line that is not empty. */
  predicate HoldsLine(b: seq<byte>) {
    exists i :: 0 < i < |b| && b[i] == LF && b[i - 1] != LF
  }

  lemma HoldsLineNext(b: seq<byte>)
    requires b != []
    ensures b[0] == LF ==> (HoldsLine(b) <==> HoldsLine(b[1..]))
    ensures b[0] != LF ==> (HoldsLine(b) <==> LF in b[1..])
  {
    var rest := b[1..];
    if b[0] == LF {
      if i :| 0 < i < |b| && b[i] == LF && b[i - 1] != LF {
        assert rest[i - 1] == LF && rest[i - 2] != LF;
      }
      if i :| 0 < i < |rest| && rest[i] == LF && rest[i - 1] != LF {
        assert b[i + 1] == LF && b[i] != LF;
      }
    } else {
      if i :| 0 < i < |b| && b[i] == LF && b[i - 1] != LF {
        assert rest[i - 1] == LF;
      }
      if LF in rest {
        var i := FirstNewline(rest);
        assert b[i + 1] == LF && b[i] != LF;
      }
    }
  }

  lemma {:induction false} FirstNewline(b: seq<byte>) returns (i: nat)
    requires LF in b
    ensures i < |b| && b[i] == LF && (i > 0 ==> b[i - 1] != LF)
  {
    if b[0] == LF {
      i := 0;
    } else {
      i := FirstNewline(b[1..]);
      i := i + 1;
    }
  }

  /** When nothing more is dispatched. */
  lemma {:induction false} LogStaysIff(s: State, b: seq<byte>)
    ensures BytesRun(s, b).log == s.log <==> if s.line == [] then !HoldsLine(b) else LF !in b
    decreases b
  {
    if b != [] {
      HoldsLineNext(b);
      LogStaysIff(Byte(s, b[0]), b[1..]);
      if b[0] == LF && s.line != [] {
        var more := LogGrows(Byte(s, b[0]), b[1..]);
        assert |BytesRun(s, b).log| > |s.log|;
      }
      assert LF in b <==> b[0] == LF || LF in b[1..];
    }
  }

  lemma QuitEndsLine(s: State, a: seq<byte>)
    requires FirstQuit(s, a)
    ensures var s1 := BytesRun(s, a); s1.line == [] && UpToQuit(s1.log) == s1.log
  {
    var before := BytesRun(s, a[..|a| - 1]);
    var c := a[|a| - 1];
    assert a == a[..|a| - 1] + [c];
    BytesAppend(s, a[..|a| - 1], [c]);
    assert BytesRun(before, [c]) == BytesRun(Byte(before, c), [c][1..]) == Byte(before, c);
    if c == LF && before.line != [] {
      var log := before.log + [TextOf(before.line)];
      assert log[..|log| - 1] == before.log;
    }
  }

  /** Lines after QUIT: none is dispatched exactly when the rest of the receive that QUIT
      came in holds no line. */
  lemma AfterQuitIff(s: State, a: seq<byte>, b: seq<byte>)
    requires FirstQuit(s, a)
    ensures var log := BytesRun(s, a + b).log; log == UpToQuit(log) <==> !HoldsLine(b)
  {
    var s1 := BytesRun(s, a);
    QuitEndsLine(s, a);
    BytesAppend(s, a, b);
    LogStaysIff(s1, b);
    var more := LogGrows(s1, b);
    QuitStays(s1.log, more);
    assert s1.log + more == s1.log <==> more == [];
  }

  lemma {:induction false} ChunksAppend(s: State, x: seq<seq<byte>>, y: seq<seq<byte>>)
    ensures ChunksRun(s, x + y) == ChunksRun(ChunksRun(s, x), y)
    decreases x
  {
    if x == [] {
      assert x + y == y;
    } else if s.sess.running {
      assert (x + y)[1..] == x[1..] + y;
      ChunksAppend(BytesRun(s, x[0]), x[1..], y);
    }
  }

  /** The receives, cut where the first QUIT has been dispatched. */
  datatype QuitPlace = Cut(pre: seq<seq<byte>>, a: seq<byte>, b: seq<byte>, post: seq<seq<byte>>)

  ghost predicate QuitAt(s: State, chunks: seq<seq<byte>>, q: QuitPlace) {
    chunks == q.pre + [q.a + q.b] + q.post && FirstQuit(ChunksRun(s, q.pre), q.a)
  }

  lemma QuitStopsReceiving(s: State, chunks: seq<seq<byte>>, q: QuitPlace)
    requires Determined(s.sess, s.log) && QuitAt(s, chunks, q)
    ensures ChunksRun(s, chunks) == BytesRun(ChunksRun(s, q.pre), q.a + q.b)
  {
    var s0 := ChunksRun(s, q.pre);
    ChunksClosedForm(s, q.pre);
    ChunksAppend(s, q.pre, [q.a + q.b] + q.post);
    assert q.pre + [q.a + q.b] + q.post == q.pre + ([q.a + q.b] + q.post);
    assert ([q.a + q.b] + q.post)[1..] == q.post;
    BytesClosedForm(s0, q.a + q.b);
    BytesAppend(s0, q.a, q.b);
    var more := LogGrows(BytesRun(s0, q.a), q.b);
    QuitStays(BytesRun(s0, q.a).log, more);
    var before := LogGrows(s0, q.a[..|q.a| - 1]);
    if HasQuit(s0.log) {
      QuitStays(s0.log, before);
    }
  }

  lemma {:induction false} QuitInBytes(s: State, input: seq<byte>) returns (a: seq<byte>, b: seq<byte>)
    requires !HasQuit(s.log) && HasQuit(BytesRun(s, input).log)
    ensures input == a + b && FirstQuit(s, a)
    decreases input
  {
    var s1 := Byte(s, input[0]);
    if HasQuit(s1.log) {
      a, b := [input[0]], input[1..];
      assert a[..0] == [] && a[1..] == [];
      assert BytesRun(s, a) == BytesRun(s1, a[1..]) == s1;
    } else {
      var x;
      x, b := QuitInBytes(s1, input[1..]);
      a := [input[0]] + x;
      assert a[1..] == x && a[..|a| - 1] == [input[0]] + x[..|x| - 1];
      assert ([input[0]] + x[..|x| - 1])[1..] == x[..|x| - 1];
    }
  }

  lemma {:induction false} QuitInChunks(s: State, chunks: seq<seq<byte>>) returns (q: QuitPlace)
    requires Determined(s.sess, s.log) && !HasQuit(s.log) && HasQuit(ChunksRun(s, chunks).log)
    ensures QuitAt(s, chunks, q)
    decreases chunks
  {
    var s1 := BytesRun(s, chunks[0]);
    BytesClosedForm(s, chunks[0]);
    if HasQuit(s1.log) {
      var a, b := QuitInBytes(s, chunks[0]);
      q := Cut([], a, b, chunks[1..]);
      assert chunks == [] + [a + b] + chunks[1..];
    } else {
      var r := QuitInChunks(s1, chunks[1..]);
      q := QuitAtLater(s, chunks, r);
    }
  }

  lemma QuitAtLater(s: State, chunks: seq<seq<byte>>, r: QuitPlace) returns (q: QuitPlace)
    requires chunks != [] && s.sess.running && QuitAt(BytesRun(s, chunks[0]), chunks[1..], r)
    ensures QuitAt(s, chunks, q)
  {
    q := r.(pre := [chunks[0]] + r.pre);
    assert q.pre[1..] == r.pre;
    assert chunks == [chunks[0]] + chunks[1..];
  }

  /** In every run: a line is dispatched after the first QUIT if and only if the receive in
      which that QUIT ends holds another line after it. */
  lemma LinesAfterQuitRunIff(chunks: seq<seq<byte>>)
    ensures var log := ChunksRun(Init(), chunks).log;
            log != UpToQuit(log) <==> exists q :: QuitAt(Init(), chunks, q) && HoldsLine(q.b)
  {
    InitDetermined();
    var log := ChunksRun(Init(), chunks).log;
    forall q | QuitAt(Init(), chunks, q) ensures log == UpToQuit(log) <==> !HoldsLine(q.b) {
      QuitStopsReceiving(Init(), chunks, q);
      AfterQuitIff(ChunksRun(Init(), q.pre), q.a, q.b);
    }
    if HasQuit(log) {
      var q := QuitInChunks(Init(), chunks);
    }
  }

  /** An instance: a line that follows QUIT in the same receive. */
  lemma LinesAfterQuitStillRun()
    ensures var quit, noop := Ascii("QUIT"), Ascii("NOOP");
            && ChunksRun(Init(), [quit + [LF] + noop + [LF]]).log == [quit, noop]
            && ChunksRun(Init(), [quit + [LF], noop + [LF]]).log == [quit]
  {
    var quit, noop := Ascii("QUIT"), Ascii("NOOP");
    var s1 := State([], Dispatch(NewSession(), quit), [quit]);
    LineRun(Init(), quit);
    LineRun(s1, noop);
    BytesAppend(Init(), quit + [LF], noop + [LF]);
    assert quit + [LF] + (noop + [LF]) == quit + [LF] + noop + [LF];
    assert !s1.sess.running by {
      UserPassQuitDiffer(quit);
    }
    var one, two := [quit + [LF] + noop + [LF]], [quit + [LF], noop + [LF]];
    assert one[1..] == [] && two[1..] == [noop + [LF]];
    assert [] + [quit] == [quit] && [quit] + [noop] == [quit, noop];
  }

  /** A plain short line is dispatched as it stands. */
  lemma LineRun(s: State, text: seq<byte>)
    requires s.line == [] && text != [] && |text| < LINE_SIZE && NulFree(text)
    requires forall i :: 0 <= i < |text| ==> text[i] != LF && text[i] != CR
    ensures BytesRun(s, text + [LF]) == State([], Dispatch(s.sess, text), s.log + [text])
  {
    assert text + Repeat(CR, 0) + [LF] == text + [LF];
    LineIsDispatched(s, text, 0);
  }

  /** Bytes up to a newline are collected, the first 4095 of them. */
  lemma {:induction false} Assemble(s: State, text: seq<byte>)
    requires |s.line| <= 4095 && forall i :: 0 <= i < |text| ==> text[i] != LF
    ensures BytesRun(s, text) == s.(line := Take(s.line + text, 4095))
    decreases text
  {
    if text == [] {
      assert Take(s.line + text, 4095) == s.line;
    } else {
      var s1 := Byte(s, text[0]);
      Assemble(s1, text[1..]);
      assert Take(s1.line + text[1..], 4095) == Take(s.line + text, 4095);
    }
  }

  lemma OneByte(s: State, c: byte)
    ensures BytesRun(s, [c]) == Byte(s, c)
  {
    assert [c][1..] == [];
    assert BytesRun(Byte(s, c), []) == Byte(s, c);
  }

  /** Whatever is sent on one line, its first 4095 bytes are what is dispatched. */
  lemma AnyLineIsDispatched(s: State, sent: seq<byte>)
    requires s.line == [] && sent != [] && forall i :: 0 <= i < |sent| ==> sent[i] != LF
    ensures var text := TextOf(Take(sent, 4095));
            BytesRun(s, sent + [LF]) == State([], Dispatch(s.sess, text), s.log + [text])
  {
    Assemble(s, sent);
    BytesAppend(s, sent, [LF]);
    assert s.line + sent == sent;
    OneByte(s.(line := Take(sent, 4095)), LF);
  }

  /** `text` as a client may send it: no NUL, no newline, no carriage return at its end. */
  predicate PlainText(text: seq<byte>) {
    && (forall i :: 0 <= i < |text| ==> text[i] != NUL && text[i] != LF)
    && (text != [] ==> text[|text| - 1] != CR)
  }

  lemma {:induction false} StripsCrs(text: seq<byte>, n: nat)
    requires PlainText(text)
    ensures StripEnd(text + Repeat(CR, n)) == text
    decreases n
  {
    var all := text + Repeat(CR, n);
    if n == 0 {
      assert all == text;
    } else {
      assert all[..|all| - 1] == text + Repeat(CR, n - 1);
      StripsCrs(text, n - 1);
    }
  }

  /** A line that ends in LF, CR LF or more carriage returns is dispatched without them. */
  lemma LineIsDispatched(s: State, text: seq<byte>, crs: nat)
    requires s.line == [] && PlainText(text) && 0 < |text| + crs < LINE_SIZE
    ensures BytesRun(s, text + Repeat(CR, crs) + [LF]) == State([], Dispatch(s.sess, text), s.log + [text])
  {
    var sent := text + Repeat(CR, crs);
    AnyLineIsDispatched(s, sent);
    assert Take(sent, 4095) == sent;
    CStrUnique(sent, sent);
    StripsCrs(text, crs);
  }

  // ---------------------------------------------------------------- from the client's side

  lemma LowerIffSameButCase(a: byte, b: byte)
    ensures Lower(a) == Lower(b) <==> SameButCase(a, b)
  {
  }

  /** A command is recognised by its letters, in any case. */
  lemma StartsIffSpelled(text: seq<byte>, word: string)
    ensures Starts(text, word) <==> |word| <= |text| && SpelledAs(text[..|word|], word)
  {
    if |word| <= |text| {
      forall i | 0 <= i < |word|
        ensures Lower(text[i]) == Lower(Ascii(word)[i]) <==> SameButCase(text[..|word|][i], Ascii(word)[i])
      {
        LowerIffSameButCase(text[i], Ascii(word)[i]);
      }
    }
  }

  lemma {:induction false} SpacesAreSkipped(k: nat, x: seq<byte>)
    requires x == [] || x[0] != SPACE
    ensures SkipSpaces(Repeat(SPACE, k) + x) == x
  {
    var all := Repeat(SPACE, k) + x;
    if k == 0 {
      assert all == x;
    } else {
      assert all[1..] == Repeat(SPACE, k - 1) + x;
      SpacesAreSkipped(k - 1, x);
    }
  }

  /** The argument is what follows the command word and any spaces. */
  lemma ArgumentIsWhatFollows(word: seq<byte>, k: nat, x: seq<byte>)
    requires x == [] || x[0] != SPACE
    ensures Argument(word + Repeat(SPACE, k) + x, |word|) == x
  {
    var text := word + Repeat(SPACE, k) + x;
    assert text[|word|..] == Repeat(SPACE, k) + x;
    SpacesAreSkipped(k, x);
  }

  /** A command line: its word in any letter case, spaces, the argument, and carriage
      returns before the newline. */
  datatype CommandLine = CommandLine(word: seq<byte>, gap: nat, arg: seq<byte>, crs: nat)

  function LineText(c: CommandLine): (r: seq<byte>) { c.word + Repeat(SPACE, c.gap) + c.arg }

  function LineWire(c: CommandLine): (r: seq<byte>) { LineText(c) + Repeat(CR, c.crs) + [LF] }

  ghost predicate Sends(c: CommandLine, word: string) {
    && SpelledAs(c.word, word) && c.gap > 0
    && PlainText(c.arg) && (c.arg != [] ==> c.arg[0] != SPACE)
    && |LineText(c)| + c.crs < LINE_SIZE
  }

  predicate IsWord(word: string) { word != "" && forall i :: 0 <= i < |word| ==> 'A' <= word[i] <= 'Z' }

  lemma LineTextReads(c: CommandLine, word: string)
    requires Sends(c, word) && IsWord(word)
    ensures PlainText(LineText(c)) && LineText(c) != [] && NulFree(LineText(c))
    ensures Starts(LineText(c), word) && Starts(LineText(c), word + " ")
    ensures Argument(LineText(c), |word|) == c.arg
  {
    var text := LineText(c);
    StartsIffSpelled(text, word);
    assert text[..|word|] == c.word;
    ArgumentIsWhatFollows(c.word, c.gap, c.arg);
    assert text[|word|] == SPACE;
  }

  lemma CommandIsDispatched(s: State, c: CommandLine, word: string)
    requires s.line == [] && Sends(c, word) && IsWord(word)
    ensures BytesRun(s, LineWire(c)) == State([], Dispatch(s.sess, LineText(c)), s.log + [LineText(c)])
  {
    LineTextReads(c, word);
    LineIsDispatched(s, LineText(c), c.crs);
  }

  /** USER with any name: the name is in force, and nobody is logged in. */
  lemma UserIsTaken(s: State, c: CommandLine) returns (s': State)
    requires s.line == [] && Sends(c, "USER")
    ensures s' == BytesRun(s, LineWire(c)) && s'.line == []
    ensures CStr(s'.sess.user) == Take(c.arg, 255) && !s'.sess.authenticated
    ensures s'.sess.creds == s.sess.creds && s'.sess.attempts == s.sess.attempts
    ensures s'.sess.running == s.sess.running && s'.sess.pwdReplies == s.sess.pwdReplies
  {
    CommandIsDispatched(s, c, "USER");
    LineTextReads(c, "USER");
    assert "USER" + " " == "USER ";
    SetNameReads(s.sess.user, c.arg);
    s' := BytesRun(s, LineWire(c));
  }

  /** PASS with any password: the attempt is captured, and from the second on it logs in. */
  lemma PassIsTaken(s: State, c: CommandLine) returns (s': State)
    requires s.line == [] && Sends(c, "PASS")
    ensures s' == BytesRun(s, LineWire(c)) && s'.line == []
    ensures s'.sess.creds == s.sess.creds + [Cred(CStr(s.sess.user), Take(c.arg, 255), s.sess.attempts >= 1)]
    ensures s'.sess.attempts == s.sess.attempts + 1 && s'.sess.user == s.sess.user
    ensures s'.sess.authenticated == (s.sess.authenticated || s.sess.attempts >= 1)
    ensures s'.sess.running == s.sess.running && s'.sess.pwdReplies == s.sess.pwdReplies
    ensures CStr(s'.sess.cwd) == if s.sess.attempts >= 1 then Ascii("/var/www/html") else CStr(s.sess.cwd)
  {
    CommandIsDispatched(s, c, "PASS");
    LineTextReads(c, "PASS");
    assert "PASS" + " " == "PASS ";
    UserPassQuitDiffer(LineText(c));
    PassReads(s.sess, LineText(c));
    s' := BytesRun(s, LineWire(c));
  }

  /** Letters that tell the commands apart. */
  lemma Letters()
    ensures Ascii("USER ")[0] == 85 && Ascii("PASS ")[0] == 80 && Ascii("PASS ")[1] == 65 && Ascii("QUIT")[0] == 81
    ensures Ascii("PWD")[0] == 80 && Ascii("PWD")[1] == 87 && Ascii("XPWD")[0] == 88 && Ascii("XPWD")[1] == 80
    ensures Ascii("CWD ")[0] == 67 && Ascii("CWD ")[1] == 87 && Ascii("XCWD ")[0] == 88
    ensures Ascii("CDUP")[0] == 67 && Ascii("CDUP")[1] == 68
    ensures Ascii("XCUP")[0] == 88 && Ascii("XCUP")[1] == 67 && Ascii("XCUP")[2] == 85 && Ascii("XCWD ")[2] == 87
  {
  }

  lemma OtherThanLogin(text: seq<byte>)
    requires Starts(text, "PWD") || Starts(text, "XPWD") || Starts(text, "CWD ") || Starts(text, "CDUP") || Starts(text, "XCUP")
    ensures !IsUser(text) && !IsPass(text) && !IsQuit(text)
    ensures Starts(text, "CWD ") ==> !IsPwd(text)
    ensures Starts(text, "CDUP") || Starts(text, "XCUP") ==> !IsPwd(text) && !IsCwd(text)
  {
    Letters();
  }

  /** Where CWD leads: to an absolute path itself, or to a relative one behind a slash. */
  function MovedTo(cwd: seq<byte>, dir: seq<byte>): (r: seq<byte>) {
    if dir != [] && dir[0] == SLASH then Take(dir, 511)
    else if cwd == [] || cwd[|cwd| - 1] == SLASH then Take(cwd + dir, 511)
    else Take(cwd + [SLASH] + dir, 511)
  }

  lemma ChangeDirMoves(cwd: seq<byte>, dir: seq<byte>)
    requires |cwd| <= 511
    ensures ChangeDir(cwd, dir) == MovedTo(cwd, dir)
  {
    assert Take(Take(cwd + [SLASH], 511) + dir, 511) == Take(cwd + [SLASH] + dir, 511);
  }

  lemma CwdDispatch(s: Session, text: seq<byte>, dir: seq<byte>)
    requires s.authenticated && NulFree(text) && Starts(text, "CWD ") && Argument(text, 3) == dir
    ensures var s' := Dispatch(s, text);
            s' == s.(cwd := s'.cwd) && CStr(s'.cwd) == MovedTo(CStr(s.cwd), dir)
  {
    OtherThanLogin(text);
    PathLength(s.cwd);
    HandleCwdReads(s, text);
    ChangeDirMoves(CStr(s.cwd), dir);
  }

  /** CWD while somebody is logged in moves the directory and changes nothing else. */
  lemma CwdIsTaken(s: State, c: CommandLine) returns (s': State)
    requires s.line == [] && s.sess.authenticated && Sends(c, "CWD")
    ensures s' == BytesRun(s, LineWire(c)) && s'.line == []
    ensures s'.sess == s.sess.(cwd := s'.sess.cwd) && CStr(s'.sess.cwd) == MovedTo(CStr(s.sess.cwd), c.arg)
  {
    CommandIsDispatched(s, c, "CWD");
    LineTextReads(c, "CWD");
    assert "CWD" + " " == "CWD ";
    CwdDispatch(s.sess, LineText(c), c.arg);
    s' := BytesRun(s, LineWire(c));
  }

  /** A line of another command, of which only the first letters count. */
  ghost predicate Commands(text: seq<byte>, crs: nat, a: string, b: string) {
    && PlainText(text) && |text| + crs < LINE_SIZE
    && ((|a| <= |text| && SpelledAs(text[..|a|], a)) || (|b| <= |text| && SpelledAs(text[..|b|], b)))
  }

  /** PWD or XPWD replies with the whole directory and changes nothing. */
  lemma PwdIsReplied(s: State, text: seq<byte>, crs: nat) returns (s': State)
    requires s.line == [] && s.sess.authenticated && Commands(text, crs, "PWD", "XPWD")
    ensures s' == BytesRun(s, text + Repeat(CR, crs) + [LF]) && s'.line == []
    ensures s'.sess == s.sess.(pwdReplies := s.sess.pwdReplies +
              [Ascii("257 \"") + CStr(s.sess.cwd) + Ascii("\" is the current directory\r\n")])
  {
    StartsIffSpelled(text, "PWD");
    StartsIffSpelled(text, "XPWD");
    OtherThanLogin(text);
    LineIsDispatched(s, text, crs);
    PwdReplyIsWhole(s.sess.cwd);
    s' := BytesRun(s, text + Repeat(CR, crs) + [LF]);
  }

  /** CDUP or XCUP goes to /var/www, from wherever. */
  lemma CdupIsTaken(s: State, text: seq<byte>, crs: nat) returns (s': State)
    requires s.line == [] && s.sess.authenticated && Commands(text, crs, "CDUP", "XCUP")
    ensures s' == BytesRun(s, text + Repeat(CR, crs) + [LF]) && s'.line == []
    ensures CStr(s'.sess.cwd) == Ascii("/var/www") && s'.sess == s.sess.(cwd := s'.sess.cwd)
  {
    StartsIffSpelled(text, "CDUP");
    StartsIffSpelled(text, "XCUP");
    OtherThanLogin(text);
    LineIsDispatched(s, text, crs);
    FixedPaths(s.sess.cwd);
    s' := BytesRun(s, text + Repeat(CR, crs) + [LF]);
  }

  /** QUIT ends the session, logged in or not. */
  lemma QuitIsTaken(s: State, text: seq<byte>, crs: nat)
    requires s.line == [] && Commands(text, crs, "QUIT", "QUIT")
    ensures BytesRun(s, text + Repeat(CR, crs) + [LF]).sess == s.sess.(running := false)
  {
    StartsIffSpelled(text, "QUIT");
    UserPassQuitDiffer(text);
    LineIsDispatched(s, text, crs);
  }

  /** Before a login no other line changes anything. */
  lemma LoginIsNeeded(s: State, text: seq<byte>, crs: nat)
    requires s.line == [] && !s.sess.authenticated && PlainText(text) && 0 < |text| + crs < LINE_SIZE
    requires !(|text| >= 5 && (SpelledAs(text[..5], "USER ") || SpelledAs(text[..5], "PASS ")))
    requires !(|text| >= 4 && SpelledAs(text[..4], "QUIT"))
    ensures BytesRun(s, text + Repeat(CR, crs) + [LF]).sess == s.sess
  {
    StartsIffSpelled(text, "USER ");
    StartsIffSpelled(text, "PASS ");
    StartsIffSpelled(text, "QUIT");
    LineIsDispatched(s, text, crs);
  }

  lemma {:induction false} RunningHasBeen(s: State, chunks: seq<seq<byte>>)
    requires Determined(s.sess, s.log) && BytesRun(s, Concat(chunks)).sess.running
    ensures ChunksRun(s, chunks) == BytesRun(s, Concat(chunks))
    decreases chunks
  {
    if chunks != [] {
      BytesAppend(s, chunks[0], Concat(chunks[1..]));
      BytesClosedForm(s, chunks[0]);
      BytesClosedForm(s, Concat(chunks));
      StillRunning(s, Concat(chunks));
      RunningHasBeen(BytesRun(s, chunks[0]), chunks[1..]);
    }
  }

  lemma StillRunning(s: State, input: seq<byte>)
    requires Determined(s.sess, s.log) && BytesRun(s, input).sess.running
    ensures s.sess.running
  {
    BytesClosedForm(s, input);
    var more := LogGrows(s, input);
    if HasQuit(s.log) {
      QuitStays(s.log, more);
    }
  }

  /** End to end, in whatever receives the bytes come: USER and two PASS lines capture the
      name with both passwords, the second as a login. */
  lemma LoginIsCaptured(chunks: seq<seq<byte>>, user: CommandLine, first: CommandLine, second: CommandLine)
    requires Sends(user, "USER") && Sends(first, "PASS") && Sends(second, "PASS")
    requires Concat(chunks) == LineWire(user) + LineWire(first) + LineWire(second)
    ensures var s := ChunksRun(Init(), chunks).sess;
            && s.authenticated && s.running
            && s.creds == [Cred(Take(user.arg, 255), Take(first.arg, 255), false),
                           Cred(Take(user.arg, 255), Take(second.arg, 255), true)]
  {
    var s1 := UserIsTaken(Init(), user);
    var s2 := PassIsTaken(s1, first);
    var s3 := PassIsTaken(s2, second);
    BytesAppend(Init(), LineWire(user), LineWire(first));
    BytesAppend(Init(), LineWire(user) + LineWire(first), LineWire(second));
    InitDetermined();
    RunningHasBeen(Init(), chunks);
  }

  function CwdThenPwd(c: CommandLine): (r: seq<byte>) { LineWire(c) + (Ascii("PWD") + [CR, LF]) }

  lemma CwdThenPwdReplies(s: State, c: CommandLine) returns (s': State)
    requires s.line == [] && s.sess.authenticated && Sends(c, "CWD")
    ensures s' == BytesRun(s, CwdThenPwd(c)) && s'.line == [] && s'.sess.authenticated
    ensures CStr(s'.sess.cwd) == MovedTo(CStr(s.sess.cwd), c.arg)
    ensures s'.sess.pwdReplies == s.sess.pwdReplies + [PwdLine(CStr(s'.sess.cwd))]
  {
    var s1 := CwdIsTaken(s, c);
    s' := PwdCrLf(s1);
    BytesAppend(s, LineWire(c), Ascii("PWD") + [CR, LF]);
  }

  /** End to end, from any point where somebody is logged in: an absolute CWD and PWD, then a
      relative CWD and PWD, are answered with the two directories. */
  lemma DirectoriesAreReplied(s: State, down: CommandLine, further: CommandLine)
    requires s.line == [] && s.sess.authenticated && Sends(down, "CWD") && Sends(further, "CWD")
    requires down.arg != [] && down.arg[0] == SLASH && down.arg[|down.arg| - 1] != SLASH && |down.arg| <= 511
    requires further.arg == [] || further.arg[0] != SLASH
    ensures BytesRun(s, CwdThenPwd(down) + CwdThenPwd(further)).sess.pwdReplies ==
            s.sess.pwdReplies + [PwdLine(down.arg), PwdLine(Take(down.arg + [SLASH] + further.arg, 511))]
  {
    var s1 := CwdThenPwdReplies(s, down);
    var s2 := CwdThenPwdReplies(s1, further);
    BytesAppend(s, CwdThenPwd(down), CwdThenPwd(further));
    MovedTwice(CStr(s.sess.cwd), down.arg, further.arg);
  }

  lemma MovedTwice(cwd: seq<byte>, down: seq<byte>, further: seq<byte>)
    requires down != [] && down[0] == SLASH && down[|down| - 1] != SLASH && |down| <= 511
    requires further == [] || further[0] != SLASH
    ensures MovedTo(cwd, down) == down && MovedTo(down, further) == Take(down + [SLASH] + further, 511)
  {
  }

  lemma PwdCrLf(s: State) returns (s': State)
    requires s.line == [] && s.sess.authenticated
    ensures s' == BytesRun(s, Ascii("PWD") + [CR, LF]) && s'.line == []
    ensures s'.sess == s.sess.(pwdReplies := s.sess.pwdReplies + [PwdLine(CStr(s.sess.cwd))])
  {
    var text := Ascii("PWD");
    assert text[..3] == text && Repeat(CR, 1) == [CR];
    assert text + Repeat(CR, 1) + [LF] == text + [CR, LF];
    s' := PwdIsReplied(s, text, 1);
  }

  // ---------------------------------------------------------------- the code

  class FtpServer {
    const lineBuf: array<byte>
    var lineLen: nat
    var log: seq<seq<byte>>       // the command texts dispatched
    var authenticated: bool
    var attempts: nat
    var user: Name
    var password: Name
    var cwd: Path
    var running: bool
    var creds: seq<Cred>
    var pwdReplies: seq<seq<byte>>

    ghost predicate Valid()
      reads this
    {
      lineBuf.Length == LINE_SIZE && lineLen < LINE_SIZE
    }

    ghost function Sess(): (s: Session)
      reads this
    {
      Session(authenticated, attempts, user, password, cwd, running, creds, pwdReplies)
    }

    ghost function View(): (s: State)
      requires Valid()
      reads this, lineBuf
    {
      State(lineBuf[..lineLen], Sess(), log)
    }

    constructor ()
      ensures Valid() && fresh(lineBuf) && View() == Init() && Determined(Sess(), log)
    {
      InitDetermined();
      lineBuf, lineLen, log := new byte[LINE_SIZE], 0, [];
      authenticated, attempts, running := false, 0, true;
      user, password, cwd := Repeat(NUL, NAME_SIZE), Repeat(NUL, NAME_SIZE), RootPath();
      creds, pwdReplies := [], [];
    }

    method User(text: seq<byte>)
      modifies this`user, this`authenticated, this`password
      ensures Sess() == HandleUser(old(Sess()), text)
      ensures NulFree(text) ==> CStr(user) == Take(Argument(text, 4), NAME_SIZE - 1)
    {
      if NulFree(text) {
        ArgumentNulFree(text, 4);
        SetNameReads(user, Argument(text, 4));
      }
      user := SetName(user, Argument(text, 4));
      authenticated := false;
      password := Repeat(NUL, NAME_SIZE);
    }

    method Pass(text: seq<byte>)
      modifies this`password, this`attempts, this`creds, this`authenticated, this`cwd
      ensures Sess() == HandlePass(old(Sess()), text)
      ensures NulFree(text) ==> PassMeans(old(Sess()), text, Sess())
    {
      if NulFree(text) {
        PassReads(Sess(), text);
      }
      password := SetName(password, Argument(text, 4));
      attempts := attempts + 1;
      var success := attempts >= SUCCEED_ON;
      creds := creds + [Cred(CStr(user), CStr(password), success)];
      if success {
        authenticated := true;
        cwd := SetPath(cwd, Ascii("/var/www/html"));
      }
    }

    method EnforceLimit()
      modifies this`running
      ensures Sess() == CutOff(old(Sess()))
    {
      if attempts >= MAX_ATTEMPTS && !authenticated {
        running := false;
      }
    }

    method Cwd(text: seq<byte>)
      modifies this`cwd
      ensures Sess() == HandleCwd(old(Sess()), text)
      ensures NulFree(text) ==> CStr(cwd) == ChangeDir(CStr(old(cwd)), Argument(text, 3))
    {
      if NulFree(text) {
        HandleCwdReads(Sess(), text);
      }
      var dir := Argument(text, 3);
      if dir != [] && dir[0] == SLASH {
        cwd := SetPath(cwd, dir);
      } else {
        cwd := AppendPath(EndWithSlash(cwd), dir);
      }
    }

    /** The chain of comparisons. */
    method Act(text: seq<byte>)
      modifies this`user, this`password, this`attempts, this`creds, this`authenticated, this`cwd, this`running, this`pwdReplies
      ensures Sess() == Dispatch(old(Sess()), text)
    {
      if IsUser(text) {
        User(text);
      } else if IsPass(text) {
        Pass(text);
        EnforceLimit();
      } else if IsQuit(text) {
        running := false;
      } else if authenticated {
        ActLoggedIn(text);
      }
    }

    method ActLoggedIn(text: seq<byte>)
      modifies this`cwd, this`pwdReplies
      ensures Sess() == DispatchLoggedIn(old(Sess()), text)
    {
      if IsPwd(text) {
        pwdReplies := pwdReplies + [PwdReply(cwd)];
      } else if IsCwd(text) {
        Cwd(text);
      } else if IsCdup(text) {
        cwd := SetPath(cwd, Ascii("/var/www"));
      }
    }

    /** One command line, and what it makes of the session. */
    method DispatchLine(text: seq<byte>)
      modifies this`user, this`password, this`attempts, this`creds, this`authenticated, this`cwd, this`running, this`pwdReplies
      ensures Sess() == Dispatch(old(Sess()), text)
      ensures NulFree(text) && Determined(old(Sess()), log) ==> Determined(Sess(), log + [text])
    {
      if NulFree(text) && Determined(Sess(), log) {
        DispatchLogin(Sess(), log, text);
        DispatchPlace(Sess(), log, text);
      }
      Act(text);
    }

    /** The body of the byte loop. */
    method ReceiveByte(c: byte)
      requires Valid()
      modifies this, lineBuf
      ensures Valid() && View() == Byte(old(View()), c)
    {
      if c == LF {
        if lineLen == 0 {
          return;
        }
        var text := TextOf(lineBuf[..lineLen]);
        DispatchLine(text);
        log := log + [text];
        lineLen := 0;
      } else if lineLen < LINE_SIZE - 1 {
        lineBuf[lineLen] := c;
        lineLen := lineLen + 1;
      }
    }

    method ReceiveChunk(chunk: seq<byte>)
      requires Valid()
      modifies this, lineBuf
      ensures Valid() && View() == BytesRun(old(View()), chunk)
    {
      assert chunk[0..] == chunk;
      for i := 0 to |chunk|
        invariant Valid() && BytesRun(View(), chunk[i..]) == BytesRun(old(View()), chunk)
      {
        assert chunk[i..][1..] == chunk[i + 1..];
        ReceiveByte(chunk[i]);
      }
    }

    /** `run_ftp_service` over what `recv` returns; an empty chunk means that the peer closed. */
    method Serve(chunks: seq<seq<byte>>)
      requires Valid()
      modifies this, lineBuf
      ensures Valid() && View() == ChunksRun(old(View()), Received(chunks))
      ensures old(Determined(Sess(), log)) ==> Determined(Sess(), log)
    {
      if Determined(Sess(), log) {
        ChunksClosedForm(View(), Received(chunks));
      }
      var n := 0;
      assert chunks[0..] == chunks;
      while n < |chunks| && chunks[n] != [] && running
        invariant n <= |chunks| && Valid()
        invariant ChunksRun(View(), Received(chunks[n..])) == ChunksRun(old(View()), Received(chunks))
      {
        ReceivedNext(chunks, n);
        assert ([chunks[n]] + Received(chunks[n + 1..]))[1..] == Received(chunks[n + 1..]);
        ReceiveChunk(chunks[n]);
        n := n + 1;
      }
    }
  }
}
