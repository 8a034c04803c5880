/**
 The DNS service over TCP (src/service/dns_honeypot.c): the name parser, the two reply
 builders and the framing.  The partners are the encodings of sections 3.1, 4.1 and 4.2.2
 of RFC 1035.
 */
module Dns {
  import opened Bytes

  const RECV_SIZE: nat := 4096
  const HEADER_SIZE: nat := 12
  const DOMAIN_SIZE: nat := 512
  const MAX_LABELS: nat := 128
  const DOT: byte := 46

  // ---------------------------------------------------------------- names

  /** `Bad` stands for the parser's -1; otherwise the dotted text with no bound on its
      length, and the position after the name. */
  datatype NameResult = Bad | Name(text: seq<byte>, end: nat)

  function Prepend(text: seq<byte>, r: NameResult): (r': NameResult) {
    match r case Bad => Bad case Name(t, end) => Name(text + t, end)
  }

  /** The label at `pos` as it is added to the text. */
  function LabelText(msg: seq<byte>, pos: nat, labels: nat): (r: seq<byte>)
    requires pos < |msg| && pos + 1 + msg[pos] <= |msg|
  {
    (if labels > 0 then [DOT] else []) + msg[pos + 1..pos + 1 + msg[pos]]
  }

  /** `dns_parse_domain_name` from `pos` on, after `labels` labels. */
  function NameFrom(msg: seq<byte>, pos: nat, labels: nat): (r: NameResult)
    decreases |msg| - pos
  {
    if pos >= |msg| then Name([], pos)
    else if msg[pos] == 0 then Name([], pos + 1)
    else if msg[pos] >= 0xC0 then Name([], pos + 2)
    else if pos + 1 + msg[pos] > |msg| then Bad
    else if labels + 1 > MAX_LABELS then Bad
    else Prepend(LabelText(msg, pos, labels), NameFrom(msg, pos + 1 + msg[pos], labels + 1))
  }

  /** Section 3.1: a length byte before each label, and a zero byte at the end. */
  function EncodeName(labels: seq<seq<byte>>): (r: seq<byte>)
    requires EncodableName(labels)
    ensures |r| >= 1
  {
    if labels == [] then [0] else [|labels[0]|] + labels[0] + EncodeName(labels[1..])
  }

  /** Every length fits its byte. */
  predicate EncodableName(labels: seq<seq<byte>>) {
    forall i :: 0 <= i < |labels| ==> |labels[i]| < 256
  }

  /** Section 3.1 allows labels of 1 to 63 bytes; the parser takes more. */
  predicate ReadableName(labels: seq<seq<byte>>) {
    forall i :: 0 <= i < |labels| ==> 1 <= |labels[i]| <= 191
  }

  function Dotted(labels: seq<seq<byte>>, first: bool): (r: seq<byte>) {
    if labels == [] then [] else (if first then [] else [DOT]) + labels[0] + Dotted(labels[1..], false)
  }

  lemma LabelStep(before: seq<byte>, l: seq<byte>, rest: seq<byte>, n: nat)
    requires 1 <= |l| <= 191
    ensures var head := before + ([|l|] + l);
            NameFrom(head + rest, |before|, n) ==
            if n + 1 > MAX_LABELS then Bad
            else Prepend((if n > 0 then [DOT] else []) + l, NameFrom(head + rest, |head|, n + 1))
  {
    var msg, pos := before + ([|l|] + l) + rest, |before|;
    assert msg[pos] == |l| && msg[pos + 1..pos + 1 + |l|] == l;
  }

  lemma NameEnds(before: seq<byte>, after: seq<byte>, n: nat)
    ensures NameFrom(before + [0] + after, |before|, n) == Name([], |before| + 1)
  {
    assert (before + [0] + after)[|before|] == 0;
  }

  lemma Regroup(a: seq<byte>, b: seq<byte>, c: seq<byte>, d: seq<byte>)
    ensures a + (b + c) + d == (a + b) + (c + d) == (a + b) + c + d
  {
  }

  lemma PrependCancels(text: seq<byte>, r: NameResult, rest: seq<byte>, end: nat)
    ensures Prepend(text, r) == Name(text + rest, end) <==> r == Name(rest, end)
  {
    if r.Name? && text + r.text == text + rest {
      assert r.text == (text + r.text)[|text|..] == rest;
    }
  }

  /** An encoded name is read back, with its exact length, if and only if each of its labels
      has 1 to 191 bytes and there are at most 128 of them. */
  lemma {:induction false} NameReadsBackIff(before: seq<byte>, labels: seq<seq<byte>>, after: seq<byte>, n: nat)
    requires EncodableName(labels) && n <= MAX_LABELS
    ensures NameFrom(before + EncodeName(labels) + after, |before|, n)
              == Name(Dotted(labels, n == 0), |before| + |EncodeName(labels)|)
            <==> ReadableName(labels) && n + |labels| <= MAX_LABELS
    decreases labels
  {
    if labels == [] {
      NameEnds(before, after, n);
    } else {
      FirstLabelReadsBackIff(before, labels, after, n);
      if 1 <= |labels[0]| <= 191 && n < MAX_LABELS {
        NameReadsBackIff(before + ([|labels[0]|] + labels[0]), labels[1..], after, n + 1);
      }
      ReadableNext(labels);
    }
  }

  lemma ReadableNext(labels: seq<seq<byte>>)
    requires labels != []
    ensures ReadableName(labels) <==> 1 <= |labels[0]| <= 191 && ReadableName(labels[1..])
  {
    if 1 <= |labels[0]| <= 191 && ReadableName(labels[1..]) {
      forall i | 0 <= i < |labels| ensures 1 <= |labels[i]| <= 191 {
        assert i > 0 ==> labels[i] == labels[1..][i - 1];
      }
    }
  }

  /** The first label is read, and what is left is read back. */
  lemma FirstLabelReadsBackIff(before: seq<byte>, labels: seq<seq<byte>>, after: seq<byte>, n: nat)
    requires labels != [] && EncodableName(labels) && n <= MAX_LABELS
    ensures var head := before + ([|labels[0]|] + labels[0]);
            NameFrom(before + EncodeName(labels) + after, |before|, n)
              == Name(Dotted(labels, n == 0), |before| + |EncodeName(labels)|)
            <==>
            && 1 <= |labels[0]| <= 191 && n < MAX_LABELS
            && NameFrom(head + EncodeName(labels[1..]) + after, |head|, n + 1)
                 == Name(Dotted(labels[1..], false), |head| + |EncodeName(labels[1..])|)
  {
    var l, rest := labels[0], EncodeName(labels[1..]);
    var head := before + ([|l|] + l);
    Regroup(before, [|l|] + l, rest, after);
    assert EncodeName(labels) == ([|l|] + l) + rest;
    if 1 <= |l| <= 191 {
      LabelStep(before, l, rest + after, n);
      var text := (if n > 0 then [DOT] else []) + l;
      assert Dotted(labels, n == 0) == text + Dotted(labels[1..], false);
      PrependCancels(text, NameFrom(head + (rest + after), |head|, n + 1), Dotted(labels[1..], false), |head| + |rest|);
    } else {
      UnreadLabelIsShort(before, l, rest, after, n);
    }
  }

  /** A label that is not read as one ends the name before its encoding does. */
  lemma UnreadLabelIsShort(before: seq<byte>, l: seq<byte>, rest: seq<byte>, after: seq<byte>, n: nat)
    requires |l| < 256 && !(1 <= |l| <= 191) && rest != []
    ensures var head := before + ([|l|] + l);
            var r := NameFrom(head + (rest + after), |before|, n);
            r.Name? && r.end < |head| + |rest|
  {
    var msg := before + ([|l|] + l) + (rest + after);
    assert msg[|before|] == |l|;
  }

  lemma {:induction false} TooManyLabels(before: seq<byte>, labels: seq<seq<byte>>, after: seq<byte>, n: nat)
    requires ReadableName(labels) && n <= MAX_LABELS < n + |labels|
    ensures NameFrom(before + EncodeName(labels) + after, |before|, n) == Bad
    decreases labels
  {
    var l, rest := labels[0], EncodeName(labels[1..]);
    Regroup(before, [|l|] + l, rest, after);
    assert EncodeName(labels) == ([|l|] + l) + rest;
    LabelStep(before, l, rest + after, n);
    if n < MAX_LABELS {
      TooManyLabels(before + ([|l|] + l), labels[1..], after, n + 1);
    }
  }

  /** Reading an encoded name gives its labels and stops right after it, for up to 128
      labels and not for more. */
  lemma NameRoundTrip(before: seq<byte>, labels: seq<seq<byte>>, after: seq<byte>, n: nat)
    requires ReadableName(labels) && n <= MAX_LABELS
    ensures NameFrom(before + EncodeName(labels) + after, |before|, n) ==
            if n + |labels| <= MAX_LABELS
            then Name(Dotted(labels, n == 0), |before| + |EncodeName(labels)|) else Bad
  {
    if n + |labels| <= MAX_LABELS {
      NameReadsBackIff(before, labels, after, n);
    } else {
      TooManyLabels(before, labels, after, n);
    }
  }

  /** A name that section 3.1 forbids: its one label has 64 bytes. */
  lemma ReservedLengthIsRead(after: seq<byte>)
    ensures var l := Repeat(97, 64);
            NameFrom([64] + l + [0] + after, 0, 0) == Name(l, 66)
  {
    var l := Repeat(97, 64);
    var labels: seq<seq<byte>> := [l];
    NameReadsBackIff([], labels, after, 0);
    assert |labels[1..]| == 0;
    assert EncodeName(labels) == [64] + l + [0];
    assert Dotted(labels, true) == l;
    assert [] + EncodeName(labels) + after == [64] + l + [0] + after;
  }

  function LabelBytes(labels: seq<seq<byte>>): (r: seq<byte>)
    requires EncodableName(labels)
  {
    if labels == [] then [] else [|labels[0]|] + labels[0] + LabelBytes(labels[1..])
  }

  /** Labels are read one after the other, whatever follows them. */
  lemma {:induction false} LabelsThenRest(before: seq<byte>, labels: seq<seq<byte>>, rest: seq<byte>, n: nat)
    requires ReadableName(labels) && n + |labels| <= MAX_LABELS
    ensures var msg := before + LabelBytes(labels) + rest;
            NameFrom(msg, |before|, n) ==
            Prepend(Dotted(labels, n == 0), NameFrom(msg, |before + LabelBytes(labels)|, n + |labels|))
    decreases labels
  {
    if labels == [] {
      assert before + LabelBytes(labels) == before;
      PrependNothing(NameFrom(before + rest, |before|, n));
    } else {
      var head, more := LabelsSplit(before, labels, rest);
      LabelsThenRest(head, labels[1..], rest, n + 1);
      FirstLabelThen(before, labels, more + rest, n, Dotted(labels[1..], false),
                     NameFrom(head + more + rest, |head + more|, n + |labels|));
    }
  }

  lemma FirstLabelThen(before: seq<byte>, labels: seq<seq<byte>>, rest: seq<byte>, n: nat, text: seq<byte>, end: NameResult)
    requires labels != [] && ReadableName(labels) && n < MAX_LABELS && text == Dotted(labels[1..], false)
    requires var head := before + ([|labels[0]|] + labels[0]);
             NameFrom(head + rest, |head|, n + 1) == Prepend(text, end)
    ensures NameFrom(before + ([|labels[0]|] + labels[0]) + rest, |before|, n) == Prepend(Dotted(labels, n == 0), end)
  {
    LabelStep(before, labels[0], rest, n);
    PrependTwice((if n > 0 then [DOT] else []) + labels[0], text, end);
  }

  lemma LabelsSplit(before: seq<byte>, labels: seq<seq<byte>>, rest: seq<byte>) returns (head: seq<byte>, more: seq<byte>)
    requires labels != [] && EncodableName(labels)
    ensures head == before + ([|labels[0]|] + labels[0]) && more == LabelBytes(labels[1..])
    ensures before + LabelBytes(labels) == head + more
    ensures head + more + rest == head + (more + rest)
  {
    head, more := before + ([|labels[0]|] + labels[0]), LabelBytes(labels[1..]);
    assert LabelBytes(labels) == ([|labels[0]|] + labels[0]) + more;
  }

  /** Names that do not end in a zero byte: a compression pointer ends a name and is not
      followed, so does the end of the message, and a label that runs past it is refused. */
  lemma OtherNameEnds(before: seq<byte>, labels: seq<seq<byte>>, rest: seq<byte>)
    requires ReadableName(labels) && |labels| <= 128
    ensures var msg, end := before + LabelBytes(labels) + rest, |before + LabelBytes(labels)|;
            && (rest != [] && rest[0] >= 0xC0 ==> NameFrom(msg, |before|, 0) == Name(Dotted(labels, true), end + 2))
            && (rest == [] ==> NameFrom(msg, |before|, 0) == Name(Dotted(labels, true), end))
            && (rest != [] && 0 < rest[0] < 0xC0 && |rest| <= rest[0] ==> NameFrom(msg, |before|, 0) == Bad)
  {
    var msg, end := before + LabelBytes(labels) + rest, |before + LabelBytes(labels)|;
    LabelsThenRest(before, labels, rest, 0);
    assert rest != [] ==> msg[end] == rest[0];
    var text := Dotted(labels, true);
    assert text + [] == text;
  }

  // ---------------------------------------------------------------- messages

  /** Two bytes, most significant first. */
  function Be16(hi: int, lo: int): (r: int) { hi * 256 + lo }

  function QType(msg: seq<byte>, end: nat): (r: int) {
    if end + 2 > |msg| then 0 else Be16(msg[end], msg[end + 1])
  }

  /** The header of a reply: the query's ID and question count, new flags, `answers`. */
  function ReplyHeader(query: seq<byte>, flags1: byte, answers: byte): (r: seq<byte>)
    requires |query| >= HEADER_SIZE
    ensures |r| == HEADER_SIZE
  {
    [query[0], query[1], 0x81, flags1, query[4], query[5], 0, answers, 0, 0, 0, 0]
  }

  /** `(flags & 0xF0) | rcode` */
  function WithRcode(flags: byte, rcode: byte): (r: byte)
    requires rcode < 16
  {
    flags / 16 * 16 + rcode
  }

  /** `dns_build_servfail`; no reply is the empty sequence. */
  function Servfail(query: seq<byte>, room: nat): (r: seq<byte>) {
    if |query| < HEADER_SIZE || room < |query| then []
    else ReplyHeader(query, WithRcode(query[3], 2), 0) + query[HEADER_SIZE..]
  }

  /** A pointer to offset 12, type A, class IN, 300 seconds, 10.0.2.15 */
  function AnswerRecord(): (r: seq<byte>) {
    [0xC0, 0x0C, 0, 1, 0, 1, 0, 0, 1, 44, 0, 4, 10, 0, 2, 15]
  }

  /** `dns_build_fake_a_response` on a message of `len` bytes at the front of `mem`. */
  function FakeA(mem: seq<byte>, len: nat, nameEnd: nat, room: nat): (r: seq<byte>)
    requires len <= |mem| && HEADER_SIZE <= nameEnd
    requires nameEnd + 20 <= room ==> nameEnd + 4 <= |mem|
  {
    if len < HEADER_SIZE || room < nameEnd + 20 then Servfail(mem[..len], room)
    else ReplyHeader(mem, 0x80, 1) + mem[HEADER_SIZE..nameEnd + 4] + AnswerRecord()
  }

  // ---------------------------------------------------------------- framing

  /** Section 4.2.2: two bytes of length, most significant first. */
  function Frame(msg: seq<byte>): (r: seq<byte>)
    requires |msg| < 0x10000
  {
    [|msg| / 256, |msg| % 256] + msg
  }

  datatype Framing = Framing(offset: nat, len: nat, framed: bool)

  function Deframe(raw: seq<byte>): (f: Framing)
    ensures f.offset + f.len <= |raw|
  {
    if |raw| < 2 then Framing(0, |raw|, false)
    else
      var len := Be16(raw[0], raw[1]);
      if 0 < len <= |raw| - 2 && len + 2 >= HEADER_SIZE + 2 then Framing(2, len, true)
      else Framing(0, |raw|, false)
  }

  lemma LengthBytes(n: nat)
    requires n < 0x10000
    ensures n / 256 < 256 && n / 256 * 256 + n % 256 == n
  {
  }

  /** A framed message of 12 to 4094 bytes is found again, whatever follows it. */
  lemma DeframeUndoesFrame(msg: seq<byte>, after: seq<byte>)
    requires HEADER_SIZE <= |msg| && |msg| + 2 <= RECV_SIZE
    ensures var raw := Frame(msg) + after; var f := Deframe(raw);
            f == Framing(2, |msg|, true) && raw[f.offset..f.offset + f.len] == msg
  {
    var raw := Frame(msg) + after;
    LengthBytes(|msg|);
    assert raw[0] == |msg| / 256 && raw[1] == |msg| % 256;
    assert raw[2..2 + |msg|] == msg;
  }

  /** When `n` bytes of it have been received, a framed message is found again if and only
      if it has at least 12 bytes and has come whole.  Otherwise what has come is taken as it
      stands, with the length bytes for its ID. */
  lemma DeframedIffWhole(msg: seq<byte>, after: seq<byte>, n: nat)
    requires |msg| < 0x10000 && n <= |Frame(msg) + after|
    ensures Deframe((Frame(msg) + after)[..n]) ==
            if HEADER_SIZE <= |msg| && |msg| + 2 <= n then Framing(2, |msg|, true) else Framing(0, n, false)
  {
    var raw := Frame(msg) + after;
    LengthBytes(|msg|);
    assert raw[0] == |msg| / 256 && raw[1] == |msg| % 256;
    if n >= 2 {
      assert raw[..n][0] == raw[0] && raw[..n][1] == raw[1];
      assert Be16(raw[0], raw[1]) == |msg|;
    }
  }

  /** An unframed message is taken as it stands exactly when its ID, read as a length, is
      below 12 or too long for what was received. */
  lemma UnframedIsKeptIff(msg: seq<byte>)
    requires |msg| >= HEADER_SIZE
    ensures var id := Be16(msg[0], msg[1]);
            Deframe(msg) == Framing(0, |msg|, false) <==> id < HEADER_SIZE || id > |msg| - 2
  {
  }

  /** A legal query whose ID is 12 is cut when sent without a frame. */
  lemma UnframedQueryMayBeCut()
    ensures var query := [0, 12, 1, 0, 0, 1, 0, 0, 0, 0, 0, 0, 0, 0, 1, 0, 1];
            Deframe(query) == Framing(2, 12, true)
  {
  }

  // ---------------------------------------------------------------- the service

  lemma {:induction false} NameEndBound(msg: seq<byte>, pos: nat, labels: nat)
    requires pos <= |msg|
    ensures NameFrom(msg, pos, labels).Name? ==> pos <= NameFrom(msg, pos, labels).end <= |msg| + 1
    decreases |msg| - pos
  {
    if pos < |msg| && 0 < msg[pos] < 0xC0 && pos + 1 + msg[pos] <= |msg| {
      NameEndBound(msg, pos + 1 + msg[pos], labels + 1);
    }
  }

  /** The reply to a message (empty for none), and the domain that is audited. */
  datatype Reply = Reply(bytes: seq<byte>, domain: Option<seq<byte>>)

  /** The reply to the `len` bytes at the front of `mem`, the rest of the receive buffer. */
  function Answer(mem: seq<byte>, len: nat): (r: Reply)
    requires HEADER_SIZE <= len <= |mem| && RECV_SIZE - 2 <= |mem|
  {
    var msg := mem[..len];
    match NameFrom(msg, HEADER_SIZE, 0)
    case Bad => Reply(Servfail(msg, RECV_SIZE), None)
    case Name(text, end) =>
      var domain := Some(CStr(Take(text, DOMAIN_SIZE - 1)));
      NameEndBound(msg, HEADER_SIZE, 0);
      if end <= HEADER_SIZE then Reply(Servfail(msg, RECV_SIZE), None)
      else if QType(msg, end) == 252 then Reply(Refused(msg, RECV_SIZE), domain)
      else if QType(msg, end) == 1 then Reply(FakeA(mem, len, end, RECV_SIZE), domain)
      else Reply(Servfail(msg, RECV_SIZE), domain)
  }

  /** The reply to a zone transfer. */
  function Refused(query: seq<byte>, room: nat): (r: seq<byte>) {
    var r := Servfail(query, room);
    if r == [] then r else r[3 := WithRcode(r[3], 5)]
  }

  datatype Outcome = Silent | Sent(bytes: seq<byte>, domain: Option<seq<byte>>)

  function OnWire(reply: seq<byte>, framed: bool): (r: seq<byte>)
    requires |reply| < 0x10000
  {
    if framed && reply != [] then Frame(reply) else reply
  }

  lemma ReplyLength(mem: seq<byte>, len: nat)
    requires HEADER_SIZE <= len <= |mem| && RECV_SIZE - 2 <= |mem|
    ensures |Answer(mem, len).bytes| <= RECV_SIZE
  {
    NameEndBound(mem[..len], HEADER_SIZE, 0);
  }

  /** `run_dns_service` on the receive buffer `raw`, of which `n` bytes were received. */
  function Respond(raw: seq<byte>, n: nat): (o: Outcome)
    requires |raw| == RECV_SIZE && n <= RECV_SIZE
  {
    var f := Deframe(raw[..n]);
    if n == 0 || f.len < HEADER_SIZE then Silent
    else
      var reply := Answer(raw[f.offset..], f.len);
      ReplyLength(raw[f.offset..], f.len);
      Sent(OnWire(reply.bytes, f.framed), reply.domain)
  }

  // ---------------------------------------------------------------- what a client gets

  /** Section 4.1: a query for the addresses of a name. */
  function AQuery(header: seq<byte>, labels: seq<seq<byte>>, qclass: seq<byte>, extra: seq<byte>): (r: seq<byte>)
    requires EncodableName(labels)
  {
    header + EncodeName(labels) + ([0, 1] + qclass + extra)
  }

  function AReply(header: seq<byte>, labels: seq<seq<byte>>, qclass: seq<byte>): (r: seq<byte>)
    requires |header| == HEADER_SIZE && EncodableName(labels)
  {
    ReplyHeader(header, 0x80, 1) + EncodeName(labels) + ([0, 1] + qclass + AnswerRecord())
  }

  /** The reply to a complete A query with room for the answer: the ID and the question
      unchanged, one answer after the question, and nothing else. */
  lemma AQueryIsAnswered(header: seq<byte>, labels: seq<seq<byte>>, qclass: seq<byte>, extra: seq<byte>, mem: seq<byte>)
    requires |header| == HEADER_SIZE && ReadableName(labels) && |labels| <= MAX_LABELS && |qclass| == 2
    requires |AQuery(header, labels, qclass, extra)| <= |mem| && RECV_SIZE - 2 <= |mem|
    requires mem[..|AQuery(header, labels, qclass, extra)|] == AQuery(header, labels, qclass, extra)
    requires HEADER_SIZE + |EncodeName(labels)| + 20 <= RECV_SIZE
    ensures Answer(mem, |AQuery(header, labels, qclass, extra)|) ==
            Reply(AReply(header, labels, qclass), Some(CStr(Take(Dotted(labels, true), DOMAIN_SIZE - 1))))
  {
    var name, rest := EncodeName(labels), [0, 1] + qclass + extra;
    var msg, end := AQuery(header, labels, qclass, extra), HEADER_SIZE + |EncodeName(labels)|;
    NameRoundTrip(header, labels, rest, 0);
    HeaderAndTypeReadBack(header, name, rest);
    AnswerIsFakeA(mem, |msg|, Dotted(labels, true), end);
    QuestionIsKept(header, name, [0, 1] + qclass, extra, mem);
  }

  lemma AnswerIsFakeA(mem: seq<byte>, len: nat, text: seq<byte>, end: nat)
    requires HEADER_SIZE <= len <= |mem| && RECV_SIZE - 2 <= |mem|
    requires NameFrom(mem[..len], HEADER_SIZE, 0) == Name(text, end) && HEADER_SIZE < end <= |mem| - 4
    requires QType(mem[..len], end) == 1
    ensures Answer(mem, len) == Reply(FakeA(mem, len, end, RECV_SIZE), Some(CStr(Take(text, DOMAIN_SIZE - 1))))
  {
  }

  lemma QuestionIsKept(header: seq<byte>, name: seq<byte>, tail: seq<byte>, extra: seq<byte>, mem: seq<byte>)
    requires |header| == HEADER_SIZE && |tail| == 4 && HEADER_SIZE + |name| + 20 <= RECV_SIZE
    requires |header + name + (tail + extra)| <= |mem|
    requires mem[..|header + name + (tail + extra)|] == header + name + (tail + extra)
    ensures FakeA(mem, |header + name + (tail + extra)|, HEADER_SIZE + |name|, RECV_SIZE) ==
            ReplyHeader(header, 0x80, 1) + name + (tail + AnswerRecord())
  {
    var msg, end := header + name + (tail + extra), HEADER_SIZE + |name|;
    SliceOfPrefix(mem, |msg|, 0, HEADER_SIZE);
    SliceOfPrefix(mem, |msg|, HEADER_SIZE, end + 4);
    SliceOfMiddle(header, name, tail, extra);
    SameHeader(mem, header);
    Reassociate(ReplyHeader(header, 0x80, 1), name, tail, AnswerRecord());
  }

  lemma SliceOfMiddle(a: seq<byte>, b: seq<byte>, c: seq<byte>, d: seq<byte>)
    ensures (a + b + (c + d))[0..|a|] == a
    ensures (a + b + (c + d))[|a|..|a| + |b| + |c|] == b + c
  {
    Regroup(a, b, c, d);
  }

  lemma SameHeader(mem: seq<byte>, header: seq<byte>)
    requires |mem| >= |header| == HEADER_SIZE && mem[0..HEADER_SIZE] == header
    ensures ReplyHeader(mem, 0x80, 1) == ReplyHeader(header, 0x80, 1)
  {
    assert forall i :: 0 <= i < HEADER_SIZE ==> mem[i] == mem[0..HEADER_SIZE][i];
  }

  lemma Reassociate(a: seq<byte>, b: seq<byte>, c: seq<byte>, d: seq<byte>)
    ensures a + (b + c) + d == a + b + (c + d)
  {
  }

  /** One resource record of type A, with its owner name looked up. */
  datatype Address = Address(owner: NameResult, kind: int, class_: int, ttl: int, ip: seq<byte>)

  /** A client's reading of the record at `at`, which must start with a pointer. */
  function ReadAddress(msg: seq<byte>, at: nat): (r: Option<Address>) {
    if at + 16 > |msg| then None else AddressOf(msg, msg[at..at + 16])
  }

  function AddressOf(msg: seq<byte>, record: seq<byte>): (r: Option<Address>)
    requires |record| == 16
  {
    if record[0] < 0xC0 || Be16(record[10], record[11]) != 4 then None
    else
      Some(Address(NameFrom(msg, Be16(record[0] - 0xC0, record[1]), 0),
                   Be16(record[2], record[3]), Be16(record[4], record[5]),
                   Be16(record[6], record[7]) * 0x10000 + Be16(record[8], record[9]),
                   record[12..16]))
  }

  /** Section 4.1.1: ID, the two bytes of flags and response code, and the four counts. */
  datatype Header = Header(id: int, flags: byte, code: byte, questions: int, answers: int, authority: int, additional: int)

  function ReadHeader(msg: seq<byte>): (h: Header)
    requires |msg| >= 12
  {
    Header(Be16(msg[0], msg[1]), msg[2], msg[3],
           Be16(msg[4], msg[5]), Be16(msg[6], msg[7]), Be16(msg[8], msg[9]), Be16(msg[10], msg[11]))
  }

  /** The query's own ID and questions; a response (section 4.1.1 calls bit 7 of the flags
      QR) with the given code and answers, and nothing in the other sections. */
  ghost predicate Replies(reply: seq<byte>, query: seq<byte>, code: byte, answers: int) {
    && |reply| >= 12 && |query| >= 12
    && var q := ReadHeader(query);
    ReadHeader(reply) == Header(q.id, 0x81, code, q.questions, answers, 0, 0)
  }

  /** The upper half of `code` is that of `asked`, and the lower half, which is the response
      code, is `rcode`. */
  predicate CodeIs(code: byte, asked: byte, rcode: int) { code / 16 == asked / 16 && code % 16 == rcode }

  lemma RcodeReads(flags: byte, rcode: byte)
    requires rcode < 16
    ensures CodeIs(WithRcode(flags, rcode), flags, rcode)
    ensures forall asked: byte, c: byte :: CodeIs(flags, asked, c) ==> CodeIs(WithRcode(flags, rcode), asked, rcode)
  {
  }

  /** An error without answers, and the rest of the query sent back unchanged. */
  ghost predicate Fails(reply: seq<byte>, query: seq<byte>, rcode: int) {
    && |query| >= 12 && |reply| == |query| && reply[12..] == query[12..]
    && Replies(reply, query, reply[3], 0) && CodeIs(reply[3], query[3], rcode)
  }

  lemma FailureReplies(query: seq<byte>, room: nat)
    requires 12 <= |query| <= room
    ensures Fails(Servfail(query, room), query, 2) && Fails(Refused(query, room), query, 5)
  {
    RcodeReads(query[3], 2);
    RcodeReads(WithRcode(query[3], 2), 5);
  }

  lemma AnswerReplies(mem: seq<byte>, len: nat, end: nat)
    requires 12 <= len <= |mem| && 12 <= end && end + 20 <= RECV_SIZE && end + 4 <= |mem|
    ensures var r := FakeA(mem, len, end, RECV_SIZE);
            && Replies(r, mem, 0x80, 1) && |r| == end + 20
            && r[12..end + 4] == mem[12..end + 4] && r[end + 4..] == AnswerRecord()
  {
  }

  /** A query for a zone transfer: its name is followed by type 252. */
  predicate AsksTransfer(msg: seq<byte>) {
    var name := NameFrom(msg, 12, 0);
    name.Name? && name.end + 2 <= |msg| && msg[name.end] == 0 && msg[name.end + 1] == 252
  }

  /** What an A query with room is told: no error, and one answer after the question as it
      was asked. */
  lemma AnsweredReadsBack(mem: seq<byte>, len: nat, end: nat)
    requires 12 <= len <= |mem| && RECV_SIZE - 2 <= |mem| && AnsweredAt(mem[..len]) == Some(end)
    ensures var r := Answer(mem, len).bytes;
            && Replies(r, mem[..len], 0x80, 1) && |r| == end + 20
            && end + 4 <= |mem| && r[12..end + 4] == mem[12..end + 4]
  {
    assert mem[..len] + mem[len..] == mem;
    NameEndBound(mem[..len], 12, 0);
    AnswerOf(mem[..len], mem[len..], end);
    AnswerReplies(mem, len, end);
    SameHeaders(mem, len);
  }

  /** What every other message is told: a zone transfer is refused, and anything else, a bad
      name included, is a server failure.  There is no answer, and the rest of the message
      is sent back unchanged. */
  lemma FailedReadsBack(mem: seq<byte>, len: nat)
    requires 12 <= len <= |mem| && RECV_SIZE - 2 <= |mem| <= RECV_SIZE && AnsweredAt(mem[..len]).None?
    ensures Fails(Answer(mem, len).bytes, mem[..len], if AsksTransfer(mem[..len]) then 5 else 2)
  {
    UnansweredIs(mem, len);
    FailureReplies(mem[..len], RECV_SIZE);
  }

  lemma SameHeaders(mem: seq<byte>, len: nat)
    requires 12 <= len <= |mem|
    ensures ReadHeader(mem[..len]) == ReadHeader(mem)
  {
  }

  lemma UnansweredIs(mem: seq<byte>, len: nat)
    requires 12 <= len <= |mem| && RECV_SIZE - 2 <= |mem| && AnsweredAt(mem[..len]).None?
    ensures var msg := mem[..len];
            Answer(mem, len).bytes == if AsksTransfer(msg) then Refused(msg, RECV_SIZE) else Servfail(msg, RECV_SIZE)
  {
    var msg := mem[..len];
    var name := NameFrom(msg, 12, 0);
    NameEndBound(msg, 12, 0);
    if name.Name? && name.end == 12 {
      EmptyNameIsCut(msg);
    }
  }

  /** A domain is audited exactly when the name can be read and is there at all. */
  lemma AuditedIff(mem: seq<byte>, len: nat)
    requires 12 <= len <= |mem| && RECV_SIZE - 2 <= |mem|
    ensures Answer(mem, len).domain.Some? <==> NameFrom(mem[..len], 12, 0).Name? && len > 12
  {
    var msg := mem[..len];
    NameEndBound(msg, 12, 0);
    if NameFrom(msg, 12, 0).Name? && NameFrom(msg, 12, 0).end == 12 {
      EmptyNameIsCut(msg);
    }
  }

  lemma EmptyNameIsCut(msg: seq<byte>)
    requires |msg| >= 12 && NameFrom(msg, 12, 0).Name? && NameFrom(msg, 12, 0).end == 12
    ensures |msg| == 12
  {
    if |msg| > 12 && 0 < msg[12] < 0xC0 && 13 + msg[12] <= |msg| {
      NameEndBound(msg, 13 + msg[12], 1);
    }
  }

  /** A query of any type for a name, as a client sends it. */
  function Query(header: seq<byte>, labels: seq<seq<byte>>, rest: seq<byte>): (r: seq<byte>)
    requires EncodableName(labels)
  {
    header + EncodeName(labels) + rest
  }

  /** The reply to a query of a type other than A, from its sender's side: zone transfers are
      refused, all others fail, and the name is audited in each case. */
  lemma OtherQueriesAreRefused(header: seq<byte>, labels: seq<seq<byte>>, rest: seq<byte>, mem: seq<byte>)
    requires |header| == 12 && ReadableName(labels) && |labels| <= 128
    requires |Query(header, labels, rest)| <= |mem| && RECV_SIZE - 2 <= |mem| <= RECV_SIZE
    requires mem[..|Query(header, labels, rest)|] == Query(header, labels, rest)
    requires |rest| < 2 || rest[..2] != [0, 1]
    ensures var query := Query(header, labels, rest);
            var reply := Answer(mem, |query|);
            && reply.domain == Some(CStr(Take(Dotted(labels, true), 511)))
            && Fails(reply.bytes, query, if |rest| >= 2 && rest[..2] == [0, 252] then 5 else 2)
  {
    var query, end := Query(header, labels, rest), 12 + |EncodeName(labels)|;
    NameRoundTrip(header, labels, rest, 0);
    TypeOf(header + EncodeName(labels), rest);
    OtherAnswer(mem, query, Dotted(labels, true), end);
  }

  lemma TypeOf(front: seq<byte>, rest: seq<byte>)
    ensures QType(front + rest, |front|) == if |rest| < 2 then 0 else Be16(rest[0], rest[1])
    ensures |rest| >= 2 ==> (rest[..2] == [0, 1] <==> Be16(rest[0], rest[1]) == 1)
    ensures |rest| >= 2 ==> (rest[..2] == [0, 252] <==> Be16(rest[0], rest[1]) == 252)
  {
  }

  lemma OtherAnswer(mem: seq<byte>, query: seq<byte>, text: seq<byte>, end: nat)
    requires 12 <= |query| <= |mem| && RECV_SIZE - 2 <= |mem| <= RECV_SIZE && mem[..|query|] == query
    requires NameFrom(query, 12, 0) == Name(text, end) && 12 < end && QType(query, end) != 1
    ensures var reply := Answer(mem, |query|);
            && reply.domain == Some(CStr(Take(text, 511)))
            && Fails(reply.bytes, query, if QType(query, end) == 252 then 5 else 2)
  {
    FailureReplies(query, RECV_SIZE);
    OtherAnswerIs(mem, query, text, end);
  }

  lemma OtherAnswerIs(mem: seq<byte>, query: seq<byte>, text: seq<byte>, end: nat)
    requires 12 <= |query| <= |mem| && RECV_SIZE - 2 <= |mem| && mem[..|query|] == query
    requires NameFrom(query, 12, 0) == Name(text, end) && 12 < end && QType(query, end) != 1
    ensures Answer(mem, |query|) ==
            Reply(if QType(query, end) == 252 then Refused(query, RECV_SIZE) else Servfail(query, RECV_SIZE),
                  Some(CStr(Take(text, 511))))
  {
    NameEndBound(query, 12, 0);
  }

  /** Read back, the reply has the query's ID, asks for the same name, and holds exactly
      one record: that name, for 300 seconds, at 10.0.2.15. */
  lemma AReplyReadsBack(header: seq<byte>, labels: seq<seq<byte>>, qclass: seq<byte>)
    requires |header| == HEADER_SIZE && ReadableName(labels) && |labels| <= MAX_LABELS && |qclass| == 2
    ensures var reply := AReply(header, labels, qclass);
            var end := HEADER_SIZE + |EncodeName(labels)|;
            && |reply| == end + 4 + 16
            && Replies(reply, header, 0x80, 1)
            && NameFrom(reply, HEADER_SIZE, 0) == Name(Dotted(labels, true), end)
            && QType(reply, end) == 1
            && ReadAddress(reply, end + 4) ==
               Some(Address(Name(Dotted(labels, true), end), 1, 1, 300, [10, 0, 2, 15]))
  {
    var head, name, tail := ReplyHeader(header, 0x80, 1), EncodeName(labels), [0, 1] + qclass;
    var reply := AReply(header, labels, qclass);
    NameRoundTrip(head, labels, tail + AnswerRecord(), 0);
    assert reply == (head + name + tail) + AnswerRecord();
    RecordReadsBack(head + name + tail);
    HeaderAndTypeReadBack(head, name, tail + AnswerRecord());
    HeaderIsRead(reply, head);
    HeaderReplies(header);
  }

  lemma HeaderIsRead(msg: seq<byte>, head: seq<byte>)
    requires |msg| >= 12 == |head| && msg[..12] == head
    ensures ReadHeader(msg) == ReadHeader(head)
  {
    assert forall i :: 0 <= i < 12 ==> msg[i] == msg[..12][i];
  }

  lemma HeaderReplies(header: seq<byte>)
    requires |header| == 12
    ensures Replies(ReplyHeader(header, 0x80, 1), header, 0x80, 1)
  {
  }

  lemma RecordReadsBack(front: seq<byte>)
    ensures var msg := front + AnswerRecord();
            ReadAddress(msg, |front|) == Some(Address(NameFrom(msg, HEADER_SIZE, 0), 1, 1, 300, [10, 0, 2, 15]))
  {
    var msg := front + AnswerRecord();
    assert msg[|front|..|front| + 16] == AnswerRecord();
    assert AnswerRecord()[12..16] == [10, 0, 2, 15];
  }

  lemma HeaderAndTypeReadBack(head: seq<byte>, name: seq<byte>, rest: seq<byte>)
    requires |head| == HEADER_SIZE && |rest| >= 2
    ensures var msg := head + name + rest;
            && msg[..HEADER_SIZE] == head
            && QType(msg, HEADER_SIZE + |name|) == Be16(rest[0], rest[1])
  {
  }

  /** End to end over TCP. */
  lemma FramedAQueryIsAnswered(header: seq<byte>, labels: seq<seq<byte>>, qclass: seq<byte>, extra: seq<byte>, raw: seq<byte>, n: nat)
    requires |header| == HEADER_SIZE && ReadableName(labels) && |labels| <= MAX_LABELS && |qclass| == 2
    requires |raw| == RECV_SIZE && |AQuery(header, labels, qclass, extra)| + 2 <= n <= RECV_SIZE
    requires raw[..|AQuery(header, labels, qclass, extra)| + 2] == Frame(AQuery(header, labels, qclass, extra))
    requires HEADER_SIZE + |EncodeName(labels)| + 20 <= RECV_SIZE
    ensures Respond(raw, n) == Sent(Frame(AReply(header, labels, qclass)), Some(CStr(Take(Dotted(labels, true), DOMAIN_SIZE - 1))))
  {
    var msg := AQuery(header, labels, qclass, extra);
    var after := raw[|msg| + 2..n];
    assert raw[..n] == Frame(msg) + after;
    DeframeUndoesFrame(msg, after);
    assert raw[2..][..|msg|] == msg by {
      assert raw[2..][..|msg|] == raw[..|msg| + 2][2..];
    }
    AQueryIsAnswered(header, labels, qclass, extra, raw[2..]);
  }

  /** The reply goes back as the query came: behind its length, most significant byte first,
      or bare. */
  lemma ReplyIsFramedAsAsked(raw: seq<byte>, n: nat)
    requires |raw| == RECV_SIZE && n <= RECV_SIZE
    ensures var f := Deframe(raw[..n]);
            if n == 0 || f.len < 12 then Respond(raw, n) == Silent
            else
              var reply := Answer(raw[f.offset..], f.len);
              var k := |reply.bytes|;
              Respond(raw, n) ==
              Sent(if f.framed then [k / 256, k % 256] + reply.bytes else reply.bytes, reply.domain)
  {
    var f := Deframe(raw[..n]);
    if f.len >= 12 {
      ReplyLength(raw[f.offset..], f.len);
      EveryReplyIsWellFormed(raw[f.offset..], f.len);
    }
  }

  /** The ID and the question count kept, marked as a response, and within the buffer. */
  predicate WellFormedReply(r: seq<byte>, mem: seq<byte>) {
    && HEADER_SIZE <= |r| <= RECV_SIZE && HEADER_SIZE <= |mem|
    && r[0] == mem[0] && r[1] == mem[1] && r[2] == 0x81 && r[4] == mem[4] && r[5] == mem[5]
  }

  lemma FailuresAreWellFormed(mem: seq<byte>, len: nat)
    requires HEADER_SIZE <= len <= |mem| && len <= RECV_SIZE
    ensures WellFormedReply(Servfail(mem[..len], RECV_SIZE), mem) && |Servfail(mem[..len], RECV_SIZE)| == len
    ensures WellFormedReply(Refused(mem[..len], RECV_SIZE), mem) && |Refused(mem[..len], RECV_SIZE)| == len
  {
  }

  lemma AnswersAreWellFormed(mem: seq<byte>, len: nat, end: nat)
    requires HEADER_SIZE <= len <= |mem| && HEADER_SIZE <= end && end + 20 <= RECV_SIZE && end + 4 <= |mem|
    ensures WellFormedReply(FakeA(mem, len, end, RECV_SIZE), mem) && |FakeA(mem, len, end, RECV_SIZE)| == end + 20
  {
  }

  /** An A query with room for the answer, and where its name ends. */
  function AnsweredAt(msg: seq<byte>): (end: Option<nat>) {
    match NameFrom(msg, HEADER_SIZE, 0)
    case Bad => None
    case Name(_, end) =>
      if HEADER_SIZE < end && QType(msg, end) == 1 && end + 20 <= RECV_SIZE then Some(end) else None
  }

  /** Every message gets a reply.  It keeps the ID and is as long as the message, or, for
      an A query with room, 20 bytes longer than its header and name. */
  lemma EveryReplyIsWellFormed(mem: seq<byte>, len: nat)
    requires HEADER_SIZE <= len <= |mem| && RECV_SIZE - 2 <= |mem| <= RECV_SIZE
    ensures var r := Answer(mem, len).bytes;
            WellFormedReply(r, mem) &&
            |r| == match AnsweredAt(mem[..len]) case None => len case Some(end) => end + 20
  {
    var r := NameFrom(mem[..len], HEADER_SIZE, 0);
    NameEndBound(mem[..len], HEADER_SIZE, 0);
    FailuresAreWellFormed(mem, len);
    if r.Name? && HEADER_SIZE < r.end && r.end + 20 <= RECV_SIZE {
      AnswersAreWellFormed(mem, len, r.end);
    }
  }

  // ---------------------------------------------------------------- bytes behind the message

  /** The reply to `msg` is the same whatever the receive buffer, of which `size` bytes
      start with the message, holds behind it. */
  ghost predicate DecidedByMessage(msg: seq<byte>, size: nat)
    requires HEADER_SIZE <= |msg| <= size && RECV_SIZE - 2 <= size
  {
    forall a: seq<byte>, b: seq<byte> | |msg| + |a| == size && |msg| + |b| == size ::
      Answer(msg + a, |msg|) == Answer(msg + b, |msg|)
  }

  lemma AnswerOf(msg: seq<byte>, a: seq<byte>, end: nat)
    requires HEADER_SIZE <= |msg| && RECV_SIZE - 2 <= |msg + a| && AnsweredAt(msg) == Some(end)
    ensures end + 4 <= |msg + a| && Answer(msg + a, |msg|).bytes == FakeA(msg + a, |msg|, end, RECV_SIZE)
  {
    assert (msg + a)[..|msg|] == msg;
    NameEndBound(msg, HEADER_SIZE, 0);
  }

  lemma UnansweredIsDecided(msg: seq<byte>, a: seq<byte>, b: seq<byte>)
    requires HEADER_SIZE <= |msg| && RECV_SIZE - 2 <= |msg + a| == |msg + b|
    requires AnsweredAt(msg).None?
    ensures Answer(msg + a, |msg|) == Answer(msg + b, |msg|)
  {
    assert (msg + a)[..|msg|] == msg == (msg + b)[..|msg|];
    NameEndBound(msg, HEADER_SIZE, 0);
  }

  lemma AnsweredIsDecided(msg: seq<byte>, a: seq<byte>, b: seq<byte>)
    requires HEADER_SIZE <= |msg| && RECV_SIZE - 2 <= |msg + a| == |msg + b|
    requires AnsweredAt(msg).Some? && AnsweredAt(msg).value + 4 <= |msg|
    ensures Answer(msg + a, |msg|) == Answer(msg + b, |msg|)
  {
    var end := AnsweredAt(msg).value;
    assert (msg + a)[..|msg|] == msg == (msg + b)[..|msg|];
    NameEndBound(msg, HEADER_SIZE, 0);
    assert (msg + a)[HEADER_SIZE..end + 4] == msg[HEADER_SIZE..end + 4] == (msg + b)[HEADER_SIZE..end + 4];
  }

  lemma CutClassIsNotDecided(msg: seq<byte>, a: seq<byte>, b: seq<byte>)
    requires HEADER_SIZE <= |msg| && RECV_SIZE - 2 <= |msg + a| == |msg + b|
    requires AnsweredAt(msg).Some? && AnsweredAt(msg).value + 4 > |msg|
    requires a != [] && b != [] && a[0] != b[0]
    ensures Answer(msg + a, |msg|) != Answer(msg + b, |msg|)
  {
    var end, k := AnsweredAt(msg).value, |msg|;
    AnswerOf(msg, a, end);
    AnswerOf(msg, b, end);
    assert FakeA(msg + a, k, end, RECV_SIZE)[k] == (msg + a)[k] == a[0];
    assert FakeA(msg + b, k, end, RECV_SIZE)[k] == (msg + b)[k] == b[0];
  }

  /** The reply depends on the message alone, unless that is an A query with room for the
      answer whose class is cut off: then what follows it in the buffer is sent back. */
  lemma ReplyDependsOnMessageIff(msg: seq<byte>, size: nat)
    requires HEADER_SIZE <= |msg| <= size && RECV_SIZE - 2 <= size
    ensures DecidedByMessage(msg, size) <==>
            (AnsweredAt(msg).Some? ==> AnsweredAt(msg).value + 4 <= |msg|)
  {
    if AnsweredAt(msg).Some? && AnsweredAt(msg).value + 4 > |msg| {
      var a, b := Repeat(0, size - |msg|), Repeat(1, size - |msg|);
      CutClassIsNotDecided(msg, a, b);
      assert Answer(msg + a, |msg|) != Answer(msg + b, |msg|);
    } else {
      forall a: seq<byte>, b: seq<byte> | |msg| + |a| == size && |msg| + |b| == size
        ensures Answer(msg + a, |msg|) == Answer(msg + b, |msg|)
      {
        if AnsweredAt(msg).None? {
          UnansweredIsDecided(msg, a, b);
        } else {
          AnsweredIsDecided(msg, a, b);
        }
      }
    }
  }

  /** A query for the addresses of the root that ends after its type. */
  lemma CutQueryIsAnswered()
    ensures var msg := [0, 1, 1, 0, 0, 1, 0, 0, 0, 0, 0, 0, 0, 0, 1];
            AnsweredAt(msg) == Some(13) && !DecidedByMessage(msg, RECV_SIZE)
  {
    var msg: seq<byte> := [0, 1, 1, 0, 0, 1, 0, 0, 0, 0, 0, 0, 0, 0, 1];
    assert NameFrom(msg, 12, 0) == Name([], 13);
    ReplyDependsOnMessageIff(msg, RECV_SIZE);
  }

  // ---------------------------------------------------------------- the code

  /** Copies what fits, leaving a place for the terminator. */
  method CopyBytes(src: seq<byte>, dst: array<byte>, at: nat) returns (dpos: nat)
    requires at < dst.Length
    modifies dst
    ensures dpos < dst.Length
    ensures dst[..dpos] == old(dst[..at]) + Take(src, dst.Length - 1 - at)
  {
    dpos := at;
    var i := 0;
    while i < |src| && dpos < dst.Length - 1
      invariant i <= |src| && dpos == at + i < dst.Length
      invariant dst[..dpos] == old(dst[..at]) + src[..i]
    {
      dst[dpos] := src[i];
      dpos, i := dpos + 1, i + 1;
    }
  }

  lemma PrependTwice(a: seq<byte>, b: seq<byte>, r: NameResult)
    ensures Prepend(a, Prepend(b, r)) == Prepend(a + b, r)
  {
    if r.Name? {
      assert a + (b + r.text) == a + b + r.text;
    }
  }

  /** Adds a label's text, after a dot unless it is the first. */
  method AddLabel(text: seq<byte>, labels: nat, domain: array<byte>, at: nat, ghost done: seq<byte>) returns (dpos: nat)
    requires at < domain.Length && domain[..at] == Take(done, domain.Length - 1)
    modifies domain
    ensures dpos < domain.Length
    ensures domain[..dpos] == Take(done + ((if labels > 0 then [DOT] else []) + text), domain.Length - 1)
  {
    ghost var room := domain.Length - 1;
    dpos := at;
    if labels > 0 {
      TakeAppend(done, [DOT], room);
      dpos := CopyBytes([DOT], domain, dpos);
      TakeAppend(done + [DOT], text, room);
      assert done + [DOT] + text == done + ([DOT] + text);
    } else {
      TakeAppend(done, text, room);
      assert [] + text == text;
    }
    dpos := CopyBytes(text, domain, dpos);
  }

  /** The loop over labels: stops at a zero byte, at a pointer or at the end. */
  method ParseLabels(msg: seq<byte>, offset: nat, domain: array<byte>)
    returns (ok: bool, pos: nat, dpos: nat, ghost done: seq<byte>, ghost labels: nat)
    requires domain.Length > 0
    modifies domain
    ensures !ok ==> NameFrom(msg, offset, 0) == Bad
    ensures ok ==> NameFrom(msg, offset, 0) == Prepend(done, NameFrom(msg, pos, labels))
    ensures ok && pos < |msg| ==> msg[pos] == 0 || msg[pos] >= 0xC0
    ensures dpos < domain.Length
    ensures ok ==> domain[..dpos] == Take(done, domain.Length - 1)
  {
    done, pos, dpos := [], offset, 0;
    var n := 0;
    PrependNothing(NameFrom(msg, offset, 0));
    while pos < |msg| && 0 < msg[pos] < 0xC0
      invariant 0 <= n && dpos < domain.Length
      invariant NameFrom(msg, offset, 0) == Prepend(done, NameFrom(msg, pos, n))
      invariant domain[..dpos] == Take(done, domain.Length - 1)
      decreases |msg| - pos
    {
      var labelLen: int := msg[pos];
      if pos + 1 + labelLen > |msg| {
        return false, pos, dpos, done, n;
      }
      NameStep(msg, pos, n, done);
      ghost var next := done + LabelText(msg, pos, n);
      dpos := AddLabel(msg[pos + 1..pos + 1 + labelLen], n, domain, dpos, done);
      if n + 1 > MAX_LABELS {
        return false, pos, dpos, done, n;
      }
      done := next;
      pos := pos + 1 + labelLen;
      n := n + 1;
    }
    ok, labels := true, n;
  }

  /** `dns_parse_domain_name` */
  method ParseDomainName(msg: seq<byte>, offset: nat, domain: array<byte>) returns (parsed: int)
    requires domain.Length > 0
    modifies domain
    ensures match NameFrom(msg, offset, 0)
            case Bad => parsed == -1
            case Name(text, end) =>
              parsed == end - offset && TextIs(domain[..], Take(text, domain.Length - 1))
  {
    var ok, pos, dpos, done, labels := ParseLabels(msg, offset, domain);
    if !ok {
      return -1;
    }
    NameStops(msg, pos, labels, done);
    if pos < |msg| {
      pos := pos + if msg[pos] == 0 then 1 else 2;
    }
    domain[dpos] := NUL;
    assert domain[..][..dpos] == domain[..dpos];
    return pos - offset;
  }

  lemma NameStops(msg: seq<byte>, pos: nat, labels: nat, done: seq<byte>)
    requires pos < |msg| ==> msg[pos] == 0 || msg[pos] >= 0xC0
    ensures Prepend(done, NameFrom(msg, pos, labels)) ==
            Name(done, pos + if pos >= |msg| then 0 else if msg[pos] == 0 then 1 else 2)
  {
    assert done + [] == done;
  }

  lemma NameStep(msg: seq<byte>, pos: nat, labels: nat, done: seq<byte>)
    requires pos < |msg| && 0 < msg[pos] < 0xC0 && pos + 1 + msg[pos] <= |msg|
    ensures Prepend(done, NameFrom(msg, pos, labels)) ==
            if labels + 1 > MAX_LABELS then Bad
            else Prepend(done + LabelText(msg, pos, labels), NameFrom(msg, pos + 1 + msg[pos], labels + 1))
  {
    PrependTwice(done, LabelText(msg, pos, labels), NameFrom(msg, pos + 1 + msg[pos], labels + 1));
  }

  lemma PrependNothing(r: NameResult)
    ensures Prepend([], r) == r
  {
    if r.Name? {
      assert [] + r.text == r.text;
    }
  }

  /** The buffer starts with `text` and a terminator. */
  predicate TextIs(buf: seq<byte>, text: seq<byte>) {
    |text| < |buf| && buf[..|text|] == text && buf[|text|] == NUL
  }

  /** `dns_build_servfail` */
  method BuildServfail(query: seq<byte>, resp: array<byte>) returns (n: nat)
    modifies resp
    ensures n <= resp.Length && resp[..n] == Servfail(query, resp.Length)
  {
    if |query| < HEADER_SIZE || resp.Length < |query| {
      return 0;
    }
    CopyIn(query, resp);
    ghost var copied := resp[..];
    assert forall i :: 0 <= i < |query| ==> copied[i] == query[i] by {
      assert copied[..|query|] == query;
    }
    SetHeader(resp, WithRcode(resp[3], 2), 0);
    n := |query|;
    assert resp[..n] == resp[..HEADER_SIZE] + resp[HEADER_SIZE..][..n - HEADER_SIZE];
    assert resp[HEADER_SIZE..][..n - HEADER_SIZE] == query[HEADER_SIZE..];
  }

  /** `memcpy(resp, src, |src|)` */
  method CopyIn(src: seq<byte>, resp: array<byte>)
    requires |src| <= resp.Length
    modifies resp
    ensures resp[..|src|] == src
  {
    for i := 0 to |src|
      invariant resp[..i] == src[..i]
    {
      resp[i] := src[i];
    }
  }

  /** The header bytes that both builders overwrite. */
  method SetHeader(resp: array<byte>, flags1: byte, answers: byte)
    requires resp.Length >= HEADER_SIZE
    modifies resp
    ensures resp[..HEADER_SIZE] == ReplyHeader(old(resp[..]), flags1, answers)
    ensures resp[HEADER_SIZE..] == old(resp[HEADER_SIZE..])
  {
    resp[2], resp[3] := 0x81, flags1;
    resp[6], resp[7] := 0, answers;
    resp[8], resp[9], resp[10], resp[11] := 0, 0, 0, 0;
  }

  /** `dns_build_fake_a_response` on a message of `len` bytes at the front of `mem`. */
  method BuildFakeA(mem: seq<byte>, len: nat, nameEnd: nat, resp: array<byte>) returns (n: nat)
    requires len <= |mem| && HEADER_SIZE <= nameEnd
    requires nameEnd + 20 <= resp.Length ==> nameEnd + 4 <= |mem|
    modifies resp
    ensures n <= resp.Length && resp[..n] == FakeA(mem, len, nameEnd, resp.Length)
  {
    var questionEnd := nameEnd + 4;
    var total := questionEnd + 16;
    if len < HEADER_SIZE || resp.Length < total {
      n := BuildServfail(mem[..len], resp);
      return;
    }
    CopyIn(mem[..questionEnd], resp);
    ghost var copied := resp[..];
    assert copied[..questionEnd] == mem[..questionEnd];
    SetHeader(resp, 0x80, 1);
    HeaderReplaced(mem[..questionEnd], copied, resp[..]);
    assert ReplyHeader(mem[..questionEnd], 0x80, 1) == ReplyHeader(mem, 0x80, 1);
    ghost var front := resp[..questionEnd];
    assert mem[..questionEnd][HEADER_SIZE..] == mem[HEADER_SIZE..questionEnd];
    CopyAt(AnswerRecord(), resp, questionEnd);
    n := total;
    assert resp[..n] == front + AnswerRecord();
  }

  lemma HeaderReplaced(src: seq<byte>, copied: seq<byte>, resp: seq<byte>)
    requires HEADER_SIZE <= |src| <= |copied| == |resp| && copied[..|src|] == src
    requires resp[..HEADER_SIZE] == ReplyHeader(copied, 0x80, 1)
    requires resp[HEADER_SIZE..] == copied[HEADER_SIZE..]
    ensures resp[..|src|] == ReplyHeader(src, 0x80, 1) + src[HEADER_SIZE..]
  {
    PrefixSplits(resp, HEADER_SIZE, |src|);
    PrefixSplits(copied, HEADER_SIZE, |src|);
    SliceOfPrefix(copied, |src|, 0, HEADER_SIZE);
    SameHeader(copied, src[0..HEADER_SIZE]);
    SameHeader(src, src[0..HEADER_SIZE]);
  }

  lemma PrefixSplits(s: seq<byte>, h: nat, n: nat)
    requires h <= n <= |s|
    ensures s[..n] == s[..h] + s[h..][..n - h] && s[..n][h..] == s[h..][..n - h]
  {
  }

  /** `memcpy(resp + at, src, |src|)` */
  method CopyAt(src: seq<byte>, resp: array<byte>, at: nat)
    requires at + |src| <= resp.Length
    modifies resp
    ensures resp[..at] == old(resp[..at]) && resp[at..at + |src|] == src
  {
    for i := 0 to |src|
      invariant resp[..at] == old(resp[..at]) && resp[at..at + i] == src[..i]
    {
      resp[at + i] := src[i];
    }
  }

  /** `run_dns_service` after `recv` has put `n` bytes into `raw`. */
  method RunDnsService(raw: array<byte>, n: nat) returns (o: Outcome)
    requires raw.Length == RECV_SIZE && n <= RECV_SIZE
    ensures o == Respond(raw[..], n)
  {
    var f := Deframe(raw[..n]);
    assert raw[..][..n] == raw[..n];
    if n == 0 || f.len < HEADER_SIZE {
      return Silent;
    }
    var mem := raw[f.offset..];
    assert raw[..][f.offset..] == mem;
    var reply := ReplyTo(mem, f.len);
    ReplyLength(mem, f.len);
    o := Sent(OnWire(reply.bytes, f.framed), reply.domain);
  }

  method ReplyTo(mem: seq<byte>, len: nat) returns (reply: Reply)
    requires HEADER_SIZE <= len <= |mem| && RECV_SIZE - 2 <= |mem|
    ensures reply == Answer(mem, len)
  {
    var msg := mem[..len];
    var domain := new byte[DOMAIN_SIZE];
    var resp := new byte[RECV_SIZE];
    var parsed := ParseDomainName(msg, HEADER_SIZE, domain);
    NameEndBound(msg, HEADER_SIZE, 0);
    var n;
    if parsed <= 0 {
      n := BuildServfail(msg, resp);
      return Reply(resp[..n], None);
    }
    var nameEnd := HEADER_SIZE + parsed;
    var qtype := QType(msg, nameEnd);
    var audited := CStr(domain[..]);
    ghost var text := Take(NameFrom(msg, HEADER_SIZE, 0).text, DOMAIN_SIZE - 1);
    TerminatedCStr(domain[..], |text|);
    if qtype == 252 {
      n := BuildServfail(msg, resp);
      if n > 0 {
        resp[3] := WithRcode(resp[3], 5);
        assert resp[..n] == Refused(msg, RECV_SIZE);
      }
    } else if qtype == 1 {
      n := BuildFakeA(mem, len, nameEnd, resp);
    } else {
      n := BuildServfail(msg, resp);
    }
    reply := Reply(resp[..n], Some(audited));
  }
}
