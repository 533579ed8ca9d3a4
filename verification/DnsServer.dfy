/**
 What the DNS task of main/dns_server.c does with one datagram, in its buffer: the rate limiter,
 the scan of the question, and the reply.
 */
module DnsServer {
  import opened Bytes
  import opened Common
  import opened DnsFormat

  // ----- What a datagram calls for -----

  const NOTIMP: byte := 4
  const FORMERR: byte := 1
  const REFUSED: byte := 5

  /** The end of the question's name, a pointer counting as an end. */
  function SkipName(m: seq<byte>, i: nat): (r: Option<nat>)
    ensures r.Some? ==> i < r.value <= |m|
    decreases |m| - i
  {
    if i >= |m| then None
    else if m[i] == 0 then Some(i + 1)
    else if IsPointer(m[i]) then if i + 1 >= |m| then None else Some(i + 2)
    else if TooLong(m[i]) then None
    else SkipName(m, i + Size(m[i]) + 1)
  }

  datatype Verdict = Ignore | HeaderOnly(rcode: byte) | Refuse(end: nat) | Answer(end: nat) | NoData(end: nat)

  /** A query, as far as the rate limiter looks. */
  predicate Counted(m: seq<byte>) {
    |m| >= HEADER && m[2] & 0x80 == 0
  }

  function Judge(m: seq<byte>): (v: Verdict)
    requires Counted(m)
    ensures v.Refuse? || v.Answer? || v.NoData? ==> HEADER <= v.end <= |m|
  {
    if (m[2] >> 3) & 0x0F != 0 then HeaderOnly(NOTIMP)
    else if m[4..6] != [0, 1] then Ignore
    else
      match SkipName(m, HEADER)
      case None => HeaderOnly(FORMERR)
      case Some(i) =>
        if i + 4 > |m| then HeaderOnly(FORMERR)
        else if m[i + 2..i + 4] != IN then Refuse(i + 4)
        else if m[i..i + 2] == A then Answer(i + 4)
        else NoData(i + 4)
  }

  /** The header of a reply: the same ID and RD, QR and AA set, and the counts. */
  function Head(m: seq<byte>, rcode: byte, qd: byte, an: byte): (h: seq<byte>)
    requires |m| >= HEADER
    ensures |h| == HEADER
  {
    m[..2] + [(m[2] & 0x01) | 0x84, rcode, 0, qd, 0, an, 0, 0, 0, 0]
  }

  lemma HeadOctets(m: seq<byte>, rcode: byte, qd: byte, an: byte)
    requires |m| >= HEADER
    ensures Head(m, rcode, qd, an) == [m[0], m[1], (m[2] & 0x01) | 0x84, rcode, 0, qd, 0, an, 0, 0, 0, 0]
  {
  }

  /** Name: the question's; type A, class IN, sixty seconds, four octets. */
  const ANSWER: seq<byte> := [0xC0, 0x0C, 0, 1, 0, 1, 0, 0, 0, 0x3C, 0, 4]

  const NO_ADDRESS: seq<byte> := [0, 0, 0, 0]

  function Reply(m: seq<byte>, ip: seq<byte>, bufSize: nat): Option<seq<byte>>
    requires Counted(m)
  {
    match Judge(m)
    case Ignore => None
    case HeaderOnly(rcode) => Some(Head(m, rcode, 0, 0))
    case Refuse(end) => Some(Head(m, REFUSED, 1, 0) + m[HEADER..end])
    case NoData(end) => Some(Head(m, 0, 1, 0) + m[HEADER..end])
    case Answer(end) =>
      if ip == NO_ADDRESS || end + 16 > bufSize then None
      else Some(Head(m, 0, 1, 1) + m[HEADER..end] + (ANSWER + ip))
  }

  // ----- What a reply says -----

  lemma SmallValues()
    ensures BigEndianValue([0, 0]) == 0 && BigEndianValue([0, 1]) == 1 && BigEndianValue([0, 4]) == 4
    ensures BigEndianValue([0, 12]) == 12 && BigEndianValue([0, 0, 0, 0x3C]) == 60
  {
    var z: seq<byte> := [0];
    Last([], 0);
    Last(z, 0);
    Last(z, 1);
    Last(z, 4);
    Last(z, 12);
    Last(z + [0], 0);
    Last(z + [0] + [0], 0x3C);
    assert z + [0] + [0] + [0x3C] == [0, 0, 0, 0x3C];
  }

  lemma Last(s: seq<byte>, b: byte)
    ensures BigEndianValue(s + [b]) == 256 * BigEndianValue(s) + b as nat
  {
    assert (s + [b])[..|s|] == s;
  }

  /** A well-formed name is skipped to its end. */
  lemma {:induction false} NameIsSkipped(m: seq<byte>, pos: nat)
    requires HEADER <= pos <= |m|
    requires Name(m, pos, HEADER).Some?
    ensures SkipName(m, pos) == Some(Name(m, pos, HEADER).value.next)
    decreases |m| - pos
  {
    hide IsPointer, TooLong, Size;
    if m[pos] != 0 {
      NameIsSkipped(m, pos + 1 + Size(m[pos]));
    }
  }

  /** The labels from i on lead to a pointer. */
  predicate EndsInPointer(m: seq<byte>, i: nat)
    decreases |m| - i
  {
    && i < |m|
    && (IsPointer(m[i]) || (m[i] != 0 && !TooLong(m[i]) && EndsInPointer(m, i + Size(m[i]) + 1)))
  }

  /** Of the names the scan gets past, the well-formed ones are exactly those without a pointer. */
  lemma {:induction false} SkippedIsNameIffNoPointer(m: seq<byte>, i: nat)
    requires HEADER <= i <= |m| && SkipName(m, i).Some?
    ensures Name(m, i, HEADER).Some? <==> !EndsInPointer(m, i)
    decreases |m| - i
  {
    ZeroIsNoPointer(m[i]);
    hide IsPointer, TooLong, Size;
    if m[i] != 0 && !IsPointer(m[i]) {
      SkippedIsNameIffNoPointer(m, i + Size(m[i]) + 1);
    }
  }

  lemma ZeroIsNoPointer(b: byte)
    ensures b == 0 ==> !IsPointer(b)
  {
  }

  lemma ReplyFlags(x: byte)
    ensures var b := (x & 0x01) | 0x84;
            && b & 0x80 != 0 && (b >> 3) & 0x0F == 0 && b & 0x04 != 0 && b & 0x02 == 0
            && b & 0x01 == x & 0x01
  {
  }

  /** The message a reply should be: the query's ID and RD, and nothing else of its header. */
  function Replied(m: seq<byte>, rcode: byte, questions: seq<Question>, answers: seq<Record>): Message
    requires |m| >= HEADER
  {
    Message(m[..2], true, 0, true, false, m[2] & 0x01 != 0, false, rcode, questions, answers)
  }

  /** Reading a reply comes down to reading what follows its header. */
  lemma DecodeReply(m: seq<byte>, rcode: byte, qd: byte, an: byte, body: seq<byte>)
    requires |m| >= HEADER && rcode <= 5
    ensures Decode(Head(m, rcode, qd, an) + body) ==
              var r := Head(m, rcode, qd, an) + body;
              match Questions(r, HEADER, BigEndianValue([0, qd]))
              case None => None
              case Some(qs) =>
                match Records(r, qs.1, BigEndianValue([0, an]))
                case None => None
                case Some(rs) => if rs.1 != |r| then None else Some(Replied(m, rcode, qs.0, rs.0))
  {
    hide Questions, Records, BigEndianValue, Head;
    HeadFields(m, rcode, qd, an, body);
  }

  lemma HeadFields(m: seq<byte>, rcode: byte, qd: byte, an: byte, body: seq<byte>)
    requires |m| >= HEADER && rcode <= 5
    ensures var r := Head(m, rcode, qd, an) + body;
            && r[..2] == m[..2] && r[4..6] == [0, qd] && r[6..8] == [0, an] && r[8..12] == [0, 0, 0, 0]
            && r[2] & 0x80 != 0 && (r[2] >> 3) & 0x0F == 0 && r[2] & 0x04 != 0 && r[2] & 0x02 == 0
            && r[2] & 0x01 == m[2] & 0x01 && r[3] & 0x80 == 0 && r[3] & 0x0F == rcode
  {
    ReplyFlags(m[2]);
    SmallCode(rcode);
    HeadSlices(m, rcode, qd, an, body);
    hide Head;
  }

  lemma HeadSlices(m: seq<byte>, rcode: byte, qd: byte, an: byte, body: seq<byte>)
    requires |m| >= HEADER
    ensures var r := Head(m, rcode, qd, an) + body;
            && r[..2] == m[..2] && r[4..6] == [0, qd] && r[6..8] == [0, an] && r[8..12] == [0, 0, 0, 0]
            && r[2] == (m[2] & 0x01) | 0x84 && r[3] == rcode
  {
    var h := Head(m, rcode, qd, an);
    HeadOctets(m, rcode, qd, an);
    hide Head;
    Fields(h, body);
    assert [0, 0, 0, 0] == [h[8], h[9], h[10], h[11]];
    assert m[..2] == [m[0], m[1]];
  }

  /** The fields of a header, octet by octet, whatever follows it. */
  lemma Fields(h: seq<byte>, body: seq<byte>)
    requires |h| == HEADER
    ensures var r := h + body;
            && r[..2] == [h[0], h[1]] && r[2] == h[2] && r[3] == h[3]
            && r[4..6] == [h[4], h[5]] && r[6..8] == [h[6], h[7]] && r[8..12] == [h[8], h[9], h[10], h[11]]
  {
  }

  lemma SmallCode(rcode: byte)
    requires rcode <= 5
    ensures rcode & 0x80 == 0 && rcode & 0x0F == rcode
  {
  }

  lemma HeaderDecodes(m: seq<byte>, rcode: byte)
    requires |m| >= HEADER && rcode <= 5
    ensures Decode(Head(m, rcode, 0, 0)) == Some(Replied(m, rcode, [], []))
  {
    SmallValues();
    DecodeReply(m, rcode, 0, 0, []);
    assert Head(m, rcode, 0, 0) + [] == Head(m, rcode, 0, 0);
  }

  /** A question that is copied reads the same in the reply. */
  lemma QuestionCopied(m: seq<byte>, h: seq<byte>, end: nat, tail: seq<byte>)
    requires |h| == HEADER && HEADER <= end <= |m| && SkipName(m, HEADER) == Some(end - 4)
    ensures var r := h + m[HEADER..end] + tail;
            Name(r, HEADER, HEADER) == Name(m, HEADER, HEADER)
  {
    var r := h + m[HEADER..end] + tail;
    assert r[HEADER..end] == m[HEADER..end];
    SliceOfSlice(m, HEADER, HEADER, end - 4, end);
    SliceOfSlice(r, HEADER, HEADER, end - 4, end);
    SkipSame(m, r, HEADER, end - 4);
    if Name(m, HEADER, HEADER).Some? {
      NameIsSkipped(m, HEADER);
      NameFrame(m, r, HEADER);
    } else if Name(r, HEADER, HEADER).Some? {
      NameIsSkipped(r, HEADER);
      NameFrame(r, m, HEADER);
    }
  }

  lemma {:induction false} SkipSame(m: seq<byte>, r: seq<byte>, pos: nat, end: nat)
    requires HEADER <= pos <= |m| && SkipName(m, pos) == Some(end)
    requires end <= |r| && m[pos..end] == r[pos..end]
    ensures SkipName(r, pos) == Some(end)
    decreases |m| - pos
  {
    hide IsPointer, TooLong, Size;
    assert m[pos] == m[pos..end][0] == r[pos..end][0] == r[pos];
    if m[pos] != 0 && !IsPointer(m[pos]) {
      var next := pos + Size(m[pos]) + 1;
      SliceOfSlice(m, pos, next, end, end);
      SliceOfSlice(r, pos, next, end, end);
      SkipSame(m, r, next, end);
    }
  }

  /** A reply with the question and no answer. */
  lemma QuestionDecodes(m: seq<byte>, rcode: byte, end: nat)
    requires |m| >= HEADER && rcode <= 5 && HEADER + 4 <= end <= |m| && SkipName(m, HEADER) == Some(end - 4)
    ensures Decode(Head(m, rcode, 1, 0) + m[HEADER..end]) ==
              match Name(m, HEADER, HEADER)
              case None => None
              case Some(name) =>
                Some(Replied(m, rcode, [Question(name.labels, m[end - 4..end - 2], m[end - 2..end])], []))
  {
    var h := Head(m, rcode, 1, 0);
    var r := h + m[HEADER..end];
    SmallValues();
    DecodeReply(m, rcode, 1, 0, m[HEADER..end]);
    QuestionCopied(m, h, end, []);
    assert r + [] == r;
    OneQuestion(m, r, end);
    hide Name, Decode, SkipName, BigEndianValue;
  }

  lemma OneQuestion(m: seq<byte>, r: seq<byte>, end: nat)
    requires HEADER + 4 <= end <= |m| && end <= |r| && m[HEADER..end] == r[HEADER..end]
    requires SkipName(m, HEADER) == Some(end - 4)
    requires Name(r, HEADER, HEADER) == Name(m, HEADER, HEADER)
    ensures Questions(r, HEADER, 1) ==
              match Name(m, HEADER, HEADER)
              case None => None
              case Some(name) => Some(([Question(name.labels, m[end - 4..end - 2], m[end - 2..end])], end))
  {
    hide Name, SkipName;
    if Name(m, HEADER, HEADER).Some? {
      NameIsSkipped(m, HEADER);
      QuestionAt(m, r, end);
      QuestionsOfOne(r, Name(r, HEADER, HEADER).value);
    }
  }

  lemma QuestionAt(m: seq<byte>, r: seq<byte>, end: nat)
    requires HEADER + 4 <= end <= |m| && end <= |r| && m[HEADER..end] == r[HEADER..end]
    ensures r[end - 4..end - 2] == m[end - 4..end - 2] && r[end - 2..end] == m[end - 2..end]
  {
    SliceOfSlice(m, HEADER, end - 4, end - 2, end);
    SliceOfSlice(r, HEADER, end - 4, end - 2, end);
    SliceOfSlice(m, HEADER, end - 2, end, end);
    SliceOfSlice(r, HEADER, end - 2, end, end);
  }

  lemma QuestionsOfOne(r: seq<byte>, name: Read)
    requires |r| >= HEADER && Name(r, HEADER, HEADER) == Some(name) && name.next + 4 <= |r|
    ensures var at := name.next;
            Questions(r, HEADER, 1) == Some(([Question(name.labels, r[at..at + 2], r[at + 2..at + 4])], at + 4))
  {
    hide Name;
    var at := name.next;
    assert Questions(r, at + 4, 0) == Some(([], at + 4));
    var q := Question(name.labels, r[at..at + 2], r[at + 2..at + 4]);
    assert [q] + [] == [q];
  }

  /** The record of an answer stands for the name at the start of the question. */
  lemma PointedName(r: seq<byte>, at: nat)
    requires HEADER < at && at + 2 <= |r| && r[at] == 0xC0 && r[at + 1] == 0x0C
    ensures Name(r, at, at) ==
              match Name(r, HEADER, HEADER)
              case None => None
              case Some(name) => Some(Read(name.labels, at + 2))
  {
    SmallValues();
    assert r[at] & 0x3F == 0;
  }

  lemma AnswerFields(r: seq<byte>, at: nat, ip: seq<byte>)
    requires |r| == at + 16 && |ip| == 4 && r[at..] == ANSWER + ip
    ensures r[at] == 0xC0 && r[at + 1] == 0x0C && r[at + 2..at + 4] == A && r[at + 4..at + 6] == IN
    ensures r[at + 6..at + 10] == [0, 0, 0, 0x3C] && r[at + 10..at + 12] == [0, 4] && r[at + 12..at + 16] == ip
  {
    var t := ANSWER + ip;
    assert r[at] == r[at..][0] && r[at + 1] == r[at..][1];
    SliceOfSlice(r, at, at + 2, at + 4, |r|);
    SliceOfSlice(r, at, at + 4, at + 6, |r|);
    SliceOfSlice(r, at, at + 6, at + 10, |r|);
    SliceOfSlice(r, at, at + 10, at + 12, |r|);
    SliceOfSlice(r, at, at + 12, at + 16, |r|);
    assert r[at..|r|] == t;
    AnswerParts();
    assert t[2..4] == ANSWER[2..4] && t[4..6] == ANSWER[4..6] && t[6..10] == ANSWER[6..10];
    assert t[10..12] == ANSWER[10..12] && t[12..16] == ip;
  }

  lemma AnswerParts()
    ensures ANSWER[2..4] == A && ANSWER[4..6] == IN && ANSWER[6..10] == [0, 0, 0, 0x3C] && ANSWER[10..12] == [0, 4]
  {
  }

  lemma OneRecord(r: seq<byte>, at: nat, ip: seq<byte>)
    requires HEADER < at && |r| == at + 16 && |ip| == 4 && r[at..] == ANSWER + ip
    ensures Records(r, at, 1) ==
              match Name(r, HEADER, HEADER)
              case None => None
              case Some(name) => Some(([Record(name.labels, A, IN, 60, ip)], at + 16))
  {
    SmallValues();
    AnswerFields(r, at, ip);
    PointedName(r, at);
    LastRecord(r, at);
    hide Name, Records, BigEndianValue;
  }

  /** A reply with the question and the answer. */
  lemma AnswerDecodes(m: seq<byte>, ip: seq<byte>, end: nat)
    requires |m| >= HEADER && HEADER + 4 <= end <= |m| && SkipName(m, HEADER) == Some(end - 4) && |ip| == 4
    ensures Decode(Head(m, 0, 1, 1) + m[HEADER..end] + (ANSWER + ip)) ==
              match Name(m, HEADER, HEADER)
              case None => None
              case Some(name) =>
                Some(Replied(m, 0, [Question(name.labels, m[end - 4..end - 2], m[end - 2..end])],
                             [Record(name.labels, A, IN, 60, ip)]))
  {
    hide Name, Decode, SkipName, BigEndianValue, Questions, Records, Head;
    var h := Head(m, 0, 1, 1);
    var body := m[HEADER..end] + (ANSWER + ip);
    var r := h + m[HEADER..end] + (ANSWER + ip);
    ThreePieces(h, m[HEADER..end], ANSWER + ip);
    SmallValues();
    DecodeReply(m, 0, 1, 1, body);
    QuestionCopied(m, h, end, ANSWER + ip);
    OneQuestion(m, r, end);
    OneRecord(r, end, ip);
  }

  lemma ThreePieces(a: seq<byte>, b: seq<byte>, c: seq<byte>)
    ensures a + b + c == a + (b + c) && (a + b + c)[|a|..|a| + |b|] == b && (a + b + c)[|a| + |b|..] == c
  {
  }

  // ----- The main results on replies -----

  /** The question that a reply repeats, in the server's reading of the query. */
  function Asked(m: seq<byte>, labels: Labels, end: nat): Question
    requires 4 <= end <= |m|
  {
    Question(labels, m[end - 4..end - 2], m[end - 2..end])
  }

  /**
   Every reply is a message with the query's ID and RD; with a question in it, it can be read exactly
   when the question's name has no pointer, and then it repeats the question, and an answer is one
   address record for that name, for sixty seconds.
   */
  lemma ReplySays(m: seq<byte>, ip: seq<byte>, bufSize: nat)
    requires Counted(m) && |ip| == 4 && Reply(m, ip, bufSize).Some?
    ensures var d, v, name := Decode(Reply(m, ip, bufSize).value), Judge(m), Name(m, HEADER, HEADER);
            && (d.Some? <==> v.HeaderOnly? || !EndsInPointer(m, HEADER))
            && (d.Some? && v.HeaderOnly? ==> d.value == Replied(m, v.rcode, [], []))
            && (d.Some? && !v.HeaderOnly? ==>
                && !v.Ignore? && v.end >= 4 && name.Some?
                && d.value == Replied(m, if v.Refuse? then REFUSED else 0, [Asked(m, name.value.labels, v.end)],
                                      if v.Answer? then [Record(name.value.labels, A, IN, 60, ip)] else []))
  {
    hide Decode, Name, SkipName, Head, EndsInPointer;
    if !Judge(m).HeaderOnly? {
      SkippedIsNameIffNoPointer(m, HEADER);
    }
    match Judge(m)
    case Ignore =>
    case HeaderOnly(rcode) => HeaderDecodes(m, rcode);
    case Refuse(end) => QuestionDecodes(m, REFUSED, end);
    case NoData(end) => QuestionDecodes(m, 0, end);
    case Answer(end) => AnswerDecodes(m, ip, end);
  }

  /** A query whose name is a pointer to itself is answered, and the answer cannot be read. */
  lemma PointerQueryUnreadable(ip: seq<byte>)
    requires |ip| == 4 && ip != NO_ADDRESS
    ensures var m: seq<byte> := [1, 2, 1, 0, 0, 1, 0, 0, 0, 0, 0, 0, 0xC0, 0x0C, 0, 1, 0, 1];
            && Counted(m) && Judge(m) == Answer(18) && EndsInPointer(m, HEADER)
            && Reply(m, ip, 512).Some? && Decode(Reply(m, ip, 512).value).None?
  {
    var m: seq<byte> := [1, 2, 1, 0, 0, 1, 0, 0, 0, 0, 0, 0, 0xC0, 0x0C, 0, 1, 0, 1];
    assert m[4..6] == [0, 1] && m[14..16] == A && m[16..18] == IN;
    assert IsPointer(m[12]) && EndsInPointer(m, HEADER) && SkipName(m, HEADER) == Some(14);
    assert Judge(m) == Answer(18);
    ReplySays(m, ip, 512);
    hide Decode, Name;
  }

  /** A standard query as a client puts it together: one question, and anything after it. */
  function Query(id: seq<byte>, flags: byte, more: byte, counts: seq<byte>, labels: Labels, question: seq<byte>,
                 rest: seq<byte>)
    : (m: seq<byte>)
    requires |id| == 2 && |counts| == 6 && |question| == 4 && Encodable(labels)
    ensures |m| >= HEADER + |EncodeName(labels)| + 4
  {
    (id + [flags, more, 0, 1] + counts) + EncodeName(labels) + (question + rest)
  }

  /**
   The round trip: an address query for any name is answered by the access point's address, exactly
   when there is one and the reply fits the buffer.
   */
  lemma AddressQueryAnswered(id: seq<byte>, flags: byte, more: byte, counts: seq<byte>, labels: Labels, rest: seq<byte>,
                             ip: seq<byte>, bufSize: nat)
    requires |id| == 2 && |counts| == 6 && flags & 0xF8 == 0 && Encodable(labels)
    requires |ip| == 4
    ensures var m := Query(id, flags, more, counts, labels, A + IN, rest);
            && Counted(m)
            && (Reply(m, ip, bufSize).Some? <==> ip != NO_ADDRESS && HEADER + |EncodeName(labels)| + 20 <= bufSize)
            && (Reply(m, ip, bufSize).Some? ==>
                Decode(Reply(m, ip, bufSize).value)
                == Some(Message(id, true, 0, true, false, flags & 0x01 != 0, false, 0,
                                [Question(labels, A, IN)], [Record(labels, A, IN, 60, ip)])))
  {
    hide *;
    QueryAnswered(id, flags, more, counts, labels, rest, ip, bufSize);
    RepliedToQuery(id, flags, more, counts, labels, rest, [Question(labels, A, IN)], [Record(labels, A, IN, 60, ip)]);
  }

  lemma QueryAnswered(id: seq<byte>, flags: byte, more: byte, counts: seq<byte>, labels: Labels, rest: seq<byte>,
                      ip: seq<byte>, bufSize: nat)
    requires |id| == 2 && |counts| == 6 && flags & 0xF8 == 0 && Encodable(labels) && |ip| == 4
    ensures var m := Query(id, flags, more, counts, labels, A + IN, rest);
            && Counted(m)
            && (Reply(m, ip, bufSize).Some? <==> ip != NO_ADDRESS && HEADER + |EncodeName(labels)| + 20 <= bufSize)
            && (Reply(m, ip, bufSize).Some? ==>
                Decode(Reply(m, ip, bufSize).value)
                == Some(Replied(m, 0, [Question(labels, A, IN)], [Record(labels, A, IN, 60, ip)])))
  {
    hide Query, Decode, EncodeName, Reply, Counted, Replied, AsksAddress;
    QueryRead(id, flags, more, counts, labels, rest);
    var m := Query(id, flags, more, counts, labels, A + IN, rest);
    AddressAnswered(m, labels, HEADER + |EncodeName(labels)| + 4, ip, bufSize);
  }

  lemma QueryRead(id: seq<byte>, flags: byte, more: byte, counts: seq<byte>, labels: Labels, rest: seq<byte>)
    requires |id| == 2 && |counts| == 6 && flags & 0xF8 == 0 && Encodable(labels)
    ensures var m := Query(id, flags, more, counts, labels, A + IN, rest);
            var end := HEADER + |EncodeName(labels)| + 4;
            Counted(m) && AsksAddress(m, labels, end)
  {
    hide Query, Name, EncodeName;
    var m := Query(id, flags, more, counts, labels, A + IN, rest);
    QueryName(id, flags, more, counts, labels, A + IN, rest);
    QueryFields(id, flags, more, counts, labels, A + IN, rest);
    QuestionHalves(m, HEADER + |EncodeName(labels)| + 4);
  }

  lemma RepliedToQuery(id: seq<byte>, flags: byte, more: byte, counts: seq<byte>, labels: Labels, rest: seq<byte>,
                       questions: seq<Question>, answers: seq<Record>)
    requires |id| == 2 && |counts| == 6 && flags & 0xF8 == 0 && Encodable(labels)
    ensures Replied(Query(id, flags, more, counts, labels, A + IN, rest), 0, questions, answers)
         == Message(id, true, 0, true, false, flags & 0x01 != 0, false, 0, questions, answers)
  {
    hide Query;
    QueryFields(id, flags, more, counts, labels, A + IN, rest);
  }

  /** A query with one question, for the address of the labels, that ends at `end`. */
  predicate AsksAddress(m: seq<byte>, labels: Labels, end: nat) {
    && HEADER + 4 <= end <= |m| && (m[2] >> 3) & 0x0F == 0 && m[4..6] == [0, 1]
    && Name(m, HEADER, HEADER) == Some(Read(labels, end - 4)) && m[end - 4..end - 2] == A && m[end - 2..end] == IN
  }

  lemma AddressAnswered(m: seq<byte>, labels: Labels, end: nat, ip: seq<byte>, bufSize: nat)
    requires Counted(m) && AsksAddress(m, labels, end) && |ip| == 4
    ensures Reply(m, ip, bufSize).Some? <==> ip != NO_ADDRESS && end + 16 <= bufSize
    ensures Reply(m, ip, bufSize).Some? ==>
              Decode(Reply(m, ip, bufSize).value)
              == Some(Replied(m, 0, [Question(labels, A, IN)], [Record(labels, A, IN, 60, ip)]))
  {
    hide Decode, Name, Judge, SkipName;
    NameIsSkipped(m, HEADER);
    JudgedAddress(m, end);
    if Reply(m, ip, bufSize).Some? {
      SkippedIsNameIffNoPointer(m, HEADER);
      ReplySays(m, ip, bufSize);
    }
  }

  lemma JudgedAddress(m: seq<byte>, end: nat)
    requires Counted(m) && (m[2] >> 3) & 0x0F == 0 && m[4..6] == [0, 1]
    requires HEADER + 4 <= end <= |m| && SkipName(m, HEADER) == Some(end - 4)
    requires m[end - 4..end - 2] == A && m[end - 2..end] == IN
    ensures Judge(m) == Answer(end)
  {
    hide SkipName;
  }

  lemma QuestionHalves(m: seq<byte>, end: nat)
    requires 4 <= end <= |m| && m[end - 4..end] == A + IN
    ensures m[end - 4..end - 2] == A && m[end - 2..end] == IN
  {
    SliceOfSlice(m, end - 4, end - 4, end - 2, end);
    SliceOfSlice(m, end - 4, end - 2, end, end);
    Halves(m[end - 4..end], A, IN);
  }

  lemma Halves(s: seq<byte>, x: seq<byte>, y: seq<byte>)
    requires |x| == |y| == 2 && s == x + y
    ensures s[0..2] == x && s[2..4] == y
  {
  }

  lemma QueryName(id: seq<byte>, flags: byte, more: byte, counts: seq<byte>, labels: Labels, question: seq<byte>,
                  rest: seq<byte>)
    requires |id| == 2 && |counts| == 6 && |question| == 4 && Encodable(labels)
    ensures Name(Query(id, flags, more, counts, labels, question, rest), HEADER, HEADER)
         == Some(Read(labels, HEADER + |EncodeName(labels)|))
  {
    hide Name, EncodeName;
    var before := id + [flags, more, 0, 1] + counts;
    assert |before| == HEADER;
    NameRoundTrip(before, labels, question + rest, HEADER);
  }

  lemma QueryFields(id: seq<byte>, flags: byte, more: byte, counts: seq<byte>, labels: Labels, question: seq<byte>,
                    rest: seq<byte>)
    requires |id| == 2 && |counts| == 6 && |question| == 4 && flags & 0xF8 == 0 && Encodable(labels)
    ensures var m, at := Query(id, flags, more, counts, labels, question, rest), HEADER + |EncodeName(labels)|;
            && m[..2] == id && m[2] == flags && m[2] & 0x80 == 0 && (m[2] >> 3) & 0x0F == 0 && m[4..6] == [0, 1]
            && m[at..at + 4] == question
  {
    hide EncodeName;
    QueryParts(id + [flags, more, 0, 1] + counts, EncodeName(labels), question, rest);
    HeaderParts(id, flags, more, counts);
    PlainQuery(flags);
  }

  lemma PlainQuery(flags: byte)
    requires flags & 0xF8 == 0
    ensures flags & 0x80 == 0 && (flags >> 3) & 0x0F == 0
  {
  }

  lemma HeaderParts(id: seq<byte>, flags: byte, more: byte, counts: seq<byte>)
    requires |id| == 2 && |counts| == 6
    ensures var h := id + [flags, more, 0, 1] + counts;
            h[..2] == id && h[4..6] == [0, 1] && h[2] == flags
  {
  }

  lemma QueryParts(before: seq<byte>, e: seq<byte>, question: seq<byte>, rest: seq<byte>)
    requires |before| == HEADER && |question| == 4
    ensures var m, at := before + e + (question + rest), HEADER + |e|;
            m[..2] == before[..2] && m[2] == before[2] && m[4..6] == before[4..6] && m[at..at + 4] == question
  {
  }
}
