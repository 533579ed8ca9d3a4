/** Messages as sections 4.1.1 to 4.1.4 of RFC 1035 have them, as far as one question and its answers go. */
module DnsFormat {
  import opened Bytes
  import opened Common

  type Labels = seq<seq<byte>>

  /** A name read at some place, and where it ends. */
  datatype Read = Read(labels: Labels, next: nat)

  datatype Question = Question(name: Labels, qtype: seq<byte>, qclass: seq<byte>)

  datatype Record = Record(name: Labels, rtype: seq<byte>, rclass: seq<byte>, ttl: nat, data: seq<byte>)

  datatype Message = Message(
    id: seq<byte>, response: bool, opcode: byte, authoritative: bool, truncated: bool,
    recursionDesired: bool, recursionAvailable: bool, rcode: byte,
    questions: seq<Question>, answers: seq<Record>)

  const HEADER: nat := 12
  const IN: seq<byte> := [0, 1]
  const A: seq<byte> := [0, 1]

  /** The first octet of a label or a pointer. */
  predicate IsPointer(b: byte) {
    b & 0xC0 == 0xC0
  }

  predicate TooLong(b: byte) {
    b > 63
  }

  function Size(b: byte): nat {
    b as nat
  }

  /** Sections 3.1 and 4.1.4: labels of 1 to 63 octets up to a zero octet, or up to a pointer to a prior name. */
  function Name(m: seq<byte>, pos: nat, bound: nat): (r: Option<Read>)
    requires pos <= |m|
    ensures r.Some? ==> pos < r.value.next <= |m|
    decreases bound, |m| - pos
  {
    if pos == |m| then None
    else if m[pos] == 0 then Some(Read([], pos + 1))
    else if IsPointer(m[pos]) then
      if pos + 1 == |m| then None else
        var target := BigEndianValue([m[pos] & 0x3F, m[pos + 1]]);
        if !(HEADER <= target < bound && target <= |m|) then None else
          match Name(m, target, target)
          case None => None
          case Some(prior) => Some(Read(prior.labels, pos + 2))
    else if TooLong(m[pos]) || pos + 1 + Size(m[pos]) > |m| then None
    else
      var end := pos + 1 + Size(m[pos]);
      match Name(m, end, bound)
      case None => None
      case Some(more) => Some(Read([m[pos + 1..end]] + more.labels, more.next))
  }

  function Questions(m: seq<byte>, pos: nat, n: nat): (r: Option<(seq<Question>, nat)>)
    requires pos <= |m|
    ensures r.Some? ==> r.value.1 <= |m|
    decreases n
  {
    if n == 0 then Some(([], pos)) else
      match Name(m, pos, pos)
      case None => None
      case Some(name) =>
        if name.next + 4 > |m| then None else
          match Questions(m, name.next + 4, n - 1)
          case None => None
          case Some(more) =>
            var q := Question(name.labels, m[name.next..name.next + 2], m[name.next + 2..name.next + 4]);
            Some(([q] + more.0, more.1))
  }

  function Records(m: seq<byte>, pos: nat, n: nat): (r: Option<(seq<Record>, nat)>)
    requires pos <= |m|
    ensures r.Some? ==> r.value.1 <= |m|
    decreases n
  {
    if n == 0 then Some(([], pos)) else
      match Name(m, pos, pos)
      case None => None
      case Some(name) =>
        var at := name.next;
        if at + 10 > |m| || at + 10 + BigEndianValue(m[at + 8..at + 10]) > |m| then None else
          var end := at + 10 + BigEndianValue(m[at + 8..at + 10]);
          match Records(m, end, n - 1)
          case None => None
          case Some(more) =>
            var r := Record(name.labels, m[at..at + 2], m[at + 2..at + 4], BigEndianValue(m[at + 4..at + 8]),
                            m[at + 10..end]);
            Some(([r] + more.0, more.1))
  }

  /** One record, when it is the last thing in the message. */
  lemma LastRecord(m: seq<byte>, pos: nat)
    requires pos <= |m|
    ensures Name(m, pos, pos).None? ==> Records(m, pos, 1).None?
    ensures Name(m, pos, pos).Some? ==>
      var name, n: nat := Name(m, pos, pos).value, |m|;
      var at := name.next;
      at + 10 <= |m| && at + 10 + BigEndianValue(m[at + 8..at + 10]) == |m| ==>
      Records(m, pos, 1)
      == Some(([Record(name.labels, m[at..at + 2], m[at + 2..at + 4], BigEndianValue(m[at + 4..at + 8]),
                       m[at + 10..n])], n))
  {
    hide Name, BigEndianValue;
    var n: nat := |m|;
    assert Records(m, n, 0) == Some(([], n));
    assert forall r: Record :: [r] + [] == [r];
  }

  /** A whole message with neither authority nor additional records. */
  function Decode(m: seq<byte>): Option<Message> {
    if |m| < HEADER || m[8..12] != [0, 0, 0, 0] then None else
      match Questions(m, HEADER, BigEndianValue(m[4..6]))
      case None => None
      case Some(qs) =>
        match Records(m, qs.1, BigEndianValue(m[6..8]))
        case None => None
        case Some(rs) =>
          if rs.1 != |m| then None else
            Some(Message(m[..2], m[2] & 0x80 != 0, (m[2] >> 3) & 0x0F, m[2] & 0x04 != 0, m[2] & 0x02 != 0,
                         m[2] & 0x01 != 0, m[3] & 0x80 != 0, m[3] & 0x0F, qs.0, rs.0))
  }

  /** Labels have one to 63 octets. */
  predicate Encodable(labels: Labels) {
    forall l | l in labels :: 1 <= |l| <= 63
  }

  /** A name on the wire. */
  function EncodeName(labels: Labels): (s: seq<byte>)
    requires Encodable(labels)
    ensures |s| >= 1
  {
    if labels == [] then [0] else [LowByte(|labels[0]|)] + labels[0] + EncodeName(labels[1..])
  }

  lemma LabelOctet(n: nat)
    requires 1 <= n <= 63
    ensures var b := LowByte(n);
            Size(b) == n && b != 0 && !IsPointer(b) && !TooLong(b)
  {
    var b := LowByte(n);
    AtMost63(b);
  }

  lemma AtMost63(b: byte)
    requires b as nat <= 63
    ensures b <= 63 && b & 0xC0 == 0
  {
    Order(b, 63);
  }

  lemma Order(a: byte, b: byte)
    requires a as nat <= b as nat
    ensures a <= b
  {
  }

  lemma NameOfLabel(m: seq<byte>, pos: nat, l: seq<byte>, bound: nat)
    requires 1 <= |l| <= 63 && pos + 1 + |l| <= |m|
    requires m[pos] == LowByte(|l|) && m[pos + 1..pos + 1 + |l|] == l
    ensures Name(m, pos, bound) ==
              match Name(m, pos + 1 + |l|, bound)
              case None => None
              case Some(more) => Some(Read([l] + more.labels, more.next))
  {
    LabelOctet(|l|);
    hide IsPointer, TooLong, Size, LowByte;
  }

  lemma EncodeFirst(labels: Labels)
    requires labels != [] && Encodable(labels)
    ensures EncodeName(labels) == [LowByte(|labels[0]|)] + labels[0] + EncodeName(labels[1..])
  {
  }

  /** Where the octets of a name stand, it is read. */
  lemma {:induction false} NameAt(m: seq<byte>, pos: nat, labels: Labels, bound: nat)
    requires Encodable(labels)
    requires pos + |EncodeName(labels)| <= |m| && m[pos..pos + |EncodeName(labels)|] == EncodeName(labels)
    ensures Name(m, pos, bound) == Some(Read(labels, pos + |EncodeName(labels)|))
    decreases |labels|
  {
    hide Name, LowByte, EncodeName;
    if labels == [] {
      NameEmpty(m, pos, bound);
    } else {
      var l, more := labels[0], labels[1..];
      EncodeFirst(labels);
      FirstLabel(m, pos, LowByte(|l|), l, EncodeName(more));
      NameAt(m, pos + 1 + |l|, more, bound);
      NameOfLabel(m, pos, l, bound);
      assert labels == [l] + more;
    }
  }

  lemma NameEmpty(m: seq<byte>, pos: nat, bound: nat)
    requires pos + |EncodeName([])| <= |m| && m[pos..pos + |EncodeName([])|] == EncodeName([])
    ensures Name(m, pos, bound) == Some(Read([], pos + |EncodeName([])|))
  {
    assert m[pos] == m[pos..pos + 1][0];
  }

  lemma FirstLabel(m: seq<byte>, pos: nat, b: byte, l: seq<byte>, rest: seq<byte>)
    requires var e := [b] + l + rest; pos + |e| <= |m| && m[pos..pos + |e|] == e
    ensures m[pos] == b && m[pos + 1..pos + 1 + |l|] == l && m[pos + 1 + |l|..pos + 1 + |l| + |rest|] == rest
  {
    var e, k := [b] + l + rest, pos + 1 + |l|;
    assert m[pos] == m[pos..pos + |e|][0];
    SliceOfSlice(m, pos, pos + 1, k, pos + |e|);
    SliceOfSlice(m, pos, k, k + |rest|, pos + |e|);
    assert e[1..1 + |l|] == l && e[1 + |l|..1 + |l| + |rest|] == rest;
  }

  /** A name that was put in is read back, wherever it stands and whatever follows. */
  lemma NameRoundTrip(before: seq<byte>, labels: Labels, rest: seq<byte>, bound: nat)
    requires Encodable(labels)
    ensures Name(before + EncodeName(labels) + rest, |before|, bound)
         == Some(Read(labels, |before| + |EncodeName(labels)|))
  {
    hide Name, EncodeName;
    NameAt(before + EncodeName(labels) + rest, |before|, labels, bound);
  }

  /** One label of a name without pointers. */
  lemma NameAfterLabel(m: seq<byte>, pos: nat)
    requires HEADER <= pos <= |m| && Name(m, pos, HEADER).Some? && m[pos] != 0
    ensures var end := pos + 1 + Size(m[pos]);
            && end <= |m| && !IsPointer(m[pos]) && !TooLong(m[pos])
            && Name(m, end, HEADER).Some? && Name(m, end, HEADER).value.next == Name(m, pos, HEADER).value.next
  {
    hide IsPointer, TooLong, Size;
  }

  lemma SameLabel(m: seq<byte>, m': seq<byte>, pos: nat)
    requires pos < |m| && pos < |m'| && m[pos] == m'[pos] && m[pos] != 0 && !IsPointer(m[pos]) && !TooLong(m[pos])
    requires var end := pos + 1 + Size(m[pos]);
             && end <= |m| && end <= |m'| && m[pos + 1..end] == m'[pos + 1..end]
             && Name(m, end, HEADER) == Name(m', end, HEADER)
    ensures Name(m', pos, HEADER) == Name(m, pos, HEADER)
  {
    hide IsPointer, TooLong, Size;
  }

  /** A name without pointers depends on its own octets only. */
  lemma {:induction false} NameFrame(m: seq<byte>, m': seq<byte>, pos: nat)
    requires HEADER <= pos <= |m| && Name(m, pos, HEADER).Some?
    requires var e := Name(m, pos, HEADER).value.next; e <= |m'| && m'[pos..e] == m[pos..e]
    ensures Name(m', pos, HEADER) == Name(m, pos, HEADER)
    decreases |m| - pos
  {
    hide IsPointer, TooLong, Size;
    var e := Name(m, pos, HEADER).value.next;
    assert m'[pos] == m'[pos..e][0] == m[pos..e][0] == m[pos];
    if m[pos] != 0 {
      NameAfterLabel(m, pos);
      NameFrameStep(m, m', pos, e);
    }
  }

  lemma {:induction false} NameFrameStep(m: seq<byte>, m': seq<byte>, pos: nat, e: nat)
    requires HEADER <= pos < |m| && pos < |m'| && m[pos] == m'[pos] && m[pos] != 0
    requires !IsPointer(m[pos]) && !TooLong(m[pos]) && pos + 1 + Size(m[pos]) <= |m|
    requires Name(m, pos + 1 + Size(m[pos]), HEADER).Some? && Name(m, pos + 1 + Size(m[pos]), HEADER).value.next == e
    requires e <= |m'| && m'[pos..e] == m[pos..e]
    ensures Name(m', pos, HEADER) == Name(m, pos, HEADER)
    decreases |m| - pos, 0
  {
    hide Name, IsPointer, TooLong, Size;
    var end := pos + 1 + Size(m[pos]);
    SliceOfSlice(m, pos, end, e, e);
    SliceOfSlice(m', pos, end, e, e);
    SliceOfSlice(m, pos, pos + 1, end, e);
    SliceOfSlice(m', pos, pos + 1, end, e);
    NameFrame(m, m', end);
    SameLabel(m, m', pos);
  }
}
