/**
 The receive loop of dns_server_task() in main/dns_server.c, one datagram at a time: the buffer that
 is turned into the reply in place, and the rate limiter over any trace of datagrams.
 */
module DnsTask {
  import opened Bytes
  import opened Common
  import opened DnsFormat
  import opened DnsServer

  // ----- The rate limiter -----

  const ONE_SECOND: int := 1_000_000

  datatype Window = Window(start: int, count: nat)

  /** The window after a datagram is counted, and whether it may be answered. */
  function Admit(w: Window, now: int, limit: nat): (Window, bool) {
    var w := if now - w.start > ONE_SECOND then Window(now, 0) else w;
    (w.(count := w.count + 1), w.count + 1 <= limit)
  }

  datatype Arrival = Arrival(now: int, datagram: seq<byte>)

  /** The window and how many were opened, after a trace of datagrams. */
  datatype Limiter = Limiter(window: Window, windows: nat)

  function After(trace: seq<Arrival>, limit: nat): Limiter {
    if trace == [] then Limiter(Window(0, 0), 0) else
      var n := |trace| - 1;
      var l, a := After(trace[..n], limit), trace[n];
      if !Counted(a.datagram) then l else
        Limiter(Admit(l.window, a.now, limit).0, l.windows + if a.now - l.window.start > ONE_SECOND then 1 else 0)
  }

  /** Whether the k-th datagram of the trace may be answered. */
  predicate Admitted(trace: seq<Arrival>, limit: nat, k: nat)
    requires k < |trace|
  {
    Counted(trace[k].datagram) && Admit(After(trace[..k], limit).window, trace[k].now, limit).1
  }

  /** How many of the datagrams i, ..., j-1 may be answered. */
  function CountAdmitted(trace: seq<Arrival>, limit: nat, i: nat, j: nat): nat
    requires i <= j <= |trace|
    decreases j
  {
    if i == j then 0 else CountAdmitted(trace, limit, i, j - 1) + if Admitted(trace, limit, j - 1) then 1 else 0
  }

  lemma CountNext(trace: seq<Arrival>, limit: nat, i: nat, j: nat)
    requires i <= j + 1 <= |trace|
    ensures CountAdmitted(trace, limit, i, j + 1)
         == if i == j + 1 then 0 else CountAdmitted(trace, limit, i, j) + if Admitted(trace, limit, j) then 1 else 0
  {
  }

  lemma AdmittedNow(trace: seq<Arrival>, limit: nat, k: nat)
    requires k < |trace|
    ensures Admitted(trace, limit, k)
       <==> Counted(trace[k].datagram) && Admit(After(trace[..k], limit).window, trace[k].now, limit).1
  {
  }

  /** Time does not run backwards, and does not start before the DNS task does. */
  predicate Monotone(trace: seq<Arrival>) {
    && (forall i | 0 <= i < |trace| :: 0 <= trace[i].now)
    && (forall i, j | 0 <= i < j < |trace| :: trace[i].now <= trace[j].now)
  }

  lemma AfterNext(trace: seq<Arrival>, limit: nat, k: nat)
    requires k < |trace|
    ensures var l, a := After(trace[..k], limit), trace[k];
            After(trace[..k + 1], limit) ==
              if !Counted(a.datagram) then l else
                Limiter(Admit(l.window, a.now, limit).0,
                        l.windows + if a.now - l.window.start > ONE_SECOND then 1 else 0)
  {
    assert trace[..k + 1][..k] == trace[..k];
  }

  /** No window admits more than the limit. */
  lemma {:induction false} AdmittedByWindows(trace: seq<Arrival>, limit: nat, i: nat, j: nat)
    requires i < j <= |trace|
    ensures var first, last := After(trace[..i + 1], limit), After(trace[..j], limit);
            && first.windows <= last.windows
            && CountAdmitted(trace, limit, i, j)
               <= limit * (last.windows - first.windows) + Min(last.window.count, limit)
    decreases j
  {
    hide Admit, Min, After;
    if i + 1 < j {
      AdmittedByWindows(trace, limit, i, j - 1);
      AfterNext(trace, limit, j - 1);
      var first, before := After(trace[..i + 1], limit), After(trace[..j - 1], limit);
      OneMore(before, trace[j - 1], limit, first.windows, CountAdmitted(trace, limit, i, j - 1));
    } else {
      FirstOne(trace, limit, i);
    }
  }

  lemma FirstOne(trace: seq<Arrival>, limit: nat, i: nat)
    requires i < |trace|
    ensures CountAdmitted(trace, limit, i, i + 1) <= Min(After(trace[..i + 1], limit).window.count, limit)
  {
    AfterNext(trace, limit, i);
    hide After;
    assert CountAdmitted(trace, limit, i, i) == 0;
  }

  lemma OneMore(before: Limiter, a: Arrival, limit: nat, first: nat, count: nat)
    requires first <= before.windows
    requires count <= limit * (before.windows - first) + Min(before.window.count, limit)
    ensures var (w, ok) := Admit(before.window, a.now, limit);
            var windows := before.windows + if a.now - before.window.start > ONE_SECOND then 1 else 0;
            count + (if ok then 1 else 0) <= limit * (windows - first) + Min(w.count, limit)
  {
    var n := before.windows - first;
    assert limit * (n + 1) == limit * n + limit;
  }

  /** Windows are opened more than a second apart, and no later than the datagram that opens them. */
  lemma {:induction false} WindowsApart(trace: seq<Arrival>, limit: nat, i: nat, j: nat)
    requires i < j <= |trace| && Monotone(trace)
    ensures var first, last := After(trace[..i + 1], limit), After(trace[..j], limit);
            && first.windows <= last.windows && last.window.start <= trace[j - 1].now
            && (last.windows > first.windows ==>
                last.window.start >= trace[i].now + (last.windows - first.windows - 1) * (ONE_SECOND + 1))
    decreases j
  {
    AfterNext(trace, limit, j - 1);
    if i + 1 < j {
      WindowsApart(trace, limit, i, j - 1);
    } else {
      StartIsPast(trace, limit, j - 1);
    }
  }

  lemma {:induction false} StartIsPast(trace: seq<Arrival>, limit: nat, k: nat)
    requires k < |trace| && Monotone(trace)
    ensures After(trace[..k], limit).window.start <= trace[k].now
  {
    if k > 0 {
      StartIsPast(trace, limit, k - 1);
      AfterNext(trace, limit, k - 1);
    }
  }

  /**
   In any stretch of a trace that takes no more than t microseconds, at most
   limit * (t / 1000001 + 2) datagrams are answered, error replies included.
   */
  lemma RateBound(trace: seq<Arrival>, limit: nat, i: nat, j: nat, t: nat)
    requires i < j <= |trace| && Monotone(trace) && trace[j - 1].now - trace[i].now <= t
    ensures CountAdmitted(trace, limit, i, j) <= limit * (t / (ONE_SECOND + 1) + 2)
  {
    AdmittedByWindows(trace, limit, i, j);
    WindowsApart(trace, limit, i, j);
    var n := After(trace[..j], limit).windows - After(trace[..i + 1], limit).windows;
    assert n <= t / (ONE_SECOND + 1) + 1;
    MulMonotone(limit, n + 1, t / (ONE_SECOND + 1) + 2);
    assert limit * (n + 1) == limit * n + limit;
  }

  /** In particular, at most twice the limit in any second. */
  lemma TwiceInASecond(trace: seq<Arrival>, limit: nat, i: nat, j: nat)
    requires i < j <= |trace| && Monotone(trace) && trace[j - 1].now - trace[i].now <= ONE_SECOND
    ensures CountAdmitted(trace, limit, i, j) <= 2 * limit
  {
    RateBound(trace, limit, i, j, ONE_SECOND);
    assert ONE_SECOND / (ONE_SECOND + 1) == 0;
  }

  // ----- One datagram -----

  class Task {
    const rxBuffer: array<byte>
    const limit: nat
    var window: Window
    var apIpAddr: seq<byte>

    /** What has been handed to sendto(). */
    var sent: seq<seq<byte>>

    constructor (bufSize: nat, limit: nat, ip: seq<byte>)
      requires bufSize >= HEADER && |ip| == 4
      ensures Valid() && fresh(rxBuffer) && rxBuffer.Length == bufSize && this.limit == limit && apIpAddr == ip
      ensures window == Window(0, 0) && sent == []
    {
      rxBuffer := new byte[bufSize];
      this.limit, window, apIpAddr, sent := limit, Window(0, 0), ip, [];
    }

    predicate Valid()
      reads this
    {
      rxBuffer.Length >= HEADER && |apIpAddr| == 4
    }

    /** The scan of the question: where its name ends, or nothing if it is malformed. */
    method ScanName(len: nat) returns (r: Option<nat>)
      requires Valid() && HEADER <= len <= rxBuffer.Length
      ensures r == SkipName(rxBuffer[..len], HEADER)
    {
      ghost var m := rxBuffer[..len];
      var i := HEADER;
      while i < len && rxBuffer[i] != 0
        invariant HEADER <= i && SkipName(m, i) == SkipName(m, HEADER)
        decreases len - i
      {
        assert rxBuffer[i] == m[i];
        if IsPointer(rxBuffer[i]) {
          if i + 1 >= len {
            return None;
          }
          return Some(i + 2);
        }
        if TooLong(rxBuffer[i]) {
          return None;
        }
        i := i + Size(rxBuffer[i]) + 1;
      }
      if i < len {
        assert rxBuffer[i] == m[i];
        return Some(i + 1);
      }
      r := None;
    }

    /** The header of a reply is written over that of the query. */
    method WriteHeader(len: nat, rcode: byte, qd: byte, an: byte)
      requires Valid() && HEADER <= len <= rxBuffer.Length
      modifies rxBuffer
      ensures rxBuffer[..HEADER] == Head(old(rxBuffer[..len]), rcode, qd, an)
      ensures rxBuffer[HEADER..] == old(rxBuffer[HEADER..])
    {
      hide Head;
      ghost var was := rxBuffer[..];
      rxBuffer[2] := (rxBuffer[2] & 0x01) | 0x84;
      rxBuffer[3] := rcode;
      rxBuffer[4], rxBuffer[5], rxBuffer[6], rxBuffer[7] := 0, qd, 0, an;
      rxBuffer[8], rxBuffer[9], rxBuffer[10], rxBuffer[11] := 0, 0, 0, 0;
      HeaderWritten(was, rxBuffer[..], len, rcode, qd, an);
    }

    lemma HeaderWritten(was: seq<byte>, now: seq<byte>, len: nat, rcode: byte, qd: byte, an: byte)
      requires HEADER <= len <= |was| == |now| && now[0] == was[0] && now[1] == was[1]
      requires now[2] == (was[2] & 0x01) | 0x84 && now[3] == rcode
      requires now[4] == 0 && now[5] == qd && now[6] == 0 && now[7] == an
      requires now[8] == now[9] == now[10] == now[11] == 0
      requires forall k | HEADER <= k < |now| :: now[k] == was[k]
      ensures now[..HEADER] == Head(was[..len], rcode, qd, an) && now[HEADER..] == was[HEADER..]
    {
      HeadOctets(was[..len], rcode, qd, an);
      hide Head;
    }

    /** sendto() of the first n octets of the buffer; that it may fail goes unnoticed. */
    method SendTo(n: nat)
      requires Valid() && n <= rxBuffer.Length
      modifies this`sent
      ensures sent == old(sent) + [rxBuffer[..n]]
    {
      sent := sent + [rxBuffer[..n]];
    }

    /** The A record is written after the question. */
    method WriteAnswer(pos: nat)
      requires Valid() && HEADER <= pos && pos + 16 <= rxBuffer.Length
      modifies rxBuffer
      ensures rxBuffer[..pos] == old(rxBuffer[..pos]) && rxBuffer[pos..pos + 16] == ANSWER + apIpAddr
    {
      forall i | 0 <= i < 12 {
        rxBuffer[pos + i] := ANSWER[i];
      }
      forall i | 0 <= i < 4 {
        rxBuffer[pos + 12 + i] := apIpAddr[i];
      }
    }

    /** What follows the rate limiter in the loop: one reply at most, and the one that is called for. */
    method Respond(len: nat)
      requires Valid() && len <= rxBuffer.Length && Counted(rxBuffer[..len])
      modifies rxBuffer, this`sent
      ensures var reply := Reply(old(rxBuffer[..len]), apIpAddr, rxBuffer.Length);
              sent == old(sent) + if reply.Some? then [reply.value] else []
    {
      ghost var m := rxBuffer[..len];
      if (rxBuffer[2] >> 3) & 0x0F != 0 {
        RespondHeader(len, NOTIMP);
        return;
      }
      if rxBuffer[4] != 0 || rxBuffer[5] != 1 {
        assert m[4..6][0] == m[4] && m[4..6][1] == m[5];
        return;
      }
      assert m[4..6] == [0, 1];
      var name := ScanName(len);
      if name.None? || name.value + 4 > len {
        RespondHeader(len, FORMERR);
        return;
      }
      var i := name.value;
      var qtype, qclass := rxBuffer[i..i + 2], rxBuffer[i + 2..i + 4];
      SliceOfPrefix(rxBuffer[..], i, i + 2, len);
      SliceOfPrefix(rxBuffer[..], i + 2, i + 4, len);
      SliceOfPrefix(rxBuffer[..], HEADER, i + 4, len);
      Judged(m, i);
      hide Judge, Head;
      if qclass != IN {
        RespondQuestion(len, i + 4, REFUSED);
      } else if qtype == A {
        RespondAnswer(len, i + 4);
      } else {
        RespondQuestion(len, i + 4, 0);
      }
    }

    lemma Judged(m: seq<byte>, i: nat)
      requires Counted(m) && (m[2] >> 3) & 0x0F == 0 && m[4..6] == [0, 1]
      requires SkipName(m, HEADER) == Some(i) && i + 4 <= |m|
      ensures Judge(m) == if m[i + 2..i + 4] != IN then Refuse(i + 4)
                          else if m[i..i + 2] == A then Answer(i + 4) else NoData(i + 4)
    {
    }

    method RespondHeader(len: nat, rcode: byte)
      requires Valid() && HEADER <= len <= rxBuffer.Length
      modifies rxBuffer, this`sent
      ensures sent == old(sent) + [Head(old(rxBuffer[..len]), rcode, 0, 0)]
    {
      WriteHeader(len, rcode, 0, 0);
      SendTo(HEADER);
    }

    method RespondQuestion(len: nat, end: nat, rcode: byte)
      requires Valid() && HEADER <= end <= len <= rxBuffer.Length
      modifies rxBuffer, this`sent
      ensures sent == old(sent) + [Head(old(rxBuffer[..len]), rcode, 1, 0) + old(rxBuffer[HEADER..end])]
    {
      WriteHeader(len, rcode, 1, 0);
      QuestionKept(old(rxBuffer[..]), rxBuffer[..], end);
      SendTo(end);
    }

    method RespondAnswer(len: nat, end: nat)
      requires Valid() && HEADER <= end <= len <= rxBuffer.Length
      modifies rxBuffer, this`sent
      ensures apIpAddr == NO_ADDRESS || end + 16 > rxBuffer.Length ==> sent == old(sent)
      ensures apIpAddr != NO_ADDRESS && end + 16 <= rxBuffer.Length ==>
        sent == old(sent) + [Head(old(rxBuffer[..len]), 0, 1, 1) + old(rxBuffer[HEADER..end]) + (ANSWER + apIpAddr)]
    {
      if apIpAddr == NO_ADDRESS {
        return;
      }
      WriteHeader(len, 0, 1, 1);
      if end + 16 > rxBuffer.Length {
        return;
      }
      QuestionKept(old(rxBuffer[..]), rxBuffer[..], end);
      WriteAnswer(end);
      assert rxBuffer[..end + 16] == rxBuffer[..end] + rxBuffer[end..end + 16];
      SendTo(end + 16);
    }

    lemma QuestionKept(was: seq<byte>, now: seq<byte>, end: nat)
      requires HEADER <= end <= |was| == |now| && now[HEADER..] == was[HEADER..]
      ensures now[..end] == now[..HEADER] + was[HEADER..end]
    {
      assert now[HEADER..end] == now[HEADER..][..end - HEADER] == was[HEADER..][..end - HEADER] == was[HEADER..end];
    }

    /**
     One datagram of `len` octets in the buffer, at time `now`: the window moves on as the limiter
     says, and there is a reply exactly if the datagram is a query, is admitted, and calls for one.
     */
    method Datagram(len: nat, now: int)
      requires Valid() && len <= rxBuffer.Length
      modifies this`window, this`sent, rxBuffer
      ensures var m := old(rxBuffer[..len]);
              if !Counted(m) then sent == old(sent) && window == old(window) else
                var (w, ok) := Admit(old(window), now, limit);
                && window == w
                && sent == old(sent) + if ok && Reply(m, apIpAddr, rxBuffer.Length).Some?
                                       then [Reply(m, apIpAddr, rxBuffer.Length).value] else []
    {
      hide Reply;
      ghost var m := rxBuffer[..len];
      if len < HEADER {
        return;
      }
      assert m[2] == rxBuffer[2];
      if rxBuffer[2] & 0x80 != 0 {
        return;
      }
      if now - window.start > ONE_SECOND {
        window := Window(now, 0);
      }
      window := window.(count := window.count + 1);
      if window.count > limit {
        return;
      }
      Respond(len);
    }

    /**
     The loop over a whole trace of datagrams, each put into the buffer by recvfrom().  Between any
     two of them the replies are no more than the datagrams admitted; RateBound says how many that is.
     */
    method Serve(trace: seq<Arrival>) returns (ghost replies: seq<nat>)
      requires Valid() && window == Window(0, 0) && sent == []
      requires forall k | 0 <= k < |trace| :: |trace[k].datagram| <= rxBuffer.Length
      modifies this`window, this`sent, rxBuffer
      ensures |replies| == |trace| + 1 && replies[|trace|] == |sent|
      ensures forall i, j | 0 <= i <= j <= |trace| ::
                replies[i] <= replies[j] <= replies[i] + CountAdmitted(trace, limit, i, j)
    {
      replies := [0];
      for k := 0 to |trace|
        invariant Valid() && |replies| == k + 1 && replies[k] == |sent|
        invariant window == After(trace[..k], limit).window
        invariant forall i, j | 0 <= i <= j <= k ::
                    replies[i] <= replies[j] <= replies[i] + CountAdmitted(trace, limit, i, j)
      {
        hide Reply, Admit, CountAdmitted, Admitted;
        var d := trace[k].datagram;
        forall i | 0 <= i < |d| {
          rxBuffer[i] := d[i];
        }
        assert rxBuffer[..|d|] == d;
        ghost var before := |sent|;
        Datagram(|d|, trace[k].now);
        AfterNext(trace, limit, k);
        AdmittedNow(trace, limit, k);
        assert |sent| == before || (|sent| == before + 1 && Admitted(trace, limit, k));
        replies := replies + [|sent|];
        forall i | 0 <= i <= k + 1
          ensures replies[i] <= replies[k + 1] <= replies[i] + CountAdmitted(trace, limit, i, k + 1)
        {
          CountNext(trace, limit, i, k);
        }
      }
    }
  }
}
