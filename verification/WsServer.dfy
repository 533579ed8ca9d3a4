/**
 The receiving and answering side of components/esp_http_server/src/httpd_ws.c: frames are
 read whole or in parts, unmasked in place under a mask that rolls on from part to part, and
 control frames are answered.
 */
module WsServer {
  import opened Bytes
  import opened Common
  import opened HttpRecv
  import opened HttpSend
  import opened WsFormat

  datatype Err = OK | FAIL | INVALID_STATE | INVALID_SIZE

  /** size_t has 32 bits here, the length on the wire 64. */
  const SIZE_T: nat := 0x1_0000_0000

  class Frame {
    var kind: byte
    var final: bool
    var fragmented: bool
    var len: nat
    var leftLen: nat
    var payload: array?<byte>

    constructor (payload: array?<byte>)
      ensures this.payload == payload && len == leftLen == 0 && !fragmented && !final
    {
      this.payload, kind, final, fragmented, len, leftLen := payload, 0, false, false, 0, 0;
    }
  }

  /** httpd_ws_unmask_payload() */
  method UnmaskPayload(payload: array<byte>, len: nat, key: seq<byte>, maskOffset: nat) returns (e: Err)
    requires len <= payload.Length && |key| == 4
    modifies payload
    ensures e == OK <==> len > 0
    ensures payload[..len] == Masked(old(payload[..len]), key, maskOffset)
    ensures payload[len..] == old(payload[len..])
  {
    if len < 1 {
      return FAIL;
    }
    ghost var was := payload[..];
    var i := 0;
    while i < len
      invariant 0 <= i <= len
      invariant forall j | 0 <= j < i :: payload[j] == was[j] ^ key[(j + maskOffset) % 4]
      invariant payload[i..] == was[i..]
    {
      assert payload[i] == payload[i..][0] == was[i];
      ghost var rest := payload[i..];
      payload[i] := payload[i] ^ key[(i + maskOffset) % 4];
      assert payload[i + 1..] == rest[1..];
      i := i + 1;
    }
    e := OK;
  }

  /** What the octets of length say. */
  function LengthOf(small: byte, ext: seq<byte>): nat {
    if ext == [] then small as nat else BigEndianValue(ext)
  }

  lemma OctetFits(b: byte)
    ensures (b as nat) % SIZE_T == b as nat
  {
  }

  /** The receiver's own reading of the length agrees with section 5.2. */
  lemma HeaderInParts(first: byte, second: byte, ext: seq<byte>, rest: seq<byte>)
    requires |ext| == ExtLen(second & 0x7F)
    ensures Parse([first, second] + ext + rest)
         == Got(Header(first & FIN != 0, first & 0x0F, second & MASK != 0, LengthOf(second & 0x7F, ext), rest))
  {
    hide BigEndianValue;
    var s := [first, second] + ext + rest;
    assert s[2..2 + |ext|] == ext && s[2 + |ext|..] == rest;
  }

  /** The frame whose first octet was read before starts with this length and this mask. */
  predicate HeaderRead(first: byte, was: seq<byte>, len: nat, key: seq<byte>, rest: seq<byte>) {
    var p := Parse([first] + was);
    p.Got? && p.h.masked && len == p.h.len % SIZE_T && |key| == 4 && p.h.rest == key + rest
  }

  predicate HasMask(second: byte) {
    second & MASK != 0
  }

  function SevenBits(second: byte): byte {
    second & 0x7F
  }

  lemma HeaderReadInParts(first: byte, was: seq<byte>, second: seq<byte>, s1: seq<byte>, ext: seq<byte>, s2: seq<byte>,
                          key: seq<byte>, rest: seq<byte>)
    requires |second| == 1 && |ext| == ExtLen(SevenBits(second[0])) && HasMask(second[0]) && |key| == 4
    requires was == second + s1 && s1 == ext + s2 && s2 == key + rest
    ensures HeaderRead(first, was, LengthOf(SevenBits(second[0]), ext) % SIZE_T, key, rest)
  {
    HeaderInParts(first, second[0], ext, key + rest);
    hide Parse, LengthOf;
    assert [first] + was == [first, second[0]] + ext + (key + rest);
  }

  /** A whole header with a mask is there. */
  predicate HeaderThere(first: byte, was: seq<byte>) {
    var p := Parse([first] + was);
    p.Got? && p.h.masked && |p.h.rest| >= 4
  }

  lemma HeaderSize(first: byte, was: seq<byte>)
    ensures HeaderThere(first, was) ==>
              was != [] && HasMask(was[0]) && |was| >= 1 + ExtLen(SevenBits(was[0])) + 4
  {
    hide BigEndianValue;
  }

  lemma FirstOf(s: seq<byte>, one: seq<byte>, rest: seq<byte>)
    requires |one| == 1 && s == one + rest
    ensures s[0] == one[0] && |s| == 1 + |rest|
  {
  }

  /** What follows the mask. */
  function PayloadOf(first: byte, was: seq<byte>): seq<byte> {
    var p := Parse([first] + was);
    if p.Got? && |p.h.rest| >= 4 then p.h.rest[4..] else []
  }

  predicate FrameThere(first: byte, was: seq<byte>) {
    HeaderThere(first, was) && Parse([first] + was).h.len <= |PayloadOf(first, was)|
  }

  /** The size of the next part: asking for nothing gets nothing. */
  function Part(maxLen: nat, left: nat): nat {
    Min(maxLen, left)
  }

  lemma PayloadGrows(s: seq<byte>, a: nat, n: nat, buf: seq<byte>)
    requires a + n <= |s| && a + n <= |buf| && buf[..a] == s[..a] && buf[a..a + n] == s[a..][..n]
    ensures buf[..a + n] == s[..a + n] && s[a..][n..] == s[a + n..]
  {
    assert buf[..a + n] == buf[..a] + buf[a..a + n];
    assert s[..a + n] == s[..a] + s[a..][..n];
  }

  function Sum(s: seq<nat>): nat {
    if s == [] then 0 else Sum(s[..|s| - 1]) + s[|s| - 1]
  }

  lemma NoParts(s: seq<nat>)
    ensures Sum(s[..0]) == 0 && Sum(s[..|s|]) == Sum(s)
  {
    assert s[..|s|] == s;
  }

  lemma SumNext(s: seq<nat>, i: nat)
    requires i < |s|
    ensures Sum(s[..i + 1]) == Sum(s[..i]) + s[i]
  {
    assert s[..i + 1][..i] == s[..i];
  }

  /** What a client sent: one frame, and whatever comes after it. */
  datatype Sent = Sent(final: bool, opcode: byte, key: seq<byte>, payload: seq<byte>, rest: seq<byte>) {
    predicate On(s: seq<byte>) {
      |key| == 4 && ClientFrame(s, final, opcode, key, payload, rest)
    }

    /** What follows the header. */
    function Wire(): (s: seq<byte>)
      ensures |s| == |payload| + |rest|
    {
      (if |key| == 4 then Masked(payload, key, 0) else payload) + rest
    }

    lemma Begins(first: byte, s: seq<byte>)
      requires On([first] + s) && |payload| < SIZE_T
      ensures PayloadOf(first, s) == Wire() && FrameThere(first, s)
      ensures forall len, k | HeaderRead(first, s, len, k, Wire()) :: len == |payload| && k == key
    {
      hide Masked, Parse;
      var r := Parse([first] + s).h.rest;
      assert r == key + Wire();
      assert r[4..] == Wire();
      forall len, k | HeaderRead(first, s, len, k, Wire()) ensures k == key {
        assert k == r[..4] == key;
      }
    }

    lemma PartIsPlain(from: nat, n: nat)
      requires from + n <= |payload| && |key| == 4
      ensures Masked(Wire()[from..][..n], key, from) == payload[from..from + n]
      ensures Wire()[from..][n..] == Wire()[from + n..]
    {
      var m := Masked(payload, key, 0);
      MaskedSlice(payload, key, from, from + n);
      MaskTwice(payload[from..from + n], key, from);
      hide Masked;
      assert Wire()[from..][..n] == m[from..from + n];
    }

    lemma FirstOctet(first: byte, s: seq<byte>)
      ensures On([first] + s) ==> final == (first & FIN != 0) && opcode == first & 0x0F
    {
      hide BigEndianValue, Masked;
    }

    lemma KeySize(s: seq<byte>)
      requires On(s)
      ensures |key| == 4
    {
    }

    lemma AllRead()
      ensures Wire()[|payload|..] == rest
    {
    }
  }

  /** The frame sent in reply: final, unmasked, and for a PONG with the payload of the PING. */
  function Reply(kind: byte, payload: seq<byte>): seq<byte> {
    var p := if kind == CLOSE then [] else payload;
    SendHeader(kind, false, false, |p|) + p
  }

  /** A frame that is not marked as a fragment goes out as final, whatever its field says. */
  lemma Unfragmented(kind: byte, final: bool, len: nat)
    ensures SendHeader(kind, false, final, len) == SendHeader(kind, false, false, len)
  {
  }

  lemma WholeIffBoth(start: seq<byte>, header: seq<byte>, load: seq<byte>, n: nat, m: nat)
    requires n <= |header| && m <= |load|
    ensures start + (header[..n] + load[..m]) == start + (header + load) <==> n == |header| && m == |load|
    ensures n == 0 && m == 0 ==> start + (header[..n] + load[..m]) == start
  {
    if n == |header| && m == |load| {
      assert header[..n] == header && load[..m] == load;
    } else {
      assert |start + (header[..n] + load[..m])| < |start + (header + load)|;
    }
  }

  class WsReq {
    const conn: Conn
    const wire: Wire
    const controlFrames: bool

    var handshakeDone: bool
    var wsType: byte
    var wsFinal: bool
    var maskKey: seq<byte>

    constructor (conn: Conn, wire: Wire, controlFrames: bool)
      ensures this.conn == conn && this.wire == wire && this.controlFrames == controlFrames
      ensures handshakeDone && |maskKey| == 4
    {
      this.conn, this.wire, this.controlFrames := conn, wire, controlFrames;
      handshakeDone, wsType, wsFinal, maskKey := true, 0, false, [0, 0, 0, 0];
    }

    /** A blocking receive of exactly n octets. */
    method RecvExact(n: nat) returns (ok: bool, data: seq<byte>)
      requires conn.Valid() && n > 0
      modifies conn
      ensures conn.Valid() && |data| == n
      ensures ok ==> n <= |old(conn.Stream())| && !conn.dead
      ensures conn.prompt && !old(conn.dead) && n <= |old(conn.Stream())| ==> ok
      ensures ok ==> old(conn.Stream()) == data + conn.Stream()
    {
      ghost var s := conn.Stream();
      var buf := new byte[n];
      var r := conn.RecvWithOpt(buf, 0, n, Blocking);
      ok, data := r == n, buf[..];
      if ok {
        assert buf[0..n] == buf[..];
        assert s == s[..n] + s[n..];
      }
    }

    /** The length of the payload, from the seven bits and what follows them. */
    method RecvLength(small: byte) returns (ok: bool, len: nat, ghost ext: seq<byte>)
      requires conn.Valid()
      modifies conn
      ensures conn.Valid()
      ensures ok ==> |ext| == ExtLen(small) && len == LengthOf(small, ext) % SIZE_T
      ensures ok ==> old(conn.Stream()) == ext + conn.Stream() && (old(conn.dead) || !conn.dead)
      ensures conn.prompt && !old(conn.dead) && ExtLen(small) <= |old(conn.Stream())| ==> ok
    {
      hide BigEndianValue;
      ok, ext := true, [];
      if small == 126 {
        var two;
        ok, two := RecvExact(2);
        len, ext := BigEndianValue(two) % SIZE_T, two;
      } else if small == 127 {
        var eight;
        ok, eight := RecvExact(8);
        len, ext := BigEndianValue(eight) % SIZE_T, eight;
      } else {
        len := small as nat;
        OctetFits(small);
      }
    }

    /** The part of httpd_ws_recv_frame_internal() that runs when the length is not known yet. */
    method RecvHeader(frame: Frame, ghost first: byte) returns (e: Err)
      requires conn.Valid() && |maskKey| == 4
      modifies frame`kind, frame`final, frame`len, frame`leftLen, conn, this`maskKey
      ensures conn.Valid() && |maskKey| == 4
      ensures e == OK ==> HeaderRead(first, old(conn.Stream()), frame.len, maskKey, conn.Stream())
      ensures e == OK ==> frame.leftLen == frame.len && frame.kind == wsType && frame.final == wsFinal && !conn.dead
      ensures e != INVALID_SIZE
      ensures conn.prompt && !old(conn.dead) && HeaderThere(first, old(conn.Stream())) ==> e == OK
    {
      hide BigEndianValue, LengthOf, HeaderRead, HeaderThere, ExtLen, SevenBits, HasMask, conn.Stream;
      ghost var s := conn.Stream();
      HeaderSize(first, s);
      frame.kind, frame.final := wsType, wsFinal;
      var ok, second := RecvExact(1);
      if !ok {
        return FAIL;
      }
      var len;
      ghost var s1 := conn.Stream();
      ghost var ext;
      FirstOf(s, second, s1);
      ok, len, ext := RecvLength(SevenBits(second[0]));
      if !ok {
        return FAIL;
      }
      frame.len, frame.leftLen := len, len;
      if !HasMask(second[0]) {
        return INVALID_STATE;
      }
      ghost var s2 := conn.Stream();
      ok, maskKey := RecvExact(4);
      if !ok {
        return FAIL;
      }
      e := OK;
      HeaderReadInParts(first, s, second, s1, ext, s2, maskKey, conn.Stream());
    }

    /** The loop that fills the payload buffer. */
    method RecvPayload(payload: array<byte>, n: nat) returns (ok: bool)
      requires conn.Valid() && n <= payload.Length && payload != conn.pendingData
      modifies conn, payload
      ensures conn.Valid() && payload[n..] == old(payload[n..])
      ensures ok ==> n <= |old(conn.Stream())| && payload[..n] == old(conn.Stream())[..n]
      ensures ok ==> conn.Stream() == old(conn.Stream())[n..] && (n > 0 ==> !conn.dead)
      ensures conn.prompt && !old(conn.dead) && n <= |old(conn.Stream())| ==> ok
    {
      hide conn.Stream;
      ghost var s := conn.Stream();
      var offset := 0;
      while offset < n
        invariant offset > 0 ==> !conn.dead
        invariant conn.dead ==> old(conn.dead)
        invariant conn.Valid() && offset <= n && offset <= |s|
        invariant payload[..offset] == s[..offset] && payload[n..] == old(payload[n..])
        invariant conn.Stream() == s[offset..]
      {
        var got := conn.RecvWithOpt(payload, offset, n - offset, RecvOpt.None);
        if got <= 0 {
          return false;
        }
        PayloadGrows(s, offset, got, payload[..]);
        offset := offset + got;
      }
      ok := true;
    }

    /** The payload part of the frame: from a known length on. */
    method RecvBody(frame: Frame, maxLen: nat, partial: bool) returns (e: Err)
      requires conn.Valid() && |maskKey| == 4 && frame.leftLen <= frame.len && frame.payload != conn.pendingData
      requires frame.payload != null ==> maxLen <= frame.payload.Length
      modifies frame`leftLen, conn, frame.payload
      ensures conn.Valid()
      ensures maxLen == 0 ==> e == OK
      ensures e == INVALID_SIZE <==> 0 < maxLen < frame.len && !partial
      ensures e == OK ==> BodyRead(frame, Part(maxLen, old(frame.leftLen)), old(conn.Stream()), old(frame.leftLen))
      ensures e == OK ==> old(conn.dead) || !conn.dead
      ensures conn.prompt && !old(conn.dead) && Part(maxLen, old(frame.leftLen)) <= |old(conn.Stream())|
        && frame.payload != null && (partial || frame.len <= maxLen)
        ==> e == OK
    {
      if maxLen == 0 {
        return OK;
      }
      if frame.len > maxLen && !partial {
        return INVALID_SIZE;
      }
      if frame.leftLen == 0 {
        return OK;
      }
      if frame.payload == null {
        return FAIL;
      }
      var n := Min(maxLen, frame.leftLen);
      var ok := RecvPayload(frame.payload, n);
      if !ok {
        return FAIL;
      }
      var maskOffset := frame.len - frame.leftLen;
      frame.leftLen := frame.leftLen - n;
      var _ := UnmaskPayload(frame.payload, n, maskKey, maskOffset);
      e := OK;
    }

    /** What reading the next n octets of the payload leaves behind. */
    ghost predicate BodyRead(frame: Frame, n: nat, was: seq<byte>, left: nat)
      requires |maskKey| == 4 && conn.Valid() && left <= frame.len
      reads this, frame, frame.payload, conn, conn.pendingData
    {
      && n <= |was| && n <= left && frame.leftLen == left - n && conn.Stream() == was[n..]
      && (n > 0 ==>
          && frame.payload != null && n <= frame.payload.Length
          && frame.payload[..n] == Masked(was[..n], maskKey, frame.len - left))
    }

    /** All of the frame that has not been read yet is there. */
    ghost predicate Available(frame: Frame, first: byte)
      requires conn.Valid()
      reads frame, conn, conn.pendingData
    {
      if frame.len > 0 then frame.leftLen <= |conn.Stream()| else FrameThere(first, conn.Stream())
    }

    /**
     httpd_ws_recv_frame_internal(): httpd_ws_recv_frame() when not partial, httpd_ws_recv_frame_part()
     when partial.  A frame whose length is not zero is one that was begun by an earlier call.
     */
    method RecvFrame(frame: Frame, maxLen: nat, partial: bool, ghost first: byte) returns (e: Err)
      requires conn.Valid() && |maskKey| == 4 && frame.leftLen <= frame.len && frame.payload != conn.pendingData
      requires frame.payload != null ==> maxLen <= frame.payload.Length
      modifies frame`kind, frame`final, frame`len, frame`leftLen, conn, this`maskKey, frame.payload
      ensures conn.Valid() && |maskKey| == 4
      ensures !handshakeDone ==> e == INVALID_STATE && conn.Stream() == old(conn.Stream())
      ensures e == OK ==> frame.leftLen <= frame.len
      ensures e == OK && old(frame.len) > 0 ==>
        && frame.len == old(frame.len) && maskKey == old(maskKey)
        && BodyRead(frame, Part(maxLen, old(frame.leftLen)), old(conn.Stream()), old(frame.leftLen))
      ensures e == OK && old(frame.len) == 0 ==>
        && frame.kind == wsType && frame.final == wsFinal
        && HeaderRead(first, old(conn.Stream()), frame.len, maskKey, PayloadOf(first, old(conn.Stream())))
        && BodyRead(frame, Part(maxLen, frame.len), PayloadOf(first, old(conn.Stream())), frame.len)
      ensures e == OK && !partial && maxLen > 0 ==> frame.len <= maxLen
      ensures e == OK ==> old(conn.dead) || !conn.dead
      ensures e == INVALID_SIZE && old(frame.len) == 0 ==>
        HeaderRead(first, old(conn.Stream()), frame.len, maskKey, PayloadOf(first, old(conn.Stream())))
      ensures conn.prompt && !old(conn.dead) && handshakeDone && frame.payload != null && old(Available(frame, first))
        ==> e == OK || (e == INVALID_SIZE && !partial && frame.len > maxLen)
    {
      hide Parse, Masked;
      if !handshakeDone {
        return INVALID_STATE;
      }
      if frame.len == 0 {
        e := RecvHeader(frame, first);
        if e != OK {
          return;
        }
        assert conn.Stream() == PayloadOf(first, old(conn.Stream()));
      }
      e := RecvBody(frame, maxLen, partial);
    }

    /** Between two parts: `done` octets of the payload have been got. */
    ghost predicate Midway(frame: Frame, first: byte, sent: Sent, done: nat, begun: bool)
      reads this, frame, conn, conn.pendingData
    {
      && conn.Valid() && |maskKey| == 4 && handshakeDone && 0 < |sent.payload| < SIZE_T && done <= |sent.payload|
      && frame.leftLen <= frame.len
      && if !begun then done == 0 && frame.len == 0 && sent.On([first] + conn.Stream()) else
           && frame.len == |sent.payload| && frame.leftLen == frame.len - done
           && maskKey == sent.key && conn.Stream() == sent.Wire()[done..]
    }

    /** One more part. */
    method ReceivePart(frame: Frame, size: nat, ghost first: byte, ghost sent: Sent, ghost done: nat, ghost begun: bool)
      returns (e: Err, ghost n: nat)
      requires Midway(frame, first, sent, done, begun)
      requires frame.payload != null && frame.payload.Length == size && frame.payload != conn.pendingData
      modifies frame`kind, frame`final, frame`len, frame`leftLen, conn, this`maskKey, frame.payload
      ensures conn.Valid() && |maskKey| == 4
      ensures e == OK ==>
        && n == Min(size, |sent.payload| - done)
        && Midway(frame, first, sent, done + n, true)
        && frame.payload[..n] == sent.payload[done..done + n] && (old(conn.dead) || !conn.dead)
      ensures conn.prompt && !old(conn.dead) ==> e == OK
    {
      hide Masked, Parse, HeaderRead, PayloadOf, FrameThere, Sent.On, Sent.Wire;
      n := 0;
      if !begun {
        sent.KeySize([first] + conn.Stream());
        sent.Begins(first, conn.Stream());
      }
      e := RecvFrame(frame, size, true, first);
      if e == OK {
        n := Min(size, |sent.payload| - done);
        sent.PartIsPlain(done, n);
      }
    }

    lemma PartJoined(all: seq<byte>, data: seq<byte>, part: seq<byte>)
      requires |data| + |part| <= |all| && data == all[..|data|] && part == all[|data|..|data| + |part|]
      ensures data + part == all[..|data| + |part|]
    {
    }

    /**
     A handler reading a frame part by part with httpd_ws_recv_frame_part(), each time asking for at
     most the next size.  The client sent `sent`; what the parts give, joined, is its payload, and
     nothing is left to read exactly when all of it was got.
     */
    method ReceiveParts(sizes: seq<nat>, ghost first: byte, ghost sent: Sent)
      returns (ok: bool, data: seq<byte>, left: nat)
      requires conn.Valid() && |maskKey| == 4 && handshakeDone
      requires 0 < |sent.payload| < SIZE_T && sent.On([first] + conn.Stream())
      modifies conn, this`maskKey
      ensures conn.Valid()
      ensures ok ==> data == sent.payload[..Min(Sum(sizes), |sent.payload|)]
      ensures ok && sizes != [] ==> left == |sent.payload| - |data|
      ensures ok && data == sent.payload ==> conn.Stream() == sent.rest
      ensures conn.prompt && !old(conn.dead) ==> ok
    {
      hide Sum, Sent.On, Sent.Wire;
      ok, data, left := true, [], 0;
      NoParts(sizes);
      var frame := new Frame(null);
      for i := 0 to |sizes|
        invariant Midway(frame, first, sent, |data|, i > 0) && fresh(frame)
        invariant ok && (i > 0 ==> left == frame.leftLen) && (old(conn.dead) || !conn.dead)
        invariant |data| == Min(Sum(sizes[..i]), |sent.payload|) && data == sent.payload[..|data|]
      {
        frame.payload := new byte[sizes[i]];
        var e;
        ghost var n;
        e, n := ReceivePart(frame, sizes[i], first, sent, |data|, i > 0);
        if e != OK {
          return false, data, frame.leftLen;
        }
        var got := frame.len - frame.leftLen - |data|;
        SumNext(sizes, i);
        PartJoined(sent.payload, data, frame.payload[..got]);
        data, left := data + frame.payload[..got], frame.leftLen;
      }
      if data == sent.payload {
        sent.AllRead();
      }
    }

    /** The payload that goes with a frame that is sent. */
    function Load(frame: Frame): (p: seq<byte>)
      requires frame.payload != null ==> frame.len <= frame.payload.Length
      reads frame, frame.payload
    {
      if frame.payload == null then [] else frame.payload[..frame.len]
    }

    /**
     httpd_ws_send_frame() and httpd_ws_send_frame_async().  n octets of the header and m of the payload
     are taken by the wire.  Success says no more than that neither send failed: the frame is on the
     wire exactly if both took all, and FrameReadIffWhole says what that is worth.
     */
    method SendFrame(frame: Frame) returns (e: Err, ghost n: nat, ghost m: nat)
      requires frame.payload != null ==> frame.len <= frame.payload.Length
      modifies wire
      ensures !handshakeDone ==> e == INVALID_STATE && n == 0
      ensures handshakeDone ==> e == OK || e == FAIL
      ensures handshakeDone && wire.up ==> e == OK
      ensures var header, load := SendHeader(frame.kind, frame.fragmented, frame.final, frame.len), old(Load(frame));
              && n <= |header| && m <= |load| && wire.sent == old(wire.sent) + (header[..n] + load[..m])
              && (wire.sent == old(wire.sent) + (header + load) <==> n == |header| && m == |load|)
              && (n == 0 ==> m == 0)
              && (e == OK ==> n > 0 && (m == 0 ==> load == []))
              && (e == OK && wire.whole ==> n == |header| && m == |load|)
    {
      hide SendHeader;
      if !handshakeDone {
        n, m := 0, 0;
        e := INVALID_STATE;
      } else {
        var load := if frame.len > 0 && frame.payload != null then frame.payload[..frame.len] else [];
        e, n, m := SendParts(SendHeader(frame.kind, frame.fragmented, frame.final, frame.len), load);
      }
      WholeIffBoth(old(wire.sent), SendHeader(frame.kind, frame.fragmented, frame.final, frame.len), Load(frame), n, m);
    }

    /** The two sends: the second only if there is something for it, and the first has not failed. */
    method SendParts(header: seq<byte>, load: seq<byte>) returns (e: Err, ghost n: nat, ghost m: nat)
      requires header != []
      modifies wire
      ensures e == OK || e == FAIL
      ensures wire.up ==> e == OK
      ensures n <= |header| && m <= |load| && wire.sent == old(wire.sent) + (header[..n] + load[..m])
      ensures n == 0 ==> m == 0
      ensures e == OK ==> n > 0 && (m == 0 ==> load == [])
      ensures e == OK && wire.whole ==> n == |header| && m == |load|
    {
      n, m := 0, 0;
      ghost var start := wire.sent;
      var ret := wire.Send(header);
      if ret < 0 {
        return FAIL, 0, 0;
      }
      n := ret;
      if load != [] {
        ret := wire.Send(load);
        if ret < 0 {
          return FAIL, n, 0;
        }
        m := ret;
      }
      e := OK;
    }

    /** A control frame, read whole. */
    method RecvControl(frame: Frame, ghost first: byte, ghost sent: Sent) returns (e: Err)
      requires conn.Valid() && |maskKey| == 4 && frame.len == frame.leftLen == 0
      requires frame.payload != null && frame.payload != conn.pendingData && frame.payload.Length >= 126
      modifies frame`kind, frame`final, frame`len, frame`leftLen, conn, this`maskKey, frame.payload
      ensures conn.Valid() && |maskKey| == 4
      ensures e == OK ==> frame.len <= 126
      ensures e == OK && sent.On([first] + old(conn.Stream())) && |sent.payload| < SIZE_T ==>
        && frame.len == |sent.payload| && frame.payload[..frame.len] == sent.payload && conn.Stream() == sent.rest
      ensures conn.prompt && !old(conn.dead) && handshakeDone && sent.On([first] + old(conn.Stream()))
        && |sent.payload| <= 126
        ==> e == OK
    {
      hide Parse, Masked, Sent.On, HeaderRead, PayloadOf, FrameThere;
      ghost var s := conn.Stream();
      if sent.On([first] + s) && |sent.payload| < SIZE_T {
        sent.Begins(first, s);
      }
      e := RecvFrame(frame, 126, false, first);
      if e == OK && sent.On([first] + s) && |sent.payload| < SIZE_T {
        sent.KeySize([first] + s);
        sent.PartIsPlain(0, |sent.payload|);
        sent.AllRead();
        assert frame.len == |sent.payload| && maskKey == sent.key;
        assert sent.Wire()[0..] == sent.Wire() && sent.payload[0..|sent.payload|] == sent.payload;
      }
    }

    /** The answer of httpd_ws_get_frame_type() to a PING or a CLOSE: the rest of the frame, then the reply. */
    method Answer(kind: byte, ghost first: byte, ghost sent: Sent) returns (e: Err)
      requires conn.Valid() && |maskKey| == 4 && handshakeDone && (kind == PONG || kind == CLOSE)
      modifies conn, wire, this`maskKey
      ensures conn.Valid() && |maskKey| == 4
      ensures e == OK || e == FAIL || e == INVALID_STATE
      ensures e == INVALID_STATE ==> wire.sent == old(wire.sent)
      ensures sent.On([first] + old(conn.Stream())) && |sent.payload| < SIZE_T ==>
        && (|sent.payload| > 126 ==> e == INVALID_STATE)
        && (e == OK ==> conn.Stream() == sent.rest)
        && (e == OK && wire.whole ==> wire.sent == old(wire.sent) + Reply(kind, sent.payload))
      ensures conn.prompt && !old(conn.dead) && wire.up && sent.On([first] + old(conn.Stream()))
        && |sent.payload| <= 126
        ==> e == OK
    {
      hide Sent.On, SendHeader;
      var frame := new Frame(null);
      frame.payload := new byte[128];
      e := RecvControl(frame, first, sent);
      if e != OK {
        return INVALID_STATE;
      }
      frame.kind := kind;
      if kind == CLOSE {
        frame.len, frame.payload := 0, null;
      }
      Unfragmented(kind, frame.final, frame.len);
      ghost var n, m;
      e, n, m := SendFrame(frame);
    }

    /**
     httpd_ws_get_frame_type().  When the first octet cannot be read the frame counts as a CLOSE.
     A PING is answered by a PONG carrying the same payload, a CLOSE by an empty CLOSE.
     */
    method GetFrameType(ghost sent: Sent) returns (e: Err, ghost got: bool)
      requires conn.Valid() && |maskKey| == 4
      modifies conn, wire, this`maskKey, this`wsType, this`wsFinal
      ensures conn.Valid() && |maskKey| == 4
      ensures !handshakeDone ==> e == INVALID_STATE && !got
      ensures !got ==> wire.sent == old(wire.sent)
      ensures !got && handshakeDone ==> e == OK && wsType == CLOSE && wsFinal
      ensures got && sent.On(old(conn.Stream())) && |sent.payload| < SIZE_T && e == OK ==>
        && wsType == sent.opcode && wsFinal == sent.final
        && (Answered() ==> conn.Stream() == sent.rest)
        && (Answered() && wire.whole ==>
            wire.sent == old(wire.sent) + Reply(if wsType == PING then PONG else CLOSE, sent.payload))
        && (!Answered() ==> wire.sent == old(wire.sent))
        && (!Answered() ==> exists first: byte :: sent.On([first] + conn.Stream()))
      ensures handshakeDone && conn.prompt && !old(conn.dead) && old(conn.Stream()) != [] ==> got
      ensures got && conn.prompt && !old(conn.dead) && wire.up && sent.On(old(conn.Stream())) && |sent.payload| <= 126
        ==> e == OK
    {
      hide Sent.On, Reply;
      got := false;
      if !handshakeDone {
        return INVALID_STATE, false;
      }
      var ok, first := RecvExact(1);
      if !ok {
        wsFinal, wsType := true, CLOSE;
        return OK, false;
      }
      assert first == [first[0]];
      sent.FirstOctet(first[0], conn.Stream());
      wsFinal, wsType, got := first[0] & FIN != 0, first[0] & 0x0F, true;
      if Answered() {
        e := Answer(if wsType == PING then PONG else CLOSE, first[0], sent);
      } else {
        e := OK;
      }
    }

    /** Control frames the server answers by itself. */
    predicate Answered()
      reads this
    {
      !controlFrames && (wsType == PING || wsType == CLOSE)
    }
  }
}
