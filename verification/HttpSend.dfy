/**
 Sending a response in chunks: httpd_send_all() and httpd_resp_send_chunk() of
 components/esp_http_server/src/httpd_txrx.c, and the file loop of main_handler() in
 main/web_server.c.
 */
module HttpSend {
  import opened Bytes
  import opened Chunked

  /** The socket, for sending: any call may take only part, or fail. */
  class Wire {
    /** No call takes less than it is given; no call fails. */
    const whole: bool
    const up: bool

    var sent: seq<byte>

    /** send() of something: never zero. */
    method Send(buf: seq<byte>) returns (ret: int)
      requires buf != []
      modifies this
      ensures ret != 0 && ret <= |buf| && (whole && ret > 0 ==> ret == |buf|) && (up ==> ret > 0)
      ensures sent == old(sent) + if ret > 0 then buf[..ret] else []
    {
      ret := *;
      if up && !(0 < ret <= |buf| && (whole ==> ret == |buf|)) {
        ret := |buf|;
      }
      if 0 < ret <= |buf| && (whole ==> ret == |buf|) {
        sent := sent + buf[..ret];
      } else {
        ret := -1;
      }
    }
  }

  /** A file being read: fread() comes up short only at the end or on an error. */
  class File {
    /** Reading never fails. */
    const sound: bool

    var rest: seq<byte>
    var failed: bool

    method Read(n: nat) returns (data: seq<byte>)
      requires n > 0
      modifies this
      ensures |data| <= n && old(rest) == data + rest && (sound && !old(failed) ==> !failed)
      ensures |data| < n && !failed ==> rest == []
    {
      var broken, k: nat := *, *;
      if broken && !sound && k <= n && k <= |rest| {
        failed := true;
        data, rest := rest[..k], rest[k..];
      } else if n <= |rest| {
        data, rest := rest[..n], rest[n..];
      } else {
        data, rest := rest, [];
      }
    }
  }

  /** Of `what`, all has gone out if ok, and not all otherwise. */
  predicate Went(before: seq<byte>, after: seq<byte>, what: seq<byte>, ok: bool) {
    var n := |after| - |before|;
    0 <= n <= |what| && after == before + what[..n] && (ok <==> n == |what|)
  }

  lemma WentOn(a: seq<byte>, b: seq<byte>, c: seq<byte>, x: seq<byte>, y: seq<byte>, ok: bool)
    requires Went(a, b, x, true) && Went(b, c, y, ok)
    ensures Went(a, c, x + y, ok)
  {
    var n := |c| - |b|;
    assert (x + y)[..|x| + n] == x + y[..n];
  }

  lemma WentShort(a: seq<byte>, b: seq<byte>, x: seq<byte>, y: seq<byte>)
    requires Went(a, b, x, false)
    ensures Went(a, b, x + y, false)
  {
    var n := |b| - |a|;
    assert (x + y)[..n] == x[..n];
  }

  lemma {:induction false} FlattenSplit(parts: seq<seq<byte>>, k: nat)
    requires k <= |parts|
    ensures Flatten(parts) == Flatten(parts[..k]) + Flatten(parts[k..])
  {
    if k > 0 {
      FlattenSplit(parts[1..], k - 1);
      assert parts[..k][1..] == parts[1..][..k - 1] && parts[1..][k - 1..] == parts[k..];
    } else {
      assert parts[0..] == parts;
    }
  }

  lemma FlattenNext(parts: seq<seq<byte>>, k: nat)
    requires k < |parts|
    ensures Flatten(parts[..k + 1]) == Flatten(parts[..k]) + parts[k]
  {
    FlattenSplit(parts[..k + 1], k);
    assert parts[..k + 1][..k] == parts[..k] && parts[..k + 1][k..] == [parts[k]];
    assert Flatten([parts[k]]) == parts[k] + Flatten([]);
  }

  type HeaderField = (seq<byte>, seq<byte>)

  class Response {
    const wire: Wire

    /** The first lines of the head, as the format string renders them, and the limit on them. */
    const statusLines: seq<byte>
    const maxHead: nat

    /** The header fields set by the handler before it sends. */
    const hdrs: seq<HeaderField>

    var firstChunkSent: bool

    constructor (wire: Wire, statusLines: seq<byte>, maxHead: nat, hdrs: seq<HeaderField>)
      ensures this.wire == wire && this.statusLines == statusLines && this.hdrs == hdrs && this.maxHead == maxHead
      ensures !firstChunkSent
    {
      this.wire, this.statusLines, this.maxHead, this.hdrs := wire, statusLines, maxHead, hdrs;
      firstChunkSent := false;
    }

    /** What is sent, in order, before the first chunk. */
    function Pieces(): (p: seq<seq<byte>>) {
      var n := 4 * |hdrs|;
      seq(n + 2, k requires 0 <= k < n + 2 =>
        if k == 0 then statusLines
        else if k > 4 * |hdrs| then CRLF
        else
          var h := hdrs[(k - 1) / 4];
          [h.0, [58, 32], h.1, CRLF][(k - 1) % 4])
    }

    /** The whole head of the response. */
    function Head(): (s: seq<byte>) {
      Flatten(Pieces())
    }

    /** httpd_send_all() */
    method SendAll(buf: seq<byte>) returns (ok: bool)
      modifies wire
      ensures Went(old(wire.sent), wire.sent, buf, ok) && (wire.up ==> ok)
    {
      var rest := buf;
      while rest != []
        invariant |rest| <= |buf| && rest == buf[|buf| - |rest|..]
        invariant wire.sent == old(wire.sent) + buf[..|buf| - |rest|]
        decreases |rest|
      {
        var done := |buf| - |rest|;
        var ret := wire.Send(rest);
        if ret < 0 {
          return false;
        }
        assert buf[..done + ret] == buf[..done] + rest[..ret];
        rest := rest[ret..];
      }
      ok := true;
    }

    /** The k-th piece of the head, the ones before having gone out since `start`. */
    method SendPiece(piece: seq<byte>, ghost k: nat, ghost start: seq<byte>) returns (ok: bool)
      requires k < |Pieces()| && piece == Pieces()[k]
      requires Went(start, wire.sent, Flatten(Pieces()[..k]), true)
      modifies wire
      ensures if ok then Went(start, wire.sent, Flatten(Pieces()[..k + 1]), true)
              else Went(start, wire.sent, Head(), false)
      ensures wire.up ==> ok
    {
      ghost var mid, p := wire.sent, Pieces();
      ok := SendAll(piece);
      FlattenNext(p, k);
      FlattenSplit(p, k + 1);
      WentOn(start, mid, wire.sent, Flatten(p[..k]), piece, ok);
      if !ok {
        WentShort(start, wire.sent, Flatten(p[..k + 1]), Flatten(p[k + 1..]));
      }
    }

    /** The head, with the check of httpd_resp_send_chunk() on its size. */
    method SendHead() returns (ok: bool)
      modifies wire
      ensures Went(old(wire.sent), wire.sent, Head(), ok) && (wire.up && |statusLines| < maxHead ==> ok)
    {
      hide Pieces, Flatten;
      ghost var start := wire.sent;
      EndPieces();
      if |statusLines| + 1 > maxHead {
        return false;
      }
      ok := SendPiece(statusLines, 0, start);
      if !ok {
        return;
      }
      for i := 0 to |hdrs|
        invariant Went(start, wire.sent, Flatten(Pieces()[..4 * i + 1]), true)
      {
        ok := SendHeader(i, start);
        if !ok {
          return;
        }
      }
      ok := SendPiece(CRLF, 4 * |hdrs| + 1, start);
    }

    lemma EndPieces()
      ensures |Pieces()| == 4 * |hdrs| + 2 && Pieces()[0] == statusLines && Pieces()[4 * |hdrs| + 1] == CRLF
      ensures Pieces()[..0] == [] && Flatten(Pieces()[..0]) == [] && Pieces()[..4 * |hdrs| + 2] == Pieces()
      ensures |Head()| >= 2
    {
      HeadNotEmpty();
    }

    /** One header line of the head. */
    method SendHeader(i: nat, ghost start: seq<byte>) returns (ok: bool)
      requires i < |hdrs| && Went(start, wire.sent, Flatten(Pieces()[..4 * i + 1]), true)
      modifies wire
      ensures if ok then Went(start, wire.sent, Flatten(Pieces()[..4 * i + 5]), true)
              else Went(start, wire.sent, Head(), false)
      ensures wire.up ==> ok
    {
      hide Pieces, Went, Flatten;
      HeaderPieces(i);
      ok := SendPiece(hdrs[i].0, 4 * i + 1, start);
      if ok {
        ok := SendPiece([58, 32], 4 * i + 2, start);
      }
      if ok {
        ok := SendPiece(hdrs[i].1, 4 * i + 3, start);
      }
      if ok {
        ok := SendPiece(CRLF, 4 * i + 4, start);
      }
    }

    lemma HeaderPieces(i: nat)
      requires i < |hdrs|
      ensures |Pieces()| == 4 * |hdrs| + 2
      ensures Pieces()[4 * i + 1] == hdrs[i].0 && Pieces()[4 * i + 2] == [58, 32]
      ensures Pieces()[4 * i + 3] == hdrs[i].1 && Pieces()[4 * i + 4] == CRLF
    {
      hide Pieces;
      HeaderPiece(i, 0);
      HeaderPiece(i, 1);
      HeaderPiece(i, 2);
      HeaderPiece(i, 3);
    }

    lemma HeaderPiece(i: nat, j: nat)
      requires i < |hdrs| && j < 4
      ensures |Pieces()| == 4 * |hdrs| + 2
      ensures Pieces()[4 * i + j + 1] == [hdrs[i].0, [58, 32], hdrs[i].1, CRLF][j]
    {
      var k := 4 * i + j + 1;
      assert (k - 1) / 4 == i && (k - 1) % 4 == j;
    }

    lemma HeadNotEmpty()
      ensures |Head()| >= 2
    {
      var p := Pieces();
      FlattenNext(p, |p| - 1);
      assert p[..|p|] == p;
    }

    /** What one call of httpd_resp_send_chunk() has to put out. */
    function ChunkCall(data: seq<byte>): seq<byte>
      reads this
    {
      (if firstChunkSent then [] else Head()) + (SizeLine(|data|) + data + CRLF)
    }

    /** httpd_resp_send_chunk(); no data stands for the null pointer and length zero. */
    method SendChunk(data: seq<byte>) returns (ok: bool)
      modifies wire, this`firstChunkSent
      ensures Went(old(wire.sent), wire.sent, old(ChunkCall(data)), ok)
      ensures wire.up && |statusLines| < maxHead ==> ok
      ensures ok ==> firstChunkSent
      ensures old(firstChunkSent) ==> firstChunkSent
    {
      ghost var start, head, size := wire.sent, if firstChunkSent then [] else Head(), SizeLine(|data|);
      ghost var body := size + data + CRLF;
      if !firstChunkSent {
        ok := SendHead();
        if !ok {
          WentShort(start, wire.sent, head, body);
          return;
        }
        firstChunkSent := true;
      }
      ghost var mid := wire.sent;
      ok := SendBody(data);
      WentOn(start, mid, wire.sent, head, body, ok);
    }

    method SendBody(data: seq<byte>) returns (ok: bool)
      modifies wire
      ensures Went(old(wire.sent), wire.sent, SizeLine(|data|) + data + CRLF, ok) && (wire.up ==> ok)
    {
      ghost var start, size := wire.sent, SizeLine(|data|);
      ok := SendAll(SizeLine(|data|));
      if !ok {
        WentShort(start, wire.sent, size, data + CRLF);
        assert size + (data + CRLF) == size + data + CRLF;
        return;
      }
      ghost var mid := wire.sent;
      ok := SendAll(data);
      WentOn(start, mid, wire.sent, size, data, ok);
      if !ok {
        WentShort(start, wire.sent, size + data, CRLF);
        return;
      }
      mid := wire.sent;
      ok := SendAll(CRLF);
      WentOn(start, mid, wire.sent, size + data, CRLF, ok);
    }

    /** The head has gone out since `before`. */
    predicate HasBody(before: seq<byte>, after: seq<byte>) {
      before + Head() <= after
    }

    function Body(before: seq<byte>, after: seq<byte>): seq<byte>
      requires HasBody(before, after)
    {
      after[|before| + |Head()|..]
    }

    /** The receiver of what went out since `before` is still waiting, if it has seen the head. */
    ghost predicate Waiting(before: seq<byte>, after: seq<byte>) {
      WaitingPast(Head(), before, after)
    }

    /**
     The file loop of main_handler() and the closing chunk after it.  At any turn the servers may
     be found stopping, unless they stay.  The result says that the closing chunk went out.
     */
    method ServeFile(file: File, bufSize: nat, stay: bool) returns (complete: bool)
      requires 0 < bufSize < 0x1000_0000 && !firstChunkSent && !file.failed
      modifies wire, file, this`firstChunkSent
      ensures complete ==>
        && HasBody(old(wire.sent), wire.sent)
        && Decode(Body(old(wire.sent), wire.sent)) == Complete(old(file.rest), [])
        && file.rest == [] && !file.failed
      ensures !complete ==> Waiting(old(wire.sent), wire.sent)
      ensures stay && wire.up && file.sound && |statusLines| < maxHead ==> complete
    {
      NothingYet();
      hide Head, Flatten, WaitingPast, Emitted, HasBody, Body, Decode, Chunk, ChunkRun;
      ghost var start, head, all := wire.sent, Head(), file.rest;
      ghost var parts: seq<seq<byte>> := [];
      var chunk := file.Read(bufSize);
      while chunk != []
        invariant Head() == head && |chunk| <= bufSize && NoneEmpty(parts)
        invariant all == Flatten(parts) + (chunk + file.rest)
        invariant wire.sent == start + Emitted(head, parts) && (firstChunkSent <==> parts != [])
        invariant chunk == [] && !file.failed ==> file.rest == []
        invariant file.sound ==> !file.failed
        decreases |chunk| + |file.rest|
      {
        var stopping: bool := *;
        if stopping && !stay {
          EmittedIsCut(head, parts);
          CutWaits(head, start, wire.sent, parts, |Emitted(head, parts)|);
          return false;
        }
        var ok := SendPart(chunk, start, parts);
        if !ok {
          return false;
        }
        ChunkRunNext(parts, chunk);
        parts := parts + [chunk];
        chunk := file.Read(bufSize);
      }
      if file.failed {
        EmittedIsCut(head, parts);
        CutWaits(head, start, wire.sent, parts, |Emitted(head, parts)|);
        return false;
      }
      complete := SendClose(start, parts);
    }

    /** A chunk of the file after those already sent. */
    method SendPart(chunk: seq<byte>, ghost start: seq<byte>, ghost parts: seq<seq<byte>>) returns (ok: bool)
      requires 0 < |chunk| < 0x1000_0000 && NoneEmpty(parts) && (firstChunkSent <==> parts != [])
      requires wire.sent == start + Emitted(Head(), parts)
      modifies wire, this`firstChunkSent
      ensures if ok then wire.sent == start + Emitted(Head(), parts + [chunk]) && firstChunkSent
              else Waiting(start, wire.sent)
      ensures wire.up && |statusLines| < maxHead ==> ok
    {
      hide Head, SizeLine, Chunk, WaitingPast, Emitted;
      ghost var head, before, call := Head(), wire.sent, ChunkCall(chunk);
      CallAfter(head, parts, chunk, firstChunkSent);
      ok := SendChunk(chunk);
      EmittedNext(head, parts, chunk);
      WentPast(start, Emitted(head, parts), before, wire.sent, call, ok);
      if !ok {
        EmittedIsCut(head, parts + [chunk]);
        ghost var n := |wire.sent| - |start|;
        CutOfCut(Emitted(head, parts + [chunk]), head + Chunks(parts + [chunk]), n);
        CutWaits(head, start, wire.sent, parts + [chunk], n);
      }
    }

    /** The chunk of length zero. */
    method SendClose(ghost start: seq<byte>, ghost parts: seq<seq<byte>>) returns (ok: bool)
      requires NoneEmpty(parts) && (firstChunkSent <==> parts != [])
      requires wire.sent == start + Emitted(Head(), parts)
      modifies wire, this`firstChunkSent
      ensures if ok then HasBody(start, wire.sent) && Decode(Body(start, wire.sent)) == Complete(Flatten(parts), [])
              else Waiting(start, wire.sent)
      ensures wire.up && |statusLines| < maxHead ==> ok
    {
      hide Head, SizeLine, Chunk, ChunkRun, Chunks, WaitingPast, Emitted, Decode, Flatten;
      ghost var head, before, call := Head(), wire.sent, ChunkCall([]);
      CallAfter(head, parts, [], firstChunkSent);
      ok := SendChunk([]);
      ChunkRunClosed(parts);
      ghost var whole := head + Chunks(parts);
      assert whole == head + ChunkRun(parts) + Chunk([]);
      WentPast(start, Emitted(head, parts), before, wire.sent, call, ok);
      if ok {
        DecodeChunks(parts, []);
        assert wire.sent == start + whole == (start + head) + Chunks(parts);
        assert Body(start, wire.sent) == Chunks(parts) == Chunks(parts) + [];
      } else {
        CutWaits(head, start, wire.sent, parts, |wire.sent| - |start|);
      }
    }
  }

  /** The chunks that have gone out whole, after the head unless there are none. */
  function Emitted(head: seq<byte>, parts: seq<seq<byte>>): seq<byte> {
    if parts == [] then [] else head + ChunkRun(parts)
  }

  lemma NothingYet()
    ensures forall head :: Emitted(head, []) == []
    ensures Flatten([]) == []
  {
  }

  lemma EmittedNext(head: seq<byte>, parts: seq<seq<byte>>, data: seq<byte>)
    ensures Emitted(head, parts + [data]) == head + ChunkRun(parts) + Chunk(data)
  {
    ChunkRunNext(parts, data);
    assert head + (ChunkRun(parts) + Chunk(data)) == head + ChunkRun(parts) + Chunk(data);
  }

  /** One call, after the chunks before it: the head comes with the first. */
  lemma CallAfter(head: seq<byte>, parts: seq<seq<byte>>, data: seq<byte>, first: bool)
    requires (first <==> parts != []) && |data| < 0x1000_0000
    ensures Emitted(head, parts) + ((if first then [] else head) + (SizeLine(|data|) + data + CRLF))
         == head + ChunkRun(parts) + Chunk(data)
  {
    SizeLineIntact(|data|);
    if parts == [] {
      assert ChunkRun(parts) == [];
    }
    Regroup(head, ChunkRun(parts), SizeLine(|data|) + data + CRLF);
    hide SizeLine, Hex, ChunkRun;
  }

  lemma Regroup(head: seq<byte>, run: seq<byte>, call: seq<byte>)
    ensures [] + (head + call) == head + [] + call && (head + run) + ([] + call) == head + run + call
  {
  }

  lemma EmittedIsCut(head: seq<byte>, parts: seq<seq<byte>>)
    ensures |Emitted(head, parts)| < |head + Chunks(parts)|
    ensures Emitted(head, parts) == (head + Chunks(parts))[..|Emitted(head, parts)|]
  {
    hide Chunk, ChunkRun, Chunks;
    ChunkRunClosed(parts);
    if parts == [] {
      ProperPrefix([], head + Chunks(parts), head + Chunks(parts));
    } else {
      assert head + Chunks(parts) == (head + ChunkRun(parts)) + Chunk([]);
      ProperPrefix(head + ChunkRun(parts), head + Chunks(parts), Chunk([]));
    }
  }

  lemma ProperPrefix(e: seq<byte>, w: seq<byte>, rest: seq<byte>)
    requires w == e + rest && rest != []
    ensures |e| < |w| && e == w[..|e|]
  {
  }

  lemma CutOfCut(e: seq<byte>, w: seq<byte>, n: nat)
    requires |e| <= |w| && e == w[..|e|] && n <= |e|
    ensures e[..n] == w[..n]
  {
  }

  /** What went out since the start, when the last call came after `sofar`. */
  lemma WentPast(start: seq<byte>, sofar: seq<byte>, before: seq<byte>, after: seq<byte>, call: seq<byte>, ok: bool)
    requires before == start + sofar && Went(before, after, call, ok)
    ensures |start| <= |after|
    ensures var n := |after| - |start|;
            n <= |sofar + call| && after == start + (sofar + call)[..n] && (ok <==> n == |sofar + call|)
    ensures ok ==> after == start + (sofar + call)
  {
    var n := |after| - |start|;
    assert (sofar + call)[..n] == sofar + call[..n - |sofar|];
    assert (sofar + call)[..|sofar + call|] == sofar + call;
  }

  ghost predicate WaitingPast(head: seq<byte>, before: seq<byte>, after: seq<byte>) {
    before <= after && (before + head <= after ==> Decode(after[|before| + |head|..]) == Incomplete)
  }

  lemma CutWaits(head: seq<byte>, before: seq<byte>, after: seq<byte>, parts: seq<seq<byte>>, cut: nat)
    requires NoneEmpty(parts) && cut < |head + Chunks(parts)|
    requires after == before + (head + Chunks(parts))[..cut]
    ensures WaitingPast(head, before, after)
  {
    hide Decode, Chunk, Chunks, NoneEmpty;
    if before + head <= after {
      DecodeCutChunks(parts, cut - |head|);
      assert after[|before| + |head|..] == Chunks(parts)[..cut - |head|];
    }
  }
}
