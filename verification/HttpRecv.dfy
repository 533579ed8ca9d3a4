/**
 The receiving half of components/esp_http_server/src/httpd_txrx.c: a socket, and in front
 of it a right-aligned buffer of bytes that were read too early and put back.

 Everything is said about one thing, `Stream()`: the bytes put back followed by the bytes
 the peer has still to deliver.
 */
module HttpRecv {
  import opened Bytes
  import opened Common

  const PARSER_BLOCK_SIZE: nat := 128

  const SOCK_ERR_FAIL: int := -1
  const SOCK_ERR_INVALID: int := -2
  const SOCK_ERR_TIMEOUT: int := -3

  datatype RecvOpt = None | HaltAfterPending | Blocking

  /** memcpy() into a buffer. */
  method MemCpy(dst: array<byte>, off: nat, src: seq<byte>)
    requires off + |src| <= dst.Length
    modifies dst
    ensures dst[off..off + |src|] == src
    ensures dst[..off] == old(dst[..off]) && dst[off + |src|..] == old(dst[off + |src|..])
  {
    forall i | 0 <= i < |src| {
      dst[off + i] := src[i];
    }
  }

  class Conn {
    const pendingData: array<byte>
    var pendingLen: nat

    /** The peer is never late: a read finds something as long as there is something to come. */
    const prompt: bool

    /** The peer: what it will still deliver, and whether the connection is finished. */
    var unread: seq<byte>
    var dead: bool

    constructor (peer: seq<byte>, prompt: bool)
      ensures Valid() && fresh(pendingData) && Stream() == peer && !dead && this.prompt == prompt
    {
      this.prompt := prompt;
      pendingData := new byte[PARSER_BLOCK_SIZE];
      pendingLen, unread, dead := 0, peer, false;
    }

    predicate Valid()
      reads this
    {
      && pendingData.Length == PARSER_BLOCK_SIZE
      && pendingLen <= PARSER_BLOCK_SIZE
      && (dead ==> pendingLen == 0)
    }

    function Pending(): (s: seq<byte>)
      requires Valid()
      reads this, pendingData
      ensures |s| == pendingLen
    {
      pendingData[PARSER_BLOCK_SIZE - pendingLen..]
    }

    function Stream(): (s: seq<byte>)
      requires Valid()
      reads this, pendingData
      ensures |s| == pendingLen + |unread|
    {
      Pending() + unread
    }

    /** recv(): some of what is there, or a timeout, or the end of the connection. */
    method SockRecv(buf: array<byte>, off: nat, len: nat) returns (ret: int)
      requires Valid() && pendingLen == 0 && off + len <= buf.Length && buf != pendingData && len > 0
      modifies this`unread, this`dead, buf
      ensures Valid()
      ensures buf[..off] == old(buf[..off]) && buf[off + len..] == old(buf[off + len..])
      ensures prompt && !old(dead) && old(unread) != [] ==> ret > 0
      ensures ret > 0 ==>
        && !old(dead) && !dead && ret <= len && ret <= |old(unread)|
        && buf[off..off + ret] == old(unread)[..ret] && unread == old(unread)[ret..]
      ensures ret <= 0 ==> unread == old(unread) && (dead <==> old(dead) || ret != SOCK_ERR_TIMEOUT)
    {
      var n, failure: int := *, *;
      if prompt && !(0 < n <= len && n <= |unread|) {
        n := 1;
      }
      if !dead && 0 < n <= len && n <= |unread| {
        SuffixKept(buf[..], off + n, off + len);
        MemCpy(buf, off, unread[..n]);
        SuffixKept(buf[..], off + n, off + len);
        unread := unread[n..];
        ret := n;
      } else {
        var fatal := failure == 0 || failure == SOCK_ERR_FAIL || failure == SOCK_ERR_INVALID;
        ret := if fatal then failure else SOCK_ERR_TIMEOUT;
        dead := dead || ret != SOCK_ERR_TIMEOUT;
      }
    }

    lemma SuffixKept(s: seq<byte>, a: nat, b: nat)
      requires a <= b <= |s|
      ensures s[b..] == s[a..][b - a..]
    {
    }

    /** httpd_recv_pending() */
    method RecvPending(buf: array<byte>, off: nat, len: nat) returns (n: nat)
      requires Valid() && off + len <= buf.Length && buf != pendingData
      modifies this`pendingLen, buf
      ensures Valid() && n == Min(old(pendingLen), len) && pendingLen == old(pendingLen) - n
      ensures buf[..off] == old(buf[..off]) && buf[off + n..] == old(buf[off + n..])
      ensures buf[off..off + n] == old(Stream())[..n] && Stream() == old(Stream())[n..]
    {
      var from := PARSER_BLOCK_SIZE - pendingLen;
      n := Min(pendingLen, len);
      TakenFrom(pendingData[..], from, n, unread);
      MemCpy(buf, off, pendingData[from..from + n]);
      pendingLen := pendingLen - n;
    }

    lemma TakenFrom(s: seq<byte>, from: nat, n: nat, rest: seq<byte>)
      requires from + n <= |s|
      ensures (s[from..] + rest)[..n] == s[from..from + n] && (s[from..] + rest)[n..] == s[from + n..] + rest
    {
    }

    /**
     httpd_recv_with_opt().  What was taken off the stream may be more than what is reported:
     a blocking read that times out half way, and any read ended by a dead connection, lose
     the difference.
     */
    method RecvWithOpt(buf: array<byte>, off: nat, len: nat, opt: RecvOpt) returns (ret: int)
      requires Valid() && off + len <= buf.Length && buf != pendingData && len > 0
      modifies this`pendingLen, this`unread, this`dead, buf
      ensures Valid()
      ensures buf[..off] == old(buf[..off]) && buf[off + len..] == old(buf[off + len..])
      ensures ret > 0 ==>
        && !old(dead) && !dead && ret <= len && ret <= |old(Stream())|
        && buf[off..off + ret] == old(Stream())[..ret]
        && (opt != Blocking || ret == len ==> Stream() == old(Stream())[ret..])
        && (opt == HaltAfterPending && old(pendingLen) > 0 ==> ret == Min(old(pendingLen), len))
        && (opt == RecvOpt.None || opt == HaltAfterPending ==>
            pendingLen == old(pendingLen) - Min(old(pendingLen), len))
      ensures prompt && !old(dead) && len <= |old(Stream())| ==> ret > 0 && (opt == Blocking ==> ret == len)
      ensures prompt && !old(dead) && opt == HaltAfterPending && old(Stream()) != [] ==> ret > 0
      ensures ret <= 0 && opt != Blocking ==> dead || (Stream() == old(Stream()) && pendingLen == 0)
      ensures old(dead) ==> ret <= 0
      ensures ret <= 0 ==> (dead <==> old(dead) || ret != SOCK_ERR_TIMEOUT)
      ensures ret <= 0 && opt == HaltAfterPending ==> old(pendingLen) == 0
    {
      hide Pending, Stream;
      ghost var all := Stream();
      var got := TakePending(buf, off, len);
      if got > 0 && (got == len || opt == HaltAfterPending) {
        return got;
      }
      ret := RecvRest(buf, off, len, opt, got, all);
      NothingPending();
    }

    /** The bytes put back come first, if there are any. */
    method TakePending(buf: array<byte>, off: nat, len: nat) returns (got: nat)
      requires Valid() && off + len <= buf.Length && buf != pendingData
      modifies this`pendingLen, buf
      ensures Valid() && got == Min(old(pendingLen), len) && pendingLen == old(pendingLen) - got
      ensures buf[..off] == old(buf[..off]) && buf[off + len..] == old(buf[off + len..])
      ensures buf[off..off + got] == old(Stream())[..got] && Stream() == old(Stream())[got..]
      ensures pendingLen == 0 ==> unread == old(Stream())[got..]
    {
      hide Pending, Stream;
      got := 0;
      if pendingLen > 0 {
        got := RecvPending(buf, off, len);
        SuffixKept(buf[..], off + got, off + len);
      }
      if pendingLen == 0 {
        NothingPending();
      }
    }

    lemma NothingPending()
      requires Valid() && pendingLen == 0
      ensures Stream() == unread
    {
    }

    /** What httpd_recv_with_opt() does once the bytes put back are used up. */
    method RecvRest(buf: array<byte>, off: nat, len: nat, opt: RecvOpt, got: nat, ghost all: seq<byte>)
      returns (ret: int)
      requires Valid() && off + len <= buf.Length && buf != pendingData && got < len && pendingLen == 0
      requires got <= |all| && buf[off..off + got] == all[..got] && unread == all[got..] && (dead ==> got == 0)
      requires opt == HaltAfterPending ==> got == 0
      modifies this`unread, this`dead, buf
      ensures Valid()
      ensures buf[..off] == old(buf[..off]) && buf[off + len..] == old(buf[off + len..])
      ensures ret > 0 ==>
        && !old(dead) && ret <= len && ret <= |all| && !dead
        && buf[off..off + ret] == all[..ret]
        && (opt != Blocking || ret == len ==> unread == all[ret..])
      ensures prompt && !old(dead) && len <= |all| ==> ret > 0 && (opt == Blocking ==> ret == len)
      ensures prompt && !old(dead) && opt == HaltAfterPending && all != [] ==> ret > 0
      ensures ret <= 0 && opt != Blocking ==> dead || (unread == all && got == 0)
      ensures old(dead) ==> ret <= 0
      ensures ret <= 0 ==> (dead <==> old(dead) || ret != SOCK_ERR_TIMEOUT)
    {
      ghost var was := buf[..];
      var more, last := RecvLoop(buf, off + got, len - got, opt == Blocking);
      PrefixKept(was, buf[..], off, off + got);
      if last <= 0 {
        return if last == SOCK_ERR_TIMEOUT && got != 0 then got else last;
      }
      Join(buf[..], off, off + got, off + got + more);
      Splits(all, got, more);
      ret := got + more;
    }

    /** The loop of httpd_recv_with_opt(): last is what the final recv() returned. */
    method RecvLoop(buf: array<byte>, off: nat, len: nat, blocking: bool) returns (more: nat, last: int)
      requires Valid() && off + len <= buf.Length && buf != pendingData && len > 0 && pendingLen == 0
      modifies this`unread, this`dead, buf
      ensures Valid()
      ensures buf[..off] == old(buf[..off]) && buf[off + len..] == old(buf[off + len..])
      ensures more <= len && more <= |old(unread)|
      ensures prompt && !old(dead) && (len <= |old(unread)| || (!blocking && old(unread) != [])) ==> last > 0
      ensures buf[off..off + more] == old(unread)[..more] && unread == old(unread)[more..]
      ensures last > 0 ==> !old(dead) && !dead && more > 0 && (blocking ==> more == len)
      ensures last <= 0 ==> (!blocking ==> more == 0) && (dead <==> old(dead) || last != SOCK_ERR_TIMEOUT)
    {
      more := 0;
      while true
        invariant Valid() && more < len && more <= |old(unread)|
        invariant !blocking ==> more == 0
        invariant dead <==> old(dead)
        invariant buf[off..off + more] == old(unread)[..more] && unread == old(unread)[more..]
        invariant buf[..off] == old(buf[..off]) && buf[off + len..] == old(buf[off + len..])
        decreases len - more
      {
        last := RecvPiece(buf, off, len, more, old(unread));
        if last <= 0 {
          return;
        }
        more := more + last;
        if more == len || !blocking {
          return;
        }
      }
    }

    /** One turn of the loop: a piece after those that are there. */
    method RecvPiece(buf: array<byte>, off: nat, len: nat, more: nat, ghost all: seq<byte>) returns (last: int)
      requires Valid() && off + len <= buf.Length && buf != pendingData && pendingLen == 0
      requires more < len && more <= |all| && buf[off..off + more] == all[..more] && unread == all[more..]
      modifies this`unread, this`dead, buf
      ensures Valid()
      ensures buf[..off] == old(buf[..off]) && buf[off + len..] == old(buf[off + len..])
      ensures prompt && !old(dead) && more < |all| ==> last > 0
      ensures last > 0 ==>
        && !old(dead) && !dead && more + last <= len && more + last <= |all|
        && buf[off..off + (more + last)] == all[..more + last] && unread == all[more + last..]
      ensures last <= 0 ==>
        && (dead <==> old(dead) || last != SOCK_ERR_TIMEOUT)
        && buf[off..off + more] == all[..more] && unread == all[more..]
    {
      hide Pending, Stream;
      ghost var was := buf[..];
      last := SockRecv(buf, off + more, len - more);
      PrefixKept(was, buf[..], off, off + more);
      if last > 0 {
        PieceAdded(all, buf[..], off, more, last);
      }
    }

    lemma PieceAdded(all: seq<byte>, now: seq<byte>, off: nat, more: nat, n: nat)
      requires off + more + n <= |now| && more + n <= |all|
      requires now[off..off + more] == all[..more] && now[off + more..off + more + n] == all[more..][..n]
      ensures now[off..off + (more + n)] == all[..more + n] && all[more..][n..] == all[more + n..]
    {
      Join(now, off, off + more, off + more + n);
      Splits(all, more, n);
    }

    lemma Splits(s: seq<byte>, a: nat, b: nat)
      requires a + b <= |s|
      ensures s[..a] + s[a..][..b] == s[..a + b]
      ensures s[a..][b..] == s[a + b..]
    {
    }

    lemma PrefixKept(was: seq<byte>, now: seq<byte>, a: nat, b: nat)
      requires a <= b <= |was| == |now| && now[..b] == was[..b]
      ensures now[..a] == was[..a] && now[a..b] == was[a..b]
    {
      assert now[..a] == now[..b][..a] && now[a..b] == now[..b][a..];
    }

    /** httpd_unrecv(): replaces whatever had been put back before. */
    method Unrecv(buf: array<byte>, off: nat, len: nat) returns (n: nat)
      requires Valid() && off + len <= buf.Length && buf != pendingData && !dead
      modifies this`pendingLen, pendingData
      ensures Valid() && n == Min(PARSER_BLOCK_SIZE, len) && pendingLen == n
      ensures Stream() == buf[off..off + n] + unread
    {
      n := Min(PARSER_BLOCK_SIZE, len);
      pendingLen := n;
      MemCpy(pendingData, PARSER_BLOCK_SIZE - n, buf[off..off + n]);
    }
  }
}
