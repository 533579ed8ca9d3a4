/**
 The block driver of components/sd_spi_driver/diskio_sd_spi.c, run against the card of
 SdCard and proved to refine a plain array of sectors.
 */
module SdSpi {
  import opened Bytes
  import opened Common
  import opened Gf2
  import opened Crc
  import opened SdCard

  const ACMD23: byte := 0x80 | 23
  const DWORD: nat := 0x1_0000_0000

  /** Sectors a byte-addressed card can be asked for: a DWORD divided by the sector size. */
  const BYTE_REACH: nat := 0x80_0000

  datatype DResult = RES_OK | RES_ERROR | RES_WRPRT | RES_NOTRDY | RES_PARERR

  /** The i-th sector-sized piece of a buffer. */
  function Piece(buff: seq<byte>, i: nat): (p: seq<byte>)
    requires BLOCK * (i + 1) <= |buff|
    ensures |p| == BLOCK
  {
    buff[BLOCK * i..BLOCK * (i + 1)]
  }

  /** n consecutive sectors from s on are what the buffer holds. */
  ghost predicate Holds(sectors: seq<seq<byte>>, s: nat, n: nat, buff: seq<byte>) {
    && s + n <= |sectors|
    && BLOCK * n <= |buff|
    && forall i | 0 <= i < n :: sectors[s + i] == Piece(buff, i)
  }

  lemma SameOutsideChain(a: seq<seq<byte>>, b: seq<seq<byte>>, c: seq<seq<byte>>, lo: nat, n: nat, lo': nat, n': nat)
    requires SameOutside(a, b, lo, n) && SameOutside(b, c, lo', n')
    requires lo <= lo' && lo' + n' <= lo + n
    ensures SameOutside(a, c, lo, n)
  {
  }

  /** From a to b, as far as there are sectors, all are blank. */
  predicate BlankPast(s: seq<seq<byte>>, a: nat, b: nat, blank: byte) {
    forall i | a <= i < b && i < |s| :: s[i] == Blank(blank)
  }

  lemma WipedPast(was: seq<seq<byte>>, begun: seq<seq<byte>>, now: seq<seq<byte>>, lo: nat, count: nat, n: nat, b: byte)
    requires begun == Wiped(was, lo, n, b) && SameOutside(begun, now, lo, count)
    ensures BlankPast(now, lo + count, lo + n, b)
  {
  }

  lemma SameOutsideMore(a: seq<seq<byte>>, b: seq<seq<byte>>, lo: nat, n: nat, n': nat)
    requires SameOutside(a, b, lo, n) && n <= n'
    ensures SameOutside(a, b, lo, n')
  {
  }

  /** The multiplication by 512 is done in 32 bits, so a byte-addressed card sees the sector
      number modulo 2^23. */
  lemma ByteAddress(sector: nat)
    ensures sector * BLOCK % DWORD % BLOCK == 0
    ensures sector * BLOCK % DWORD / BLOCK == sector % BYTE_REACH
  {
    var q, r := sector / BYTE_REACH, sector % BYTE_REACH;
    assert sector == BYTE_REACH * q + r;
    assert sector * BLOCK == DWORD * q + r * BLOCK;
    ModuloUnique(sector * BLOCK, DWORD, q, r * BLOCK);
  }

  lemma BigEndian4(n: nat)
    ensures BigEndian(n, 4) == [LowByte(n / 0x100_0000), LowByte(n / 0x1_0000), LowByte(n / 0x100), LowByte(n)]
  {
    var a, b, c := n / 0x100, n / 0x1_0000, n / 0x100_0000;
    assert a / 256 == b && b / 256 == c;
    assert BigEndian(c, 1) == BigEndian(c / 256, 0) + [LowByte(c)] == [LowByte(c)];
    assert BigEndian(b, 2) == BigEndian(c, 1) + [LowByte(b)];
    assert BigEndian(a, 3) == BigEndian(b, 2) + [LowByte(a)];
  }

  class Driver {
    const card: Card

    /** CONFIG_SD_SPI_CRC16_VERIFY. */
    const verifyCrc: bool

    /** The two bits of Stat and the two of CardType that these functions look at. */
    var noInit: bool
    var protected: bool
    var block: bool
    var sdc: bool

    predicate Valid()
      reads this, card
    {
      card.Valid() && block == card.blockAddressed
    }

    /** The driver as initialisation leaves it, with the card's addressing recognised. */
    constructor (card: Card, verifyCrc: bool, sdc: bool, protected: bool)
      requires card.Valid()
      ensures Valid() && this.card == card && this.verifyCrc == verifyCrc && this.sdc == sdc
      ensures !noInit && this.protected == protected
    {
      this.card, this.verifyCrc, this.sdc, this.protected := card, verifyCrc, sdc, protected;
      noInit, block := false, card.blockAddressed;
    }

    /** The sector that the card will take the driver to mean. */
    function Target(sector: nat): nat
      reads this
    {
      if block then sector else sector % BYTE_REACH
    }

    method SelectCard() returns (ok: bool)
      ensures card.ideal ==> ok
    {
      ok := card.Ready();
    }

    /** send_cmd(): an application command is announced with CMD55 first. */
    method SendCmd(cmd: byte, arg: nat) returns (res: byte)
      requires Valid() && cmd & 0x40 == 0 && arg < DWORD
      modifies card
      ensures Valid()
      ensures card.erase <= old(card.erase) || (cmd & 0x7F == CMD23 && card.erase == arg)
      ensures cmd == CMD25 ==>
        SameOutside(old(card.sectors), card.sectors, card.Index(arg), old(card.erase))
      ensures (cmd != CMD25 && cmd & 0x80 == 0) || cmd == ACMD23 ==> card.sectors == old(card.sectors)
      ensures res == 0 ==> card.Accepted(cmd & 0x7F, arg)
      ensures card.refuses == old(card.refuses)
      ensures card.ideal && (if cmd & 0x80 == 0 then cmd else CMD55) in card.refuses ==>
        res == REFUSED && card.erase == old(card.erase) && card.sectors == old(card.sectors)
      ensures card.ideal && cmd == ACMD23 && CMD55 !in card.refuses && CMD23 !in card.refuses ==> res == 0
      ensures cmd == CMD25 && res == 0 && card.wipe.Some? ==>
        card.sectors == Wiped(old(card.sectors), card.Index(arg), old(card.erase), card.wipe.value)
      ensures card.ideal && cmd & 0x80 == 0 && old(card.Serviceable(cmd, arg)) ==> res == 0
    {
      if cmd & 0x80 != 0 {
        res := SendPlain(CMD55, 0);
        if res as nat > 1 {
          return;
        }
      }
      res := SendPlain(cmd & 0x7F, arg);
    }

    /** The part of send_cmd() after the announcement.  CMD0, which is sent with the card
        already selected, is not among the commands modelled. */
    method SendPlain(cmd: byte, arg: nat) returns (res: byte)
      requires Valid() && cmd & 0xC0 == 0 && arg < DWORD
      modifies card
      ensures Valid()
      ensures card.erase <= old(card.erase) || (cmd == CMD23 && card.erase == arg)
      ensures cmd == CMD25 ==> SameOutside(old(card.sectors), card.sectors, card.Index(arg), old(card.erase))
      ensures cmd != CMD25 ==> card.sectors == old(card.sectors)
      ensures res == 0 ==> card.Accepted(cmd, arg)
      ensures card.ideal && old(card.Serviceable(cmd, arg)) ==> res == 0
      ensures card.refuses == old(card.refuses)
      ensures card.ideal && cmd in card.refuses ==>
        res == REFUSED && card.erase == old(card.erase) && card.sectors == old(card.sectors)
      ensures cmd == CMD25 && res == 0 && card.wipe.Some? ==>
        card.sectors == Wiped(old(card.sectors), card.Index(arg), old(card.erase), card.wipe.value)
    {
      if cmd != CMD12 {
        var ready := SelectCard();
        if !ready {
          return 0xFF;
        }
      }
      SendFrame(cmd, arg);
      res := AwaitReply();
    }

    /** The six octets of a command. */
    method SendFrame(cmd: byte, arg: nat)
      requires Valid() && cmd & 0xC0 == 0 && arg < DWORD
      modifies card
      ensures Valid() && card.refuses == old(card.refuses)
      ensures card.erase <= old(card.erase) || (cmd == CMD23 && card.erase == arg)
      ensures if cmd == CMD25 then SameOutside(old(card.sectors), card.sectors, card.Index(arg), old(card.erase))
              else card.sectors == old(card.sectors)
      ensures card.reply == 0 ==> card.Accepted(cmd, arg)
      ensures card.ideal && old(card.Serviceable(cmd, arg)) ==> card.reply == 0
      ensures card.ideal && cmd in card.refuses ==>
        card.reply == REFUSED && card.erase == old(card.erase) && card.sectors == old(card.sectors)
      ensures cmd == CMD25 && card.reply == 0 && card.wipe.Some? ==>
        card.sectors == Wiped(old(card.sectors), card.Index(arg), old(card.erase), card.wipe.value)
    {
      var frame := Frame(cmd, arg);
      var sum := Crc7(frame);
      FrameIsWellFormed(cmd, arg, sum);
      card.Command(frame + [sum]);
    }

    /** Up to ten octets are read for one with the top bit clear. */
    method AwaitReply() returns (res: byte)
      requires Valid()
      ensures res & 0x80 != 0 || res == card.reply
      ensures card.ideal ==> res == card.reply
    {
      var n := 10;
      res := card.Poll();
      while res & 0x80 != 0 && n > 1
        invariant res & 0x80 != 0 || res == card.reply
        invariant card.ideal ==> res == card.reply
        decreases n
      {
        n := n - 1;
        res := card.Poll();
      }
    }

    function Frame(cmd: byte, arg: nat): (f: seq<byte>)
      ensures |f| == 5
    {
      [0x40 | cmd, LowByte(arg / 0x100_0000), LowByte(arg / 0x1_0000), LowByte(arg / 0x100), LowByte(arg)]
    }

    lemma FrameIsWellFormed(cmd: byte, arg: nat, sum: byte)
      requires cmd & 0xC0 == 0 && arg < DWORD
      requires Bits8(sum) == Register7(Frame(cmd, arg)) + [true]
      ensures var f := Frame(cmd, arg) + [sum];
              IsFrame(f, cmd, arg) && f[0] & 0x3F == cmd && BigEndianValue(f[1..5]) == arg
    {
      var f := Frame(cmd, arg) + [sum];
      assert f[..5] == Frame(cmd, arg);
      FrameArgument(cmd, arg);
      assert f[1..5] == Frame(cmd, arg)[1..5];
      CommandBits(cmd);
    }

    lemma FrameArgument(cmd: byte, arg: nat)
      requires arg < DWORD
      ensures Frame(cmd, arg)[1..5] == BigEndian(arg, 4)
      ensures BigEndianValue(BigEndian(arg, 4)) == arg
    {
      BigEndian4(arg);
      FourBytesRoundTrip(arg);
    }

    lemma CommandBits(cmd: byte)
      requires cmd & 0xC0 == 0
      ensures (0x40 | cmd) & 0x3F == cmd
    {
    }

    /** One block from the card into buff[off..]; btr is 512 in every call modelled here. */
    method RcvrDataBlock(buff: array<byte>, off: nat) returns (ok: bool)
      requires Valid() && off + BLOCK <= buff.Length
      modifies card, buff
      ensures Valid() && card.sectors == old(card.sectors) && card.erase == old(card.erase)
      ensures buff[..off] == old(buff[..off]) && buff[off + BLOCK..] == old(buff[off + BLOCK..])
      ensures ok ==>
        && old(card.mode).Sending? && old(card.mode).next < |card.sectors|
        && card.mode == (if old(card.mode).more then Sending(old(card.mode).next + 1, true) else Idle)
        && (verifyCrc || !card.noisy ==> buff[off..off + BLOCK] == card.sectors[old(card.mode).next])
      ensures card.ideal && old(card.mode).Sending? && old(card.mode).next < |old(card.sectors)| ==> ok
    {
      hide Checks;
      var token := card.Token();
      if token != TOKEN_SINGLE {
        return false;
      }
      ghost var sent := card.outgoing;
      ClockIn(buff, off);
      Tail(sent);
      var hi := card.Clock();
      var lo := card.Clock();
      if verifyCrc {
        var sum := Crc16(buff[off..off + BLOCK]);
        TrailerOfBlock(sent, sum);
        if hi != HighByte(sum) || lo != LastByte(sum) {
          return false;
        }
      }
      ok := true;
    }

    /** The data of a block, octet by octet. */
    method ClockIn(buff: array<byte>, off: nat)
      requires Valid() && off + BLOCK <= buff.Length && |card.outgoing| == BLOCK + 2
      modifies card`outgoing, buff
      ensures Valid() && card.outgoing == old(card.outgoing)[BLOCK..]
      ensures buff[off..off + BLOCK] == old(card.outgoing)[..BLOCK]
      ensures buff[..off] == old(buff[..off]) && buff[off + BLOCK..] == old(buff[off + BLOCK..])
    {
      ghost var sent := card.outgoing;
      var i := 0;
      while i < BLOCK
        invariant 0 <= i <= BLOCK && Valid()
        invariant card.outgoing == sent[i..] && buff[off..off + i] == sent[..i]
        invariant buff[..off] == old(buff[..off]) && buff[off + BLOCK..] == old(buff[off + BLOCK..])
      {
        buff[off + i] := card.Clock();
        assert sent[..i + 1] == sent[..i] + [sent[i]];
        assert sent[i..][1..] == sent[i + 1..];
        i := i + 1;
      }
    }

    lemma Tail(sent: seq<byte>)
      requires |sent| == BLOCK + 2
      ensures sent[BLOCK..][0] == sent[BLOCK] && sent[BLOCK..][1..][0] == sent[BLOCK + 1]
    {
    }

    /** xmit_datablock(): a block from buff[off..] after a data token, or the bare stop token. */
    method XmitDataBlock(buff: array?<byte>, off: nat, token: byte) returns (ok: bool)
      requires Valid() && (buff != null ==> off + BLOCK <= buff.Length)
      modifies card
      ensures Valid() && card.erase == old(card.erase) && card.refuses == old(card.refuses)
      ensures token == TOKEN_STOP || buff == null || !old(card.mode).Receiving?
        ==> card.sectors == old(card.sectors)
      ensures old(card.mode).Receiving? ==> SameOutside(old(card.sectors), card.sectors, old(card.mode).next, 1)
      ensures ok && token != TOKEN_STOP ==>
        && buff != null && old(card.mode).Receiving? && old(card.mode).next < |card.sectors|
        && card.mode == (if old(card.mode).more then Receiving(old(card.mode).next + 1, true) else Idle)
        && (!card.noisy || card.checksCrc ==> card.sectors[old(card.mode).next] == buff[off..off + BLOCK])
      ensures card.ideal && token == TOKEN_STOP ==> ok
      ensures card.ideal && buff != null && old(card.mode).Receiving? && old(card.mode).next < |old(card.sectors)|
        && token == (if old(card.mode).more then TOKEN_MULTI else TOKEN_SINGLE)
        ==> ok
    {
      var ready := card.Ready();
      if !ready {
        return false;
      }
      card.TakeToken(token);
      if token != TOKEN_STOP {
        if buff == null {
          return false;
        }
        ok := SendBlock(buff, off);
      } else {
        ok := card.Ready();
      }
    }

    method SendBlock(buff: array<byte>, off: nat) returns (ok: bool)
      requires Valid() && off + BLOCK <= buff.Length
      modifies card
      ensures Valid() && card.erase == old(card.erase) && card.refuses == old(card.refuses)
      ensures if old(card.mode).Receiving? then SameOutside(old(card.sectors), card.sectors, old(card.mode).next, 1)
              else card.sectors == old(card.sectors)
      ensures ok ==>
        && old(card.mode).Receiving? && old(card.mode).next < |card.sectors|
        && card.mode == (if old(card.mode).more then Receiving(old(card.mode).next + 1, true) else Idle)
        && (!card.noisy || card.checksCrc ==> card.sectors[old(card.mode).next] == buff[off..off + BLOCK])
      ensures card.ideal && old(card.armed) && old(card.incoming) == [] && old(card.mode).Receiving?
        && old(card.mode).next < |old(card.sectors)|
        ==> ok
    {
      ghost var before := card.incoming;
      var i := 0;
      while i < BLOCK
        invariant 0 <= i <= BLOCK && Valid()
        invariant card.incoming == before + buff[off..off + i]
        invariant card.sectors == old(card.sectors) && card.mode == old(card.mode)
        invariant card.erase == old(card.erase) && card.armed == old(card.armed) && card.refuses == old(card.refuses)
      {
        card.Take(buff[off + i]);
        assert buff[off..off + i + 1] == buff[off..off + i] + [buff[off + i]];
        i := i + 1;
      }
      var data := buff[off..off + BLOCK];
      var sum := Crc16(data);
      card.Take(HighByte(sum));
      card.Take(LastByte(sum));
      WordInTwoBytes(sum);
      ChecksIffTrailerIsCrc(data, HighByte(sum), LastByte(sum));
      assert card.incoming == before + (data + [HighByte(sum), LastByte(sum)]);
      assert |card.incoming| == BLOCK + 2 ==> card.incoming == data + [HighByte(sum), LastByte(sum)];
      var resp := card.Response();
      ok := Stored(resp);
    }

    /** ff_sd_spi_read(); locked is what waiting for the bus mutex came to. */
    method Read(pdrv: nat, buff: array<byte>, sector: nat, count: nat, locked: bool) returns (res: DResult)
      requires Valid() && sector < DWORD && BLOCK * count <= buff.Length
      modifies card, buff
      ensures Valid() && card.sectors == old(card.sectors) && card.erase <= old(card.erase)
      ensures buff[BLOCK * count..] == old(buff[BLOCK * count..])
      ensures res == RES_PARERR <==> pdrv != 0 || count == 0
      ensures res == RES_NOTRDY <==> pdrv == 0 && count > 0 && noInit
      ensures res != RES_WRPRT
      ensures res == RES_OK ==> card.erase == 0
      ensures res == RES_OK && (verifyCrc || !card.noisy)
        ==> Holds(card.sectors, Target(sector), count, buff[..])
      ensures card.ideal && pdrv == 0 && count > 0 && !noInit && locked && Target(sector) + count <= |card.sectors|
        && old((if count == 1 then CMD17 else CMD18) !in card.refuses)
        ==> res == RES_OK
    {
      if pdrv != 0 || count == 0 {
        return RES_PARERR;
      }
      if noInit {
        return RES_NOTRDY;
      }
      if !locked {
        return RES_ERROR;
      }
      ByteAddress(sector);
      var arg := if block then sector else sector * BLOCK % DWORD;
      var left := count;
      if count == 1 {
        var r := SendCmd(CMD17, arg);
        if r == 0 {
          var ok := RcvrDataBlock(buff, 0);
          if ok {
            assert Piece(buff[..], 0) == buff[0..BLOCK];
            left := 0;
          }
        }
      } else {
        var r := SendCmd(CMD18, arg);
        if r == 0 {
          left := ReadRun(buff, Target(sector), count);
          var _ := SendCmd(CMD12, 0);
          var _ := card.Ready();
        }
      }
      res := if left != 0 then RES_ERROR else RES_OK;
    }

    /** The do-while loop of a multiple-block read; what it leaves in count decides the result. */
    method ReadRun(buff: array<byte>, ghost first: nat, count: nat) returns (left: nat)
      requires Valid() && count > 0 && BLOCK * count <= buff.Length
      requires card.mode == Sending(first, true) && first < |card.sectors|
      modifies card, buff
      ensures Valid() && card.sectors == old(card.sectors) && card.erase == old(card.erase)
      ensures buff[BLOCK * count..] == old(buff[BLOCK * count..])
      ensures left == 0 ==> first + count <= |card.sectors|
      ensures left == 0 && (verifyCrc || !card.noisy) ==> Holds(card.sectors, first, count, buff[..])
      ensures card.ideal && first + count <= |card.sectors| ==> left == 0
    {
      left := count;
      var done := 0;
      while left != 0
        invariant done + left == count && Valid()
        invariant card.sectors == old(card.sectors) && card.erase == old(card.erase)
        invariant card.mode == Sending(first + done, true)
        invariant done > 0 ==> first + done <= |card.sectors|
        invariant buff[BLOCK * count..] == old(buff[BLOCK * count..])
        invariant verifyCrc || !card.noisy ==>
          forall i | 0 <= i < done :: card.sectors[first + i] == Piece(buff[..], i)
      {
        ghost var was := buff[..];
        var ok := RcvrDataBlock(buff, BLOCK * done);
        if !ok {
          left := 1;
          return;
        }
        PiecesKept(was, buff[..], done, count);
        assert Piece(buff[..], done) == buff[BLOCK * done..BLOCK * done + BLOCK];
        done, left := done + 1, left - 1;
      }
    }

    lemma PiecesKept(was: seq<byte>, now: seq<byte>, done: nat, count: nat)
      requires |was| == |now| && BLOCK * count <= |was| && done < count
      requires now[..BLOCK * done] == was[..BLOCK * done]
      requires now[BLOCK * done + BLOCK..] == was[BLOCK * done + BLOCK..]
      ensures forall i | 0 <= i < done :: Piece(now, i) == Piece(was, i)
      ensures now[BLOCK * count..] == was[BLOCK * count..]
    {
      forall i | 0 <= i < done ensures Piece(now, i) == Piece(was, i) {
        SliceOfPrefix(now, BLOCK * i, BLOCK * (i + 1), BLOCK * done);
        SliceOfPrefix(was, BLOCK * i, BLOCK * (i + 1), BLOCK * done);
      }
      var k := BLOCK * done + BLOCK;
      assert now[BLOCK * count..] == now[k..][BLOCK * count - k..];
      assert was[BLOCK * count..] == was[k..][BLOCK * count - k..];
    }

    /** How far from its first sector a write can reach: a single block stays where it is, a run may
        find sectors erased under an older announcement. */
    function Reach(count: nat): nat
      reads card
    {
      if count == 1 then 1 else Max(count, card.erase)
    }

    /** Nothing stands in the way of the write. */
    predicate Admissible(pdrv: nat, sector: nat, count: nat, locked: bool)
      reads this, card
    {
      && pdrv == 0 && count > 0 && !noInit && !protected && locked && Target(sector) + count <= |card.sectors|
      && (if count == 1 then CMD24 else CMD25) !in card.refuses
    }

    /** ff_sd_spi_write(); locked is what waiting for the bus mutex came to. */
    method Write(pdrv: nat, buff: array<byte>, sector: nat, count: nat, locked: bool) returns (res: DResult)
      requires Valid() && sector < DWORD && count < DWORD && BLOCK * count <= buff.Length
      modifies card
      ensures Valid() && card.refuses == old(card.refuses)
      ensures SameOutside(old(card.sectors), card.sectors, Target(sector), old(Reach(count)))
      ensures card.erase <= Max(count, old(card.erase)) && (count == 1 ==> card.erase <= old(card.erase))
      ensures res == RES_OK ==> card.erase == 0
      ensures res == RES_PARERR <==> pdrv != 0 || count == 0
      ensures res == RES_NOTRDY <==> pdrv == 0 && count > 0 && noInit
      ensures res == RES_WRPRT <==> pdrv == 0 && count > 0 && !noInit && protected
      ensures res !in {RES_OK, RES_ERROR} || !locked ==>
                card.sectors == old(card.sectors) && card.erase == old(card.erase)
      ensures res == RES_OK && (card.checksCrc || !card.noisy)
        ==> Holds(card.sectors, Target(sector), count, buff[..])
      ensures card.ideal && old(Admissible(pdrv, sector, count, locked)) ==> res == RES_OK
      ensures card.ideal && old(Admissible(pdrv, sector, count, locked)) && count > 1 && card.wipe.Some?
        && CMD55 in card.refuses
        ==> BlankPast(card.sectors, Target(sector) + count, Target(sector) + old(card.erase), card.wipe.value)
      ensures card.ideal && pdrv == 0 && count > 1 && !noInit && !protected && locked && sdc
        && card.refuses == {CMD25}
        ==> res == RES_ERROR && card.erase == count && card.sectors == old(card.sectors)
    {
      if pdrv != 0 || count == 0 {
        return RES_PARERR;
      }
      if noInit {
        return RES_NOTRDY;
      }
      if protected {
        return RES_WRPRT;
      }
      if !locked {
        return RES_ERROR;
      }
      ByteAddress(sector);
      var arg := if block then sector else sector * BLOCK % DWORD;
      var left;
      if count == 1 {
        left := WriteOne(buff, arg);
      } else {
        left := WriteMany(buff, arg, count);
      }
      res := if left != 0 then RES_ERROR else RES_OK;
    }

    /** The single-block half of a write; arg is what the card is to be sent. */
    method WriteOne(buff: array<byte>, arg: nat) returns (left: nat)
      requires Valid() && arg < DWORD && (block || arg % BLOCK == 0) && BLOCK <= buff.Length
      modifies card
      ensures Valid() && card.refuses == old(card.refuses) && card.erase <= old(card.erase)
      ensures SameOutside(old(card.sectors), card.sectors, card.Index(arg), 1)
      ensures left == 0 ==> card.erase == 0
      ensures left == 0 && (card.checksCrc || !card.noisy) ==> Holds(card.sectors, card.Index(arg), 1, buff[..])
      ensures card.ideal && CMD24 !in card.refuses && card.Index(arg) < |card.sectors| ==> left == 0
    {
      left := 1;
      var r := SendCmd(CMD24, arg);
      if r == 0 {
        var ok := XmitDataBlock(buff, 0, TOKEN_SINGLE);
        if ok {
          assert Piece(buff[..], 0) == buff[0..BLOCK];
          left := 0;
        }
      }
    }

    /** The multiple-block half. */
    method WriteMany(buff: array<byte>, arg: nat, count: nat) returns (left: nat)
      requires Valid() && arg < DWORD && (block || arg % BLOCK == 0)
      requires 1 < count < DWORD && BLOCK * count <= buff.Length
      modifies card
      ensures Valid() && card.refuses == old(card.refuses)
      ensures SameOutside(old(card.sectors), card.sectors, card.Index(arg), Max(count, old(card.erase)))
      ensures card.erase <= Max(count, old(card.erase)) && (left == 0 ==> card.erase == 0)
      ensures left == 0 && (card.checksCrc || !card.noisy) ==> Holds(card.sectors, card.Index(arg), count, buff[..])
      ensures card.ideal && CMD25 !in card.refuses && card.Index(arg) + count <= |card.sectors| ==> left == 0
      ensures card.ideal && CMD25 !in card.refuses && card.Index(arg) + count <= |card.sectors| && card.wipe.Some?
        && CMD55 in card.refuses
        ==> BlankPast(card.sectors, card.Index(arg) + count, card.Index(arg) + old(card.erase), card.wipe.value)
      ensures card.ideal && sdc && card.refuses == {CMD25} ==>
        left != 0 && card.erase == count && card.sectors == old(card.sectors)
    {
      hide Wiped, IsFrame, Holds;
      left := count;
      if sdc {
        var _ := SendCmd(ACMD23, count);
      }
      ghost var erase := card.erase;
      assert card.sectors == old(card.sectors) && erase <= Max(count, old(card.erase));
      var r := SendCmd(CMD25, arg);
      SameOutsideMore(old(card.sectors), card.sectors, card.Index(arg), erase, Max(count, old(card.erase)));
      if r == 0 {
        label accepted:
        ghost var begun := card.sectors;
        left := SendRun(buff, card.Index(arg), count);
        SameOutsideChain(old(card.sectors), begun, card.sectors,
                         card.Index(arg), Max(count, old(card.erase)), card.Index(arg), count);
        if card.wipe.Some? {
          WipedPast(old(card.sectors), begun, card.sectors, card.Index(arg), count, erase, card.wipe.value);
        }
      }
    }

    /** The blocks of a run, and the stop token after them. */
    method SendRun(buff: array<byte>, ghost first: nat, count: nat) returns (left: nat)
      requires Valid() && count > 0 && BLOCK * count <= buff.Length
      requires card.mode == Receiving(first, true) && first < |card.sectors|
      modifies card
      ensures Valid() && card.erase == old(card.erase) && card.refuses == old(card.refuses)
      ensures SameOutside(old(card.sectors), card.sectors, first, count)
      ensures left == 0 && (card.checksCrc || !card.noisy) ==> Holds(card.sectors, first, count, buff[..])
      ensures card.ideal && first + count <= |card.sectors| ==> left == 0
    {
      left := WriteRun(buff, first, count);
      var ok := XmitDataBlock(null, 0, TOKEN_STOP);
      if !ok {
        left := 1;
      }
    }

    /** The do-while loop of a multiple-block write. */
    method WriteRun(buff: array<byte>, ghost first: nat, count: nat) returns (left: nat)
      requires Valid() && count > 0 && BLOCK * count <= buff.Length
      requires card.mode == Receiving(first, true) && first < |card.sectors|
      modifies card
      ensures Valid() && card.erase == old(card.erase) && card.refuses == old(card.refuses)
      ensures SameOutside(old(card.sectors), card.sectors, first, count)
      ensures left == 0 ==> first + count <= |card.sectors|
      ensures left == 0 && (card.checksCrc || !card.noisy) ==> Holds(card.sectors, first, count, buff[..])
      ensures card.ideal && first + count <= |card.sectors| ==> left == 0
    {
      left := count;
      var done := 0;
      while left != 0
        invariant done + left == count && Valid() && card.erase == old(card.erase) && card.refuses == old(card.refuses)
        invariant card.mode == Receiving(first + done, true)
        invariant SameOutside(old(card.sectors), card.sectors, first, done)
        invariant done > 0 ==> first + done <= |card.sectors|
        invariant card.checksCrc || !card.noisy ==>
          forall i | 0 <= i < done :: card.sectors[first + i] == Piece(buff[..], i)
      {
        ghost var was := card.sectors;
        var ok := XmitDataBlock(buff, BLOCK * done, TOKEN_MULTI);
        SameOutsideMore(old(card.sectors), was, first, done, count);
        SameOutsideChain(old(card.sectors), was, card.sectors, first, count, first + done, 1);
        if !ok {
          left := 1;
          return;
        }
        SameOutsideMore(old(card.sectors), was, first, done, done + 1);
        SameOutsideChain(old(card.sectors), was, card.sectors, first, done + 1, first + done, 1);
        assert Piece(buff[..], done) == buff[BLOCK * done..BLOCK * done + BLOCK];
        done, left := done + 1, left - 1;
      }
    }
  }

  /** What a run of sectors holds is determined: two buffers it agrees with are one. */
  lemma HoldsDetermines(sectors: seq<seq<byte>>, s: nat, n: nat, a: seq<byte>, b: seq<byte>)
    requires Holds(sectors, s, n, a) && Holds(sectors, s, n, b)
    ensures a[..BLOCK * n] == b[..BLOCK * n]
  {
    forall k | 0 <= k < BLOCK * n ensures a[k] == b[k] {
      var i, j := k / BLOCK, k % BLOCK;
      assert k == BLOCK * i + j && i < n;
      assert Piece(a, i)[j] == a[k] && Piece(b, i)[j] == b[k];
      assert sectors[s + i] == Piece(a, i) == Piece(b, i);
    }
  }

  /** What is written is what is read back, with check sums on at both ends or quiet lines. */
  method WriteThenRead(d: Driver, buff: array<byte>, back: array<byte>, sector: nat, count: nat)
    returns (wrote: DResult, read: DResult)
    requires d.Valid() && sector < DWORD && count < DWORD && buff != back
    requires BLOCK * count <= buff.Length && BLOCK * count <= back.Length
    modifies d.card, back
    ensures wrote == read == RES_OK && ((d.card.checksCrc && d.verifyCrc) || !d.card.noisy)
      ==> back[..BLOCK * count] == buff[..BLOCK * count]
    ensures SameOutside(old(d.card.sectors), d.card.sectors, d.Target(sector), Max(count, old(d.card.erase)))
  {
    wrote := d.Write(0, buff, sector, count, true);
    read := d.Read(0, back, sector, count, true);
    if wrote == read == RES_OK && ((d.card.checksCrc && d.verifyCrc) || !d.card.noisy) {
      HoldsDetermines(d.card.sectors, d.Target(sector), count, back[..], buff[..]);
    }
  }
}
