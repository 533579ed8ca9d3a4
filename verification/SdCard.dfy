/**
 An honest SD card at the other end of the SPI bus, at the granularity of command frames,
 tokens and data octets.  It may be late, busy, refuse a command, fail a write, and its
 data lines may be disturbed by a burst of at most 16 bits per block; it never lies.
 This is the environment the driver in SdSpi is proved against.
 */
module SdCard {
  import opened Bytes
  import opened Common
  import opened Gf2
  import opened Crc

  const BLOCK: nat := 512

  const CMD12: byte := 12
  const CMD17: byte := 17
  const CMD18: byte := 18
  const CMD23: byte := 23
  const CMD24: byte := 24
  const CMD25: byte := 25
  const CMD55: byte := 55

  /** An answer to a command: illegal command. */
  const REFUSED: byte := 0x04

  const TOKEN_SINGLE: byte := 0xFE
  const TOKEN_MULTI: byte := 0xFC
  const TOKEN_STOP: byte := 0xFD

  datatype Mode =
    | Idle
    | Sending(next: nat, more: bool)
    | Receiving(next: nat, more: bool)

  predicate Sectors(s: seq<seq<byte>>) {
    forall i | 0 <= i < |s| :: |s[i]| == BLOCK
  }

  /** b is a up to the n sectors from lo on. */
  predicate SameOutside(a: seq<seq<byte>>, b: seq<seq<byte>>, lo: nat, n: nat) {
    && |a| == |b|
    && Sectors(b)
    && forall i | 0 <= i < |a| :: i < lo || lo + n <= i ==> b[i] == a[i]
  }

  /** A sector that holds one octet throughout. */
  function Blank(b: byte): (s: seq<byte>)
    ensures |s| == BLOCK
  {
    seq(BLOCK, _ => b)
  }

  /** The n sectors from lo on are blank, the others as they were. */
  function Wiped(s: seq<seq<byte>>, lo: nat, n: nat, b: byte): (w: seq<seq<byte>>)
    ensures |w| == |s|
  {
    seq(|s|, i requires 0 <= i < |s| => if lo <= i < lo + n then Blank(b) else s[i])
  }

  lemma WipedOutside(s: seq<seq<byte>>, lo: nat, n: nat, b: byte)
    requires Sectors(s)
    ensures SameOutside(s, Wiped(s, lo, n, b), lo, n)
  {
    var w := Wiped(s, lo, n, b);
    forall i | 0 <= i < |w| ensures |w[i]| == BLOCK {
      assert w[i] == if lo <= i < lo + n then Blank(b) else s[i];
    }
  }

  /** A command frame: 01, six bits of command, the argument, and CRC7 with the stop bit. */
  ghost predicate IsFrame(f: seq<byte>, cmd: byte, arg: nat) {
    && |f| == 6
    && f[0] == 0x40 | cmd
    && f[1..5] == BigEndian(arg, 4)
    && Bits8(f[5]) == Register7(f[..5]) + [true]
  }

  class Card {
    const blockAddressed: bool
    const checksCrc: bool
    const noisy: bool

    /** Never late, never busy, never failing: a card on which every legal request succeeds, but for
        the commands it has taken against. */
    const ideal: bool
    var refuses: set<byte>

    /** What sectors erased ahead of a write hold, if that is always the same. */
    const wipe: Option<byte>

    var sectors: seq<seq<byte>>
    var mode: Mode
    var appCmd: bool
    var erase: nat
    var reply: byte
    var outgoing: seq<byte>
    var incoming: seq<byte>
    var armed: bool

    constructor (blockAddressed: bool, checksCrc: bool, noisy: bool, ideal: bool, wipe: Option<byte>,
                 sectors: seq<seq<byte>>)
      requires Sectors(sectors) && (ideal ==> !noisy)
      ensures Valid() && this.blockAddressed == blockAddressed && this.checksCrc == checksCrc && this.noisy == noisy
      ensures this.ideal == ideal && this.wipe == wipe && this.sectors == sectors && erase == 0 && refuses == {}
    {
      this.blockAddressed, this.checksCrc, this.noisy, this.ideal := blockAddressed, checksCrc, noisy, ideal;
      this.wipe, this.sectors := wipe, sectors;
      refuses, mode, appCmd, erase, reply, outgoing, incoming, armed := {}, Idle, false, 0, 0, [], [], false;
    }

    predicate Valid()
      reads this
    {
      && Sectors(sectors)
      && reply & 0x80 == 0
      && (ideal ==> !noisy)
    }

    function Index(arg: nat): nat {
      if blockAddressed then arg else arg / BLOCK
    }

    predicate Legal(arg: nat)
      reads this
    {
      (blockAddressed || arg % BLOCK == 0) && Index(arg) < |sectors|
    }

    /** What a wait for the busy line comes to. */
    method Ready() returns (ok: bool)
      ensures ideal ==> ok
    {
      ok := *;
      ok := ok || ideal;
    }

    /** What a card may be in right after it answered 0 to a command. */
    predicate Accepted(cmd: byte, arg: nat)
      reads this
    {
      && (cmd == CMD17 || cmd == CMD18 ==>
            Legal(arg) && mode == Sending(Index(arg), cmd == CMD18) && outgoing == [])
      && (cmd == CMD24 || cmd == CMD25 ==>
            Legal(arg) && mode == Receiving(Index(arg), cmd == CMD25) && !armed)
      && erase == (if cmd == CMD23 then arg else 0)
      && (cmd == CMD55 ==> appCmd)
    }

    /** What an ideal card does not refuse. */
    predicate Serviceable(cmd: byte, arg: nat)
      reads this
    {
      && cmd !in refuses
      && (cmd == CMD17 || cmd == CMD18 || cmd == CMD24 || cmd == CMD25 ==> Legal(arg))
      && (cmd == CMD23 ==> appCmd)
    }

    /** A command frame has arrived. */
    method Command(frame: seq<byte>)
      requires Valid() && |frame| == 6
      modifies this
      ensures Valid()
      ensures refuses == old(refuses)
      ensures var cmd, arg := frame[0] & 0x3F, BigEndianValue(frame[1..5]);
        && (erase <= old(erase) || (cmd == CMD23 && erase == arg))
        && (cmd == CMD25 ==> SameOutside(old(sectors), sectors, Index(arg), old(erase)))
        && (cmd != CMD25 ==> sectors == old(sectors))
        && (reply == 0 ==> Accepted(cmd, arg))
        && (ideal && IsFrame(frame, cmd, arg) && old(Serviceable(cmd, arg)) ==> reply == 0)
        && (ideal && cmd in refuses ==> reply == REFUSED && erase == old(erase) && sectors == old(sectors))
        && (cmd == CMD25 && reply == 0 && wipe.Some? ==>
            sectors == Wiped(old(sectors), Index(arg), old(erase), wipe.value))
    {
      var refusal, willing := *, *;
      var cmd, arg := frame[0] & 0x3F, BigEndianValue(frame[1..5]);
      var sum := Crc7(frame[..5]);
      Bits8Determined(frame[5], sum);
      if ideal && cmd in refuses {
        reply := REFUSED;
      } else if frame[0] & 0xC0 == 0x40 && frame[5] == sum && (willing || ideal) {
        Execute(cmd, arg);
      } else {
        reply := if refusal & 0x80 == 0 && refusal != 0 then refusal else REFUSED;
      }
    }

    method Execute(cmd: byte, arg: nat)
      requires Valid()
      modifies this
      ensures Valid() && refuses == old(refuses)
      ensures erase <= old(erase) || (cmd == CMD23 && erase == arg)
      ensures cmd == CMD25 ==> SameOutside(old(sectors), sectors, Index(arg), old(erase))
      ensures cmd != CMD25 ==> sectors == old(sectors)
      ensures reply == 0 ==> Accepted(cmd, arg)
      ensures old(Serviceable(cmd, arg)) ==> reply == 0
      ensures cmd == CMD25 && reply == 0 && wipe.Some? ==>
        sectors == Wiped(old(sectors), Index(arg), old(erase), wipe.value)
    {
      var app, pre := appCmd, erase;
      appCmd, erase, reply := false, 0, REFUSED;
      if cmd == CMD17 || cmd == CMD18 {
        if Legal(arg) {
          mode, outgoing, reply := Sending(Index(arg), cmd == CMD18), [], 0;
        }
      } else if cmd == CMD24 || cmd == CMD25 {
        if Legal(arg) {
          mode, armed, reply := Receiving(Index(arg), cmd == CMD25), false, 0;
          if cmd == CMD25 {
            PreErase(Index(arg), pre);
          }
        }
      } else if cmd == CMD23 {
        if app {
          erase, reply := arg, 0;
        }
      } else {
        appCmd, mode, reply := cmd == CMD55, if cmd == CMD12 then Idle else mode, 0;
      }
    }

    /** Sectors erased ahead of a multiple-block write hold anything at all. */
    method PreErase(lo: nat, n: nat)
      requires Valid()
      modifies this`sectors
      ensures Valid() && SameOutside(old(sectors), sectors, lo, n)
      ensures wipe.Some? ==> sectors == Wiped(old(sectors), lo, n, wipe.value)
    {
      var wiped: seq<seq<byte>> := *;
      if wipe.Some? {
        WipedOutside(sectors, lo, n, wipe.value);
        sectors := Wiped(sectors, lo, n, wipe.value);
      } else if SameOutside(sectors, wiped, lo, n) {
        sectors := wiped;
      }
    }

    /** One octet clocked while the answer to a command is awaited. */
    method Poll() returns (b: byte)
      requires Valid()
      ensures b & 0x80 != 0 || b == reply
      ensures ideal ==> b == reply
    {
      var late: bool := *;
      b := if late && !ideal then 0xFF else reply;
    }

    /** The wait for a data token: the token, or what else ended the wait. */
    method Token() returns (token: byte)
      requires Valid()
      modifies this`outgoing, this`mode
      ensures Valid()
      ensures token == TOKEN_SINGLE ==>
        && old(mode).Sending? && old(mode).next < |sectors|
        && mode == (if old(mode).more then Sending(old(mode).next + 1, true) else Idle)
        && |outgoing| == BLOCK + 2
        && (!noisy || Checks(outgoing) ==> outgoing[..BLOCK] == sectors[old(mode).next])
        && (!noisy ==> Checks(outgoing))
      ensures ideal && old(mode).Sending? && old(mode).next < |sectors| ==> token == TOKEN_SINGLE
    {
      var willing, other := *, *;
      if mode.Sending? && mode.next < |sectors| && (willing || ideal) {
        var data := sectors[mode.next];
        var sum := Crc16(data);
        WordInTwoBytes(sum);
        ChecksIffTrailerIsCrc(data, HighByte(sum), LastByte(sum));
        outgoing := Disturb(data + [HighByte(sum), LastByte(sum)]);
        mode := if mode.more then Sending(mode.next + 1, true) else Idle;
        token := TOKEN_SINGLE;
      } else {
        token := if other == TOKEN_SINGLE then 0xFF else other;
      }
    }

    /** The data lines between card and driver. */
    method Disturb(clean: seq<byte>) returns (dirty: seq<byte>)
      requires Checks(clean)
      ensures |dirty| == |clean|
      ensures !noisy || Checks(dirty) ==> dirty == clean
      ensures !noisy ==> dirty == clean
    {
      dirty := clean;
      var flips: seq<byte> := *;
      if noisy && |flips| == |clean| && IsBurst(MessageBits(flips), 16) {
        dirty := XorBytes(clean, flips);
        if Checks(dirty) {
          BurstOnBlock(clean, flips);
        }
      }
    }

    /** One octet clocked out of the card. */
    method Clock() returns (b: byte)
      requires Valid()
      modifies this`outgoing
      ensures Valid()
      ensures |old(outgoing)| > 0 ==> b == old(outgoing)[0] && outgoing == old(outgoing)[1..]
    {
      b := 0xFF;
      if |outgoing| > 0 {
        b, outgoing := outgoing[0], outgoing[1..];
      }
    }

    /** A token from the driver. */
    method TakeToken(token: byte)
      requires Valid()
      modifies this`armed, this`incoming, this`mode
      ensures Valid()
      ensures token != TOKEN_STOP || !old(mode).Receiving? ==> mode == old(mode)
      ensures old(mode).Receiving? && token == (if old(mode).more then TOKEN_MULTI else TOKEN_SINGLE)
        ==> armed && incoming == []
    {
      if mode.Receiving? {
        armed := token == if mode.more then TOKEN_MULTI else TOKEN_SINGLE;
        incoming := [];
        if token == TOKEN_STOP {
          mode := Idle;
        }
      }
    }

    /** One data octet from the driver. */
    method Take(b: byte)
      requires Valid()
      modifies this`incoming
      ensures Valid() && incoming == old(incoming) + [b]
    {
      incoming := incoming + [b];
    }

    /** The data response: only an octet ending in 00101 says that the block was stored. */
    method Response() returns (resp: byte)
      requires Valid() && (|incoming| == BLOCK + 2 ==> Checks(incoming))
      modifies this`sectors, this`mode, this`armed
      ensures Valid()
      ensures Stored(resp) ==>
        && old(mode).Receiving? && old(armed) && |incoming| == BLOCK + 2 && old(mode).next < |sectors|
        && mode == (if old(mode).more then Receiving(old(mode).next + 1, true) else Idle)
        && (!noisy || checksCrc ==> sectors[old(mode).next] == incoming[..BLOCK])
      ensures if old(mode).Receiving? then SameOutside(old(sectors), sectors, old(mode).next, 1)
              else sectors == old(sectors)
      ensures ideal && old(mode).Receiving? && old(armed) && |incoming| == BLOCK + 2 && old(mode).next < |sectors|
        ==> Stored(resp)
    {
      hide Stored;
      var willing, high, refusal := *, *, *;
      resp := Refusal(refusal);
      if armed && mode.Receiving? && |incoming| == BLOCK + 2 && mode.next < |sectors| {
        var arrived := Disturb(incoming);
        var data := arrived[..BLOCK];
        var sum := Crc16(data);
        armed := false;
        WordInTwoBytes(sum);
        TrailerOfBlock(arrived, sum);
        if checksCrc && (arrived[BLOCK] != HighByte(sum) || arrived[BLOCK + 1] != LastByte(sum)) {
          return;
        }
        sectors := sectors[mode.next := data];
        if willing || ideal {
          mode := if mode.more then Receiving(mode.next + 1, true) else Idle;
          resp := Confirmation(high);
        }
      }
    }
  }

  /** The data response that says so; the three highest bits mean nothing. */
  predicate Stored(resp: byte) {
    resp & 0x1F == 0x05
  }

  function Refusal(any: byte): (resp: byte)
    ensures !Stored(resp)
  {
    if Stored(any) then 0x0B else any
  }

  function Confirmation(any: byte): (resp: byte)
    ensures Stored(resp)
  {
    (any & 0xE0) | 0x05
  }

  lemma Bits8Determined(a: byte, b: byte)
    ensures Bits8(a) == Bits8(b) <==> a == b
  {
    if Bits8(a) == Bits8(b) {
      Bits8Injective(a, b);
    }
  }

  /** A received block checks exactly when its last two octets are the CRC of the others. */
  lemma TrailerOfBlock(block: seq<byte>, sum: bv16)
    requires |block| == BLOCK + 2 && Bits16(sum) == Register16(block[..BLOCK])
    ensures Checks(block) <==> block[BLOCK] == HighByte(sum) && block[BLOCK + 1] == LastByte(sum)
  {
    var hi, lo := block[BLOCK], block[BLOCK + 1];
    assert block == block[..BLOCK] + [hi, lo];
    ChecksIffTrailerIsCrc(block[..BLOCK], hi, lo);
    WordInTwoBytes(sum);
    Bits8Determined(hi, HighByte(sum));
    Bits8Determined(lo, LastByte(sum));
    var h, l := HighByte(sum), LastByte(sum);
    assert Bits8(hi) + Bits8(lo) == Bits16(sum) <==> Bits8(hi) == Bits8(h) && Bits8(lo) == Bits8(l) by {
      if Bits8(hi) + Bits8(lo) == Bits16(sum) {
        assert (Bits8(hi) + Bits8(lo))[..8] == Bits8(hi) && (Bits8(hi) + Bits8(lo))[8..] == Bits8(lo);
        assert Bits16(sum)[..8] == Bits8(HighByte(sum)) && Bits16(sum)[8..] == Bits8(LastByte(sum));
      }
    }
  }
}
