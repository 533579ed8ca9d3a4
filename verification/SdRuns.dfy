/**
 When a write of SdSpi stays in the range it was asked for: exactly, for one call, and over any
 sequence of calls.
 */
module SdRuns {
  import opened Bytes
  import opened Common
  import opened SdCard
  import opened SdSpi

  /**
   A write of one block, or of no fewer blocks than the card was last told of, leaves every sector
   outside [Target, Target + count) as it was, whatever comes of it.
   */
  method WriteInRange(d: Driver, pdrv: nat, buff: array<byte>, sector: nat, count: nat, locked: bool)
    returns (res: DResult)
    requires d.Valid() && sector < DWORD && count < DWORD && BLOCK * count <= buff.Length
    requires count == 1 || d.card.erase <= count
    modifies d.card
    ensures SameOutside(old(d.card.sectors), d.card.sectors, d.Target(sector), count)
  {
    res := d.Write(pdrv, buff, sector, count, locked);
  }

  /**
   The converse: for any other write there are a card and a bus that change the sector after the
   range, and report success.  The card turns CMD55 down, so that the new count is not announced,
   and erases what it was last told to.
   */
  method StaleCountWipes(d: Driver, buff: array<byte>, sector: nat, count: nat) returns (res: DResult)
    requires d.Valid() && sector < DWORD && count < DWORD && BLOCK * count <= buff.Length
    requires 1 < count < d.card.erase && d.Target(sector) + count < |d.card.sectors|
    requires !d.noInit && !d.protected && d.card.ideal && d.card.refuses == {CMD55} && d.card.wipe.Some?
    requires d.card.sectors[d.Target(sector) + count] != Blank(d.card.wipe.value)
    modifies d.card
    ensures res == RES_OK && |d.card.sectors| == old(|d.card.sectors|)
    ensures d.card.sectors[d.Target(sector) + count] != old(d.card.sectors[d.Target(sector) + count])
  {
    res := d.Write(0, buff, sector, count, true);
  }

  /**
   Such a state is reached: a write of three sectors is announced and then refused, and the next
   write, of two, goes unannounced and blanks a third.  It is the second that reports success.
   */
  method StaleCountArises() returns (first: DResult, second: DResult, before: byte, after: byte)
    ensures first == RES_ERROR && second == RES_OK && before == 0 && after == 0xFF
  {
    var disk := seq(4, _ => Blank(0));
    var card := new Card(true, true, false, true, Some(0xFF), disk);
    var d := new Driver(card, true, true, false);
    var buff := new byte[BLOCK * 3];
    card.refuses := {CMD25};
    first := d.Write(0, buff, 0, 3, true);
    before := card.sectors[2][0];
    card.refuses := {CMD55};
    second := d.Write(0, buff, 0, 2, true);
    assert card.sectors[2] == Blank(0xFF);
    after := card.sectors[2][0];
  }

  // ----- Sequences of calls -----

  datatype Request = Get(sector: nat, count: nat) | Put(sector: nat, data: seq<byte>)

  predicate Fits(r: Request) {
    r.sector < DWORD && (r.Put? ==> |r.data| % BLOCK == 0 && |r.data| / BLOCK < DWORD)
  }

  function Blocks(r: Request): nat {
    if r.Put? then |r.data| / BLOCK else r.count
  }

  /** Before the k-th call no announcement is pending: the last call that could have left one has
      been followed by one that succeeded. */
  predicate Settled(requests: seq<Request>, results: seq<DResult>, k: nat)
    requires k <= |requests| && k <= |results|
  {
    k == 0
    || results[k - 1] == RES_OK
    || (!(requests[k - 1].Put? && Blocks(requests[k - 1]) > 1 && results[k - 1] == RES_ERROR)
        && Settled(requests, results, k - 1))
  }

  lemma {:induction false} SettledLonger(requests: seq<Request>, results: seq<DResult>, more: seq<DResult>, k: nat)
    requires k <= |requests| && k <= |results|
    ensures Settled(requests, results + more, k) == Settled(requests, results, k)
  {
    if k > 0 {
      SettledLonger(requests, results, more, k - 1);
    }
  }

  /**
   Any sequence of reads and writes on a card that starts with no announcement pending.  A write
   that comes after a call that succeeded, or after none that could have left an announcement
   behind, changes nothing outside its range; a read changes nothing at all.
   */
  method Session(d: Driver, requests: seq<Request>) returns (results: seq<DResult>, ghost disks: seq<seq<seq<byte>>>)
    requires d.Valid() && d.card.erase == 0 && forall r | r in requests :: Fits(r)
    modifies d.card
    ensures |results| == |requests| && |disks| == |requests| + 1
    ensures disks[0] == old(d.card.sectors) && disks[|requests|] == d.card.sectors
    ensures forall k | 0 <= k < |requests| :: requests[k].Get? ==> disks[k + 1] == disks[k]
    ensures forall k | 0 <= k < |requests| :: requests[k].Put? && Settled(requests, results, k) ==>
      SameOutside(disks[k], disks[k + 1], d.Target(requests[k].sector), Blocks(requests[k]))
  {
    results, disks := [], [d.card.sectors];
    for k := 0 to |requests|
      invariant d.Valid() && |results| == k && |disks| == k + 1
      invariant disks[0] == old(d.card.sectors) && disks[k] == d.card.sectors
      invariant Settled(requests, results, k) ==> d.card.erase == 0
      invariant forall i | 0 <= i < k :: requests[i].Get? ==> disks[i + 1] == disks[i]
      invariant forall i | 0 <= i < k :: requests[i].Put? && Settled(requests, results, i) ==>
        SameOutside(disks[i], disks[i + 1], d.Target(requests[i].sector), Blocks(requests[i]))
    {
      hide SameOutside;
      assert Fits(requests[k]);
      var res := Serve(d, requests[k]);
      forall i | 0 <= i <= k ensures Settled(requests, results + [res], i) == Settled(requests, results, i) {
        SettledLonger(requests, results, [res], i);
      }
      results, disks := results + [res], disks + [d.card.sectors];
    }
  }

  method Serve(d: Driver, r: Request) returns (res: DResult)
    requires d.Valid() && Fits(r)
    modifies d.card
    ensures d.Valid()
    ensures r.Get? ==> d.card.sectors == old(d.card.sectors)
    ensures r.Put? && old(d.card.erase) == 0 ==>
      SameOutside(old(d.card.sectors), d.card.sectors, d.Target(r.sector), Blocks(r))
    ensures res == RES_OK ==> d.card.erase == 0
    ensures old(d.card.erase) == 0 && !(r.Put? && Blocks(r) > 1 && res == RES_ERROR) ==> d.card.erase == 0
  {
    var locked: bool := *;
    match r
    case Get(sector, count) =>
      var buff := new byte[BLOCK * count];
      res := d.Read(0, buff, sector, count, locked);
    case Put(sector, data) =>
      var buff := new byte[|data|];
      forall i | 0 <= i < |data| {
        buff[i] := data[i];
      }
      res := d.Write(0, buff, sector, |data| / BLOCK, locked);
  }
}
