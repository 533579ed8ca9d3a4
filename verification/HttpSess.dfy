/**
 The session table of components/esp_http_server/src/httpd_sess.c and the loop of
 components/esp_http_server/src/httpd_main.c that fills and empties it.
 */
module HttpSess {
  import opened Common

  type Fd = x: int | -1 <= x witness -1

  /** struct sock_db, as far as the table is concerned; fd is -1 in a free slot. */
  datatype Slot = Slot(fd: Fd, lruCounter: nat, forAsyncReq: bool) {
    predicate Live() {
      fd != -1
    }
  }

  /** When the session was opened or last finished a request, and whether it ever finished one. */
  datatype Use = Use(at: nat, served: bool)

  function Count(s: seq<Slot>): (n: nat)
    ensures n <= |s|
  {
    if s == [] then 0 else Count(s[..|s| - 1]) + if s[|s| - 1].Live() then 1 else 0
  }

  lemma {:induction false} CountUpdate(s: seq<Slot>, i: nat, t: Slot)
    requires i < |s|
    ensures Count(s[i := t]) == Count(s) + (if t.Live() then 1 else 0) - (if s[i].Live() then 1 else 0)
  {
    var n := |s| - 1;
    if i == n {
      assert s[i := t][..n] == s[..n];
    } else {
      CountUpdate(s[..n], i, t);
      assert s[i := t][..n] == s[..n][i := t];
    }
  }

  /** The table is full exactly when the count says so. */
  lemma {:induction false} CountFull(s: seq<Slot>)
    ensures Count(s) == |s| <==> forall i | 0 <= i < |s| :: s[i].Live()
    ensures Count(s) == 0 <==> forall i | 0 <= i < |s| :: !s[i].Live()
  {
    if s != [] {
      CountFull(s[..|s| - 1]);
      assert forall i | 0 <= i < |s| - 1 :: s[..|s| - 1][i] == s[i];
    }
  }

  predicate Distinct(s: seq<Slot>) {
    forall i, j | 0 <= i < j < |s| && s[i].Live() && s[j].Live() :: s[i].fd != s[j].fd
  }

  /**
   What the counters say about the past.  A smaller counter means an earlier use.  Opening a session
   does not count up, so a counter may be shared; but then all who share it, save the one whose
   request made it, were opened after that.
   */
  predicate History(s: seq<Slot>, uses: seq<Use>, counter: nat, clock: nat)
    requires |uses| == |s|
  {
    && (forall i | 0 <= i < |s| && s[i].Live() :: s[i].lruCounter <= counter && uses[i].at <= clock)
    && (forall i, j | 0 <= i < |s| && 0 <= j < |s| && i != j && s[i].Live() && s[j].Live() ::
          s[i].lruCounter < s[j].lruCounter || (uses[i].served && s[i].lruCounter == s[j].lruCounter)
          ==> uses[i].at < uses[j].at)
  }

  /** Everything the table keeps. */
  predicate Good(s: seq<Slot>, uses: seq<Use>, active: nat, counter: nat, clock: nat) {
    |uses| == |s| && active == Count(s) && Distinct(s) && History(s, uses, counter, clock)
  }

  lemma GoodOpened(s: seq<Slot>, uses: seq<Use>, active: nat, counter: nat, clock: nat, i: nat, fd: nat)
    requires Good(s, uses, active, counter, clock) && i < |s| && !s[i].Live()
    requires forall j | 0 <= j < |s| :: s[j].fd != fd
    ensures Good(s[i := Slot(fd, counter, false)], uses[i := Use(clock + 1, false)], active + 1, counter, clock + 1)
  {
    CountUpdate(s, i, Slot(fd, counter, false));
  }

  lemma GoodServed(s: seq<Slot>, uses: seq<Use>, active: nat, counter: nat, clock: nat, i: nat)
    requires Good(s, uses, active, counter, clock) && i < |s| && s[i].Live()
    ensures Good(s[i := s[i].(lruCounter := counter + 1)], uses[i := Use(clock + 1, true)], active,
                 counter + 1, clock + 1)
  {
    CountUpdate(s, i, s[i].(lruCounter := counter + 1));
  }

  lemma GoodClosed(s: seq<Slot>, uses: seq<Use>, active: nat, counter: nat, clock: nat, i: nat)
    requires Good(s, uses, active, counter, clock) && i < |s| && s[i].Live()
    ensures active > 0
    ensures Good(s[i := s[i].(fd := -1)], uses, active - 1, if active == 1 then 0 else counter, clock)
  {
    CountUpdate(s, i, s[i].(fd := -1));
    CountFull(s[i := s[i].(fd := -1)]);
  }

  lemma GoodAsync(s: seq<Slot>, uses: seq<Use>, active: nat, counter: nat, clock: nat, i: nat, b: bool)
    requires Good(s, uses, active, counter, clock) && i < |s|
    ensures Good(s[i := s[i].(forAsyncReq := b)], uses, active, counter, clock)
  {
    CountUpdate(s, i, s[i].(forAsyncReq := b));
  }

  /** Who may be closed to make room. */
  predicate Eligible(t: Slot) {
    t.Live() && !t.forAsyncReq
  }

  /** The first with the least counter among those before n that may be closed. */
  predicate IsLowest(s: seq<Slot>, n: nat, found: Option<nat>)
    requires n <= |s|
  {
    match found
    case None => forall j | 0 <= j < n :: !Eligible(s[j])
    case Some(i) =>
      && i < n && Eligible(s[i])
      && (forall j | 0 <= j < n && Eligible(s[j]) :: s[i].lruCounter <= s[j].lruCounter)
      && (forall j | 0 <= j < i && Eligible(s[j]) :: s[i].lruCounter < s[j].lruCounter)
  }

  /** Every other session that may be closed was opened or last used later. */
  predicate Oldest(s: seq<Slot>, uses: seq<Use>, i: nat)
    requires |uses| == |s| && i < |s|
  {
    forall j | 0 <= j < |s| && j != i && Eligible(s[j]) :: uses[i].at < uses[j].at
  }

  /** A session that may be closed has the same counter and is no newer. */
  predicate OlderTwin(s: seq<Slot>, uses: seq<Use>, i: nat)
    requires |uses| == |s| && i < |s|
  {
    exists j :: 0 <= j < |s| && j != i && Eligible(s[j]) && s[j].lruCounter == s[i].lruCounter
                && uses[j].at <= uses[i].at
  }

  /**
   Exactly when the choice is the oldest: when no eligible session that shares its counter is older.
   That is always so for a session that has finished a request, and for one that shares its counter
   with no other.
   */
  lemma OldestIffNoOlderTwin(s: seq<Slot>, uses: seq<Use>, counter: nat, clock: nat, i: nat)
    requires |uses| == |s| && History(s, uses, counter, clock) && IsLowest(s, |s|, Some(i))
    ensures Oldest(s, uses, i) <==> !OlderTwin(s, uses, i)
    ensures uses[i].served ==> Oldest(s, uses, i)
    ensures (forall j | 0 <= j < |s| && j != i && Eligible(s[j]) :: s[j].lruCounter != s[i].lruCounter) ==>
      Oldest(s, uses, i)
  {
  }

  class Httpd {
    const sd: array<Slot>
    const lruPurge: bool
    var active: nat
    var lruCounter: nat

    /** History: per slot, and the time. */
    ghost var uses: seq<Use>
    ghost var clock: nat

    /** httpd_sess_init() on a new table. */
    constructor (maxOpenSockets: nat, lruPurge: bool)
      ensures Valid() && fresh(sd) && sd.Length == maxOpenSockets && active == 0 && this.lruPurge == lruPurge
      ensures lruCounter == 0 && forall i | 0 <= i < sd.Length :: !sd[i].Live()
    {
      this.lruPurge := lruPurge;
      sd := new Slot[maxOpenSockets](_ => Slot(-1, 0, false));
      active, lruCounter, clock := 0, 0, 0;
      uses := seq(maxOpenSockets, _ => Use(0, false));
      new;
      CountFull(sd[..]);
    }

    ghost predicate Valid()
      reads this, sd
    {
      Good(sd[..], uses, active, lruCounter, clock)
    }

    /** httpd_sess_get_free() */
    method GetFree() returns (r: Option<nat>)
      requires Valid()
      ensures r.None? <==> active == sd.Length
      ensures r.Some? ==> r.value < sd.Length && !sd[r.value].Live() && forall j | 0 <= j < r.value :: sd[j].Live()
    {
      CountFull(sd[..]);
      if active == sd.Length {
        return None;
      }
      var i := 0;
      while i < sd.Length
        invariant i <= sd.Length && forall j | 0 <= j < i :: sd[j].Live()
      {
        if sd[i].fd < 0 {
          return Some(i);
        }
        i := i + 1;
      }
      assert false;
    }

    /** The look-up of httpd_sess_get() for a descriptor in use. */
    method Get(fd: nat) returns (r: Option<nat>)
      requires Valid()
      ensures r.None? <==> forall j | 0 <= j < sd.Length :: sd[j].fd != fd
      ensures r.Some? ==> r.value < sd.Length && sd[r.value].fd == fd
    {
      var i := 0;
      while i < sd.Length
        invariant i <= sd.Length && forall j | 0 <= j < i :: sd[j].fd != fd
      {
        if sd[i].fd == fd {
          return Some(i);
        }
        i := i + 1;
      }
      r := None;
    }

    /** httpd_sess_new(), with no open_fn; i is the slot taken. */
    method New(fd: nat) returns (ok: bool, ghost i: nat)
      requires Valid()
      modifies this, sd
      ensures Valid()
      ensures ok <==> old(active) < sd.Length && forall j | 0 <= j < sd.Length :: old(sd[j].fd) != fd
      ensures !ok ==> sd[..] == old(sd[..]) && uses == old(uses)
      ensures ok ==>
        && i < sd.Length && old(!sd[i].Live()) && (forall j | 0 <= j < i :: old(sd[j].Live()))
        && sd[..] == old(sd[..])[i := Slot(fd, old(lruCounter), false)]
        && uses == old(uses)[i := Use(old(clock) + 1, false)]
      ensures active == old(active) + (if ok then 1 else 0) && lruCounter == old(lruCounter)
    {
      hide Good;
      i := 0;
      var known := Get(fd);
      if known.Some? {
        return false, 0;
      }
      var free := GetFree();
      if free.None? {
        return false, 0;
      }
      UsesMatch();
      i := free.value;
      GoodOpened(sd[..], uses, active, lruCounter, clock, i, fd);
      sd[free.value] := Slot(fd, lruCounter, false);
      active := active + 1;
      uses, clock := uses[i := Use(clock + 1, false)], clock + 1;
      assert sd[..] == old(sd[..])[i := Slot(fd, lruCounter, false)];
      ok := true;
    }

    lemma UsesMatch()
      requires Valid()
      ensures |uses| == sd.Length && active <= sd.Length
    {
    }

    /** httpd_sess_delete() */
    method Delete(i: nat)
      requires Valid() && i < sd.Length
      modifies sd, this`active, this`lruCounter
      ensures Valid()
      ensures sd[..] == old(sd[..])[i := old(sd[i]).(fd := -1)]
      ensures active == old(active) - (if old(sd[i].Live()) then 1 else 0)
      ensures lruCounter == if old(sd[i].Live()) && active == 0 then 0 else old(lruCounter)
    {
      if sd[i].fd < 0 {
        assert sd[i].(fd := -1) == sd[i];
        assert sd[..][i := sd[i]] == sd[..];
        return;
      }
      GoodClosed(sd[..], uses, active, lruCounter, clock, i);
      sd[i] := sd[i].(fd := -1);
      active := active - 1;
      if active == 0 {
        lruCounter := 0;
      }
      assert sd[..] == old(sd[..])[i := old(sd[i]).(fd := -1)];
    }

    /** The part of httpd_sess_process() after a request has been dealt with. */
    method Touch(i: nat)
      requires Valid() && i < sd.Length && sd[i].Live()
      modifies sd, this`lruCounter, this`uses, this`clock
      ensures Valid()
      ensures sd[..] == old(sd[..])[i := old(sd[i]).(lruCounter := lruCounter)] && lruCounter == old(lruCounter) + 1
      ensures uses == old(uses)[i := Use(clock, true)] && clock == old(clock) + 1
    {
      GoodServed(sd[..], uses, active, lruCounter, clock, i);
      lruCounter := lruCounter + 1;
      sd[i] := sd[i].(lruCounter := lruCounter);
      uses, clock := uses[i := Use(clock + 1, true)], clock + 1;
      assert sd[..] == old(sd[..])[i := old(sd[i]).(lruCounter := lruCounter)];
    }

    /** HTTPD_TASK_FIND_LOWEST_LRU: stops at a free slot. */
    method FindLowestLru() returns (r: Option<nat>)
      requires Valid()
      ensures active == sd.Length ==> IsLowest(sd[..], sd.Length, r)
      ensures r.Some? ==> r.value < sd.Length && Eligible(sd[r.value])
    {
      CountFull(sd[..]);
      r := None;
      var i := 0;
      while i < sd.Length
        invariant i <= sd.Length && IsLowest(sd[..], i, r)
        invariant forall j | 0 <= j < i :: sd[j].Live()
      {
        if sd[i].fd == -1 {
          return;
        }
        if !sd[i].forAsyncReq && (r.None? || sd[i].lruCounter < sd[r.value].lruCounter) {
          r := Some(i);
        }
        i := i + 1;
      }
    }

    /**
     httpd_sess_close_lru_direct() on a full table.  The session closed has the least counter of those
     not held by an asynchronous request; OldestIffNoOlderTwin says when it is the oldest.
     */
    method CloseLruDirect() returns (r: Option<nat>)
      requires Valid() && active == sd.Length
      modifies sd, this`active, this`lruCounter
      ensures Valid()
      ensures r.None? <==> forall j | 0 <= j < sd.Length :: old(sd[j].forAsyncReq)
      ensures r.None? ==> sd[..] == old(sd[..]) && active == old(active)
      ensures r.Some? ==>
        && r.value < sd.Length && IsLowest(old(sd[..]), sd.Length, r) && |uses| == sd.Length
        && sd[..] == old(sd[..])[r.value := old(sd[..])[r.value].(fd := -1)] && active == sd.Length - 1
        && (Oldest(old(sd[..]), uses, r.value) <==> !OlderTwin(old(sd[..]), uses, r.value))
        && (uses[r.value].served ==> Oldest(old(sd[..]), uses, r.value))
    {
      CountFull(sd[..]);
      r := FindLowestLru();
      if r.Some? {
        OldestIffNoOlderTwin(sd[..], uses, lruCounter, clock, r.value);
        Delete(r.value);
      }
    }

    /** An asynchronous request takes hold of a session, or lets go of it. */
    method SetAsync(i: nat, held: bool)
      requires Valid() && i < sd.Length
      modifies sd
      ensures Valid() && sd[..] == old(sd[..])[i := old(sd[i]).(forAsyncReq := held)]
    {
      GoodAsync(sd[..], uses, active, lruCounter, clock, i, held);
      sd[i] := sd[i].(forAsyncReq := held);
      assert sd[..] == old(sd[..])[i := old(sd[i]).(forAsyncReq := held)];
    }

    /** httpd_sess_close_all() */
    method CloseAll()
      requires Valid()
      modifies sd, this`active, this`lruCounter
      ensures Valid() && active == 0 && forall j | 0 <= j < sd.Length :: !sd[j].Live()
    {
      var i := 0;
      while i < sd.Length
        invariant i <= sd.Length && Valid() && forall j | 0 <= j < i :: !sd[j].Live()
      {
        Delete(i);
        i := i + 1;
      }
      CountFull(sd[..]);
    }

    /** What a control message can do to the table: close one session, whichever slot it names. */
    method ProcessCtrlMsg()
      requires Valid()
      modifies sd, this`active, this`lruCounter
      ensures Valid() && active <= old(active) && Shrunk(old(sd[..]), sd[..])
    {
      var i: int := *;
      if 0 <= i < sd.Length {
        Delete(i);
      }
    }

    /** httpd_process_session() for every slot: a ready session is served, and closed if that fails. */
    method ProcessSessions()
      requires Valid()
      modifies sd, this`active, this`lruCounter, this`uses, this`clock
      ensures Valid() && active <= old(active) && Shrunk(old(sd[..]), sd[..])
    {
      var i := 0;
      while i < sd.Length
        invariant i <= sd.Length && Valid() && active <= old(active) && Shrunk(old(sd[..]), sd[..])
      {
        var ready, served, held: bool := *, *, *;
        if sd[i].fd >= 0 && !sd[i].forAsyncReq && ready {
          SetAsync(i, held);
          if served {
            Touch(i);
          } else {
            Delete(i);
          }
        }
        i := i + 1;
      }
    }

    /** httpd_sess_delete_invalid(): closes the sessions whose descriptor the system no longer knows. */
    method DeleteInvalid()
      requires Valid()
      modifies sd, this`active, this`lruCounter
      ensures Valid() && active <= old(active) && Shrunk(old(sd[..]), sd[..])
    {
      var i := 0;
      while i < sd.Length
        invariant i <= sd.Length && Valid() && active <= old(active) && Shrunk(old(sd[..]), sd[..])
      {
        var valid: bool := *;
        if !valid {
          Delete(i);
        }
        i := i + 1;
      }
    }

    /**
     httpd_accept_conn().  accept() is called only when there is a slot; then the session is made,
     unless the socket options fail.
     */
    method AcceptConn() returns (accepted: Option<nat>, optionsOk: bool, ok: bool)
      requires Valid() && (lruPurge || active < sd.Length)
      modifies this, sd
      ensures Valid()
      ensures accepted.Some? ==> old(active) < sd.Length
      ensures accepted.Some? && optionsOk ==> ok && active == old(active) + 1
      ensures accepted.Some? && optionsOk ==> exists i :: 0 <= i < sd.Length && sd[i].fd == accepted.value
      ensures accepted.None? || !optionsOk ==> active <= old(active)
    {
      optionsOk := *;
      if lruPurge {
        var free := GetFree();
        if free.None? {
          var closed := CloseLruDirect();
          return None, optionsOk, true;
        }
      }
      accepted := Accept();
      if accepted.None? || !optionsOk {
        return accepted, optionsOk, false;
      }
      ghost var i;
      ok, i := New(accepted.value);
      assert sd[i] == sd[..][i];
    }

    /** accept(): a descriptor that is not in use, or an error. */
    method Accept() returns (r: Option<nat>)
      requires Valid()
      ensures r.Some? ==> forall j | 0 <= j < sd.Length :: sd[j].fd != r.value
    {
      var fd: int := *;
      if fd < 0 {
        return None;
      }
      var used := Get(fd);
      r := if used.Some? then None else Some(fd);
    }

    /**
     One turn of httpd_server().  However sessions come and go in it, no connection that is accepted
     is turned away for lack of a slot: without LRU purge because the loop does not listen unless
     there is one, with it because a full table costs a session first.
     */
    method Server() returns (accepted: Option<nat>, optionsOk: bool, ok: bool)
      requires Valid()
      modifies this, sd
      ensures Valid()
      ensures accepted.Some? && optionsOk ==> ok
      ensures accepted.Some? && !lruPurge ==> old(active) < sd.Length
    {
      var available := GetFree();
      var listening := lruPurge || available.Some?;
      var failed, ctrl, incoming: bool := *, *, *;
      if failed {
        DeleteInvalid();
        return None, true, true;
      }
      if ctrl {
        ProcessCtrlMsg();
      }
      ProcessSessions();
      if listening && incoming {
        accepted, optionsOk, ok := AcceptConn();
      } else {
        accepted, optionsOk, ok := None, true, true;
      }
    }
  }

  /** No session has appeared: each slot holds what it held, or nothing. */
  predicate Shrunk(s: seq<Slot>, t: seq<Slot>) {
    |t| == |s| && forall i | 0 <= i < |s| :: t[i].Live() ==> t[i].fd == s[i].fd
  }

  /**
   An older twin can be there.  A request on 2 is served; then 1 leaves, 3 arrives and takes its slot
   and the counter of 2, and when room is needed it is 3, the last to come, that goes.
   */
  method NewcomerIsClosed() returns (closed: int, kept: int)
    ensures closed == 3 && kept == 2
  {
    hide Good, Oldest, OlderTwin;
    var hd := new Httpd(2, true);
    var ok, i := hd.New(1);
    ok, i := hd.New(2);
    assert hd.sd[0].fd == 1 && hd.sd[1].fd == 2;
    hd.Touch(1);
    hd.Delete(0);
    ok, i := hd.New(3);
    assert hd.sd[0] == Slot(3, 1, false) && hd.sd[1] == Slot(2, 1, false);
    var before := [hd.sd[0].fd, hd.sd[1].fd];
    var victim := hd.CloseLruDirect();
    assert victim == Some(0);
    closed, kept := before[victim.value], hd.sd[1].fd;
  }
}
