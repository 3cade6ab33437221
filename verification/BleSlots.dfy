/** Five slots as a map from connection to its verification entry. */
module BleSlots {
  import opened Basics

  const MAX_BLE_CONNECTION := 5
  const EXPIRE_TIME: u32 := 60_000

  datatype Slot = Slot(enabled: bool, isVerified: bool, connID: nat, code: nat, since: u32)

  datatype Entry = Entry(code: nat, verified: bool, since: u32)

  type Table = map<nat, Entry>

  function EntryOf(s: Slot): Entry
  {
    Entry(s.code, s.isVerified, s.since)
  }

  /** No two enabled slots are for the same connection. */
  predicate Distinct(s: seq<Slot>)
  {
    forall i, j :: 0 <= i < j < |s| && s[i].enabled && s[j].enabled ==> s[i].connID != s[j].connID
  }

  predicate Holds(s: seq<Slot>, i: nat, id: nat)
  {
    i < |s| && s[i].enabled && s[i].connID == id
  }

  /** The first slot that holds `id`, or the length. */
  function IndexOf(s: seq<Slot>, id: nat): (i: nat)
    ensures i <= |s|
    ensures i < |s| ==> Holds(s, i, id)
    ensures forall k :: 0 <= k < i ==> !Holds(s, k, id)
  {
    if s == [] then 0
    else
      var n := |s| - 1;
      var i := IndexOf(s[..n], id);
      assert forall k :: 0 <= k < n ==> Holds(s[..n], k, id) == Holds(s, k, id);
      if i < n || Holds(s, n, id) then i else |s|
  }

  function TableOf(s: seq<Slot>): (t: Table)
    ensures forall id :: id in t <==> IndexOf(s, id) < |s|
    ensures forall id :: id in t ==> t[id] == EntryOf(s[IndexOf(s, id)])
  {
    var ids := set i | 0 <= i < |s| && s[i].enabled :: s[i].connID;
    assert forall i :: 0 <= i < |s| && s[i].enabled ==> Holds(s, i, s[i].connID);
    map id | id in ids :: EntryOf(s[IndexOf(s, id)])
  }

  /** How many slots are enabled. */
  function Enabled(s: seq<Slot>): (n: nat)
    ensures n <= |s|
    ensures n == |s| <==> forall i :: 0 <= i < |s| ==> s[i].enabled
  {
    if s == [] then 0 else Enabled(s[..|s| - 1]) + if s[|s| - 1].enabled then 1 else 0
  }

  lemma HeldAt(s: seq<Slot>, k: nat, id: nat)
    requires Distinct(s) && Holds(s, k, id)
    ensures IndexOf(s, id) == k
  {
  }

  lemma SamePrefix(s: seq<Slot>, id: nat)
    requires s != []
    ensures IndexOf(s, id) == if IndexOf(s[..|s| - 1], id) < |s| - 1 || Holds(s, |s| - 1, id)
                              then IndexOf(s[..|s| - 1], id) else |s|
  {
  }

  /** The connections of the enabled slots. */
  function Ids(s: seq<Slot>): set<nat>
  {
    if s == [] then {}
    else Ids(s[..|s| - 1]) + if s[|s| - 1].enabled then {s[|s| - 1].connID} else {}
  }

  lemma {:induction false} IdsAreHeld(s: seq<Slot>, id: nat)
    ensures id in Ids(s) <==> exists k :: 0 <= k < |s| && Holds(s, k, id)
    decreases |s|
  {
    if s != [] {
      var n := |s| - 1;
      IdsAreHeld(s[..n], id);
      assert forall k :: 0 <= k < n ==> Holds(s[..n], k, id) == Holds(s, k, id);
      assert s[n].enabled && s[n].connID == id <==> Holds(s, n, id);
    }
  }

  lemma {:induction false} IdsAreDistinct(s: seq<Slot>)
    requires Distinct(s)
    ensures |Ids(s)| == Enabled(s)
    decreases |s|
  {
    if s != [] {
      var n := |s| - 1;
      IdsAreDistinct(s[..n]);
      if s[n].enabled {
        IdsAreHeld(s[..n], s[n].connID);
        assert forall k :: 0 <= k < n ==> Holds(s[..n], k, s[n].connID) == Holds(s, k, s[n].connID);
      }
    }
  }

  lemma KeysAreIds(s: seq<Slot>)
    ensures TableOf(s).Keys == Ids(s)
  {
    forall id: nat
      ensures id in TableOf(s) <==> id in Ids(s)
    {
      IdsAreHeld(s, id);
    }
  }

  /** The number of enabled slots is the size of the table. */
  lemma EnabledIsSize(s: seq<Slot>)
    requires Distinct(s)
    ensures Enabled(s) == |TableOf(s)|
  {
    IdsAreDistinct(s);
    KeysAreIds(s);
  }

  lemma {:induction false} EnabledAfter(s: seq<Slot>, i: nat, x: Slot)
    requires i < |s|
    ensures Enabled(s[i := x]) == Enabled(s) - (if s[i].enabled then 1 else 0) + (if x.enabled then 1 else 0)
    decreases |s|
  {
    var n := |s| - 1;
    if i < n {
      EnabledAfter(s[..n], i, x);
      assert s[i := x][..n] == s[..n][i := x];
    } else {
      assert s[i := x][..n] == s[..n];
    }
  }

  /** Changing slot `i` moves no other connection. */
  lemma LookupAfter(s: seq<Slot>, i: nat, x: Slot, id: nat)
    requires i < |s| && Distinct(s) && Distinct(s[i := x])
    ensures IndexOf(s[i := x], id) ==
            if Holds(s[i := x], i, id) then i else if Holds(s, i, id) then |s| else IndexOf(s, id)
  {
    var r := s[i := x];
    assert forall k :: 0 <= k < |s| && k != i ==> Holds(r, k, id) == Holds(s, k, id);
    if Holds(r, i, id) {
      HeldAt(r, i, id);
    } else if Holds(s, i, id) {
      HeldAt(s, i, id);
      assert forall k :: 0 <= k < |s| && k != i ==> !Holds(s, k, id);
    }
  }

  /** What the table should be after slot `i` has been disabled, filled or rewritten. */
  function Changed(s: seq<Slot>, i: nat, x: Slot): Table
    requires i < |s|
  {
    if x.enabled then TableOf(s)[x.connID := EntryOf(x)]
    else if s[i].enabled then TableOf(s) - {s[i].connID}
    else TableOf(s)
  }

  lemma EntryAfter(s: seq<Slot>, i: nat, x: Slot, id: nat)
    requires i < |s| && Distinct(s) && Distinct(s[i := x])
    requires s[i].enabled && x.enabled ==> x.connID == s[i].connID
    ensures id in TableOf(s[i := x]) <==> id in Changed(s, i, x)
    ensures id in TableOf(s[i := x]) ==> TableOf(s[i := x])[id] == Changed(s, i, x)[id]
  {
    LookupAfter(s, i, x, id);
  }

  lemma TableAfter(s: seq<Slot>, i: nat, x: Slot)
    requires i < |s| && Distinct(s) && Distinct(s[i := x])
    requires s[i].enabled && x.enabled ==> x.connID == s[i].connID
    ensures TableOf(s[i := x]) == Changed(s, i, x)
  {
    var t, u := TableOf(s[i := x]), Changed(s, i, x);
    forall id: nat
      ensures id in t <==> id in u
      ensures id in t ==> t[id] == u[id]
    {
      EntryAfter(s, i, x, id);
    }
  }

  // ---------------------------------------------------------------- expiry

  predicate Expired(e: Entry, now: u32)
  {
    !e.verified && Sub32(now, e.since) > EXPIRE_TIME
  }

  /** In real time: an unverified entry is expired from 60001 ms after it was made, until the clock
      has gone all the way round, and a verified one never is. */
  lemma ExpiresAfterAMinute(code: nat, verified: bool, made: nat, now: nat)
    requires made <= now < made + U32
    ensures Expired(Entry(code, verified, made % U32), now % U32) <==> !verified && now - made > 60_000
  {
    WithinOneRound(now, made);
  }

  /** `ids` are the answers of repeated timeouts that led from `t` to `r`. */
  predicate Drained(t: Table, now: u32, ids: seq<nat>, r: Table)
  {
    if ids == [] then r == t
    else ids[0] in t && Expired(t[ids[0]], now) && Drained(t - {ids[0]}, now, ids[1..], r)
  }

  predicate NoneExpired(t: Table, now: u32)
  {
    forall id :: id in t ==> !Expired(t[id], now)
  }

  lemma {:induction false} DrainedOnce(t: Table, now: u32, ids: seq<nat>, r: Table, id: nat)
    requires Drained(t, now, ids, r) && id in r && Expired(r[id], now)
    ensures Drained(t, now, ids + [id], r - {id})
    decreases |ids|
  {
    if ids == [] {
      assert [id][1..] == [];
    } else {
      DrainedOnce(t - {ids[0]}, now, ids[1..], r, id);
      assert (ids + [id])[1..] == ids[1..] + [id];
    }
  }

  /** The table without its expired entries. */
  function Fresh(t: Table, now: u32): Table
  {
    map id | id in t && !Expired(t[id], now) :: t[id]
  }

  lemma FreshWithout(t: Table, now: u32, id: nat)
    requires id in t && Expired(t[id], now)
    ensures Fresh(t - {id}, now) == Fresh(t, now)
    ensures |t - {id}| == |t| - 1
  {
    assert t.Keys == (t - {id}).Keys + {id};
  }

  lemma OneLess(t: Table, now: u32, ids: seq<nat>, before: Table, id: nat, after: Table)
    requires Drained(t, now, ids, before) && id in before && Expired(before[id], now) && after == before - {id}
    ensures Drained(t, now, ids + [id], after) && |after| < |before|
  {
    DrainedOnce(t, now, ids, before, id);
    FreshWithout(before, now, id);
  }

  lemma AllFresh(t: Table, now: u32)
    requires NoneExpired(t, now)
    ensures Fresh(t, now) == t
  {
  }

  /** Whatever order the slots are found in, repeated timeouts remove exactly the unverified
      entries that are too old, each once, and keep every other entry as it was. */
  lemma {:induction false} DrainingRemovesTheExpired(t: Table, now: u32, ids: seq<nat>, r: Table)
    requires Drained(t, now, ids, r) && NoneExpired(r, now)
    ensures r == Fresh(t, now) && |ids| == |t| - |r|
    ensures forall id :: id in ids ==> id in t && Expired(t[id], now)
    decreases |ids|
  {
    if ids == [] {
      AllFresh(t, now);
    } else {
      FreshWithout(t, now, ids[0]);
      DrainingRemovesTheExpired(t - {ids[0]}, now, ids[1..], r);
      assert ids == [ids[0]] + ids[1..];
    }
  }
}
