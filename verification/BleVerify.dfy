/** The verification table of a BLE peripheral: five slots and a counter, scanned and updated
    in place, behaving as a bounded map. */
module BleVerify {
  import opened Basics
  import opened BleSlots

  /** The answers that are not codes or connections. */
  const NONE := -1

  class VerifyTable {
    const verify: array<Slot>
    var numVerify: nat

    ghost predicate Valid()
      reads this, verify
    {
      && verify.Length == MAX_BLE_CONNECTION && Distinct(verify[..]) && numVerify == Enabled(verify[..])
      && forall i :: 0 <= i < verify.Length && verify[i].enabled ==> verify[i].code > 0
    }

    ghost function View(): Table
      reads this, verify
    {
      TableOf(verify[..])
    }

    constructor ()
      ensures Valid() && View() == map[] && fresh(verify)
    {
      verify := new Slot[5](_ => Slot(false, false, 0, 0, 0));
      numVerify := 0;
      new;
      assert forall i :: 0 <= i < 5 ==> !verify[..][i].enabled;
      NothingEnabled(verify[..]);
    }

    /** The slot of a connection, or -1: the scan that every method starts with. */
    method Scan(connID: nat) returns (i: int)
      requires Valid()
      ensures -1 <= i < verify.Length
      ensures i >= 0 ==> Holds(verify[..], i, connID) && connID in View() && View()[connID] == EntryOf(verify[i])
      ensures i == -1 ==> connID !in View()
    {
      for k := 0 to verify.Length
        invariant forall m :: 0 <= m < k ==> !Holds(verify[..], m, connID)
      {
        if verify[k].enabled && verify[k].connID == connID {
          HeldAt(verify[..], k, connID);
          return k;
        }
      }
      return -1;
    }

    /** Overwrites one slot; the table follows. */
    method Put(i: nat, x: Slot)
      requires Valid() && i < verify.Length
      requires Distinct(verify[..][i := x])
      requires verify[i].enabled && x.enabled ==> x.connID == verify[i].connID
      requires x.enabled ==> x.code > 0
      modifies this`numVerify, verify
      ensures Valid()
      ensures old(verify[i].enabled) && !x.enabled ==> View() == old(View()) - {old(verify[i].connID)}
      ensures x.enabled ==> View() == old(View())[x.connID := EntryOf(x)]
      ensures verify[i] == x
    {
      ghost var s := verify[..];
      TableAfter(s, i, x);
      EnabledAfter(s, i, x);
      if verify[i].enabled && !x.enabled {
        numVerify := numVerify - 1;
      } else if !verify[i].enabled && x.enabled {
        numVerify := numVerify + 1;
      }
      verify[i] := x;
      assert verify[..] == s[i := x];
    }

    method IsVerified(connID: nat) returns (b: bool)
      requires Valid()
      ensures b <==> connID in View() && View()[connID].verified
    {
      var i := Scan(connID);
      return i >= 0 && verify[i].isVerified;
    }

    /** `deleteVerify`: the rest of the slot stays as it was. */
    method DeleteVerify(i: nat)
      requires Valid() && i < verify.Length && verify[i].enabled
      modifies this`numVerify, verify
      ensures Valid() && View() == old(View()) - {old(verify[i].connID)} && verify[i].connID == old(verify[i].connID)
    {
      Put(i, verify[i].(enabled := false));
    }

    method RemoveVerify(connID: nat)
      requires Valid()
      modifies this`numVerify, verify
      ensures Valid() && View() == old(View()) - {connID}
    {
      var i := Scan(connID);
      if i >= 0 {
        DeleteVerify(i);
      }
    }

    method SetVerified(connID: nat, verified: bool)
      requires Valid()
      modifies this`numVerify, verify
      ensures Valid()
      ensures View() == if !verified then old(View()) - {connID}
                        else if connID in old(View()) then old(View())[connID := old(View())[connID].(verified := true)]
                        else old(View())
    {
      if !verified {
        RemoveVerify(connID);
        return;
      }
      var i := Scan(connID);
      if i >= 0 {
        Put(i, verify[i].(isVerified := true));
      }
    }

    /** `findVerifyFree`: it fails exactly when the table is full. */
    method FindFree() returns (i: int)
      requires Valid()
      ensures -1 <= i < verify.Length
      ensures i >= 0 ==> !verify[i].enabled
      ensures i == -1 <==> |View()| == MAX_BLE_CONNECTION
    {
      EnabledIsSize(verify[..]);
      if numVerify >= MAX_BLE_CONNECTION {
        return -1;
      }
      for k := 0 to verify.Length
        invariant forall m :: 0 <= m < k ==> verify[m].enabled
      {
        if !verify[k].enabled {
          return k;
        }
      }
      assert false;
      return -1;
    }

    /** A code for the connection: the one it has, or else a new unverified entry unless only
        looking or no slot is free.  `random` and `now` are what the platform delivers. */
    method GetVerifyCode(connID: nat, getOnly: bool, random: nat, now: u32) returns (code: int)
      requires Valid() && 10_000_000 <= random <= 99_999_999
      modifies this`numVerify, verify
      ensures Valid()
      ensures connID in old(View()) ==> View() == old(View()) && code == old(View())[connID].code
      ensures connID !in old(View()) ==>
                if getOnly || |old(View())| == MAX_BLE_CONNECTION then code == NONE && View() == old(View())
                else code == random && View() == old(View())[connID := Entry(random, false, now)]
      ensures code == NONE <==> connID !in View()
    {
      var i := Scan(connID);
      if i >= 0 && verify[i].code > 0 {
        return verify[i].code;
      }
      if getOnly {
        return NONE;
      }
      var id := FindFree();
      if id < 0 {
        return NONE;
      }
      ghost var s := verify[..];
      assert IndexOf(s, connID) == |s|;
      Put(id, Slot(true, false, connID, random, now));
      return random;
    }

    /** Drops one unverified entry that is more than a minute old, and says whose it was. */
    method ConnTimeout(now: u32) returns (connID: int)
      requires Valid()
      modifies this`numVerify, verify
      ensures Valid()
      ensures connID == NONE ==> View() == old(View()) && NoneExpired(View(), now)
      ensures connID != NONE ==>
                connID >= 0 && connID in old(View()) && Expired(old(View())[connID], now) && View() == old(View()) - {connID}
      ensures connID >= NONE
    {
      ghost var s := verify[..];
      for i := 0 to verify.Length
        invariant forall m :: 0 <= m < i && s[m].enabled ==> !Expired(EntryOf(s[m]), now)
      {
        if verify[i].enabled && !verify[i].isVerified && Sub32(now, verify[i].since) > EXPIRE_TIME {
          assert Holds(s, i, s[i].connID);
          HeldAt(s, i, s[i].connID);
          DeleteVerify(i);
          return verify[i].connID;
        }
      }
      return NONE;
    }

    /** `connTimeout` called until it finds nothing more: exactly the expired entries go. */
    method ConnTimeouts(now: u32) returns (ids: seq<nat>)
      requires Valid()
      modifies this`numVerify, verify
      ensures Valid() && View() == Fresh(old(View()), now)
      ensures |ids| == |old(View())| - |View()|
      ensures forall id :: id in ids ==> id in old(View()) && Expired(old(View())[id], now)
    {
      ghost var t := View();
      ids := [];
      var again := true;
      while again
        invariant Valid() && Drained(t, now, ids, View())
        invariant !again ==> NoneExpired(View(), now)
        decreases |View()|, again
      {
        again, ids := OneTimeout(now, t, ids);
      }
      DrainingRemovesTheExpired(t, now, ids, View());
    }

    method OneTimeout(now: u32, ghost t: Table, ids: seq<nat>) returns (again: bool, more: seq<nat>)
      requires Valid() && Drained(t, now, ids, View())
      modifies this`numVerify, verify
      ensures Valid() && Drained(t, now, more, View())
      ensures if again then |View()| < |old(View())| else View() == old(View()) && NoneExpired(View(), now)
    {
      ghost var before := View();
      var connID := ConnTimeout(now);
      if connID < 0 {
        return false, ids;
      }
      var id: nat := connID;
      ghost var after := View();
      OneLess(t, now, ids, before, id, after);
      return true, ids + [id];
    }

    method HasVerify() returns (b: bool)
      requires Valid()
      ensures b <==> View() != map[]
    {
      EnabledIsSize(verify[..]);
      return numVerify > 0;
    }
  }

  lemma {:induction false} NothingEnabled(s: seq<Slot>)
    requires forall i :: 0 <= i < |s| ==> !s[i].enabled
    ensures Distinct(s) && Enabled(s) == 0 && TableOf(s) == map[]
    decreases |s|
  {
    if s != [] {
      NothingEnabled(s[..|s| - 1]);
    }
    assert forall id: nat :: IndexOf(s, id) == |s|;
  }
}
