/** The BLE transport's callbacks over the verification table, each proved to be one step of
    BleProtocol.dfy. */
module BleTransport {
  import opened Basics
  import opened BleSlots
  import opened BleVerify
  import opened BleProtocol

  class Transport {
    const verify: VerifyTable
    /** The connections of the stack; it alone decides when one ends. */
    var live: set<nat>
    var mConnected: bool

    ghost predicate Valid()
      reads this, verify, verify.verify
    {
      verify.Valid()
    }

    ghost function View(): Link
      reads this, verify, verify.verify
    {
      Link(verify.View(), live, mConnected)
    }

    constructor ()
      ensures Valid() && View() == START
    {
      verify := new VerifyTable();
      live, mConnected := {}, false;
    }

    /** `onConnect`; answers whether the stack is asked to hang up at once. */
    method OnConnect(answer: nat -> string, id: nat, random: nat, now: u32) returns (hangUp: bool)
      requires Valid() && 10_000_000 <= random <= 99_999_999
      modifies this, verify`numVerify, verify.verify
      ensures Valid() && View() == Apply(answer, old(View()), Connect(id, random, now))
      ensures hangUp <==> id !in View().table
    {
      live := live + {id};
      Bound(verify);
      var code := verify.GetVerifyCode(id, false, random, now);
      hangUp := code < 0;
      mConnected := true;
    }

    method OnDisconnect(answer: nat -> string, id: nat)
      requires Valid() && id in live
      modifies this, verify`numVerify, verify.verify
      ensures Valid() && View() == Apply(answer, old(View()), Disconnect(id))
    {
      ghost var before := live;
      live := live - {id};
      verify.RemoveVerify(id);
      if live != {} {
        assert before != {id};
        return;
      }
      mConnected := false;
      assert before == {id};
    }

    /** `run`: at most one expired connection a turn. */
    method Turn(answer: nat -> string, now: u32) returns (hangUp: int)
      requires Valid()
      modifies verify`numVerify, verify.verify
      ensures Valid()
      ensures var victim := if hangUp < 0 then None else Some(hangUp);
              BleProtocol.Enabled(old(View()), Step.Turn(now, victim))
              && View() == Apply(answer, old(View()), Step.Turn(now, victim))
      ensures hangUp >= NONE
      ensures forall id :: Verified(old(View()), id) ==> Verified(View(), id)
      ensures hangUp == NONE && mConnected ==> forall id :: id in View().table ==> !Expired(View().table[id], now)
    {
      if !mConnected {
        return NONE;
      }
      var some := verify.HasVerify();
      if !some {
        return NONE;
      }
      ghost var k := View();
      hangUp := verify.ConnTimeout(now);
      if hangUp >= 0 {
        TurnStep(answer, k, now, hangUp, verify.View());
      }
    }

    /** `startAuthorization`; answers the challenge sent, or -1 when the stack is asked to hang
        up, or 0 when the connection is verified already. */
    method StartAuthorization(answer: nat -> string, id: nat, random: nat, now: u32) returns (code: int)
      requires Valid() && 10_000_000 <= random <= 99_999_999
      modifies verify`numVerify, verify.verify
      ensures Valid() && View() == Apply(answer, old(View()), Begin(id, random, now))
      ensures if Verified(old(View()), id) then code == 0
              else if id in View().table then code == View().table[id].code
              else code == NONE
    {
      Bound(verify);
      var done := verify.IsVerified(id);
      if done {
        return 0;
      }
      code := verify.GetVerifyCode(id, false, random, now);
    }

    /** `confirmAuthorization`; answers whether the stack is asked to hang up. */
    method ConfirmAuthorization(answer: nat -> string, id: nat, message: string) returns (hangUp: bool)
      requires Valid()
      modifies verify`numVerify, verify.verify
      ensures Valid() && View() == Apply(answer, old(View()), Confirm(id, message))
      ensures hangUp <==> !Verified(View(), id)
    {
      var code := verify.GetVerifyCode(id, true, 10_000_000, 0);
      if code < 0 {
        return true;
      }
      ghost var k := View();
      var mine: nat := code;
      hangUp := message != answer(mine);
      if hangUp {
        verify.RemoveVerify(id);
      } else {
        verify.SetVerified(id, true);
      }
      ConfirmStep(answer, k, id, message, verify.View());
    }

    /** `progressControl` with a topic and a callback in place: answers whether the callback
        runs; without verification the stack is asked to hang up. */
    method ProgressControl(answer: nat -> string, settings: Settings, id: nat, message: string) returns (runs: bool)
      requires Valid()
      modifies verify`numVerify, verify.verify
      ensures Valid() && View() == Apply(answer, old(View()), Control(id, message))
      ensures runs <==> Executes(settings, old(View()), Control(id, message))
    {
      var verified := verify.IsVerified(id);
      if !verified {
        verify.RemoveVerify(id);
        return false;
      }
      return ';' in message;
    }

    /** A write to the command characteristic, under the same assumption: it does not touch the
        verification table. */
    method ProgressCommand(answer: nat -> string, settings: Settings, id: nat, request: Option<Request>, otp: bool)
      returns (runs: bool)
      requires Valid()
      ensures View() == Apply(answer, View(), Command(id, request, otp))
      ensures runs <==> Executes(settings, View(), Command(id, request, otp))
    {
      if request.None? {
        return false;
      }
      if !otp && settings.encrypt {
        return false;
      }
      runs := OnCallback(settings, request.value);
      PermitsExactly(settings, request, otp);
    }

    static method OnCallback(settings: Settings, r: Request) returns (runs: bool)
      ensures runs <==> exists c: string :: |c| == 36 && Some(r) == Right(settings.password, c)
    {
      PermitsExactly(settings, Some(r), true);
      if r.kind.None? || r.kind.value != "command" {
        return false;
      }
      if r.password.None? || r.password.value != settings.password {
        return false;
      }
      return r.command.Some? && |r.command.value| == 36;
    }
  }

  lemma TurnStep(answer: nat -> string, k: Link, now: u32, id: nat, t: Table)
    requires k.up && id in k.table && Expired(k.table[id], now) && t == k.table - {id}
    ensures BleProtocol.Enabled(k, Step.Turn(now, Some(id)))
    ensures k.(table := t) == Apply(answer, k, Step.Turn(now, Some(id)))
    ensures forall x :: Verified(k, x) ==> Verified(k.(table := t), x)
  {
  }

  lemma ConfirmStep(answer: nat -> string, k: Link, id: nat, message: string, t: Table)
    requires id in k.table
    requires t == if message == answer(k.table[id].code) then k.table[id := k.table[id].(verified := true)] else k.table - {id}
    ensures k.(table := t) == Apply(answer, k, Confirm(id, message))
    ensures message == answer(k.table[id].code) <==> Verified(k.(table := t), id)
  {
  }

  /** A valid table never has more than five entries. */
  lemma Bound(t: VerifyTable)
    requires t.Valid()
    ensures |t.View()| <= MAX_BLE_CONNECTION
  {
    EnabledIsSize(t.verify[..]);
  }
}
