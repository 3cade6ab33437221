/** Connecting, authorising, controlling and commanding over BLE: every interleaving of the
    callbacks. */
module BleProtocol {
  import opened Basics
  import opened BleSlots

  /** `live` is what the stack has connected, `up` is `mConnected`. */
  datatype Link = Link(table: Table, live: set<nat>, up: bool)

  const START := Link(map[], {}, false)

  /** What the transport was set up with. */
  datatype Settings = Settings(password: string, encrypt: bool)

  /** The members of a command object that are looked at; `None` unless they are strings. */
  datatype Request = Request(kind: Option<string>, password: Option<string>, command: Option<string>)

  /** One callback or one turn of `run`.  `random` is the code a new entry would get; `victim`
      is the connection whose entry the timeout scan finds first, if it finds one.  A command is
      nothing when it does not parse; `otp` says whether its one-time token is accepted. */
  datatype Step =
    | Connect(id: nat, random: nat, now: u32)
    | Disconnect(id: nat)
    | Turn(now: u32, victim: Option<nat>)
    | StopLink
    | StartLink
    | Begin(id: nat, random: nat, now: u32)
    | Confirm(id: nat, message: string)
    | Control(id: nat, message: string)
    | Command(id: nat, request: Option<Request>, otp: bool)

  /** `getVerifyCode` on the table. */
  function Obtain(t: Table, id: nat, random: nat, now: u32): Table
  {
    if id in t || |t| >= MAX_BLE_CONNECTION then t else t[id := Entry(random, false, now)]
  }

  /** What the stack guarantees: only the connected take part, and only strangers connect. */
  predicate Enabled(k: Link, s: Step)
  {
    match s
    case Connect(id, _, _) => id !in k.live
    case Disconnect(id) => id in k.live
    case Turn(now, victim) => victim.Some? ==> victim.value in k.table && Expired(k.table[victim.value], now)
    case StopLink => true
    case StartLink => true
    case Begin(id, _, _) => id in k.live
    case Confirm(id, _) => id in k.live
    case Control(id, _) => id in k.live
    case Command(id, _, _) => id in k.live
  }

  predicate Verified(k: Link, id: nat)
  {
    id in k.table && k.table[id].verified
  }

  /** `answer(code)` is the digest of the shared password and the code. */
  function Apply(answer: nat -> string, k: Link, s: Step): Link
  {
    match s
    case Connect(id, random, now) => Link(Obtain(k.table, id, random, now), k.live + {id}, true)
    case Disconnect(id) => Link(k.table - {id}, k.live - {id}, k.up && k.live != {id})
    case Turn(now, victim) =>
      if k.up && k.table != map[] && victim.Some? then k.(table := k.table - {victim.value}) else k
    case StopLink => k.(up := false)
    case StartLink => k.(up := true)
    case Begin(id, random, now) => if Verified(k, id) then k else k.(table := Obtain(k.table, id, random, now))
    case Confirm(id, message) =>
      if id !in k.table then k
      else if message == answer(k.table[id].code) then k.(table := k.table[id := k.table[id].(verified := true)])
      else k.(table := k.table - {id})
    case Control(id, _) => if Verified(k, id) then k else k.(table := k.table - {id})
    case Command(_, _, _) => k
  }

  /** The checks of the command characteristic. */
  predicate Permits(settings: Settings, request: Option<Request>, otp: bool)
  {
    && (otp || !settings.encrypt) && request.Some?
    && request.value.kind == Some("command") && request.value.password == Some(settings.password)
    && request.value.command.Some? && |request.value.command.value| == 36
  }

  /** Is the application's callback invoked at this step? */
  predicate Executes(settings: Settings, k: Link, s: Step)
  {
    match s
    case Control(id, message) => Verified(k, id) && ';' in message
    case Command(_, request, otp) => Permits(settings, request, otp)
    case _ => false
  }

  /** The links a run goes through: `ks[i]` before step `i`. */
  predicate IsRun(answer: nat -> string, ks: seq<Link>, steps: seq<Step>)
  {
    && |ks| == |steps| + 1 && ks[0] == START
    && forall i :: 0 <= i < |steps| ==> Enabled(ks[i], steps[i]) && ks[i + 1] == Apply(answer, ks[i], steps[i])
  }

  /** Entries exist for connected devices only, and there are at most five. */
  predicate Sound(k: Link)
  {
    k.table.Keys <= k.live && |k.table| <= MAX_BLE_CONNECTION
  }

  lemma {:induction false} RunsAreSound(answer: nat -> string, ks: seq<Link>, steps: seq<Step>, n: nat)
    requires IsRun(answer, ks, steps) && n <= |steps|
    ensures Sound(ks[n])
    decreases n
  {
    if n > 0 {
      RunsAreSound(answer, ks, steps, n - 1);
      StepIsSound(answer, ks[n - 1], steps[n - 1]);
    }
  }

  lemma Removing(t: Table, id: nat)
    ensures |t - {id}| <= |t|
  {
    if id in t {
      assert t.Keys == (t - {id}).Keys + {id};
    } else {
      assert t - {id} == t;
    }
  }

  lemma Adding(t: Table, id: nat, e: Entry)
    ensures t[id := e].Keys == t.Keys + {id}
    ensures |t[id := e]| == if id in t then |t| else |t| + 1
  {
    assert t[id := e].Keys == t.Keys + {id};
    if id in t {
      assert t[id := e].Keys == t.Keys;
    }
  }

  lemma Obtaining(t: Table, id: nat, random: nat, now: u32)
    requires |t| <= MAX_BLE_CONNECTION
    ensures Obtain(t, id, random, now).Keys <= t.Keys + {id} && |Obtain(t, id, random, now)| <= MAX_BLE_CONNECTION
  {
    Adding(t, id, Entry(random, false, now));
  }

  lemma StepIsSound(answer: nat -> string, k: Link, s: Step)
    requires Sound(k) && Enabled(k, s)
    ensures Sound(Apply(answer, k, s))
  {
    match s
    case Connect(id, random, now) => ObtainIsSound(answer, k, s);
    case Disconnect(id) => DropIsSound(k, id);
    case Turn(now, victim) => TurnIsSound(answer, k, now, victim);
    case StopLink =>
    case StartLink =>
    case Begin(id, random, now) => ObtainIsSound(answer, k, s);
    case Confirm(id, message) => ConfirmIsSound(answer, k, id, message);
    case Control(id, _) => DropIsSound(k, id);
    case Command(_, _, _) =>
  }

  /** Dropping an entry, whether or not its connection ends too. */
  lemma DropIsSound(k: Link, id: nat)
    requires Sound(k)
    ensures Sound(k.(table := k.table - {id})) && Sound(Link(k.table - {id}, k.live - {id}, k.up && k.live != {id}))
  {
    Removing(k.table, id);
  }

  lemma ObtainIsSound(answer: nat -> string, k: Link, s: Step)
    requires Sound(k) && (s.Connect? || (s.Begin? && s.id in k.live))
    ensures Sound(Apply(answer, k, s))
  {
    Obtaining(k.table, s.id, s.random, s.now);
  }

  lemma TurnIsSound(answer: nat -> string, k: Link, now: u32, victim: Option<nat>)
    requires Sound(k)
    ensures Sound(Apply(answer, k, Turn(now, victim)))
  {
    if victim.Some? {
      Removing(k.table, victim.value);
    }
  }

  lemma ConfirmIsSound(answer: nat -> string, k: Link, id: nat, message: string)
    requires Sound(k)
    ensures Sound(Apply(answer, k, Confirm(id, message)))
  {
    Removing(k.table, id);
    if id in k.table {
      Adding(k.table, id, k.table[id].(verified := true));
    }
  }

  /** The confirmation at step `j` was right, and ever since the same entry stood verified
      and the device stayed connected. */
  predicate ConfirmedAt(answer: nat -> string, ks: seq<Link>, steps: seq<Step>, id: nat, j: nat, n: nat)
    requires |ks| == |steps| + 1 && n <= |steps|
  {
    && j < n && id in ks[j].table
    && steps[j] == Confirm(id, answer(ks[j].table[id].code))
    && forall m :: j < m <= n ==>
         id in ks[m].live && id in ks[m].table && ks[m].table[id] == ks[j].table[id].(verified := true)
  }

  lemma {:induction false} VerifiedWasConfirmed(answer: nat -> string, ks: seq<Link>, steps: seq<Step>, id: nat, n: nat)
    returns (j: nat)
    requires IsRun(answer, ks, steps) && n <= |steps| && Verified(ks[n], id)
    ensures ConfirmedAt(answer, ks, steps, id, j, n)
    decreases n
  {
    if n > 0 {
      RunsAreSound(answer, ks, steps, n);
      RunsAreSound(answer, ks, steps, n - 1);
      assert Enabled(ks[n - 1], steps[n - 1]) && ks[n - 1 + 1] == Apply(answer, ks[n - 1], steps[n - 1]);
      if Verified(ks[n - 1], id) {
        j := VerifiedWasConfirmed(answer, ks, steps, id, n - 1);
        StillConfirmed(answer, ks, steps, id, j, n);
      } else {
        j := n - 1;
        JustConfirmed(answer, ks, steps, id, n);
      }
    }
  }

  /** A verified entry that survives a step is still the one that was confirmed. */
  lemma StillConfirmed(answer: nat -> string, ks: seq<Link>, steps: seq<Step>, id: nat, j: nat, n: nat)
    requires |ks| == |steps| + 1 && 0 < n <= |steps| && ConfirmedAt(answer, ks, steps, id, j, n - 1)
    requires Sound(ks[n - 1]) && Sound(ks[n]) && Verified(ks[n - 1], id) && Verified(ks[n], id)
    requires Enabled(ks[n - 1], steps[n - 1]) && ks[n] == Apply(answer, ks[n - 1], steps[n - 1])
    ensures ConfirmedAt(answer, ks, steps, id, j, n)
  {
    StaysTheSame(answer, ks[n - 1], steps[n - 1], id);
  }

  /** An entry that has just become verified was confirmed by that very step. */
  lemma JustConfirmed(answer: nat -> string, ks: seq<Link>, steps: seq<Step>, id: nat, n: nat)
    requires |ks| == |steps| + 1 && 0 < n <= |steps|
    requires Sound(ks[n - 1]) && Sound(ks[n]) && !Verified(ks[n - 1], id) && Verified(ks[n], id)
    requires Enabled(ks[n - 1], steps[n - 1]) && ks[n] == Apply(answer, ks[n - 1], steps[n - 1])
    ensures ConfirmedAt(answer, ks, steps, id, n - 1, n)
  {
    BecomesVerified(answer, ks[n - 1], steps[n - 1], id);
  }

  /** A verified entry that is still verified after a step is the same entry. */
  lemma StaysTheSame(answer: nat -> string, k: Link, s: Step, id: nat)
    requires Sound(k) && Enabled(k, s) && Verified(k, id) && Verified(Apply(answer, k, s), id)
    ensures Apply(answer, k, s).table[id] == k.table[id]
  {
  }

  /** Only a right confirmation verifies. */
  lemma BecomesVerified(answer: nat -> string, k: Link, s: Step, id: nat)
    requires Sound(k) && Enabled(k, s) && !Verified(k, id) && Verified(Apply(answer, k, s), id)
    ensures id in k.table && s == Confirm(id, answer(k.table[id].code))
    ensures Apply(answer, k, s).table[id] == k.table[id].(verified := true)
  {
  }

  /** Over all interleavings: a control message reaches the application exactly when it has the
      separator and its connection has answered the challenge of its present entry correctly,
      and since then it has neither been disconnected nor had its entry dropped or replaced.
      A command reaches it exactly if it is an object of type "command" with the device's own
      password and a command of 36 characters, and with an accepted token unless encryption is
      off; verified or not. */
  lemma CallbackRunsExactly(answer: nat -> string, settings: Settings, ks: seq<Link>, steps: seq<Step>, n: nat)
    requires IsRun(answer, ks, steps) && n < |steps|
    ensures Executes(settings, ks[n], steps[n]) <==>
            match steps[n]
            case Control(id, message) => ';' in message && exists j: nat :: ConfirmedAt(answer, ks, steps, id, j, n)
            case Command(_, request, otp) =>
              (settings.encrypt ==> otp) && exists c: string :: |c| == 36 && request == Right(settings.password, c)
            case _ => false
  {
    match steps[n]
    case Control(id, _) =>
      if Verified(ks[n], id) {
        var j := VerifiedWasConfirmed(answer, ks, steps, id, n);
      }
    case Command(_, request, otp) => PermitsExactly(settings, request, otp);
    case _ =>
  }

  /** A command as it should be. */
  function Right(password: string, command: string): Option<Request>
  {
    Some(Request(Some("command"), Some(password), Some(command)))
  }

  /** Nothing but a right command is permitted, and a right one is. */
  lemma PermitsExactly(settings: Settings, request: Option<Request>, otp: bool)
    ensures Permits(settings, request, otp) <==>
            (settings.encrypt ==> otp) && exists c: string :: |c| == 36 && request == Right(settings.password, c)
  {
    if Permits(settings, request, otp) {
      assert request == Right(settings.password, request.value.command.value);
    }
  }

  /** A client that answers the challenge gets to control: connecting, confirming and a message
      with the separator are enough, whenever the table has room. */
  lemma RightAnswerGetsControl(answer: nat -> string, settings: Settings, k: Link, id: nat, random: nat, now: u32, message: string)
    requires id !in k.live && Sound(k) && |k.table| < MAX_BLE_CONNECTION && ';' in message
    ensures var c := Apply(answer, k, Connect(id, random, now));
            var v := Apply(answer, c, Confirm(id, answer(random)));
            && Enabled(k, Connect(id, random, now)) && Enabled(c, Confirm(id, answer(random)))
            && Enabled(v, Control(id, message)) && Executes(settings, v, Control(id, message))
            && (forall other :: other != id ==> Verified(v, other) == Verified(k, other))
  {
  }

  /** A run in which a command reaches the application although nothing was ever confirmed. */
  lemma CommandNeedsNoConfirmation(answer: nat -> string, settings: Settings, command: string, otp: bool)
    returns (ks: seq<Link>, steps: seq<Step>)
    requires (settings.encrypt ==> otp) && |command| == 36
    ensures IsRun(answer, ks, steps)
    ensures steps == [Connect(1, 10_000_000, 0), Command(1, Right(settings.password, command), otp)]
    ensures Executes(settings, ks[1], steps[1]) && !Verified(ks[1], 1)
  {
    steps := [Connect(1, 10_000_000, 0), Command(1, Right(settings.password, command), otp)];
    var k := Apply(answer, START, steps[0]);
    ks := [START, k, k];
  }

  /** A wrong answer and a control message without verification cost the connection its entry, and
      so does its end, with which the link is down if it was the last; nobody else is touched. */
  lemma FailuresDropTheEntry(answer: nat -> string, k: Link, s: Step, other: nat)
    requires Enabled(k, s) && (s.Confirm? || s.Control? || s.Disconnect?) && other != s.id
    ensures s.Confirm? && s.id in k.table && s.message != answer(k.table[s.id].code) ==> s.id !in Apply(answer, k, s).table
    ensures s.Control? && !Verified(k, s.id) ==> s.id !in Apply(answer, k, s).table
    ensures s.Disconnect? ==>
              var r := Apply(answer, k, s);
              s.id !in r.table && s.id !in r.live && (r.up <==> k.up && r.live != {})
    ensures var r := Apply(answer, k, s);
            && (other in r.table <==> other in k.table) && (other in r.live <==> other in k.live)
            && (other in r.table ==> r.table[other] == k.table[other])
  {
    if s.Disconnect? {
      assert k.live - {s.id} == {} <==> k.live == {s.id};
    }
  }

  /** A connection that comes back under the same number starts unverified. */
  lemma {:induction false} ReconnectingStartsUnverified(answer: nat -> string, ks: seq<Link>, steps: seq<Step>, n: nat)
    requires IsRun(answer, ks, steps) && n < |steps| && steps[n].Connect?
    ensures !Verified(ks[n + 1], steps[n].id)
  {
    RunsAreSound(answer, ks, steps, n);
  }
}
