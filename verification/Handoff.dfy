/** Who owns keyboard and framebuffer: the window server oxsrv asks kbdsrv and consrv to step aside and
    gives both back when it leaves. Sends may be lost, oxsrv may die at any point, and both servers
    watch for that. The processes are preempted anywhere: one step is one system call of one process with
    the private computation after it, and a program point says what a server has already found out. */
module Handoff {

  datatype Msg = Suspend | Resume | Write | Clear | Other

  const KBD_PROBE: nat := 16
  const CON_PROBE: nat := 32

  /** kbdsrv: about to poll its queue, to read the input ring, to look for oxsrv, or to wake because that
      look-up has failed. */
  datatype KbdPoint = Polling | Reading | Probing | Waking
  datatype Kbd = Kbd(at: KbdPoint, suspended: bool, tick: nat)

  /** consrv: waiting for a message, or holding one and about to look for oxsrv, to wake because that look-up
      has failed, or to obey the message. */
  datatype ConPoint = Receiving | Looking(m: Msg) | Rousing(m: Msg) | Obeying(m: Msg)
  datatype Con = Con(at: ConPoint, suspended: bool, tick: nat)

  /** How far the one oxsrv has got. It is registered as SERVER_OX from `Registered` on; its death
      unregisters it. */
  datatype Phase = Off | Registered | AskedCon | Running | ReleasedCon | Bannered | Released

  /** `conAsked`, `kbdAsked`: the live oxsrv's SUSPEND was queued, not lost. */
  datatype Sys = Sys(kbd: Kbd, kq: seq<Msg>, con: Con, cq: seq<Msg>, ox: Phase, conAsked: bool, kbdAsked: bool)

  datatype Action =
    | OxRegister
    | OxSuspendCon(lost: bool)
    | OxSuspendKbd(lost: bool)
    | OxResumeCon(lost: bool)
    | OxBanner(lost: bool)
    | OxResumeKbd(lost: bool)
    | OxGone
    | KbdRecv
    | KbdEmpty
    | KbdLookup
    | KbdWake
    | KbdRead
    | ConRecv
    | ConLookup
    | ConWake
    | ConObey
    | Client(m: Msg)

  predicate Alive(s: Sys) { s.ox != Off }

  function Queue(q: seq<Msg>, m: Msg, lost: bool): seq<Msg> { if lost then q else q + [m] }

  /** A control message sets the flag; all others leave it. */
  function Heed(suspended: bool, m: Msg): bool {
    match m
    case Suspend => true
    case Resume => false
    case _ => suspended
  }

  /** What a queue will have done to the flag once it is drained. */
  function Drained(suspended: bool, q: seq<Msg>): bool {
    if q == [] then suspended else Heed(Drained(suspended, q[..|q| - 1]), q[|q| - 1])
  }

  /** kbdsrv has found its queue empty: go and read the ring, or while suspended count the pass and look
      for oxsrv every sixteenth time. */
  function Passed(k: Kbd): Kbd {
    if !k.suspended then k.(at := Reading)
    else Kbd(if (k.tick + 1) % KBD_PROBE == 0 then Probing else Polling, true, k.tick + 1)
  }

  /** consrv has received `m`: while suspended count it and look for oxsrv every thirty-second time. */
  function Received(c: Con, m: Msg): Con {
    if !c.suspended then c.(at := Obeying(m))
    else Con(if (c.tick + 1) % CON_PROBE == 0 then Looking(m) else Obeying(m), true, c.tick + 1)
  }

  predicate Enabled(s: Sys, a: Action) {
    match a
    case OxRegister => s.ox == Off
    case OxSuspendCon(_) => s.ox == Registered
    case OxSuspendKbd(_) => s.ox == AskedCon
    case OxResumeCon(_) => s.ox == Running
    case OxBanner(_) => s.ox == ReleasedCon
    case OxResumeKbd(_) => s.ox == Bannered
    case OxGone => Alive(s)
    case KbdRecv => s.kbd.at == Polling && s.kq != []
    case KbdEmpty => s.kbd.at == Polling && s.kq == []
    case KbdLookup => s.kbd.at == Probing
    case KbdWake => s.kbd.at == Waking
    case KbdRead => s.kbd.at == Reading
    case ConRecv => s.con.at == Receiving && s.cq != []
    case ConLookup => s.con.at.Looking?
    case ConWake => s.con.at.Rousing?
    case ConObey => s.con.at.Obeying?
    case Client(m) => m in {Write, Clear, Other}
  }

  function Next(s: Sys, a: Action): Sys
    requires Enabled(s, a)
  {
    match a
    case OxRegister => s.(ox := Registered, conAsked := false, kbdAsked := false)
    case OxSuspendCon(lost) => s.(ox := AskedCon, cq := Queue(s.cq, Suspend, lost), conAsked := !lost)
    case OxSuspendKbd(lost) => s.(ox := Running, kq := Queue(s.kq, Suspend, lost), kbdAsked := !lost)
    case OxResumeCon(lost) => s.(ox := ReleasedCon, cq := Queue(s.cq, Resume, lost))
    case OxBanner(lost) => s.(ox := Bannered, cq := Queue(s.cq, Write, lost))
    case OxResumeKbd(lost) => s.(ox := Released, kq := Queue(s.kq, Resume, lost))
    case OxGone => s.(ox := Off)
    case KbdRecv => s.(kbd := s.kbd.(suspended := Heed(s.kbd.suspended, s.kq[0])), kq := s.kq[1..])
    case KbdEmpty => s.(kbd := Passed(s.kbd))
    case KbdLookup => s.(kbd := s.kbd.(at := if Alive(s) then Polling else Waking))
    case KbdWake => s.(kbd := s.kbd.(at := Polling, suspended := false))
    case KbdRead => s.(kbd := s.kbd.(at := Polling))
    case ConRecv => s.(con := Received(s.con, s.cq[0]), cq := s.cq[1..])
    case ConLookup => s.(con := s.con.(at := if Alive(s) then Obeying(s.con.at.m) else Rousing(s.con.at.m)))
    case ConWake => s.(con := s.con.(at := Obeying(s.con.at.m), suspended := false))
    case ConObey => s.(con := s.con.(at := Receiving, suspended := Heed(s.con.suspended, s.con.at.m)))
    case Client(m) => s.(cq := s.cq + [m])
  }

  /** The step reads the input ring. */
  predicate ReadsRing(a: Action) { a == KbdRead }

  /** The step writes to the framebuffer: a clear on waking up, or an obeyed message. */
  predicate Paints(s: Sys, a: Action)
    requires Enabled(s, a)
  {
    || a == ConWake
    || (a == ConObey && (s.con.at.m == Resume || (s.con.at.m in {Write, Clear} && !s.con.suspended)))
  }

  // ----- runs -----

  ghost predicate Run(states: seq<Sys>, actions: seq<Action>) {
    && |states| == |actions| + 1
    && forall i | 0 <= i < |actions| :: Enabled(states[i], actions[i]) && states[i + 1] == Next(states[i], actions[i])
  }

  const INIT: Sys := Sys(Kbd(Polling, false, 0), [], Con(Receiving, false, 0), [], Off, false, false)

  lemma {:induction false} DrainedFront(b: bool, q: seq<Msg>)
    requires q != []
    ensures Drained(b, q) == Drained(Heed(b, q[0]), q[1..])
  {
    if |q| > 1 {
      DrainedFront(b, q[..|q| - 1]);
      assert q[..|q| - 1][1..] == q[1..][..|q| - 2];
    }
  }

  lemma DrainedBack(b: bool, q: seq<Msg>, m: Msg)
    ensures Drained(b, q + [m]) == Heed(Drained(b, q), m)
  {
    assert (q + [m])[..|q|] == q;
  }

  /** oxsrv owns a device: its SUSPEND got through and it has not begun to give it back. */
  predicate OwnsKbd(s: Sys) { s.ox in {Running, ReleasedCon, Bannered} && s.kbdAsked }
  predicate OwnsCon(s: Sys) { s.ox in {AskedCon, Running} && s.conAsked }

  /** The flag as the server is going to leave it before it takes the next message. */
  predicate KbdFlag(k: Kbd) { k.suspended && k.at != Waking }
  predicate ConFlag(c: Con) { c.suspended && !c.at.Rousing? }

  /** What consrv has still to obey, the message it holds included. */
  function Pending(c: Con, q: seq<Msg>): seq<Msg> { if c.at.Receiving? then q else [c.at.m] + q }

  /** While oxsrv owns a device, the server that would compete for it stands aside as soon as it has
      read its queue - whatever is still in that queue from earlier owners. And kbdsrv never goes to the
      ring while it is suspended. */
  predicate Safe(s: Sys) {
    && (OwnsKbd(s) ==> Drained(KbdFlag(s.kbd), s.kq))
    && (OwnsCon(s) ==> Drained(ConFlag(s.con), Pending(s.con, s.cq)))
    && (s.kbd.at == Reading ==> !s.kbd.suspended)
  }

  lemma KbdSafe(s: Sys, a: Action)
    requires Safe(s) && Enabled(s, a)
    ensures OwnsKbd(Next(s, a)) ==> Drained(KbdFlag(Next(s, a).kbd), Next(s, a).kq)
    ensures Next(s, a).kbd.at == Reading ==> !Next(s, a).kbd.suspended
  {
    hide Drained;
    match a
    case OxSuspendKbd(lost) => DrainedBack(KbdFlag(s.kbd), s.kq, Suspend);
    case KbdRecv => DrainedFront(KbdFlag(s.kbd), s.kq);
    case _ =>
  }

  lemma ConSafe(s: Sys, a: Action)
    requires Safe(s) && Enabled(s, a)
    ensures OwnsCon(Next(s, a)) ==> Drained(ConFlag(Next(s, a).con), Pending(Next(s, a).con, Next(s, a).cq))
  {
    hide Drained;
    var flag, pending := ConFlag(s.con), Pending(s.con, s.cq);
    match a
    case OxSuspendCon(lost) => DrainedBack(flag, pending, Suspend); Later(s.con, s.cq, Suspend);
    case OxBanner(lost) => DrainedBack(flag, pending, Write); Later(s.con, s.cq, Write);
    case Client(m) => DrainedBack(flag, pending, m); Later(s.con, s.cq, m);
    case ConRecv => assert [s.cq[0]] + s.cq[1..] == s.cq;
    case ConObey => DrainedFront(flag, pending); assert pending[1..] == s.cq;
    case _ =>
  }

  lemma Later(c: Con, q: seq<Msg>, m: Msg)
    ensures Pending(c, q + [m]) == Pending(c, q) + [m]
  {
  }

  lemma SafeStep(s: Sys, a: Action)
    requires Safe(s) && Enabled(s, a)
    ensures Safe(Next(s, a))
  {
    hide Drained;
    KbdSafe(s, a);
    ConSafe(s, a);
  }

  lemma {:induction false} AlwaysSafe(states: seq<Sys>, actions: seq<Action>)
    requires Run(states, actions) && Safe(states[0])
    ensures Safe(states[|actions|])
  {
    var n := |actions|;
    if n > 0 {
      assert Run(states[..n], actions[..n - 1]);
      AlwaysSafe(states[..n], actions[..n - 1]);
      SafeStep(states[n - 1], actions[n - 1]);
    }
  }

  /** In no run does kbdsrv go to the ring while it is suspended. */
  lemma NeverReadsSuspended(states: seq<Sys>, actions: seq<Action>, a: Action)
    requires Run(states, actions) && states[0] == INIT && Enabled(states[|actions|], a)
    ensures ReadsRing(a) ==> !states[|actions|].kbd.suspended
  {
    AlwaysSafe(states, actions);
  }

  // ----- the ring has one reader, but for one event -----

  /** The live oxsrv keeps the keyboard. */
  predicate KeepsKbd(a: Action) { !a.OxGone? && !a.OxResumeKbd? }

  function Reads(actions: seq<Action>): nat {
    if actions == [] then 0
    else Reads(actions[..|actions| - 1]) + if ReadsRing(actions[|actions| - 1]) then 1 else 0
  }

  lemma OwnedStep(s: Sys, a: Action)
    requires Safe(s) && OwnsKbd(s) && Enabled(s, a) && KeepsKbd(a)
    ensures OwnsKbd(Next(s, a))
    ensures ReadsRing(a) ==> s.kbd.at == Reading && Next(s, a).kbd.at != Reading
    ensures Next(s, a).kbd.at == Reading ==> s.kbd.at == Reading
  {
  }

  /** As long as oxsrv owns the keyboard, kbdsrv takes at most one event from the ring, and none unless it
      was already past its empty-queue test. */
  lemma {:induction false} AtMostOneRead(states: seq<Sys>, actions: seq<Action>)
    requires Run(states, actions) && Safe(states[0]) && OwnsKbd(states[0])
    requires forall i | 0 <= i < |actions| :: KeepsKbd(actions[i])
    ensures Safe(states[|actions|]) && OwnsKbd(states[|actions|])
    ensures Reads(actions) + (if states[|actions|].kbd.at == Reading then 1 else 0)
         <= if states[0].kbd.at == Reading then 1 else 0
  {
    hide Safe, OwnsKbd, Next, Enabled;
    var n := |actions|;
    if n > 0 {
      assert Run(states[..n], actions[..n - 1]);
      AtMostOneRead(states[..n], actions[..n - 1]);
      SafeStep(states[n - 1], actions[n - 1]);
      OwnedStep(states[n - 1], actions[n - 1]);
    }
  }

  /** Some run in which oxsrv keeps the keyboard has kbdsrv take an event. */
  ghost predicate CanSteal(s: Sys) {
    exists states: seq<Sys>, actions: seq<Action> ::
      && Run(states, actions) && states[0] == s && (forall i | 0 <= i < |actions| :: KeepsKbd(actions[i]))
      && Reads(actions) > 0
  }

  /** From the moment SUSPEND is queued kbdsrv can take an event that is oxsrv's exactly if it was past its
      empty-queue test then. */
  lemma StealsIff(s: Sys)
    requires Safe(s) && s.ox == AskedCon
    ensures CanSteal(Next(s, OxSuspendKbd(false))) <==> s.kbd.at == Reading
  {
    var t := Next(s, OxSuspendKbd(false));
    SafeStep(s, OxSuspendKbd(false));
    if s.kbd.at == Reading {
      var states, actions := [t, Next(t, KbdRead)], [KbdRead];
      assert Run(states, actions) && states[0] == t && Reads(actions[..0]) == 0 && Reads(actions) > 0;
    }
    if CanSteal(t) && s.kbd.at != Reading {
      var states: seq<Sys>, actions: seq<Action> :|
        && Run(states, actions) && states[0] == t && (forall i | 0 <= i < |actions| :: KeepsKbd(actions[i]))
        && Reads(actions) > 0;
      AtMostOneRead(states, actions);
      assert false;
    }
  }

  /** In no run from the start does kbdsrv, once it is before that test, take an event that a live oxsrv
      owns. */
  lemma RingIsExclusive(states: seq<Sys>, actions: seq<Action>, later: seq<Sys>, more: seq<Action>)
    requires Run(states, actions) && states[0] == INIT
    requires Run(later, more) && later[0] == states[|actions|] && forall i | 0 <= i < |more| :: KeepsKbd(more[i])
    requires OwnsKbd(later[0]) && later[0].kbd.at != Reading
    ensures Reads(more) == 0
  {
    AlwaysSafe(states, actions);
    AtMostOneRead(later, more);
  }

  // ----- nobody wakes up behind the owner's back -----

  /** The live oxsrv neither goes nor gives anything back. */
  predicate Keeps(a: Action) { !a.OxGone? && !a.OxResumeCon? && !a.OxResumeKbd? }

  /** Nothing the server has found out or still has to read tells it to wake. */
  predicate StaysKbd(s: Sys) { Alive(s) && KbdFlag(s.kbd) && s.kbd.at != Reading && Resume !in s.kq }
  predicate StaysCon(s: Sys) { Alive(s) && ConFlag(s.con) && Resume !in Pending(s.con, s.cq) }

  lemma KbdStays(s: Sys, a: Action)
    requires Enabled(s, a) && Keeps(a) && StaysKbd(s)
    ensures StaysKbd(Next(s, a)) && !ReadsRing(a)
  {
    if s.kq != [] { assert s.kq[0] in s.kq; }
  }

  lemma ConStays(s: Sys, a: Action)
    requires Enabled(s, a) && Keeps(a) && StaysCon(s)
    ensures StaysCon(Next(s, a)) && !Paints(s, a)
  {
    match a
    case OxSuspendCon(lost) => Later(s.con, s.cq, Suspend);
    case Client(m) => Later(s.con, s.cq, m);
    case ConRecv => assert s.cq[0] in s.cq && [s.cq[0]] + s.cq[1..] == s.cq;
    case ConObey => assert s.con.at.m in Pending(s.con, s.cq);
    case _ =>
  }

  /** With no RESUME left over in its queue and no failed look-up behind it, a suspended server stays
      suspended for as long as oxsrv lives and sends none, and the device is left alone throughout. */
  lemma {:induction false} StaysSuspended(states: seq<Sys>, actions: seq<Action>)
    requires Run(states, actions) && forall i | 0 <= i < |actions| :: Keeps(actions[i])
    ensures StaysKbd(states[0]) ==>
      StaysKbd(states[|actions|]) && forall i | 0 <= i < |actions| :: !ReadsRing(actions[i])
    ensures StaysCon(states[0]) ==>
      && StaysCon(states[|actions|])
      && forall i | 0 <= i < |actions| :: Enabled(states[i], actions[i]) && !Paints(states[i], actions[i])
  {
    hide StaysKbd, StaysCon, Next, Enabled, Paints, ReadsRing;
    var n := |actions|;
    if n > 0 {
      var before, first := states[..n], actions[..n - 1];
      assert Run(before, first);
      StaysSuspended(before, first);
      if StaysKbd(states[n - 1]) { KbdStays(states[n - 1], actions[n - 1]); }
      if StaysCon(states[n - 1]) { ConStays(states[n - 1], actions[n - 1]); }
      forall i | 0 <= i < n ensures StaysKbd(states[0]) ==> !ReadsRing(actions[i]) {
        if i < n - 1 { assert first[i] == actions[i]; }
      }
      forall i | 0 <= i < n ensures StaysCon(states[0]) ==> !Paints(states[i], actions[i]) {
        if i < n - 1 { assert first[i] == actions[i] && before[i] == states[i]; }
      }
    }
  }

  /** A run of steps in which oxsrv keeps everything. */
  ghost predicate Kept(states: seq<Sys>, actions: seq<Action>, s: Sys) {
    Run(states, actions) && states[0] == s && forall i | 0 <= i < |actions| :: Keeps(actions[i])
  }

  lemma Prepend(s: Sys, a: Action, states: seq<Sys>, actions: seq<Action>)
    requires Enabled(s, a) && Keeps(a) && Kept(states, actions, Next(s, a))
    ensures Kept([s] + states, [a] + actions, s) && ([s] + states)[|actions| + 1] == states[|actions|]
  {
    hide Next, Enabled, Keeps;
    var ts, acts := [s] + states, [a] + actions;
    forall i | 0 <= i < |acts|
      ensures Enabled(ts[i], acts[i]) && ts[i + 1] == Next(ts[i], acts[i]) && Keeps(acts[i])
    {
      if i > 0 { assert ts[i] == states[i - 1] && acts[i] == actions[i - 1]; }
    }
  }

  lemma Stay(s: Sys)
    ensures Kept([s], [], s)
  {
  }

  ghost predicate CanWakeKbd(s: Sys) {
    exists states: seq<Sys>, actions: seq<Action> :: Kept(states, actions, s) && !states[|actions|].kbd.suspended
  }
  ghost predicate CanWakeCon(s: Sys) {
    exists states: seq<Sys>, actions: seq<Action> :: Kept(states, actions, s) && !states[|actions|].con.suspended
  }

  /** What the server does next on its way to waking up. */
  function KbdWay(s: Sys): Action
    requires s.kbd.at != Reading && (s.kbd.at == Polling ==> s.kq != [])
  {
    match s.kbd.at
    case Polling => KbdRecv
    case Probing => KbdLookup
    case Waking => KbdWake
    case Reading => KbdRead
  }

  lemma {:induction false} KbdWakes(s: Sys) returns (states: seq<Sys>, actions: seq<Action>)
    requires Alive(s) && (s.kbd.suspended ==> s.kbd.at != Reading && (Resume in s.kq || s.kbd.at == Waking))
    ensures Kept(states, actions, s) && !states[|actions|].kbd.suspended
    decreases s.kbd.suspended, |s.kq|, s.kbd.at == Probing
  {
    if !s.kbd.suspended {
      Stay(s);
      states, actions := [s], [];
    } else {
      var a := KbdWay(s);
      if a == KbdRecv && s.kq[0] != Resume { assert Resume in s.kq[1..]; }
      var ts, acts := KbdWakes(Next(s, a));
      Prepend(s, a, ts, acts);
      states, actions := [s] + ts, [a] + acts;
    }
  }

  /** Exactly when can kbdsrv wake although a live oxsrv has sent no RESUME? When one of an earlier
      oxsrv is still in its queue, or when it had looked for oxsrv before oxsrv was there. */
  lemma WakesIffStaleResume(s: Sys)
    requires Safe(s) && Alive(s) && s.kbd.suspended
    ensures CanWakeKbd(s) <==> Resume in s.kq || s.kbd.at == Waking
  {
    if Resume in s.kq || s.kbd.at == Waking {
      var states, actions := KbdWakes(s);
    } else if CanWakeKbd(s) {
      var states: seq<Sys>, actions: seq<Action> :| Kept(states, actions, s) && !states[|actions|].kbd.suspended;
      StaysSuspended(states, actions);
      assert false;
    }
  }

  function ConWay(s: Sys): Action {
    match s.con.at
    case Receiving => ConRecv
    case Looking(_) => ConLookup
    case Rousing(_) => ConWake
    case Obeying(_) => ConObey
  }

  function ConRank(p: ConPoint): nat {
    match p
    case Receiving => 0
    case Obeying(_) => 1
    case Looking(_) => 2
    case Rousing(_) => 2
  }

  lemma {:induction false} ConWakes(s: Sys) returns (states: seq<Sys>, actions: seq<Action>)
    requires Alive(s) && (s.con.suspended ==> Resume in Pending(s.con, s.cq) || s.con.at.Rousing?)
    ensures Kept(states, actions, s) && !states[|actions|].con.suspended
    decreases s.con.suspended, |s.cq|, ConRank(s.con.at)
  {
    if !s.con.suspended {
      Stay(s);
      states, actions := [s], [];
    } else {
      var a := ConWay(s);
      if a == ConRecv { assert [s.cq[0]] + s.cq[1..] == s.cq; }
      if a == ConObey && s.con.at.m != Resume { assert Resume in s.cq; }
      var ts, acts := ConWakes(Next(s, a));
      Prepend(s, a, ts, acts);
      states, actions := [s] + ts, [a] + acts;
    }
  }

  /** The same question for consrv has the same answer; a message it holds counts as queued. */
  lemma ConWakesIffStaleResume(s: Sys)
    requires Alive(s) && s.con.suspended
    ensures CanWakeCon(s) <==> Resume in Pending(s.con, s.cq) || s.con.at.Rousing?
  {
    if Resume in Pending(s.con, s.cq) || s.con.at.Rousing? {
      var states, actions := ConWakes(s);
    } else if CanWakeCon(s) {
      var states: seq<Sys>, actions: seq<Action> :| Kept(states, actions, s) && !states[|actions|].con.suspended;
      StaysSuspended(states, actions);
      assert false;
    }
  }

  // ----- and these things do happen -----

  ghost predicate Reachable(s: Sys) {
    exists states: seq<Sys>, actions: seq<Action> :: Run(states, actions) && states[0] == INIT && states[|actions|] == s
  }

  lemma StartIsReachable()
    ensures Reachable(INIT)
  {
    assert Run([INIT], []);
  }

  lemma ReachNext(s: Sys, a: Action)
    requires Reachable(s) && Enabled(s, a)
    ensures Reachable(Next(s, a))
  {
    hide Next, Enabled;
    var states: seq<Sys>, actions: seq<Action> :| Run(states, actions) && states[0] == INIT && states[|actions|] == s;
    var n, ts, acts := |actions|, states + [Next(s, a)], actions + [a];
    forall i | 0 <= i < |acts| ensures Enabled(ts[i], acts[i]) && ts[i + 1] == Next(ts[i], acts[i]) {
      if i < n { assert ts[i] == states[i] && acts[i] == actions[i] && ts[i + 1] == states[i + 1]; }
    }
    assert Run(ts, acts) && ts[|acts|] == Next(s, a);
  }

  /** kbdsrv finds its queue empty and is preempted, oxsrv takes the keyboard, and kbdsrv goes on to read
      the ring. */
  lemma StealHappens()
    ensures exists s :: Reachable(s) && OwnsKbd(s) && Enabled(s, KbdRead)
  {
    hide Reachable;
    StartIsReachable();
    ReachNext(INIT, KbdEmpty);
    var s1 := Next(INIT, KbdEmpty);
    ReachNext(s1, OxRegister);
    var s2 := Next(s1, OxRegister);
    ReachNext(s2, OxSuspendCon(true));
    var s3 := Next(s2, OxSuspendCon(true));
    ReachNext(s3, OxSuspendKbd(false));
    assert Enabled(Next(s3, OxSuspendKbd(false)), KbdRead);
  }

  /** oxsrv has taken the keyboard and kbdsrv has heard of it. */
  function Taken(): Sys { INIT.(kbd := Kbd(Polling, true, 0), ox := Running, kbdAsked := true) }

  lemma TakenIsReachable()
    ensures Reachable(Taken())
  {
    hide Reachable;
    StartIsReachable();
    ReachNext(INIT, OxRegister);
    var s1 := Next(INIT, OxRegister);
    ReachNext(s1, OxSuspendCon(true));
    var s2 := Next(s1, OxSuspendCon(true));
    ReachNext(s2, OxSuspendKbd(false));
    var s3 := Next(s2, OxSuspendKbd(false));
    ReachNext(s3, KbdRecv);
    assert Next(s3, KbdRecv) == Taken();
  }

  /** One oxsrv leaves, the next registers before kbdsrv has read the RESUME. */
  lemma StaleResumeHappens()
    ensures exists s :: Reachable(s) && s.ox == Registered && s.kbd.suspended && Resume in s.kq
  {
    hide Reachable;
    TakenIsReachable();
    var s0 := Taken();
    ReachNext(s0, OxResumeCon(true));
    var s1 := Next(s0, OxResumeCon(true));
    ReachNext(s1, OxBanner(true));
    var s2 := Next(s1, OxBanner(true));
    ReachNext(s2, OxResumeKbd(false));
    var s3 := Next(s2, OxResumeKbd(false));
    ReachNext(s3, OxGone);
    var s4 := Next(s3, OxGone);
    ReachNext(s4, OxRegister);
    var s5 := Next(s4, OxRegister);
    assert s5.kq == [Resume];
  }

  lemma {:induction false} Passes15(s: Sys, n: nat)
    requires Reachable(s) && s.kbd == Kbd(Polling, true, 0) && s.kq == [] && n < KBD_PROBE
    ensures Reachable(s.(kbd := Kbd(Polling, true, n)))
  {
    hide Reachable;
    if n > 0 {
      Passes15(s, n - 1);
      var t := s.(kbd := Kbd(Polling, true, n - 1));
      ReachNext(t, KbdEmpty);
      assert Next(t, KbdEmpty) == s.(kbd := Kbd(Polling, true, n));
    } else {
      assert s.(kbd := Kbd(Polling, true, 0)) == s;
    }
  }

  /** oxsrv dies, kbdsrv's look-up fails, and the next oxsrv registers before kbdsrv wakes. */
  lemma FailedLookupHappens()
    ensures exists s :: Reachable(s) && s.ox == Registered && s.kbd.suspended && Resume !in s.kq && s.kbd.at == Waking
  {
    hide Reachable;
    TakenIsReachable();
    ReachNext(Taken(), OxGone);
    var s0 := Next(Taken(), OxGone);
    Passes15(s0, 15);
    var s1 := s0.(kbd := Kbd(Polling, true, 15));
    ReachNext(s1, KbdEmpty);
    var s2 := Next(s1, KbdEmpty);
    ReachNext(s2, KbdLookup);
    var s3 := Next(s2, KbdLookup);
    ReachNext(s3, OxRegister);
    assert Resume !in Next(s3, OxRegister).kq;
  }

  /** oxsrv has taken the screen and consrv has heard of it. */
  function TakenCon(): Sys { INIT.(con := Con(Receiving, true, 0), ox := Running, conAsked := true) }

  lemma TakenConIsReachable()
    ensures Reachable(TakenCon())
  {
    hide Reachable;
    StartIsReachable();
    ReachNext(INIT, OxRegister);
    var s1 := Next(INIT, OxRegister);
    ReachNext(s1, OxSuspendCon(false));
    var s2 := Next(s1, OxSuspendCon(false));
    ReachNext(s2, ConRecv);
    var s3 := Next(s2, ConRecv);
    ReachNext(s3, ConObey);
    var s4 := Next(s3, ConObey);
    ReachNext(s4, OxSuspendKbd(true));
    assert Next(s4, OxSuspendKbd(true)) == TakenCon();
  }

  /** The same two things happen to consrv. */
  lemma ConStaleResumeHappens()
    ensures exists s :: Reachable(s) && s.ox == Registered && s.con.suspended && Resume in Pending(s.con, s.cq)
  {
    hide Reachable;
    TakenConIsReachable();
    var s0 := TakenCon();
    ReachNext(s0, OxResumeCon(false));
    var s1 := Next(s0, OxResumeCon(false));
    ReachNext(s1, OxGone);
    var s2 := Next(s1, OxGone);
    ReachNext(s2, OxRegister);
    var s3 := Next(s2, OxRegister);
    assert Pending(s3.con, s3.cq) == [Resume];
  }

  lemma {:induction false} Writes(s: Sys, n: nat)
    requires Reachable(s) && s.con == Con(Receiving, true, 0) && s.cq == [] && n < CON_PROBE
    ensures Reachable(s.(con := Con(Receiving, true, n)))
  {
    hide Reachable;
    if n > 0 {
      Writes(s, n - 1);
      var t := s.(con := Con(Receiving, true, n - 1));
      ReachNext(t, Client(Write));
      var t1 := Next(t, Client(Write));
      ReachNext(t1, ConRecv);
      var t2 := Next(t1, ConRecv);
      ReachNext(t2, ConObey);
      assert t1.cq[1..] == [] && Next(t2, ConObey) == s.(con := Con(Receiving, true, n));
    } else {
      assert s.(con := Con(Receiving, true, 0)) == s;
    }
  }

  lemma ConFailedLookupHappens()
    ensures exists s ::
      && Reachable(s) && s.ox == Registered && s.con.suspended
      && Resume !in Pending(s.con, s.cq) && s.con.at.Rousing?
  {
    hide Reachable;
    TakenConIsReachable();
    ReachNext(TakenCon(), OxGone);
    var s0 := Next(TakenCon(), OxGone);
    Writes(s0, 31);
    var s1 := s0.(con := Con(Receiving, true, 31));
    ReachNext(s1, Client(Write));
    var s2 := Next(s1, Client(Write));
    ReachNext(s2, ConRecv);
    var s3 := Next(s2, ConRecv);
    ReachNext(s3, ConLookup);
    var s4 := Next(s3, ConLookup);
    ReachNext(s4, OxRegister);
    var s5 := Next(s4, OxRegister);
    assert Pending(s5.con, s5.cq) == [Write];
  }

  // ----- recovery after a crash -----

  /** Passes, or messages, a suspended server still needs until a look-up that lets it wake. */
  function KbdWait(k: Kbd): nat {
    if k.suspended && k.at in {Polling, Reading} then KBD_PROBE - k.tick % KBD_PROBE else 0
  }
  function ConWait(c: Con): nat {
    if c.suspended && (c.at.Receiving? || c.at.Obeying?) then CON_PROBE - c.tick % CON_PROBE else 0
  }

  function Passes(actions: seq<Action>): nat {
    if actions == [] then 0 else Passes(actions[..|actions| - 1]) + if actions[|actions| - 1] == KbdEmpty then 1 else 0
  }

  function Messages(actions: seq<Action>): nat {
    if actions == [] then 0 else Messages(actions[..|actions| - 1]) + if actions[|actions| - 1] == ConRecv then 1 else 0
  }

  /** oxsrv is gone, and no SUSPEND is under way. */
  predicate NoOwner(s: Sys) { !Alive(s) && Suspend !in s.kq && Suspend !in Pending(s.con, s.cq) }

  function Minus(a: nat, b: nat): nat { if a <= b then 0 else a - b }

  lemma PassExactly(k: Kbd)
    requires k.at == Polling
    ensures KbdWait(Passed(k)) == Minus(KbdWait(k), 1)
  {
  }

  lemma MessageShortens(c: Con, m: Msg)
    requires c.at == Receiving
    ensures ConWait(Received(c, m)) <= Minus(ConWait(c), 1)
  {
  }

  lemma NoOwnerStays(s: Sys, a: Action)
    requires Enabled(s, a) && NoOwner(s) && a != OxRegister
    ensures NoOwner(Next(s, a))
  {
    match a
    case Client(m) => Later(s.con, s.cq, m);
    case ConRecv => assert s.cq[0] in s.cq && [s.cq[0]] + s.cq[1..] == s.cq;
    case _ =>
  }

  lemma WaitStep(s: Sys, a: Action)
    requires Enabled(s, a) && NoOwner(s) && a != OxRegister
    ensures KbdWait(Next(s, a).kbd) <= Minus(KbdWait(s.kbd), if a == KbdEmpty then 1 else 0)
    ensures ConWait(Next(s, a).con) <= Minus(ConWait(s.con), if a == ConRecv then 1 else 0)
  {
    hide Passed, Received;
    match a
    case KbdEmpty => PassExactly(s.kbd);
    case ConRecv => MessageShortens(s.con, s.cq[0]);
    case KbdRecv => assert s.kq[0] in s.kq;
    case ConObey => assert s.con.at.m in Pending(s.con, s.cq);
    case _ =>
  }

  /** After oxsrv's death, with no SUSPEND under way: once kbdsrv has done 16 passes it is back, and so is
      consrv after 32 messages, as soon as they are between passes or messages again, whatever else happens. */
  lemma {:induction false} Recovery(states: seq<Sys>, actions: seq<Action>)
    requires Run(states, actions) && NoOwner(states[0]) && forall i | 0 <= i < |actions| :: actions[i] != OxRegister
    ensures var last := states[|actions|];
      && NoOwner(last)
      && KbdWait(last.kbd) <= Minus(KbdWait(states[0].kbd), Passes(actions))
      && ConWait(last.con) <= Minus(ConWait(states[0].con), Messages(actions))
      && (Passes(actions) >= KBD_PROBE && last.kbd.at == Polling ==> !last.kbd.suspended)
      && (Messages(actions) >= CON_PROBE && last.con.at == Receiving ==> !last.con.suspended)
  {
    var n := |actions|;
    if n > 0 {
      assert Run(states[..n], actions[..n - 1]);
      Recovery(states[..n], actions[..n - 1]);
      NoOwnerStays(states[n - 1], actions[n - 1]);
      WaitStep(states[n - 1], actions[n - 1]);
    }
  }

  lemma WaitExactly(s: Sys, a: Action)
    requires Enabled(s, a) && NoOwner(s) && a != OxRegister && s.kq == []
    ensures Next(s, a).kq == [] && KbdWait(Next(s, a).kbd) == Minus(KbdWait(s.kbd), if a == KbdEmpty then 1 else 0)
  {
    hide Passed;
    if a == KbdEmpty { PassExactly(s.kbd); }
  }

  /** With nothing in its queue, kbdsrv waits for exactly the next look-up: no run without oxsrv wakes it
      earlier, so sixteen passes can all be needed. */
  lemma {:induction false} WakesAtProbe(states: seq<Sys>, actions: seq<Action>)
    requires Run(states, actions) && NoOwner(states[0]) && forall i | 0 <= i < |actions| :: actions[i] != OxRegister
    requires states[0].kq == []
    ensures var k, last := states[0].kbd, states[|actions|].kbd;
      && NoOwner(states[|actions|]) && states[|actions|].kq == []
      && KbdWait(last) == Minus(KbdWait(k), Passes(actions))
      && (last.suspended && last.at in {Polling, Reading} <==> Passes(actions) < KbdWait(k))
  {
    hide NoOwner, KbdWait;
    var n := |actions|;
    if n > 0 {
      assert Run(states[..n], actions[..n - 1]);
      WakesAtProbe(states[..n], actions[..n - 1]);
      NoOwnerStays(states[n - 1], actions[n - 1]);
      WaitExactly(states[n - 1], actions[n - 1]);
    }
    StillWaits(states[n].kbd);
  }

  lemma StillWaits(k: Kbd)
    ensures k.suspended && k.at in {Polling, Reading} <==> KbdWait(k) > 0
  {
  }

  // ----- an awake server serves -----

  predicate ConStep(a: Action) { a in {ConRecv, ConLookup, ConWake, ConObey} }

  /** consrv holds `m` and is going to obey it. */
  predicate Serving(s: Sys, m: Msg) { s.con.at == Obeying(m) && !s.con.suspended }

  /** Awake, consrv goes straight from receiving a message to obeying it, whatever the others do meanwhile, and
      obeying a write or a clear paints. */
  lemma {:induction false} AwakePaints(states: seq<Sys>, actions: seq<Action>, i: nat, j: nat)
    requires Run(states, actions) && i < j < |actions| && actions[i] == ConRecv && !states[i].con.suspended
    requires forall k | i < k < j :: !ConStep(actions[k])
    ensures Serving(states[j], states[i].cq[0]) && Enabled(states[j], ConObey)
    ensures ConStep(actions[j]) ==> actions[j] == ConObey
    ensures states[i].cq[0] in {Write, Clear, Resume} <==> Paints(states[j], ConObey)
    decreases j
  {
    assert Enabled(states[i], actions[i]) && states[i + 1] == Next(states[i], actions[i]);
    if j > i + 1 {
      AwakePaints(states, actions, i, j - 1);
      assert Enabled(states[j - 1], actions[j - 1]) && states[j] == Next(states[j - 1], actions[j - 1]);
    }
    assert Enabled(states[j], actions[j]);
  }

  /** Suspended, consrv paints nothing a client asks for; only a wake-up call, or finding oxsrv gone, makes it paint. */
  lemma SuspendedKeepsStill(s: Sys, a: Action)
    requires Enabled(s, a) && s.con.suspended && Paints(s, a)
    ensures a == ConWake || (a == ConObey && s.con.at.m == Resume)
    ensures !Next(s, a).con.suspended
  {
  }

  /** Awake, kbdsrv reads the ring after every look into an empty queue. */
  lemma AwakeReads(s: Sys)
    requires s.kbd.at == Polling && !s.kbd.suspended && s.kq == []
    ensures Enabled(s, KbdEmpty) && Enabled(Next(s, KbdEmpty), KbdRead) && ReadsRing(KbdRead)
    ensures Next(Next(s, KbdEmpty), KbdRead) == s
  {
  }
}
