/** What holds in every interleaving of the standby protocol, whether or not Owner answers
    truthfully: an inductive invariant, and the safety theorems that follow from it. */
module StandbySafety {
  import opened Mailbox
  import opened StandbyProtocol

  // ----- the invariant --------------------------------------------------------

  /** A ticket names one spawner and at most one standby, and the recorded process is the one
      that was launched with the ticket in the mailbox. */
  ghost predicate Tickets(w: World) {
    && (forall p :: p in w.procs ==> p != 0)
    && (forall p :: p in w.procs ==> (w.procs[p].ticket == 0 <==> w.procs[p].phase.Visible?))
    && (forall p :: p in w.procs && w.procs[p].ticket != 0 ==>
          w.procs[p].ticket in w.spawns && w.spawns[w.procs[p].ticket].child == p)
    && (forall t :: t in w.spawns ==> t != 0)
    && (forall t :: t in w.spawns && w.spawns[t].phase.Reserved? ==> w.spawns[t].child == 0)
    && (forall t :: t in w.spawns && w.spawns[t].child != 0 ==>
          w.spawns[t].child in w.procs && w.procs[w.spawns[t].child].ticket == t)
    && (w.mail.started != 0 ==> w.mail.started in w.spawns)
    && (w.mail.pid != 0 ==> w.mail.pid in w.procs && w.procs[w.mail.pid].ticket == w.mail.started != 0)
  }

  /** The state of the mailbox agrees with where the recorded process stands. */
  ghost predicate Occupied(w: World) {
    && w.mail.request.Sized()
    && (w.mail.state in {Ready, Pending, Taking, Taken} ==> w.mail.pid != 0)
    && (w.mail.pid != 0 ==>
          && w.mail.pid in w.procs
          && var q := w.procs[w.mail.pid];
          && (w.mail.state in {Ready, Pending} ==> q.phase in {Waiting, Left})
          && (w.mail.state == Taking ==> q.phase == Waiting && !q.alive)
          && (w.mail.state == Taken ==> q.phase == Adopted(w.mail.request.id))
          && (q.phase in {Launched, Claimed} ==> w.mail.state == Starting))
  }

  /** A pending request is exactly what its sender posted, for the process that is still
      recorded, and nothing has been decided about it yet. */
  ghost predicate PendingIsPosted(w: World) {
    w.mail.state == Pending ==>
      var id := w.mail.request.id;
      && id in w.deliveries && w.deliveries[id].owner == w.mail.pid
      && w.mail.request.Sized() && w.mail.request.Acceptable()
      && ContentsOf(w.mail.request) == w.deliveries[id].posted
      && !w.WasAdopted(id) && id !in w.refused && id !in w.rejected
  }

  ghost predicate AdoptionIsRight(w: World, a: Adoption) {
    && a.id in w.deliveries
    && w.deliveries[a.id].owner == a.adopter
    && w.deliveries[a.id].posted == a.got
    && a.adopter in w.procs && w.procs[a.adopter].phase == Adopted(a.id)
    && a.id !in w.refused && a.id !in w.rejected
  }

  ghost predicate HistoryIsRight(w: World) {
    && w.mail.request.id in w.ids
    && (forall id :: id in w.deliveries ==> id in w.ids)
    && (forall id :: id in w.refused + w.rejected ==> id in w.deliveries)
    && (forall i :: 0 <= i < |w.adoptions| ==> AdoptionIsRight(w, w.adoptions[i]))
    && (forall i, j :: 0 <= i < j < |w.adoptions| ==> w.adoptions[i].id != w.adoptions[j].id)
  }

  ghost predicate Inv(w: World) {
    Tickets(w) && Occupied(w) && PendingIsPosted(w) && HistoryIsRight(w)
  }

  /** Nothing that Tickets is about has changed, except that the mailbox may have lost its
      process. */
  ghost predicate SameTickets(w: World, w': World) {
    && w'.spawns == w.spawns && w'.mail.started == w.mail.started && w'.mail.pid in {0, w.mail.pid}
    && w'.procs.Keys == w.procs.Keys
    && forall p :: p in w.procs ==>
         w'.procs[p].ticket == w.procs[p].ticket && w'.procs[p].phase.Visible? == w.procs[p].phase.Visible?
  }

  lemma SameTicketsKeep(w: World, w': World)
    requires Tickets(w) && SameTickets(w, w')
    ensures Tickets(w')
  {
  }

  lemma ServeOutcome(m: Mail, me: nat, woken: bool, memory: bool, room: bool)
    requires m.request.Sized()
    ensures var mail := Serve(m, me, woken, memory, room).0; mail.started == m.started && mail.pid in {0, m.pid}
  {
  }

  lemma SizedMailbox(w: World)
    requires Occupied(w)
    ensures w.mail.request.Sized()
  {
  }

  lemma ServeKeepsTickets(w: World, p: nat, woken: bool, memory: bool, room: bool)
    requires Inv(w) && w.Alive(p) && w.procs[p].phase.Waiting?
    ensures Tickets(ServeApply(w, p, woken, memory, room))
  {
    hide Tickets, Occupied, PendingIsPosted, HistoryIsRight;
    assert w.mail.request.Sized() by {
      SizedMailbox(w);
    }
    ServeOutcome(w.mail, p, woken, memory, room);
    hide Serve;
    SameTicketsKeep(w, ServeApply(w, p, woken, memory, room));
  }

  lemma StandbyKeepsTickets(w: World, p: nat, act: StandbyAct)
    requires Inv(w) && StandbyEnabled(w, p, act)
    ensures Tickets(StandbyApply(w, p, act))
  {
    hide Occupied, PendingIsPosted, HistoryIsRight;
    if act.Serving? {
      ServeKeepsTickets(w, p, act.woken, act.memory, act.room);
    }
  }

  lemma StandbyKeepsOccupied(w: World, p: nat, act: StandbyAct)
    requires Inv(w) && StandbyEnabled(w, p, act)
    ensures Occupied(StandbyApply(w, p, act))
  {
    hide PendingIsPosted, HistoryIsRight;
  }

  lemma StandbyKeepsPendingIsPosted(w: World, p: nat, act: StandbyAct)
    requires Inv(w) && StandbyEnabled(w, p, act)
    ensures PendingIsPosted(StandbyApply(w, p, act))
  {
    hide Tickets;
  }

  lemma ServeKeepsHistoryIsRight(w: World, p: nat, woken: bool, memory: bool, room: bool)
    requires Inv(w) && w.Alive(p) && w.procs[p].phase.Waiting?
    ensures HistoryIsRight(ServeApply(w, p, woken, memory, room))
  {
    hide Tickets;
  }

  lemma StandbyKeepsHistoryIsRight(w: World, p: nat, act: StandbyAct)
    requires Inv(w) && StandbyEnabled(w, p, act)
    ensures HistoryIsRight(StandbyApply(w, p, act))
  {
    hide Tickets;
    if act.Serving? {
      ServeKeepsHistoryIsRight(w, p, act.woken, act.memory, act.room);
    }
  }

  lemma RequestKeepsTickets(w: World, act: RequestAct)
    requires Inv(w) && RequestEnabled(w, act)
    ensures Tickets(RequestApply(w, act))
  {
    hide Occupied, PendingIsPosted, HistoryIsRight;
  }

  lemma RequestKeepsOccupied(w: World, act: RequestAct)
    requires Inv(w) && RequestEnabled(w, act)
    ensures Occupied(RequestApply(w, act))
  {
    hide PendingIsPosted, HistoryIsRight;
  }

  lemma RequestKeepsPendingIsPosted(w: World, act: RequestAct)
    requires Inv(w) && RequestEnabled(w, act)
    ensures PendingIsPosted(RequestApply(w, act))
  {
    hide Tickets;
    match act {
      case Posting(p, id, owner, msg) => PostKeepsPendingIsPosted(w, p, id, owner, msg);
      case Closing(id) => hide Occupied, HistoryIsRight;
      case _ => hide Occupied, HistoryIsRight;
    }
  }

  lemma PostKeepsPendingIsPosted(w: World, p: nat, id: nat, owner: bool, msg: Message)
    requires Inv(w) && RequestEnabled(w, RequestAct.Posting(p, id, owner, msg))
    ensures PendingIsPosted(RequestApply(w, RequestAct.Posting(p, id, owner, msg)))
  {
    hide Tickets, Occupied;
  }

  lemma RequestKeepsHistoryIsRight(w: World, act: RequestAct)
    requires Inv(w) && RequestEnabled(w, act)
    ensures HistoryIsRight(RequestApply(w, act))
  {
    hide Tickets;
  }

  lemma SpawnKeepsTickets(w: World, act: SpawnAct)
    requires Inv(w) && SpawnEnabled(w, act)
    ensures Tickets(SpawnApply(w, act))
  {
    hide Occupied, PendingIsPosted, HistoryIsRight;
  }

  lemma SpawnKeepsOccupied(w: World, act: SpawnAct)
    requires Inv(w) && SpawnEnabled(w, act)
    ensures Occupied(SpawnApply(w, act))
  {
    hide PendingIsPosted, HistoryIsRight;
  }

  lemma SpawnKeepsPendingIsPosted(w: World, act: SpawnAct)
    requires Inv(w) && SpawnEnabled(w, act)
    ensures PendingIsPosted(SpawnApply(w, act))
  {
    hide Tickets;
  }

  lemma SpawnKeepsHistoryIsRight(w: World, act: SpawnAct)
    requires Inv(w) && SpawnEnabled(w, act)
    ensures HistoryIsRight(SpawnApply(w, act))
  {
    hide Tickets;
  }

  lemma CrashKeepsTickets(w: World, act: CrashAct)
    requires Inv(w) && CrashEnabled(w, act)
    ensures Tickets(CrashApply(w, act))
  {
    hide Occupied, PendingIsPosted, HistoryIsRight;
  }

  lemma CrashKeepsOccupied(w: World, act: CrashAct)
    requires Inv(w) && CrashEnabled(w, act)
    ensures Occupied(CrashApply(w, act))
  {
    hide PendingIsPosted, HistoryIsRight;
  }

  lemma CrashKeepsPendingIsPosted(w: World, act: CrashAct)
    requires Inv(w) && CrashEnabled(w, act)
    ensures PendingIsPosted(CrashApply(w, act))
  {
    hide Tickets;
  }

  lemma CrashKeepsHistoryIsRight(w: World, act: CrashAct)
    requires Inv(w) && CrashEnabled(w, act)
    ensures HistoryIsRight(CrashApply(w, act))
  {
    hide Tickets;
  }

  /** Every step keeps the invariant. */
  lemma StepKeepsInv(w: World, s: Step)
    requires Inv(w) && Enabled(w, s)
    ensures Inv(Apply(w, s))
  {
    hide Tickets, Occupied, PendingIsPosted, HistoryIsRight;
    match s {
      case Launch(p) => LifeKeepsInv(w, s);
      case Die(p) => LifeKeepsInv(w, s);
      case ByStandby(p, act) =>
        StandbyKeepsTickets(w, p, act);
        StandbyKeepsOccupied(w, p, act);
        StandbyKeepsPendingIsPosted(w, p, act);
        StandbyKeepsHistoryIsRight(w, p, act);
      case ByRequester(act) =>
        RequestKeepsTickets(w, act);
        RequestKeepsOccupied(w, act);
        RequestKeepsPendingIsPosted(w, act);
        RequestKeepsHistoryIsRight(w, act);
      case BySpawner(act) =>
        SpawnKeepsTickets(w, act);
        SpawnKeepsOccupied(w, act);
        SpawnKeepsPendingIsPosted(w, act);
        SpawnKeepsHistoryIsRight(w, act);
      case Crash(act) =>
        CrashKeepsTickets(w, act);
        CrashKeepsOccupied(w, act);
        CrashKeepsPendingIsPosted(w, act);
        CrashKeepsHistoryIsRight(w, act);
    }
  }

  lemma LifeKeepsInv(w: World, s: Step)
    requires Inv(w) && Enabled(w, s) && (s.Launch? || s.Die?)
    ensures Inv(Apply(w, s))
  {
    hide Tickets, Occupied, PendingIsPosted, HistoryIsRight;
    LifeKeepsTickets(w, s);
    LifeKeepsOthers(w, s);
  }

  lemma LifeKeepsTickets(w: World, s: Step)
    requires Inv(w) && Enabled(w, s) && (s.Launch? || s.Die?)
    ensures Tickets(Apply(w, s))
  {
    hide Occupied, PendingIsPosted, HistoryIsRight;
  }

  lemma LifeKeepsOthers(w: World, s: Step)
    requires Inv(w) && Enabled(w, s) && (s.Launch? || s.Die?)
    ensures Occupied(Apply(w, s)) && PendingIsPosted(Apply(w, s)) && HistoryIsRight(Apply(w, s))
  {
    hide Tickets;
  }

  lemma {:induction false} RunKeepsInv(trace: seq<World>, steps: seq<Step>, i: nat)
    requires Run(trace, steps) && i < |trace|
    ensures Inv(trace[i])
  {
    if i > 0 {
      hide Tickets, Occupied, PendingIsPosted, HistoryIsRight, Apply, Enabled;
      RunKeepsInv(trace, steps, i - 1);
      assert Next(trace[i - 1], steps[i - 1], trace[i]);
      StepKeepsInv(trace[i - 1], steps[i - 1]);
    }
  }

  // ----- what only grows ------------------------------------------------------

  ghost predicate Later(w: World, w': World) {
    && w.refused <= w'.refused
    && w.rejected <= w'.rejected
    && w.adoptions <= w'.adoptions
    && w.spawns.Keys <= w'.spawns.Keys
    && (forall p :: p in w.procs ==> p in w'.procs && w'.procs[p].ticket == w.procs[p].ticket)
    && (forall p :: p in w.procs && !w.procs[p].alive ==> !w'.procs[p].alive)
    && (forall t :: t in w.spawns && t != w.mail.started ==> t != w'.mail.started)
    && (forall id :: id in w.deliveries ==>
          && id in w'.deliveries
          && w'.deliveries[id].owner == w.deliveries[id].owner
          && w'.deliveries[id].posted == w.deliveries[id].posted)
  }

  lemma StepIsLater(w: World, s: Step)
    requires Inv(w) && Enabled(w, s)
    ensures Later(w, Apply(w, s))
  {
    match s {
      case ByStandby(p, act) => StandbyIsLater(w, p, act);
      case ByRequester(act) => RequestIsLater(w, act);
      case BySpawner(act) => SpawnIsLater(w, act);
      case Crash(act) => CrashIsLater(w, act);
      case _ =>
    }
  }

  lemma ServeIsLater(w: World, p: nat, woken: bool, memory: bool, room: bool)
    requires Tickets(w) && w.mail.request.Sized() && w.Alive(p)
    ensures Later(w, ServeApply(w, p, woken, memory, room))
  {
    hide Tickets, Serve;
    ServeOutcome(w.mail, p, woken, memory, room);
  }

  lemma StandbyIsLater(w: World, p: nat, act: StandbyAct)
    requires Inv(w) && StandbyEnabled(w, p, act)
    ensures Later(w, StandbyApply(w, p, act))
  {
    if act.Serving? {
      ServeIsLater(w, p, act.woken, act.memory, act.room);
    }
    hide ServeApply;
    hide PendingIsPosted, HistoryIsRight, Occupied;
  }

  lemma RequestIsLater(w: World, act: RequestAct)
    requires Inv(w) && RequestEnabled(w, act)
    ensures Later(w, RequestApply(w, act))
  {
    hide PendingIsPosted, Tickets, Occupied;
  }

  lemma SpawnIsLater(w: World, act: SpawnAct)
    requires Inv(w) && SpawnEnabled(w, act)
    ensures Later(w, SpawnApply(w, act))
  {
    hide PendingIsPosted, HistoryIsRight, Occupied;
  }

  lemma CrashIsLater(w: World, act: CrashAct)
    requires Inv(w) && CrashEnabled(w, act)
    ensures Later(w, CrashApply(w, act))
  {
    hide PendingIsPosted, HistoryIsRight, Occupied;
  }

  lemma {:induction false} RunIsLater(trace: seq<World>, steps: seq<Step>, i: nat, j: nat)
    requires Run(trace, steps) && i <= j < |trace|
    ensures Later(trace[i], trace[j])
  {
    hide Inv, Apply, Enabled;
    if i < j {
      RunIsLater(trace, steps, i, j - 1);
      RunKeepsInv(trace, steps, j - 1);
      assert Next(trace[j - 1], steps[j - 1], trace[j]);
      StepIsLater(trace[j - 1], steps[j - 1]);
    }
  }

  // ----- the theorems ---------------------------------------------------------

  /** Withdrawal is final. When the closing section of Deliver answers no, because it withdrew
      its pending request or found it handed back, that request is adopted at no point of the
      run, however the run goes on. */
  lemma WithdrawalIsFinal(trace: seq<World>, steps: seq<Step>, i: nat, id: nat, j: nat)
    requires Run(trace, steps) && i < |steps| && j < |trace|
    requires steps[i] == ByRequester(RequestAct.Closing(id))
    requires id in trace[i].deliveries && Current(trace[i], id) && trace[i].mail.state in {Pending, Ready}
    ensures !trace[j].WasAdopted(id)
  {
    assert Next(trace[i], steps[i], trace[i + 1]);
    assert id in trace[i + 1].refused;
    if j <= i {
      RunIsLater(trace, steps, j, i + 1);
      RunKeepsInv(trace, steps, i + 1);
    } else {
      RunIsLater(trace, steps, i + 1, j);
      RunKeepsInv(trace, steps, j);
    }
  }

  /** The k-th step posted request `id` for the process `owner`, meaning `contents`. */
  ghost predicate PostedAt(trace: seq<World>, steps: seq<Step>, k: nat, id: nat, owner: nat, contents: Contents) {
    && |trace| == |steps| + 1 && k < |steps|
    && steps[k].ByRequester?
    && var act := steps[k].requestAct;
    && act.Posting? && act.id == id
    && trace[k].mail.request.Sized()
    && Post(trace[k].mail, act.owner, act.msg, id, act.p).1 == Sent
    && trace[k].mail.pid == owner
    && Meaning(act.msg, act.p) == contents
  }

  lemma {:induction false} DeliveryWasPosted(trace: seq<World>, steps: seq<Step>, j: nat, id: nat)
    requires Run(trace, steps) && j < |trace| && id in trace[j].deliveries
    ensures exists k :: 0 <= k < j && PostedAt(trace, steps, k, id, trace[j].deliveries[id].owner, trace[j].deliveries[id].posted)
  {
    assert Next(trace[j - 1], steps[j - 1], trace[j]);
    var w, w' := trace[j - 1], trace[j];
    if id in w.deliveries {
      RunKeepsInv(trace, steps, j - 1);
      StepIsLater(w, steps[j - 1]);
      DeliveryWasPosted(trace, steps, j - 1, id);
    } else {
      assert PostedAt(trace, steps, j - 1, id, w'.deliveries[id].owner, w'.deliveries[id].posted);
    }
  }

  /** Every adoption took a request that some requester posted earlier in the run, by the very
      process that was recorded in the mailbox when it was posted, with exactly the contents
      posted then; and no request id is adopted twice. */
  lemma AdoptedOnceAsPosted(trace: seq<World>, steps: seq<Step>, j: nat, a: nat)
    requires Run(trace, steps) && j < |trace| && a < |trace[j].adoptions|
    ensures var n := trace[j].adoptions[a];
            exists k :: 0 <= k < j && PostedAt(trace, steps, k, n.id, n.adopter, n.got)
    ensures forall b :: 0 <= b < |trace[j].adoptions| && b != a ==>
              && trace[j].adoptions[b].id != trace[j].adoptions[a].id
              && trace[j].adoptions[b].adopter != trace[j].adoptions[a].adopter
  {
    RunKeepsInv(trace, steps, j);
    var w := trace[j];
    assert AdoptionIsRight(w, w.adoptions[a]);
    DeliveryWasPosted(trace, steps, j, w.adoptions[a].id);
    forall b | 0 <= b < |w.adoptions| && b != a
      ensures w.adoptions[b].id != w.adoptions[a].id && w.adoptions[b].adopter != w.adoptions[a].adopter
    {
      assert AdoptionIsRight(w, w.adoptions[b]);
      if b < a {
        assert w.adoptions[b].id != w.adoptions[a].id;
      }
    }
  }

  /** Whatever was abandoned half-written before, a standby that finds a pending request never
      turns it down for its form: it adopts it whenever a copy can be allocated. */
  lemma PendingIsNeverMalformed(trace: seq<World>, steps: seq<Step>, i: nat, woken: bool, memory: bool)
    requires Run(trace, steps) && i < |trace| && trace[i].mail.state == Pending
    ensures var m := trace[i].mail;
            m.request.Sized() && Serve(m, m.pid, woken, memory, true) == (m.(state := Taken), Adopt(m.request))
  {
    RunKeepsInv(trace, steps, i);
  }

  /** A standby whose wait ran out, or that finds memory short, waits no longer after this pass
      of its loop: either it has adopted the pending request, or it has left for good and is
      not recorded in the mailbox, which then is free if it was recorded before. */
  lemma StandbyLeavesInTime(trace: seq<World>, steps: seq<Step>, i: nat, p: nat, woken: bool, memory: bool, room: bool, j: nat)
    requires Run(trace, steps) && i < |steps| && i < j < |trace|
    requires steps[i] == ByStandby(p, StandbyAct.Serving(woken, memory, room)) && (!woken || !memory)
    ensures p in trace[i + 1].procs && p in trace[j].procs && trace[j].procs[p].phase == trace[i + 1].procs[p].phase
    ensures var w, w' := trace[i], trace[i + 1];
            if w.mail.pid == p && w.mail.state == Pending && room then
              w'.procs[p].phase == Adopted(w.mail.request.id) && w'.mail.state == Taken && w'.mail.pid == p
            else
              && w'.procs[p].phase == Left && w'.mail.pid != p
              && (w.mail.pid == p ==> w'.mail.state == Empty && w'.mail.pid == 0)
  {
    hide Inv;
    assert Next(trace[i], steps[i], trace[i + 1]);
    var w := trace[i];
    RunKeepsInv(trace, steps, i);
    PendingPasses(w);
    if w.mail.pid == p && !(w.mail.state == Pending && room) {
      OneReasonToLeaveIsEnough(w.mail, p, woken, memory, room);
    }
    PhaseIsFinal(trace, steps, i + 1, j, p);
  }

  lemma PendingPasses(w: World)
    requires Inv(w)
    ensures forall p :: p in w.procs ==> p != 0
    ensures w.mail.request.Sized() && (w.mail.state == Pending ==> w.mail.request.Acceptable())
  {
    hide HistoryIsRight;
  }

  lemma ServeMovesOne(w: World, p: nat, woken: bool, memory: bool, room: bool)
    requires w.mail.request.Sized() && w.Alive(p)
    ensures var w' := ServeApply(w, p, woken, memory, room);
            w'.procs.Keys == w.procs.Keys && forall q :: q in w.procs && q != p ==> w'.procs[q] == w.procs[q]
  {
    hide Serve;
  }

  lemma PhaseStays(w: World, s: Step, p: nat)
    requires Enabled(w, s) && p in w.procs && (w.procs[p].phase.Left? || w.procs[p].phase.Adopted?)
    ensures p in Apply(w, s).procs && Apply(w, s).procs[p].phase == w.procs[p].phase
  {
    match s {
      case ByStandby(q, act) =>
        if act.Serving? {
          ServeMovesOne(w, q, act.woken, act.memory, act.room);
        }
        hide ServeApply, Claim, StandDown, Announce, FirstFrame;
      case ByRequester(act) => hide Post, Close;
      case BySpawner(act) => hide Reserve, Record;
      case Crash(act) => hide Serve;
      case _ =>
    }
  }

  /** Who has left or has adopted a request stays so. */
  lemma {:induction false} PhaseIsFinal(trace: seq<World>, steps: seq<Step>, i: nat, j: nat, p: nat)
    requires Run(trace, steps) && i <= j < |trace|
    requires p in trace[i].procs && (trace[i].procs[p].phase.Left? || trace[i].procs[p].phase.Adopted?)
    ensures p in trace[j].procs && trace[j].procs[p].phase == trace[i].procs[p].phase
  {
    if i < j {
      PhaseIsFinal(trace, steps, i, j - 1, p);
      assert Next(trace[j - 1], steps[j - 1], trace[j]);
      hide Enabled, Apply;
      PhaseStays(trace[j - 1], steps[j - 1], p);
    }
  }

  /** The mailbox was reserved again since this standby was launched. */
  ghost predicate StandbySuperseded(w: World, p: nat) {
    p in w.procs && w.procs[p].ticket != 0 && w.procs[p].ticket != w.mail.started
  }

  ghost predicate StepOfStandby(s: Step, p: nat) {
    || (s.ByStandby? && s.p == p)
    || (s.Crash? && (s.crashAct.Serving? || s.crashAct.FirstFraming?) && s.crashAct.p == p)
  }

  /** Once superseded a standby stays superseded, and nothing it does as a standby changes the
      mailbox any more. */
  lemma SupersededStandbyIsHarmless(trace: seq<World>, steps: seq<Step>, i: nat, j: nat, p: nat)
    requires Run(trace, steps) && i <= j < |steps| && StandbySuperseded(trace[i], p)
    ensures StandbySuperseded(trace[j], p)
    ensures StepOfStandby(steps[j], p) ==> trace[j + 1].mail == trace[j].mail
  {
    RunKeepsInv(trace, steps, i);
    RunKeepsInv(trace, steps, j);
    RunIsLater(trace, steps, i, j);
    assert Next(trace[j], steps[j], trace[j + 1]);
  }

  /** The same for a spawner whose reservation was taken over. */
  lemma SupersededSpawnerIsHarmless(trace: seq<World>, steps: seq<Step>, i: nat, j: nat, ticket: nat)
    requires Run(trace, steps) && i <= j < |steps|
    requires ticket in trace[i].spawns && ticket != trace[i].mail.started
    ensures ticket != trace[j].mail.started
    ensures steps[j] == BySpawner(Recording(ticket)) ==> trace[j + 1].mail == trace[j].mail
  {
    RunKeepsInv(trace, steps, i);
    RunIsLater(trace, steps, i, j);
    assert Next(trace[j], steps[j], trace[j + 1]);
  }
}
