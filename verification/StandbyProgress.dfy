/** What the warm-standby protocol is able to do: a free mailbox can take any request that fits
    all the way to its adoption, and every way out of the mailbox leaves it free again. */
module StandbyProgress {
  import opened Mailbox
  import opened StandbyProtocol
  import opened StandbySafety

  /** The steps can be taken one after the other, with Owner answering truthfully. */
  ghost predicate Possible(w: World, steps: seq<Step>)
    decreases |steps|
  {
    steps != [] ==> Enabled(w, steps[0]) && OwnerSeenRight(w, steps[0]) && Possible(Apply(w, steps[0]), steps[1..])
  }

  ghost function After(w: World, steps: seq<Step>): World
    requires Possible(w, steps)
    decreases |steps|
  {
    if steps == [] then w else After(Apply(w, steps[0]), steps[1..])
  }

  lemma NoMore(w: World)
    ensures Possible(w, []) && After(w, []) == w
  {
  }

  lemma One(w: World, s: Step)
    requires Enabled(w, s) && OwnerSeenRight(w, s)
    ensures Possible(w, [s]) && After(w, [s]) == Apply(w, s)
  {
    hide Enabled, Apply, OwnerSeenRight;
    NoMore(Apply(w, s));
    assert [s][1..] == [];
  }

  lemma {:induction false} Chained(w: World, first: seq<Step>, second: seq<Step>)
    requires Possible(w, first) && Possible(After(w, first), second)
    ensures Possible(w, first + second) && After(w, first + second) == After(After(w, first), second)
    decreases |first|
  {
    hide Enabled, Apply, OwnerSeenRight;
    if first == [] {
      assert first + second == second;
    } else {
      Chained(Apply(w, first[0]), first[1..], second);
      assert (first + second)[1..] == first[1..] + second;
    }
  }

  // ----- one delivery ---------------------------------------------------------

  /** What a user sees: process q starts a spare, and p hands it one request. */
  datatype Plan = Plan(p: nat, q: nat, ticket: nat, child: nat, id: nat, msg: Message, early: bool)
  {
    /** The numbers are new, and the message can be sent. */
    ghost predicate Fresh(w: World) {
      && w.Serves(p) && w.Serves(q) && ticket != 0 && ticket !in w.spawns && child != 0 && child !in w.procs
      && id !in w.ids && id !in w.deliveries && msg.Fits() && msg.HasDirectory()
    }

    function Spawning(owner: bool): seq<Step> {
      [BySpawner(SpawnAct.Reserving(q, ticket, owner, false))] + [BySpawner(Creating(ticket, child))]
    }

    /** The spare claims the mailbox before or after its spawner has recorded it. */
    function Claiming(): seq<Step> {
      var record, claim := [BySpawner(Recording(ticket))], [ByStandby(child, StandbyAct.Claiming)];
      if early then record + claim else claim + record
    }

    function Delivering(): seq<Step> {
      [ByStandby(child, Announcing)] + [ByRequester(RequestAct.Posting(p, id, true, msg))]
    }

    function Adopting(): seq<Step> {
      [ByStandby(child, StandbyAct.Serving(true, true, true))] + [ByRequester(RequestAct.Closing(id))]
    }

    function Whole(owner: bool): seq<Step> {
      Spawning(owner) + (Claiming() + (Delivering() + (Adopting() + [ByRequester(Checking(id))])))
    }
  }

  /** What is left to do for the requester is still as it was. */
  ghost predicate Asking(w: World, plan: Plan) {
    w.Serves(plan.p) && plan.p != plan.child && plan.id !in w.ids && plan.id !in w.deliveries && !w.WasAdopted(plan.id)
  }

  ghost predicate Spawned(w: World, plan: Plan) {
    && w.mail.state == Starting && w.mail.pid == 0 && w.mail.started == plan.ticket != 0 && w.mail.request.Sized()
    && plan.child in w.procs && w.procs[plan.child] == Proc(true, plan.ticket, Launched) && plan.child != 0
    && plan.ticket in w.spawns && w.spawns[plan.ticket] == Spawn(plan.q, plan.child, Created) && w.Alive(plan.q)
    && Asking(w, plan)
  }

  ghost predicate ClaimedBy(w: World, plan: Plan) {
    && w.mail.state == Starting && w.mail.pid == plan.child != 0 && w.mail.request.Sized()
    && w.Alive(plan.child) && w.procs[plan.child].phase == Claimed
    && Asking(w, plan)
  }

  ghost predicate PostedTo(w: World, plan: Plan) {
    && w.mail.state == Pending && w.mail.pid == plan.child != 0 && w.mail.request.id == plan.id
    && w.mail.request.Sized() && w.mail.request.Acceptable() && ContentsOf(w.mail.request) == Meaning(plan.msg, plan.p)
    && w.Alive(plan.child) && w.procs[plan.child].phase == Waiting && w.Alive(plan.p) && plan.p != plan.child
    && plan.id in w.deliveries && w.deliveries[plan.id].sender == plan.p && w.deliveries[plan.id].owner == plan.child
    && w.deliveries[plan.id].progress == Awaiting
  }

  ghost predicate AdoptedBy(w: World, plan: Plan) {
    && w.mail.state == Empty && w.mail.pid == 0 && w.mail.request.Sized() && w.Alive(plan.child) && w.Alive(plan.p)
    && w.adoptions != [] && w.adoptions[|w.adoptions| - 1] == Adoption(plan.id, plan.child, Meaning(plan.msg, plan.p))
    && w.procs[plan.child].phase == Adopted(plan.id)
    && plan.id in w.deliveries && w.deliveries[plan.id].sender == plan.p && w.deliveries[plan.id].owner == plan.child
    && w.deliveries[plan.id].progress == Closed(true, false)
  }

  lemma SpawningWorks(w: World, plan: Plan)
    requires Inv(w) && w.mail.state == Empty && plan.Fresh(w)
    ensures Possible(w, plan.Spawning(w.OwnerAlive())) && Spawned(After(w, plan.Spawning(w.OwnerAlive())), plan)
  {
    var s1, s2 := BySpawner(SpawnAct.Reserving(plan.q, plan.ticket, w.OwnerAlive(), false)), BySpawner(Creating(plan.ticket, plan.child));
    NotYetAdopted(w, plan.id);
    var w1 := Apply(w, s1);
    One(w, s1);
    One(w1, s2);
    Chained(w, [s1], [s2]);
    hide Possible, After;
  }

  lemma NotYetAdopted(w: World, id: nat)
    requires Inv(w) && id !in w.deliveries
    ensures !w.WasAdopted(id)
  {
    hide Tickets, Occupied, PendingIsPosted;
  }

  lemma ClaimingWorks(w: World, plan: Plan)
    requires Spawned(w, plan)
    ensures Possible(w, plan.Claiming()) && ClaimedBy(After(w, plan.Claiming()), plan)
  {
    var record, claim := BySpawner(Recording(plan.ticket)), ByStandby(plan.child, StandbyAct.Claiming);
    var s1, s2 := if plan.early then record else claim, if plan.early then claim else record;
    One(w, s1);
    One(Apply(w, s1), s2);
    Chained(w, [s1], [s2]);
    hide Possible, After;
  }

  lemma DeliveringWorks(w: World, plan: Plan)
    requires ClaimedBy(w, plan) && plan.msg.Fits() && plan.msg.HasDirectory()
    ensures Possible(w, plan.Delivering()) && PostedTo(After(w, plan.Delivering()), plan)
  {
    var s1, s2 := ByStandby(plan.child, Announcing), ByRequester(RequestAct.Posting(plan.p, plan.id, true, plan.msg));
    WrittenRequestIsExact(w.mail.request, plan.msg, plan.id, plan.p);
    hide HeaderWritten, RequestWritten, Meaning, ContentsOf;
    One(w, s1);
    One(Apply(w, s1), s2);
    Chained(w, [s1], [s2]);
    hide Possible, After;
  }

  lemma AdoptingWorks(w: World, plan: Plan)
    requires PostedTo(w, plan)
    ensures Possible(w, plan.Adopting()) && AdoptedBy(After(w, plan.Adopting()), plan)
  {
    hide Meaning, ContentsOf;
    var s1, s2 := ByStandby(plan.child, StandbyAct.Serving(true, true, true)), ByRequester(RequestAct.Closing(plan.id));
    One(w, s1);
    One(Apply(w, s1), s2);
    Chained(w, [s1], [s2]);
    hide Possible, After;
  }

  lemma CheckingWorks(w: World, plan: Plan)
    requires AdoptedBy(w, plan)
    ensures var s := [ByRequester(Checking(plan.id))];
            && Possible(w, s) && After(w, s).deliveries.Keys == w.deliveries.Keys
            && After(w, s).deliveries[plan.id].progress == Returned(true)
            && After(w, s).mail == w.mail && After(w, s).adoptions == w.adoptions
  {
    One(w, ByRequester(Checking(plan.id)));
    hide Possible, After;
  }

  /** In every reachable world with a free mailbox, whatever earlier or abandoned requests have
      left in its buffers, and for every message that can be sent: these steps are possible,
      the spare adopts exactly the message, Deliver returns true, and the mailbox is free
      again. */
  lemma DeliverySucceeds(trace: seq<World>, steps: seq<Step>, i: nat, plan: Plan)
    requires Run(trace, steps) && i < |trace| && trace[i].mail.state == Empty && plan.Fresh(trace[i])
    ensures var whole := plan.Whole(trace[i].OwnerAlive());
            && Possible(trace[i], whole)
            && var w := After(trace[i], whole);
            && plan.id in w.deliveries && w.deliveries[plan.id].progress == Returned(true)
            && w.adoptions != []
            && w.adoptions[|w.adoptions| - 1] == Adoption(plan.id, plan.child, Meaning(plan.msg, plan.p))
            && w.mail.state == Empty && w.mail.pid == 0
  {
    hide *;
    RunKeepsInv(trace, steps, i);
    var w0, owner := trace[i], trace[i].OwnerAlive();
    CanSend(w0, plan);
    SpawningWorks(w0, plan);
    var w1 := After(w0, plan.Spawning(owner));
    ClaimingWorks(w1, plan);
    var w2 := After(w1, plan.Claiming());
    DeliveringWorks(w2, plan);
    var w3 := After(w2, plan.Delivering());
    AdoptingWorks(w3, plan);
    var w4 := After(w3, plan.Adopting());
    CheckingWorks(w4, plan);
    WhatWasAdopted(w4, plan);
    Chained(w3, plan.Adopting(), [ByRequester(Checking(plan.id))]);
    Chained(w2, plan.Delivering(), plan.Adopting() + [ByRequester(Checking(plan.id))]);
    Chained(w1, plan.Claiming(), plan.Delivering() + (plan.Adopting() + [ByRequester(Checking(plan.id))]));
    Chained(w0, plan.Spawning(owner),
            plan.Claiming() + (plan.Delivering() + (plan.Adopting() + [ByRequester(Checking(plan.id))])));
    WholeIs(plan, owner);
  }

  lemma WholeIs(plan: Plan, owner: bool)
    ensures plan.Whole(owner)
            == plan.Spawning(owner)
               + (plan.Claiming() + (plan.Delivering() + (plan.Adopting() + [ByRequester(Checking(plan.id))])))
  {
  }

  lemma CanSend(w: World, plan: Plan)
    requires plan.Fresh(w)
    ensures plan.msg.Fits() && plan.msg.HasDirectory()
  {
  }

  lemma WhatWasAdopted(w: World, plan: Plan)
    requires AdoptedBy(w, plan)
    ensures plan.id in w.deliveries && w.mail.state == Empty && w.mail.pid == 0 && w.adoptions != []
    ensures w.adoptions[|w.adoptions| - 1] == Adoption(plan.id, plan.child, Meaning(plan.msg, plan.p))
  {
    hide Meaning;
  }

  // ----- leaving the mailbox --------------------------------------------------

  /** Every way out frees the mailbox for the next spawner: withdrawal before being ready, a
      process that could not be created, an owner found dead by a requester, and an adoption
      acknowledged by the requester or cleaned up on the first frame. */
  lemma WaysOutFreeTheMailbox(trace: seq<World>, steps: seq<Step>, i: nat)
    requires Run(trace, steps) && i < |steps|
    ensures var w, w' := trace[i], trace[i + 1];
            match steps[i]
            case ByStandby(p, StandingDown) => w.mail.pid == p ==> w'.mail == w.mail.(state := Empty)
            case ByStandby(p, FirstFraming) =>
              w.mail.pid == p && w.mail.state == Taken ==> w'.mail == w.mail.(state := Empty, pid := 0)
            case ByRequester(Closing(id)) =>
              && id in w.deliveries
              && (!Current(w, id) || w.mail.state == Ready ==> w'.mail == w.mail)
              && (Current(w, id) && w.mail.state == Pending ==> w'.mail == w.mail.(state := Ready))
              && (Current(w, id) && w.mail.state == Taken ==> w'.mail == w.mail.(state := Empty, pid := 0))
              && !(Current(w', id) && w'.mail.state in {Pending, Taken})
            case ByRequester(Posting(p, id, owner, msg)) =>
              w.mail.state == Ready && !owner ==> w'.mail == w.mail.(state := Empty, pid := 0) && id !in w'.deliveries
            case BySpawner(Recording(t)) =>
              && t in w.spawns
              && (w.mail.state == Starting && w.mail.pid == 0 && w.mail.started == t && w.spawns[t].child == 0 ==>
                    w'.mail == w.mail.(state := Empty))
            case _ => true
  {
    assert Next(trace[i], steps[i], trace[i + 1]);
    hide Serve, HeaderWritten, RequestWritten, Meaning, ContentsOf;
    RunKeepsInv(trace, steps, i);
    NoDeliveryYet(trace[i]);
    hide Inv;
  }

  lemma NoDeliveryYet(w: World)
    requires Inv(w)
    ensures forall id :: id !in w.ids ==> id !in w.deliveries
  {
    hide Tickets, Occupied, PendingIsPosted;
  }

  /** A spawner takes a mailbox over exactly if it is free, or has been occupied for long by a
      process that is gone; and a requester writes into it only while it is ready. */
  lemma OccupantKeepsTheMailbox(trace: seq<World>, steps: seq<Step>, i: nat)
    requires Run(trace, steps) && i < |steps| && OwnerSeenRight(trace[i], steps[i])
    ensures var w, w' := trace[i], trace[i + 1];
            match steps[i]
            case BySpawner(Reserving(_, t, _, aged)) =>
              w'.mail == if w.mail.state == Empty || (aged && !w.OwnerAlive()) then w.mail.(state := Starting, pid := 0, started := t)
                         else w.mail
            case ByRequester(Posting(_, id, _, msg)) =>
              && (id in w'.deliveries <==> w.mail.state == Ready && w.OwnerAlive() && msg.Fits() && msg.HasDirectory())
              && (id in w'.deliveries ==> w'.mail.state == Pending && w'.mail.pid == w.mail.pid)
              && (id !in w'.deliveries && (w.mail.state != Ready || w.OwnerAlive()) ==>
                    w'.mail.state == w.mail.state && w'.mail.pid == w.mail.pid)
              && (w.mail.state != Ready ==> w'.mail == w.mail)
            case _ => true
  {
    assert Next(trace[i], steps[i], trace[i + 1]);
    hide Serve, HeaderWritten, RequestWritten, Meaning, ContentsOf, Message.Fits, Message.HasDirectory;
    RunKeepsInv(trace, steps, i);
    NoDeliveryYet(trace[i]);
    hide Inv;
  }
}
