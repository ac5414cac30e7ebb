/** What the result of Deliver means, in the runs in which Owner answers truthfully. */
module StandbyResult {
  import opened Mailbox
  import opened StandbyProtocol
  import opened StandbySafety

  ghost predicate TruthfulRun(trace: seq<World>, steps: seq<Step>) {
    Run(trace, steps) && forall i :: 0 <= i < |steps| ==> OwnerSeenRight(trace[i], steps[i])
  }

  /** While its owner lives, a request that is still being waited for and was neither adopted
      nor turned down is the pending one; a closed request is decided, and its answer is what
      the theorem below says. */
  ghost predicate AnswerIsRight(w: World, id: nat)
    requires id in w.deliveries
  {
    var d := w.deliveries[id];
    && d.owner != 0
    && d.owner in w.procs
    && (w.Alive(d.owner) ==>
          && (d.progress.Awaiting? && !w.WasAdopted(id) && id !in w.rejected ==> Current(w, id) && w.mail.state == Pending)
          && (d.progress.Closed? ==> w.WasAdopted(id) || id in w.refused || id in w.rejected)
          && (d.progress.Closed? ==> (d.progress.accepted <==> w.WasAdopted(id) || (id in w.rejected && !d.progress.handedBack))))
  }

  ghost predicate Answers(w: World) {
    forall id :: id in w.deliveries ==> AnswerIsRight(w, id)
  }

  /** Adoption is decided by the last element when one is added. */
  lemma AdoptedBy(w: World, w': World, n: Adoption, id: nat)
    requires w'.adoptions == w.adoptions + [n]
    ensures w'.WasAdopted(id) <==> w.WasAdopted(id) || id == n.id
  {
    assert w'.adoptions[|w.adoptions|] == n;
    if w.WasAdopted(id) {
      var i :| 0 <= i < |w.adoptions| && w.adoptions[i].id == id;
      assert w'.adoptions[i].id == id;
    }
  }

  lemma AdoptedMeansLeftReady(w: World, id: nat)
    requires Inv(w) && w.WasAdopted(id)
    ensures id in w.deliveries && w.deliveries[id].owner in w.procs
    ensures w.procs[w.deliveries[id].owner].phase == Adopted(id)
    ensures id !in w.refused && id !in w.rejected
  {
    var i :| 0 <= i < |w.adoptions| && w.adoptions[i].id == id;
    assert AdoptionIsRight(w, w.adoptions[i]);
  }

  lemma ServeKeepsAnswers(w: World, p: nat, woken: bool, memory: bool, room: bool)
    requires Inv(w) && Answers(w) && w.Alive(p) && w.procs[p].phase.Waiting?
    ensures Answers(ServeApply(w, p, woken, memory, room))
  {
    hide Tickets;
    var w' := ServeApply(w, p, woken, memory, room);
    forall id | id in w'.deliveries ensures AnswerIsRight(w', id) {
      assert AnswerIsRight(w, id);
      if w'.adoptions != w.adoptions {
        AdoptedBy(w, w', w'.adoptions[|w.adoptions|], id);
      }
      if w.WasAdopted(id) {
        AdoptedMeansLeftReady(w, id);
      }
    }
  }

  lemma StandbyKeepsAnswers(w: World, p: nat, act: StandbyAct)
    requires Inv(w) && Answers(w) && StandbyEnabled(w, p, act)
    ensures Answers(StandbyApply(w, p, act))
  {
    hide Tickets, PendingIsPosted, ServeApply;
    if act.Serving? {
      ServeKeepsAnswers(w, p, act.woken, act.memory, act.room);
    } else {
      var w' := StandbyApply(w, p, act);
      forall id | id in w'.deliveries ensures AnswerIsRight(w', id) {
        assert AnswerIsRight(w, id);
        if w.WasAdopted(id) {
          AdoptedMeansLeftReady(w, id);
        }
      }
    }
  }

  lemma PostKeepsAnswers(w: World, p: nat, id: nat, owner: bool, msg: Message)
    requires Inv(w) && Answers(w) && RequestEnabled(w, RequestAct.Posting(p, id, owner, msg))
    requires owner == w.OwnerAlive()
    ensures Answers(RequestApply(w, RequestAct.Posting(p, id, owner, msg)))
  {
    hide Tickets;
    var w' := RequestApply(w, RequestAct.Posting(p, id, owner, msg));
    forall id | id in w'.deliveries ensures AnswerIsRight(w', id) {
      if id in w.deliveries {
        assert AnswerIsRight(w, id);
        if w.WasAdopted(id) {
          AdoptedMeansLeftReady(w, id);
        }
      } else if w.WasAdopted(id) {
        AdoptedMeansLeftReady(w, id);
        assert false;
      }
    }
  }

  lemma RequestKeepsAnswers(w: World, act: RequestAct)
    requires Inv(w) && Answers(w) && RequestEnabled(w, act) && OwnerSeenRight(w, ByRequester(act))
    ensures Answers(RequestApply(w, act))
  {
    hide Tickets, Post;
    if act.Posting? {
      PostKeepsAnswers(w, act.p, act.id, act.owner, act.msg);
    } else {
      var w' := RequestApply(w, act);
      forall id | id in w'.deliveries ensures AnswerIsRight(w', id) {
        assert AnswerIsRight(w, id);
        if w.WasAdopted(id) {
          AdoptedMeansLeftReady(w, id);
        }
      }
    }
  }

  lemma SpawnKeepsAnswers(w: World, act: SpawnAct)
    requires Inv(w) && Answers(w) && SpawnEnabled(w, act) && OwnerSeenRight(w, BySpawner(act))
    ensures Answers(SpawnApply(w, act))
  {
    hide PendingIsPosted, HistoryIsRight;
    var w' := SpawnApply(w, act);
    forall id | id in w'.deliveries ensures AnswerIsRight(w', id) {
      assert AnswerIsRight(w, id);
    }
  }

  lemma CrashKeepsAnswers(w: World, act: CrashAct)
    requires Inv(w) && Answers(w) && CrashEnabled(w, act) && OwnerSeenRight(w, Crash(act))
    ensures Answers(CrashApply(w, act))
  {
    hide Tickets, PendingIsPosted;
    var w' := CrashApply(w, act);
    forall id | id in w'.deliveries ensures AnswerIsRight(w', id) {
      assert AnswerIsRight(w, id);
      if w.WasAdopted(id) {
        AdoptedMeansLeftReady(w, id);
      }
    }
  }

  lemma StepKeepsAnswers(w: World, s: Step)
    requires Inv(w) && Answers(w) && Enabled(w, s) && OwnerSeenRight(w, s)
    ensures Answers(Apply(w, s))
  {
    hide Tickets, Occupied, PendingIsPosted, HistoryIsRight;
    match s {
      case ByStandby(p, act) => StandbyKeepsAnswers(w, p, act);
      case ByRequester(act) => RequestKeepsAnswers(w, act);
      case BySpawner(act) => SpawnKeepsAnswers(w, act);
      case Crash(act) => CrashKeepsAnswers(w, act);
      case _ =>
        var w' := Apply(w, s);
        forall id | id in w'.deliveries ensures AnswerIsRight(w', id) {
          assert AnswerIsRight(w, id);
        }
    }
  }

  lemma {:induction false} RunKeepsAnswers(trace: seq<World>, steps: seq<Step>, i: nat)
    requires TruthfulRun(trace, steps) && i < |trace|
    ensures Answers(trace[i])
  {
    if i > 0 {
      RunKeepsAnswers(trace, steps, i - 1);
      RunKeepsInv(trace, steps, i - 1);
      assert Next(trace[i - 1], steps[i - 1], trace[i]);
      StepKeepsAnswers(trace[i - 1], steps[i - 1]);
    }
  }

  // ----- the theorems ---------------------------------------------------------

  /** The exact meaning of the value Deliver returns when its closing section got the mutex:
      true if and only if the process the request went to is still running and either adopted
      it, or turned it down for lack of memory and the closing section came too late to find it
      handed back, because the mailbox had moved on to another request or another occupant. */
  lemma ResultOfDeliver(trace: seq<World>, steps: seq<Step>, i: nat, id: nat)
    requires TruthfulRun(trace, steps) && i < |steps|
    requires steps[i] == ByRequester(RequestAct.Checking(id))
    requires id in trace[i].deliveries && trace[i].deliveries[id].progress.Closed?
    ensures var w, d := trace[i], trace[i].deliveries[id];
            && id in trace[i + 1].deliveries
            && trace[i + 1].deliveries[id].progress ==
                 Returned(w.Alive(d.owner) && (w.WasAdopted(id) || (id in w.rejected && !d.progress.handedBack)))
  {
    RunKeepsAnswers(trace, steps, i);
    assert AnswerIsRight(trace[i], id);
    assert Next(trace[i], steps[i], trace[i + 1]);
  }

  /** So for a request that no standby turned down, Deliver returns true exactly when the
      request was adopted and its adopter has not exited. */
  lemma ResultWithoutRejection(trace: seq<World>, steps: seq<Step>, i: nat, id: nat)
    requires TruthfulRun(trace, steps) && i < |steps|
    requires steps[i] == ByRequester(RequestAct.Checking(id))
    requires id in trace[i].deliveries && trace[i].deliveries[id].progress.Closed? && id !in trace[i].rejected
    ensures var w := trace[i];
            && id in trace[i + 1].deliveries
            && trace[i + 1].deliveries[id].progress == Returned(w.WasAdopted(id) && w.Alive(w.deliveries[id].owner))
  {
    ResultOfDeliver(trace, steps, i, id);
  }

  /** Hence the result is wrong in one family of cases only, which the closing section can
      tell: the request was turned down, its process runs on, and the section did not find it
      handed back. */
  lemma ResultIsRightExactly(trace: seq<World>, steps: seq<Step>, i: nat, id: nat)
    requires TruthfulRun(trace, steps) && i < |steps|
    requires steps[i] == ByRequester(RequestAct.Checking(id))
    requires id in trace[i].deliveries && trace[i].deliveries[id].progress.Closed?
    ensures var w, d := trace[i], trace[i].deliveries[id];
            && id in trace[i + 1].deliveries
            && (trace[i + 1].deliveries[id].progress == Returned(w.WasAdopted(id) && w.Alive(d.owner))
                <==> !(id in w.rejected && w.Alive(d.owner) && !d.progress.handedBack))
  {
    ResultOfDeliver(trace, steps, i, id);
    RunKeepsInv(trace, steps, i);
    if trace[i].WasAdopted(id) {
      AdoptedMeansLeftReady(trace[i], id);
    }
  }

  // ----- a run in which the result is wrong -----------------------------------

  function SomeMessage(): Message {
    Message([65], DirectoryText([66]), NoPanel, NoStartup, [], [])
  }

  function FirstWorld(): World {
    World(Mail(Empty, 0, 0, Request(0, 0, 0, 0, 0, 0, 0, 0, 0, 0, seq(8, _ => 0),
                                    seq(TEXT_LIMIT, _ => 0), seq(TEXT_LIMIT, _ => 0), seq(JSON_LIMIT + 1, _ => 0))),
          map[], map[], map[], [], {}, {}, {0})
  }

  /** Processes 1 and 3 are visible. Process 1 reserves the mailbox and starts process 2, which
      becomes ready. */
  function Opening(): seq<Step> {
    [Launch(1), Launch(3), BySpawner(SpawnAct.Reserving(1, 7, false, false)), BySpawner(Creating(7, 2)),
     ByStandby(2, Claiming), ByStandby(2, Announcing)]
  }

  /** Request 10 of process 1 is turned down, request 11 of process 3 takes its place, and 10
      is closed and checked. */
  function Closing(): seq<Step> {
    [ByRequester(RequestAct.Posting(1, 10, true, SomeMessage())), ByStandby(2, StandbyAct.Serving(true, true, false)),
     ByRequester(RequestAct.Posting(3, 11, true, SomeMessage())), ByRequester(RequestAct.Closing(10)),
     ByRequester(Checking(10))]
  }

  function Processes(phase: Phase): map<nat, Proc> {
    map[1 := Proc(true, 0, Visible), 2 := Proc(true, 7, phase), 3 := Proc(true, 0, Visible)]
  }

  lemma Launching(w0: World) returns (w1: World, w2: World, w3: World, w4: World)
    requires w0 == FirstWorld()
    ensures Next(w0, Opening()[0], w1) && OwnerSeenRight(w0, Opening()[0])
    ensures Next(w1, Opening()[1], w2) && OwnerSeenRight(w1, Opening()[1])
    ensures Next(w2, Opening()[2], w3) && OwnerSeenRight(w2, Opening()[2])
    ensures Next(w3, Opening()[3], w4) && OwnerSeenRight(w3, Opening()[3])
    ensures w4.mail == w0.mail.(state := Starting, started := 7) && w4.ids == {0} && w4.adoptions == [] && w4.rejected == {}
    ensures w4.procs == Processes(Launched) && w4.deliveries == map[]
  {
    w1 := Apply(w0, Opening()[0]);
    w2 := Apply(w1, Opening()[1]);
    w3 := Apply(w2, Opening()[2]);
    w4 := Apply(w3, Opening()[3]);
  }

  lemma OpeningRun() returns (trace: seq<World>)
    ensures TruthfulRun(trace, Opening()) && |trace| == 7
    ensures var w := trace[6];
            && w.mail.state == Ready && w.mail.pid == 2 && w.ids == {0} && w.adoptions == [] && w.rejected == {}
            && w.procs == Processes(Waiting) && w.deliveries == map[]
            && w.mail.request.Sized()
  {
    var w0 := FirstWorld();
    var w1, w2, w3, w4 := Launching(w0);
    var w5 := Apply(w4, Opening()[4]);
    var w6 := Apply(w5, Opening()[5]);
    trace := [w0, w1, w2, w3, w4, w5, w6];
    assert w6.procs == Processes(Waiting);
  }

  lemma TurnDown(w: World) returns (w1: World, w2: World)
    requires w.mail.state == Ready && w.mail.pid == 2 && w.ids == {0} && w.adoptions == [] && w.rejected == {}
    requires w.procs == Processes(Waiting) && w.deliveries == map[]
    requires w.mail.request.Sized()
    ensures Next(w, Closing()[0], w1) && OwnerSeenRight(w, Closing()[0])
    ensures Next(w1, Closing()[1], w2) && OwnerSeenRight(w1, Closing()[1])
    ensures w2.mail.state == Ready && w2.mail.pid == 2 && w2.ids == {0, 10} && w2.adoptions == []
    ensures w2.procs == w.procs && w2.deliveries.Keys == {10} && w2.mail.request.Sized()
    ensures w2.deliveries[10].sender == 1 && w2.deliveries[10].owner == 2 && w2.deliveries[10].progress == Awaiting
  {
    WrittenRequestIsExact(w.mail.request, SomeMessage(), 10, 1);
    w1 := Apply(w, Closing()[0]);
    w2 := Apply(w1, Closing()[1]);
  }

  lemma Replace(w2: World) returns (w3: World)
    requires w2.mail.state == Ready && w2.mail.pid == 2 && w2.ids == {0, 10} && w2.adoptions == []
    requires w2.procs == Processes(Waiting)
    requires w2.deliveries.Keys == {10} && w2.mail.request.Sized()
    ensures Next(w2, Closing()[2], w3) && OwnerSeenRight(w2, Closing()[2])
    ensures w3.mail.request.id == 11 && w3.adoptions == [] && w3.procs == w2.procs && w3.mail.request.Sized()
    ensures 10 in w3.deliveries && w3.deliveries[10] == w2.deliveries[10]
  {
    w3 := Apply(w2, Closing()[2]);
  }

  lemma Withdraw(w3: World) returns (w4: World, w5: World)
    requires w3.mail.request.id == 11 && w3.adoptions == [] && w3.procs == Processes(Waiting) && w3.mail.request.Sized()
    requires 10 in w3.deliveries && w3.deliveries[10].sender == 1 && w3.deliveries[10].owner == 2
    requires w3.deliveries[10].progress == Awaiting
    ensures Next(w3, Closing()[3], w4) && OwnerSeenRight(w3, Closing()[3])
    ensures Next(w4, Closing()[4], w5) && OwnerSeenRight(w4, Closing()[4])
    ensures 10 in w5.deliveries && w5.deliveries[10].progress == Returned(true) && w5.adoptions == []
  {
    w4 := Apply(w3, Closing()[3]);
    w5 := Apply(w4, Closing()[4]);
  }

  lemma ClosingRun(w: World) returns (trace: seq<World>)
    requires w.mail.state == Ready && w.mail.pid == 2 && w.ids == {0} && w.adoptions == [] && w.rejected == {}
    requires w.procs == Processes(Waiting) && w.deliveries == map[]
    requires w.mail.request.Sized()
    ensures |trace| == 6 && trace[0] == w
    ensures forall i :: 0 <= i < 5 ==> Next(trace[i], Closing()[i], trace[i + 1]) && OwnerSeenRight(trace[i], Closing()[i])
    ensures 10 in trace[5].deliveries && trace[5].deliveries[10].progress == Returned(true)
    ensures trace[5].adoptions == []
  {
    hide Next, OwnerSeenRight;
    var w1, w2 := TurnDown(w);
    var w3 := Replace(w2);
    var w4, w5 := Withdraw(w3);
    trace := [w, w1, w2, w3, w4, w5];
  }

  /** A request that was turned down and then overwritten by another requester is reported as
      delivered although nobody ever adopted it. */
  lemma TurnedDownYetReported()
    ensures exists trace: seq<World>, steps: seq<Step> ::
              && TruthfulRun(trace, steps) && |steps| == 11
              && 10 in trace[11].deliveries && trace[11].deliveries[10].progress == Returned(true)
              && !trace[11].WasAdopted(10)
  {
    var a := OpeningRun();
    var b := ClosingRun(a[6]);
    var trace, steps := a + b[1..], Opening() + Closing();
    forall i | 0 <= i < |steps| ensures Next(trace[i], steps[i], trace[i + 1]) && OwnerSeenRight(trace[i], steps[i]) {
      if i < 6 {
        assert trace[i] == a[i] && trace[i + 1] == a[i + 1] && steps[i] == Opening()[i];
      } else {
        assert trace[i] == b[i - 6] && trace[i + 1] == b[i - 5] && steps[i] == Closing()[i - 6];
      }
    }
    assert trace[11] == b[5];
    assert TruthfulRun(trace, steps);
  }
}
