/** The warm-standby protocol as a step relation: any number of processes, each of which may
    be a requester, a spawner or a standby, sharing one mailbox. Every critical section is one
    step; whether memory is short, whether a wait timed out, whether the mutex was obtained and
    whether a process dies is chosen freely at every step. A process may also die inside a
    section; a Crash step leaves the writes made so far. Process
    ids, tickets and request ids are fresh. */
module StandbyProtocol {
  import opened Mailbox

  /** Where a process stands: an ordinary window (Visible), or a standby on its way from its
      launch to the adoption of a request. */
  datatype Phase = Visible | Launched | Claimed | Waiting | Adopted(id: nat) | Left

  /** ticket == 0 marks a process that was not launched as a standby. */
  datatype Proc = Proc(alive: bool, ticket: nat, phase: Phase)

  /** How far a call of Deliver has come after its request was posted. `handedBack` records
      that the closing section found this request at Ready; Unanswered is a closing section
      that never got the mutex. */
  datatype Progress = Awaiting | Closed(accepted: bool, handedBack: bool) | Unanswered | Returned(result: bool)

  datatype Delivery = Delivery(sender: nat, owner: nat, posted: Contents, progress: Progress)

  datatype SpawnPhase = Reserved | Created | Finished

  datatype Spawn = Spawn(spawner: nat, child: nat, phase: SpawnPhase)

  datatype Adoption = Adoption(id: nat, adopter: nat, got: Contents)

  /** deliveries is keyed by request id, spawns by ticket. The last four fields are history:
      every adoption, the ids whose closing section answered no, the ids a standby turned
      down for lack of memory, and all ids in use. */
  datatype World = World(
    mail: Mail, procs: map<nat, Proc>, deliveries: map<nat, Delivery>, spawns: map<nat, Spawn>,
    adoptions: seq<Adoption>, refused: set<nat>, rejected: set<nat>, ids: set<nat>)
  {
    predicate Alive(p: nat) {
      p in procs && procs[p].alive
    }

    /** The process shows windows, so its user can send requests and schedule spares. */
    predicate Serves(p: nat) {
      Alive(p) && (procs[p].phase.Visible? || procs[p].phase.Adopted?)
    }

    /** The truth that Owner tries to find out. */
    predicate OwnerAlive() {
      mail.pid != 0 && Alive(mail.pid)
    }

    ghost predicate WasAdopted(id: nat) {
      exists i :: 0 <= i < |adoptions| && adoptions[i].id == id
    }

    function SetPhase(p: nat, phase: Phase): World
      requires p in procs
    {
      this.(procs := procs[p := procs[p].(phase := phase)])
    }

    function SetProgress(id: nat, progress: Progress): World
      requires id in deliveries
    {
      this.(deliveries := deliveries[id := deliveries[id].(progress := progress)])
    }

    function SetSpawn(ticket: nat, phase: SpawnPhase): World
      requires ticket in spawns
    {
      this.(spawns := spawns[ticket := spawns[ticket].(phase := phase)])
    }

    function Kill(p: nat): World
      requires p in procs
    {
      this.(procs := procs[p := procs[p].(alive := false)])
    }
  }

  /** The sections of AwaitRequest in order, the lock timeouts between them, and the first
      frame after an adoption. */
  datatype StandbyAct =
    | Claiming
    | StandingDown
    | Announcing
    | Serving(woken: bool, memory: bool, room: bool)
    | GivingUp
    | FirstFraming

  datatype RequestAct =
    | Posting(p: nat, id: nat, owner: bool, msg: Message)
    | Closing(id: nat)
    | NotClosing(id: nat)
    | Checking(id: nat)

  datatype SpawnAct =
    | Reserving(p: nat, ticket: nat, owner: bool, aged: bool)
    | Creating(ticket: nat, child: nat)
    | FailingToCreate(ticket: nat)
    | Recording(ticket: nat)
    | NotRecording(ticket: nat)

  /** Death inside a section, after some of its writes. */
  datatype CrashAct =
    | Posting(p: nat, id: nat, torn: Request)
    | Dropping(p: nat)
    | Serving(p: nat, taking: bool)
    | Closing(id: nat)
    | FirstFraming(p: nat)
    | Reserving(p: nat, owner: bool, aged: bool, cleared: bool)

  datatype Step =
    | Launch(p: nat)
    | Die(p: nat)
    | ByStandby(p: nat, standbyAct: StandbyAct)
    | ByRequester(requestAct: RequestAct)
    | BySpawner(spawnAct: SpawnAct)
    | Crash(crashAct: CrashAct)

  // ----- standby steps --------------------------------------------------------

  predicate StandbyEnabled(w: World, p: nat, act: StandbyAct) {
    && w.mail.request.Sized() && w.Alive(p)
    && var phase := w.procs[p].phase;
    match act
    case Claiming => phase.Launched?
    case StandingDown => phase.Claimed?
    case Announcing => phase.Claimed?
    case Serving(_, _, _) => phase.Waiting?
    case GivingUp => phase.Launched? || phase.Claimed? || phase.Waiting?
    case FirstFraming => phase.Adopted?
  }

  function StandbyApply(w: World, p: nat, act: StandbyAct): World
    requires StandbyEnabled(w, p, act)
  {
    match act
    case Claiming =>
      var t := w.procs[p].ticket;
      w.(mail := Claim(w.mail, p, t)).SetPhase(p, if ClaimOk(w.mail, p, t) then Claimed else Left)
    case StandingDown => w.(mail := StandDown(w.mail, p)).SetPhase(p, Left)
    case Announcing => w.(mail := Announce(w.mail, p)).SetPhase(p, if AnnounceOk(w.mail, p) then Waiting else Left)
    case Serving(woken, memory, room) => ServeApply(w, p, woken, memory, room)
    case GivingUp => w.SetPhase(p, Left)
    case FirstFraming => w.(mail := FirstFrame(w.mail, p))
  }

  function ServeApply(w: World, p: nat, woken: bool, memory: bool, room: bool): World
    requires w.mail.request.Sized() && w.Alive(p)
  {
    var (mail, r) := Serve(w.mail, p, woken, memory, room);
    var next := w.(mail := mail);
    match r
    case Superseded => next.SetPhase(p, Left)
    case Adopt(got) => next.(adoptions := w.adoptions + [Adoption(got.id, p, ContentsOf(got))]).SetPhase(p, Adopted(got.id))
    case KeepWaiting(turned) => if turned then next.(rejected := w.rejected + {w.mail.request.id}) else next
    case StopWaiting(turned) =>
      (if turned then next.(rejected := w.rejected + {w.mail.request.id}) else next).SetPhase(p, Left)
  }

  // ----- requester steps ------------------------------------------------------

  predicate RequestEnabled(w: World, act: RequestAct) {
    w.mail.request.Sized() &&
    match act
    case Posting(p, id, _, _) => w.Serves(p) && id !in w.ids
    case Closing(id) => Open(w, id)
    case NotClosing(id) => Open(w, id)
    case Checking(id) =>
      && id in w.deliveries && w.Alive(w.deliveries[id].sender)
      && (w.deliveries[id].progress.Closed? || w.deliveries[id].progress.Unanswered?)
  }

  /** Deliver still waits for the acknowledgement of this request. */
  predicate Open(w: World, id: nat) {
    id in w.deliveries && w.Alive(w.deliveries[id].sender) && w.deliveries[id].progress == Awaiting
  }

  /** The mailbox still shows this request at the process it was posted to. */
  predicate Current(w: World, id: nat)
    requires id in w.deliveries
  {
    w.mail.request.id == id && w.mail.pid == w.deliveries[id].owner
  }

  function RequestApply(w: World, act: RequestAct): World
    requires RequestEnabled(w, act)
  {
    match act
    case Posting(p, id, owner, msg) =>
      var (mail, r) := Post(w.mail, owner, msg, id, p);
      w.(mail := mail, ids := w.ids + {id},
         deliveries := if r.Sent? then w.deliveries[id := Delivery(p, w.mail.pid, Meaning(msg, p), Awaiting)] else w.deliveries)
    case Closing(id) =>
      var (mail, accepted) := Close(w.mail, id, w.deliveries[id].owner);
      w.(mail := mail, refused := if accepted then w.refused else w.refused + {id})
        .SetProgress(id, Closed(accepted, Current(w, id) && w.mail.state == Ready))
    case NotClosing(id) => w.SetProgress(id, Unanswered)
    case Checking(id) =>
      var d := w.deliveries[id];
      w.SetProgress(id, Returned((d.progress.Unanswered? || d.progress.accepted) && w.Alive(d.owner)))
  }

  // ----- spawner steps --------------------------------------------------------

  predicate SpawnEnabled(w: World, act: SpawnAct) {
    match act
    case Reserving(p, ticket, _, _) => w.Serves(p) && ticket != 0 && ticket !in w.spawns
    case Creating(ticket, child) => SpawnIn(w, ticket, Reserved) && child != 0 && child !in w.procs
    case FailingToCreate(ticket) => SpawnIn(w, ticket, Reserved)
    case Recording(ticket) => SpawnIn(w, ticket, Created)
    case NotRecording(ticket) => SpawnIn(w, ticket, Created)
  }

  predicate SpawnIn(w: World, ticket: nat, phase: SpawnPhase) {
    ticket in w.spawns && w.Alive(w.spawns[ticket].spawner) && w.spawns[ticket].phase == phase
  }

  function SpawnApply(w: World, act: SpawnAct): World
    requires SpawnEnabled(w, act)
  {
    match act
    case Reserving(p, ticket, owner, aged) =>
      if ReserveOk(w.mail, owner, aged)
      then w.(mail := Reserve(w.mail, owner, aged, ticket), spawns := w.spawns[ticket := Spawn(p, 0, Reserved)])
      else w
    case Creating(ticket, child) =>
      w.(procs := w.procs[child := Proc(true, ticket, Launched)],
         spawns := w.spawns[ticket := Spawn(w.spawns[ticket].spawner, child, Created)])
    case FailingToCreate(ticket) => w.SetSpawn(ticket, Created)
    case Recording(ticket) => w.(mail := Record(w.mail, ticket, w.spawns[ticket].child)).SetSpawn(ticket, Finished)
    case NotRecording(ticket) => w.SetSpawn(ticket, Finished)
  }

  // ----- death inside a section -----------------------------------------------

  predicate CrashEnabled(w: World, act: CrashAct) {
    w.mail.request.Sized() &&
    match act
    case Posting(p, id, torn) =>
      w.Serves(p) && w.mail.state == Ready && id !in w.ids && torn.Sized() && torn.id in {id, w.mail.request.id}
    case Dropping(p) => w.Serves(p) && w.mail.state == Ready
    case Serving(p, taking) => w.Alive(p) && w.procs[p].phase.Waiting? && w.mail.pid == p && (taking ==> w.mail.state == Pending)
    case Closing(id) => Open(w, id) && Current(w, id) && w.mail.state == Taken
    case FirstFraming(p) => w.Alive(p) && w.procs[p].phase.Adopted? && w.mail.state == Taken && w.mail.pid == p
    case Reserving(p, owner, aged, _) => w.Serves(p) && ReserveOk(w.mail, owner, aged)
  }

  function CrashApply(w: World, act: CrashAct): World
    requires CrashEnabled(w, act)
  {
    match act
    case Posting(p, id, torn) => w.(mail := w.mail.(request := torn), ids := w.ids + {id}).Kill(p)
    case Dropping(p) => w.(mail := w.mail.(state := Empty)).Kill(p)
    case Serving(p, taking) => w.(mail := w.mail.(state := if taking then Taking else Empty)).Kill(p)
    case Closing(id) => w.(mail := w.mail.(state := Empty)).Kill(w.deliveries[id].sender)
    case FirstFraming(p) => w.(mail := w.mail.(state := Empty)).Kill(p)
    case Reserving(p, _, _, cleared) =>
      w.(mail := w.mail.(state := Starting, pid := if cleared then 0 else w.mail.pid)).Kill(p)
  }

  // ----- all steps ------------------------------------------------------------

  predicate Enabled(w: World, s: Step) {
    match s
    case Launch(p) => p != 0 && p !in w.procs
    case Die(p) => w.Alive(p)
    case ByStandby(p, act) => StandbyEnabled(w, p, act)
    case ByRequester(act) => RequestEnabled(w, act)
    case BySpawner(act) => SpawnEnabled(w, act)
    case Crash(act) => CrashEnabled(w, act)
  }

  function Apply(w: World, s: Step): World
    requires Enabled(w, s)
  {
    match s
    case Launch(p) => w.(procs := w.procs[p := Proc(true, 0, Visible)])
    case Die(p) => w.Kill(p)
    case ByStandby(p, act) => StandbyApply(w, p, act)
    case ByRequester(act) => RequestApply(w, act)
    case BySpawner(act) => SpawnApply(w, act)
    case Crash(act) => CrashApply(w, act)
  }

  // ----- runs -----------------------------------------------------------------

  ghost predicate Init(w: World) {
    && w.mail.state == Empty && w.mail.pid == 0 && w.mail.started == 0 && w.mail.request.Sized()
    && w.procs == map[] && w.deliveries == map[] && w.spawns == map[]
    && w.adoptions == [] && w.refused == {} && w.rejected == {} && w.ids == {w.mail.request.id}
  }

  ghost predicate Next(w: World, s: Step, w': World) {
    Enabled(w, s) && w' == Apply(w, s)
  }

  /** trace[i] is the world before steps[i]. */
  ghost predicate Run(trace: seq<World>, steps: seq<Step>) {
    && |trace| == |steps| + 1
    && Init(trace[0])
    && forall i :: 0 <= i < |steps| ==> Next(trace[i], steps[i], trace[i + 1])
  }

  /** Owner answered truthfully. Elsewhere it may also fail to open a running process. */
  ghost predicate OwnerSeenRight(w: World, s: Step) {
    match s
    case ByRequester(Posting(_, _, owner, _)) => owner == w.OwnerAlive()
    case BySpawner(Reserving(_, _, owner, _)) => owner == w.OwnerAlive()
    case Crash(Posting(_, _, _)) => w.OwnerAlive()
    case Crash(Dropping(_)) => !w.OwnerAlive()
    case Crash(Reserving(_, owner, _, _)) => owner == w.OwnerAlive()
    case _ => true
  }
}
