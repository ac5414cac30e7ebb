/** The shared mailbox of the warm-standby protocol: its fields, and the effect of every
    critical section of patcher/startup_payload.cpp on them.

    Each section appears twice: as a function from the old to the new mailbox, which the
    protocol in StandbyProtocol composes, and as a method of SharedMailbox that performs
    the same field assignments in the order the payload performs them. */
module Mailbox {

  const TEXT_LIMIT: nat := 32768
  const JSON_LIMIT: nat := 1024 * 1024
  const COMMAND: nat := 0
  const PANEL: nat := 1

  datatype State = Empty | Starting | Ready | Pending | Taking | Taken

  /** The request record with its fixed buffers. A buffer keeps whatever an earlier, longer
      or abandoned request left behind the part that is in use. */
  datatype Request = Request(
    id: nat, kind: nat, flags: nat, sender: nat, commandChars: nat, cwdChars: nat, jsonBytes: nat,
    showCommand: nat, x: int, y: int, placement: seq<nat>,
    command: seq<nat>, cwd: seq<nat>, json: seq<nat>)
  {
    predicate Sized() {
      |command| == TEXT_LIMIT && |cwd| == TEXT_LIMIT && |json| == JSON_LIMIT + 1
    }

    /** The checks a standby makes before it takes a request. */
    predicate Acceptable()
      requires Sized()
    {
      && commandChars < TEXT_LIMIT && cwdChars < TEXT_LIMIT && jsonBytes <= JSON_LIMIT && kind <= PANEL
      && command[commandChars] == 0 && cwd[cwdChars] == 0 && json[jsonBytes] == 0
    }
  }

  /** What a request says to the process that adopts it: the buffers only up to their lengths. */
  datatype Contents = Contents(
    kind: nat, flags: nat, sender: nat, showCommand: nat, x: int, y: int, placement: seq<nat>,
    command: seq<nat>, cwd: seq<nat>, json: seq<nat>)

  function ContentsOf(r: Request): Contents
    requires r.Sized() && r.Acceptable()
  {
    Contents(r.kind, r.flags, r.sender, r.showCommand, r.x, r.y, r.placement,
             r.command[..r.commandChars], r.cwd[..r.cwdChars], r.json[..r.jsonBytes])
  }

  datatype Panel = NoPanel | NullPanel | PanelText(bytes: seq<nat>)
  datatype Directory = NoDirectory | DirectoryText(chars: seq<nat>)
  datatype Startup = NoStartup | StartupInfo(flags: nat, showWindow: nat, x: int, y: int)

  /** The arguments of Deliver, and the directory that the system reports for the sender when
      no directory argument is given: its length, and its characters when they fit. */
  datatype Message = Message(
    command: seq<nat>, directory: Directory, panel: Panel, startup: Startup, placement: seq<nat>,
    currentDirectory: seq<nat>)
  {
    predicate Fits() {
      && |command| < TEXT_LIMIT
      && (directory.DirectoryText? ==> |directory.chars| < TEXT_LIMIT)
      && panel != NullPanel
      && (panel.PanelText? ==> 0 < |panel.bytes| <= JSON_LIMIT)
    }

    predicate HasDirectory() {
      directory.DirectoryText? || 0 < |currentDirectory| < TEXT_LIMIT
    }

    function Cwd(): seq<nat> {
      if directory.DirectoryText? then directory.chars else currentDirectory
    }

    function PanelBytes(): seq<nat> {
      if panel.PanelText? then panel.bytes else []
    }
  }

  /** Only the two flags that a launch request may carry survive. */
  function KeptFlags(flags: nat): nat {
    (if flags % 2 == 1 then 1 else 0) + (if (flags / 4) % 2 == 1 then 4 else 0)
  }

  /** What the sender means by a message, said without reference to buffers. */
  function Meaning(msg: Message, sender: nat): Contents {
    Contents(
      if msg.panel.PanelText? then PANEL else COMMAND,
      if msg.startup.StartupInfo? then KeptFlags(msg.startup.flags) else 0,
      sender,
      if msg.startup.StartupInfo? then msg.startup.showWindow else 1,
      if msg.startup.StartupInfo? then msg.startup.x else 0,
      if msg.startup.StartupInfo? then msg.startup.y else 0,
      if msg.placement == [] then seq(8, _ => 0) else msg.placement,
      msg.command, msg.Cwd(), msg.PanelBytes())
  }

  function Overwrite(buffer: seq<nat>, data: seq<nat>): (r: seq<nat>)
    requires |data| <= |buffer|
    ensures |r| == |buffer|
  {
    data + buffer[|data|..]
  }

  /** The fields that are written before the current directory is asked for. */
  function HeaderWritten(r: Request, msg: Message, id: nat, sender: nat): (w: Request)
    requires r.Sized() && msg.Fits()
    ensures w.Sized() && w.id == id
  {
    var m := Meaning(msg, sender);
    r.(id := id, kind := m.kind, sender := m.sender, flags := m.flags, showCommand := m.showCommand,
       x := m.x, y := m.y, commandChars := |msg.command|,
       cwdChars := if msg.directory.DirectoryText? then |msg.directory.chars| else 0,
       placement := m.placement, jsonBytes := |msg.PanelBytes()|,
       command := Overwrite(r.command, msg.command + [0]))
  }

  function DirectoryFailed(r: Request, msg: Message): (w: Request)
    requires r.Sized()
    ensures w.Sized() && w.id == r.id
  {
    r.(cwdChars := |msg.currentDirectory|)
  }

  function RequestWritten(r: Request, msg: Message): (w: Request)
    requires r.Sized() && msg.Fits() && msg.HasDirectory()
    ensures w.Sized() && w.id == r.id
  {
    r.(cwd := Overwrite(r.cwd, msg.Cwd() + [0]), cwdChars := |msg.Cwd()|,
       json := Overwrite(r.json, msg.PanelBytes() + [0]))
  }

  /** A completely written request passes every check a standby makes, and what it shows is
      exactly what was meant, whatever the buffers held before. */
  lemma WrittenRequestIsExact(r: Request, msg: Message, id: nat, sender: nat)
    requires r.Sized() && msg.Fits() && msg.HasDirectory()
    ensures var w := RequestWritten(HeaderWritten(r, msg, id, sender), msg);
            w.Sized() && w.Acceptable() && w.id == id && ContentsOf(w) == Meaning(msg, sender)
  {
    var w := RequestWritten(HeaderWritten(r, msg, id, sender), msg);
    assert w.command[..w.commandChars] == msg.command;
    assert w.cwd[..w.cwdChars] == msg.Cwd();
    assert w.json[..w.jsonBytes] == msg.PanelBytes();
  }

  /** What can be sent is what has a panel text and a directory wherever it needs one and fits
      into the buffers, terminators included. */
  lemma SendableExactly(msg: Message, sender: nat)
    ensures msg.Fits() && msg.HasDirectory() <==>
            && msg.panel != NullPanel && (msg.panel.PanelText? ==> msg.panel.bytes != [])
            && (msg.directory.NoDirectory? ==> msg.currentDirectory != [])
            && exists r: Request :: r.Sized() && r.Acceptable() && ContentsOf(r) == Meaning(msg, sender)
  {
    if msg.Fits() && msg.HasDirectory() {
      var blank := Request(0, 0, 0, 0, 0, 0, 0, 0, 0, 0, [], seq(TEXT_LIMIT, _ => 0), seq(TEXT_LIMIT, _ => 0), seq(JSON_LIMIT + 1, _ => 0));
      WrittenRequestIsExact(blank, msg, 0, sender);
      hide HeaderWritten, RequestWritten, Meaning, ContentsOf;
      assert RequestWritten(HeaderWritten(blank, msg, 0, sender), msg).Sized();
    }
  }

  /** pid == 0 means that no process is recorded. */
  datatype Mail = Mail(state: State, pid: nat, started: nat, request: Request)

  // ----- the critical sections ------------------------------------------------

  /** A standby presents its ticket. */
  function ClaimOk(m: Mail, me: nat, ticket: nat): bool {
    ticket != 0 && m.started == ticket && m.state == Starting && (m.pid == 0 || m.pid == me)
  }

  function Claim(m: Mail, me: nat, ticket: nat): Mail {
    if ClaimOk(m, me, ticket) then m.(pid := me) else m
  }

  /** A claimed standby finds memory short and withdraws before it was ever ready. */
  function StandDown(m: Mail, me: nat): Mail {
    if m.pid == me then m.(state := Empty) else m
  }

  function AnnounceOk(m: Mail, me: nat): bool {
    m.pid == me && m.state == Starting
  }

  function Announce(m: Mail, me: nat): Mail {
    if AnnounceOk(m, me) then m.(state := Ready) else m
  }

  /** What one pass of the waiting loop came to. */
  datatype Served = Superseded | Adopt(got: Request) | KeepWaiting(rejected: bool) | StopWaiting(rejected: bool)

  /** One pass of the waiting loop: `woken` says that the request event ended the wait,
      `memory` that memory is available, `room` that a private copy could be allocated. */
  function Serve(m: Mail, me: nat, woken: bool, memory: bool, room: bool): (Mail, Served)
    requires m.request.Sized()
  {
    if m.pid != me then (m, Superseded)
    else if m.state == Pending && !m.request.Acceptable() then (m.(state := Ready), KeepWaiting(true))
    else if m.state == Pending && room then (m.(state := Taken), Adopt(m.request))
    else
      var rejected := m.state == Pending;
      if !woken || !memory then (m.(state := Empty, pid := 0), StopWaiting(rejected))
      else (if rejected then m.(state := Ready) else m, KeepWaiting(rejected))
  }

  /** A standby takes the pending request exactly if it is the one recorded, a copy can be
      allocated, every length is within its buffer and every text ends in a zero there; a
      request that is not like that is turned down, and the standby stays. */
  lemma AdoptsExactlyWellFormed(m: Mail, me: nat, woken: bool, memory: bool, room: bool)
    requires m.request.Sized()
    ensures var (after, r) := Serve(m, me, woken, memory, room);
            var q := m.request;
            var wellFormed := q.commandChars < 32768 && q.cwdChars < 32768 && q.jsonBytes <= 1048576 && q.kind <= 1
                              && q.command[q.commandChars] == 0 && q.cwd[q.cwdChars] == 0 && q.json[q.jsonBytes] == 0;
            && (r.Adopt? <==> m.pid == me && m.state == Pending && wellFormed && room)
            && (r.Adopt? ==> r.got == q && after == m.(state := Taken))
            && (m.pid == me && m.state == Pending && !wellFormed ==> r == KeepWaiting(true) && after == m.(state := Ready))
            && (m.pid != me <==> r == Superseded) && (m.pid != me ==> after == m)
  {
  }

  /** What a sender means: a panel or else a command line; of the flags of a launch only the
      first and the third bit, and its window and position; an ordinary window otherwise; no
      placement means eight zeros. */
  lemma MeaningOfMessage(msg: Message, sender: nat)
    ensures var c := Meaning(msg, sender);
            && c.sender == sender && c.command == msg.command
            && (if msg.panel.PanelText? then c.kind == 1 && c.json == msg.panel.bytes else c.kind == 0 && c.json == [])
            && c.cwd == (if msg.directory.DirectoryText? then msg.directory.chars else msg.currentDirectory)
            && (match msg.startup
                case NoStartup => c.flags == 0 && c.showCommand == 1 && c.x == 0 && c.y == 0
                case StartupInfo(flags, show, x, y) =>
                  && c.showCommand == show && c.x == x && c.y == y
                  && c.flags < 8 && c.flags % 2 == flags % 2 && c.flags / 2 % 2 == 0 && c.flags / 4 == flags / 4 % 2)
            && (if msg.placement != [] then c.placement == msg.placement
                else |c.placement| == 8 && forall k :: 0 <= k < 8 ==> c.placement[k] == 0)
  {
  }

  /** When a pass of the waiting loop adopts nothing, a wait that ended without a wake-up is
      enough for the standby to leave, and so is short memory; and leaving frees the mailbox.
      With both a wake-up and memory it stays, and the mailbox is ready for the next request. */
  lemma OneReasonToLeaveIsEnough(m: Mail, me: nat, woken: bool, memory: bool, room: bool)
    requires m.request.Sized() && m.pid == me && (m.state == Pending ==> m.request.Acceptable() && !room)
    ensures var (after, r) := Serve(m, me, woken, memory, room);
            && (!woken ==> after == m.(state := Empty, pid := 0) && r == StopWaiting(m.state == Pending))
            && (!memory ==> after == m.(state := Empty, pid := 0) && r == StopWaiting(m.state == Pending))
            && (woken && memory ==>
                  r == KeepWaiting(m.state == Pending) && after == m.(state := if m.state == Pending then Ready else m.state))
  {
  }

  datatype Posted = NotReady | NoOwner | BadMessage | BadDirectory | Sent

  /** The opening section of Deliver; `owner` says whether the recorded process could be
      opened and is running. */
  function Post(m: Mail, owner: bool, msg: Message, id: nat, sender: nat): (Mail, Posted)
    requires m.request.Sized()
  {
    if m.state != Ready then (m, NotReady)
    else if !owner then (m.(state := Empty, pid := 0), NoOwner)
    else if !msg.Fits() then (m, BadMessage)
    else
      var header := HeaderWritten(m.request, msg, id, sender);
      if !msg.HasDirectory() then (m.(request := DirectoryFailed(header, msg)), BadDirectory)
      else (m.(state := Pending, request := RequestWritten(header, msg)), Sent)
  }

  /** The closing section of Deliver, for the request `id` posted to the process `pid`. */
  function Close(m: Mail, id: nat, pid: nat): (Mail, bool) {
    if m.request.id != id || m.pid != pid then (m, true)
    else match m.state
      case Pending => (m.(state := Ready), false)
      case Ready => (m, false)
      case Taken => (m.(state := Empty, pid := 0), true)
      case _ => (m, true)
  }

  function ReserveOk(m: Mail, owner: bool, aged: bool): bool {
    m.state == Empty || (!owner && aged)
  }

  /** A spawner reserves the mailbox; `aged` says that the current occupant was started more
      than ten seconds ago. */
  function Reserve(m: Mail, owner: bool, aged: bool, ticket: nat): Mail {
    if ReserveOk(m, owner, aged) then m.(state := Starting, pid := 0, started := ticket) else m
  }

  /** The spawner records its child, or gives the reservation back; child == 0 means that
      process creation failed. */
  function Record(m: Mail, ticket: nat, child: nat): Mail {
    if m.state == Starting && m.pid == 0 && m.started == ticket then
      if child != 0 then m.(pid := child) else m.(state := Empty)
    else m
  }

  /** The adopter's first frame clears an acknowledgement nobody collected. */
  function FirstFrame(m: Mail, me: nat): Mail {
    if m.state == Taken && m.pid == me then m.(state := Empty, pid := 0) else m
  }

  // ----- the same sections on the mapped record -------------------------------

  class SharedMailbox {
    var state: State
    var pid: nat
    var started: nat
    var request: Request

    ghost function Value(): Mail
      reads this
    {
      Mail(state, pid, started, request)
    }

    constructor ()
      ensures Value().state == Empty && pid == 0 && started == 0 && request.Sized()
    {
      state, pid, started := Empty, 0, 0;
      request := Request(0, 0, 0, 0, 0, 0, 0, 0, 0, 0, seq(8, _ => 0),
                         seq(TEXT_LIMIT, _ => 0), seq(TEXT_LIMIT, _ => 0), seq(JSON_LIMIT + 1, _ => 0));
    }

    method ClaimTicket(me: nat, ticket: nat) returns (ok: bool)
      modifies this
      ensures Value() == Claim(old(Value()), me, ticket)
      ensures ok == ClaimOk(old(Value()), me, ticket)
    {
      if ticket == 0 || started != ticket || state != Starting || (pid != 0 && pid != me) {
        return false;
      }
      pid := me;
      return true;
    }

    method LeaveForMemory(me: nat)
      modifies this
      ensures Value() == StandDown(old(Value()), me)
    {
      if pid == me {
        state := Empty;
      }
    }

    method AnnounceReady(me: nat) returns (ok: bool)
      modifies this
      ensures Value() == Announce(old(Value()), me)
      ensures ok == AnnounceOk(old(Value()), me)
    {
      if pid != me || state != Starting {
        return false;
      }
      state := Ready;
      return true;
    }

    /** A request moves through Taking while it is copied; the section as a whole ends in
        Taken, Ready or Empty. */
    method ServeOnce(me: nat, woken: bool, memory: bool, room: bool) returns (r: Served)
      requires request.Sized()
      modifies this
      ensures (Value(), r) == Serve(old(Value()), me, woken, memory, room)
    {
      if pid != me {
        return Superseded;
      }
      var rejected := false;
      if state == Pending {
        if !request.Acceptable() {
          state := Ready;
          return KeepWaiting(true);
        }
        state := Taking;
        if room {
          var copy := request;
          state := Taken;
          return Adopt(copy);
        }
        state := Ready;
        rejected := true;
      }
      if !woken || !memory {
        state := Empty;
        pid := 0;
        return StopWaiting(rejected);
      }
      return KeepWaiting(rejected);
    }

    method WriteHeader(msg: Message, id: nat, sender: nat)
      requires request.Sized() && msg.Fits()
      modifies this`request
      ensures request == HeaderWritten(old(request), msg, id, sender)
    {
      request := request.(id := id);
      request := request.(kind := if msg.panel == NoPanel then COMMAND else PANEL, sender := sender);
      request := request.(flags := if msg.startup == NoStartup then 0 else KeptFlags(msg.startup.flags),
                          showCommand := if msg.startup == NoStartup then 1 else msg.startup.showWindow);
      request := request.(x := if msg.startup == NoStartup then 0 else msg.startup.x,
                          y := if msg.startup == NoStartup then 0 else msg.startup.y);
      request := request.(commandChars := |msg.command|,
                          cwdChars := if msg.directory == NoDirectory then 0 else |msg.directory.chars|);
      request := request.(placement := seq(8, _ => 0));
      if msg.placement != [] {
        request := request.(placement := msg.placement);
      }
      request := request.(jsonBytes := if msg.panel == NoPanel then 0 else |msg.panel.bytes|);
      request := request.(command := Overwrite(request.command, msg.command + [0]));
    }

    method WriteBuffers(msg: Message)
      requires request.Sized() && msg.Fits() && msg.HasDirectory()
      requires msg.directory.DirectoryText? ==> request.cwdChars == |msg.directory.chars|
      requires request.jsonBytes == |msg.PanelBytes()|
      modifies this`request
      ensures request == RequestWritten(old(request), msg)
    {
      if msg.directory.DirectoryText? {
        request := request.(cwd := Overwrite(request.cwd, msg.directory.chars + [0]));
      } else {
        request := request.(cwdChars := |msg.currentDirectory|);
        request := request.(cwd := Overwrite(request.cwd, msg.currentDirectory + [0]));
      }
      if msg.panel.PanelText? {
        request := request.(json := Overwrite(request.json, msg.panel.bytes));
      }
      request := request.(json := request.json[request.jsonBytes := 0]);
      assert request.json == Overwrite(old(request).json, msg.PanelBytes() + [0]);
    }

    method DeliverOpen(owner: bool, msg: Message, id: nat, sender: nat) returns (r: Posted)
      requires request.Sized()
      modifies this
      ensures (Value(), r) == Post(old(Value()), owner, msg, id, sender)
    {
      if state != Ready {
        return NotReady;
      }
      if !owner {
        state := Empty;
        pid := 0;
        return NoOwner;
      }
      if |msg.command| >= TEXT_LIMIT || (msg.directory.DirectoryText? && |msg.directory.chars| >= TEXT_LIMIT)
         || msg.panel == NullPanel || (msg.panel.PanelText? && (|msg.panel.bytes| == 0 || |msg.panel.bytes| > JSON_LIMIT)) {
        return BadMessage;
      }
      WriteHeader(msg, id, sender);
      if msg.directory == NoDirectory && (|msg.currentDirectory| == 0 || |msg.currentDirectory| >= TEXT_LIMIT) {
        request := request.(cwdChars := |msg.currentDirectory|);
        return BadDirectory;
      }
      WriteBuffers(msg);
      state := Pending;
      return Sent;
    }

    method DeliverClose(id: nat, owner: nat) returns (accepted: bool)
      modifies this
      ensures (Value(), accepted) == Close(old(Value()), id, owner)
    {
      accepted := true;
      if request.id == id && pid == owner {
        if state == Pending {
          state := Ready;
          accepted := false;
        } else if state == Ready {
          accepted := false;
        } else if state == Taken {
          state := Empty;
          pid := 0;
        }
      }
    }

    method ReserveFor(ticket: nat, owner: bool, aged: bool) returns (ok: bool)
      modifies this
      ensures Value() == Reserve(old(Value()), owner, aged, ticket)
      ensures ok == ReserveOk(old(Value()), owner, aged)
    {
      if state != Empty {
        var stale := !owner && aged;
        if !stale {
          return false;
        }
      }
      state := Starting;
      pid := 0;
      started := ticket;
      return true;
    }

    method RecordChild(ticket: nat, child: nat)
      modifies this
      ensures Value() == Record(old(Value()), ticket, child)
    {
      if state == Starting && pid == 0 && started == ticket {
        if child != 0 {
          pid := child;
        } else {
          state := Empty;
        }
      }
    }

    method RecoverOnFirstFrame(me: nat)
      modifies this
      ensures Value() == FirstFrame(old(Value()), me)
    {
      if state == Taken && pid == me {
        state := Empty;
        pid := 0;
      }
    }
  }
}
