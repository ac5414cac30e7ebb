/** Publication of shared records by one writer to many readers without a lock: the exclusion
    policy, the host status table and the dialog diagnostics of patcher/dialogs. The writer
    makes the generation odd, changes the record one cell at a time and makes the generation
    even again; a reader copies the record one cell per step and accepts the copy only if the
    generation was even and is unchanged. Steps of all parties interleave freely, under
    sequential consistency and an unbounded generation. */
module SeqLock {
  import opened Sequences

  const EXCLUSION_CAPACITY: nat := 8192
  const STATUS_CAPACITY: nat := 256
  const ATTEMPTS: nat := 3

  /** How a reader walks the record. Text: measure a NUL-terminated text, then copy it; Table:
      a count followed by that many entries; Fields: a fixed number of fields. */
  datatype Kind = Text(capacity: nat) | Table(capacity: nat) | Fields(count: nat)
  {
    /** The number of cells the record must have. */
    function Size(): nat {
      match this
      case Text(capacity) => capacity
      case Table(capacity) => 1 + capacity
      case Fields(count) => count
    }
  }

  datatype Next = Read(cell: nat) | Finished(value: seq<nat>)

  /** The position of the first NUL among the first `bound` cells, or `bound`. */
  function Length(s: seq<nat>, bound: nat): (n: nat)
    requires bound <= |s|
    ensures n <= bound
    ensures n < bound ==> s[n] == 0
    ensures forall i :: 0 <= i < n ==> s[i] != 0
  {
    if bound == 0 then 0
    else
      var n := Length(s, bound - 1);
      if n < bound - 1 || s[bound - 1] == 0 then n else bound
  }

  /** What the reader does after it has read the values `seen`, in this order. */
  function Program(kind: Kind, seen: seq<nat>): Next {
    match kind
    case Text(capacity) =>
      var n := Length(seen, Min(|seen|, capacity));
      if n == |seen| && n < capacity then Read(n)
      else
        var measured := Min(n + 1, capacity);
        if |seen| < measured then Finished([])
        else if |seen| - measured < n then Read(|seen| - measured)
        else Finished(seen[measured..])
    case Table(capacity) =>
      if seen == [] then Read(0)
      else if |seen| - 1 < Min(seen[0], capacity) then Read(|seen|)
      else Finished(seen[1..])
    case Fields(count) => if |seen| < count then Read(|seen|) else Finished(seen)
  }

  /** What the record says when nobody changes it. */
  function Meaning(kind: Kind, cells: seq<nat>): seq<nat>
    requires |cells| == kind.Size()
  {
    match kind
    case Text(_) => cells[..Length(cells, |cells|)]
    case Table(capacity) => cells[1..1 + Min(cells[0], capacity)]
    case Fields(_) => cells
  }

  // ----- the protocol ---------------------------------------------------------

  datatype Reader =
    | Trying(attempt: nat)
    | Copying(attempt: nat, before: nat, seen: seq<nat>)
    | Accepted(value: seq<nat>, version: nat)
    | Refused

  /** versions lists every record published so far, the initial one first. */
  datatype World = World(generation: nat, cells: seq<nat>, versions: seq<seq<nat>>, readers: map<nat, Reader>)

  datatype Step =
    | Begin
    | Write(cell: nat, value: nat)
    | Commit
    | Join(r: nat)
    | Sample(r: nat)
    | Copy(r: nat)
    | Recheck(r: nat)

  function Retry(attempt: nat): Reader {
    if attempt + 1 < ATTEMPTS then Trying(attempt + 1) else Refused
  }

  predicate Enabled(w: World, kind: Kind, s: Step) {
    match s
    case Begin => w.generation % 2 == 0
    case Write(cell, _) => w.generation % 2 == 1 && cell < |w.cells|
    case Commit => w.generation % 2 == 1
    case Join(r) => r !in w.readers
    case Sample(r) => r in w.readers && w.readers[r].Trying?
    case Copy(r) =>
      r in w.readers && w.readers[r].Copying?
      && Program(kind, w.readers[r].seen).Read? && Program(kind, w.readers[r].seen).cell < |w.cells|
    case Recheck(r) => r in w.readers && w.readers[r].Copying? && Program(kind, w.readers[r].seen).Finished?
  }

  function Apply(w: World, kind: Kind, s: Step): World
    requires Enabled(w, kind, s)
  {
    match s
    case Begin => w.(generation := w.generation + 1)
    case Write(cell, value) => w.(cells := w.cells[cell := value])
    case Commit => w.(generation := w.generation + 1, versions := w.versions + [w.cells])
    case Join(r) => w.(readers := w.readers[r := Trying(0)])
    case Sample(r) =>
      var t := w.readers[r];
      w.(readers := w.readers[r := if w.generation % 2 == 1 then Retry(t.attempt) else Copying(t.attempt, w.generation, [])])
    case Copy(r) =>
      var c := w.readers[r];
      w.(readers := w.readers[r := c.(seen := c.seen + [w.cells[Program(kind, c.seen).cell]])])
    case Recheck(r) =>
      var c := w.readers[r];
      w.(readers := w.readers[r := if w.generation == c.before then Accepted(Program(kind, c.seen).value, c.before / 2)
                                   else Retry(c.attempt)])
  }

  ghost predicate Init(w: World, kind: Kind) {
    w.generation == 0 && |w.cells| == kind.Size() && w.versions == [w.cells] && w.readers == map[]
  }

  ghost predicate Run(trace: seq<World>, steps: seq<Step>, kind: Kind) {
    && |trace| == |steps| + 1
    && Init(trace[0], kind)
    && forall i :: 0 <= i < |steps| ==> Enabled(trace[i], kind, steps[i]) && trace[i + 1] == Apply(trace[i], kind, steps[i])
  }

  // ----- the invariant --------------------------------------------------------

  /** `seen` is what the reader's program reads when it runs undisturbed on these cells. */
  predicate Faithful(kind: Kind, cells: seq<nat>, seen: seq<nat>) {
    seen == []
    || (var k := |seen| - 1;
        var p := Program(kind, seen[..k]);
        Faithful(kind, cells, seen[..k]) && p.Read? && p.cell < |cells| && seen[k] == cells[p.cell])
  }

  ghost predicate ReaderRight(w: World, kind: Kind, r: Reader) {
    match r
    case Trying(_) => true
    case Refused => true
    case Copying(_, before, seen) =>
      before % 2 == 0 && before <= w.generation && (before == w.generation ==> Faithful(kind, w.cells, seen))
    case Accepted(value, version) =>
      version < |w.versions| && |w.versions[version]| == kind.Size() && value == Meaning(kind, w.versions[version])
  }

  ghost predicate Inv(w: World, kind: Kind) {
    && |w.cells| == kind.Size()
    && |w.versions| == w.generation / 2 + 1
    && (forall v :: 0 <= v < |w.versions| ==> |w.versions[v]| == kind.Size())
    && (w.generation % 2 == 0 ==> w.cells == w.versions[w.generation / 2])
    && (forall r :: r in w.readers ==> ReaderRight(w, kind, w.readers[r]))
  }

  lemma FaithfulExtends(kind: Kind, cells: seq<nat>, seen: seq<nat>)
    requires Faithful(kind, cells, seen)
    requires Program(kind, seen).Read? && Program(kind, seen).cell < |cells|
    ensures Faithful(kind, cells, seen + [cells[Program(kind, seen).cell]])
  {
    var seen' := seen + [cells[Program(kind, seen).cell]];
    assert seen'[..|seen|] == seen;
  }

  /** What a text reader has seen after k reads of an unchanging record: the text up to and
      with its terminator, and then the text again. */
  predicate TextSeen(cells: seq<nat>, n: nat, seen: seq<nat>)
    requires n <= |cells|
  {
    var m := Min(n + 1, |cells|);
    && |seen| <= m + n
    && (forall i :: 0 <= i < m && i < |seen| ==> seen[i] == cells[i])
    && (forall i :: m <= i < |seen| ==> seen[i] == cells[i - m])
  }

  lemma TextMeasured(cells: seq<nat>, n: nat, seen: seq<nat>)
    requires n == Length(cells, |cells|) && TextSeen(cells, n, seen)
    ensures Length(seen, Min(|seen|, |cells|)) == Min(n, |seen|)
  {
    if n < |seen| && n < |cells| {
      assert seen[n] == cells[n];
    }
  }

  lemma TextGoesOn(cells: seq<nat>, n: nat, seen: seq<nat>)
    requires n == Length(cells, |cells|) && TextSeen(cells, n, seen) && |seen| < Min(n + 1, |cells|) + n
    ensures var m := Min(n + 1, |cells|);
            Program(Text(|cells|), seen) == Read(if |seen| < m then |seen| else |seen| - m)
  {
    hide Length;
    TextMeasured(cells, n, seen);
  }

  lemma TextCopied(cells: seq<nat>, n: nat, seen: seq<nat>)
    requires n <= |cells| && TextSeen(cells, n, seen) && |seen| == Min(n + 1, |cells|) + n
    ensures var m := Min(n + 1, |cells|); seen[m..] == cells[..n]
  {
  }

  lemma TextFinishes(cells: seq<nat>, n: nat, seen: seq<nat>)
    requires n == Length(cells, |cells|) && TextSeen(cells, n, seen) && |seen| == Min(n + 1, |cells|) + n
    ensures Program(Text(|cells|), seen) == Finished(cells[..n])
  {
    hide Length;
    TextMeasured(cells, n, seen);
    TextCopied(cells, n, seen);
  }

  lemma {:induction false} FaithfulText(cells: seq<nat>, n: nat, seen: seq<nat>)
    requires n == Length(cells, |cells|) && Faithful(Text(|cells|), cells, seen)
    ensures TextSeen(cells, n, seen)
  {
    if seen != [] {
      var k := |seen| - 1;
      FaithfulText(cells, n, seen[..k]);
      hide Program, Length, TextSeen;
      var p := Program(Text(|cells|), seen[..k]);
      assert p.Read? && p.cell < |cells| && seen[k] == cells[p.cell];
      if SeenAll(cells, n, seen[..k]) {
        TextFinishes(cells, n, seen[..k]);
      } else {
        TextGoesOn(cells, n, seen[..k]);
        TextSeenGrows(cells, n, seen);
      }
    }
  }

  predicate SeenAll(cells: seq<nat>, n: nat, seen: seq<nat>)
    requires n <= |cells| && TextSeen(cells, n, seen)
    ensures SeenAll(cells, n, seen) || |seen| < Min(n + 1, |cells|) + n
  {
    |seen| == Min(n + 1, |cells|) + n
  }

  lemma TextSeenGrows(cells: seq<nat>, n: nat, seen: seq<nat>)
    requires n <= |cells| && seen != []
    requires var k, m := |seen| - 1, Min(n + 1, |cells|);
             && TextSeen(cells, n, seen[..k]) && k < m + n
             && (if k < m then seen[k] == cells[k] else seen[k] == cells[k - m])
    ensures TextSeen(cells, n, seen)
  {
    var k := |seen| - 1;
    assert forall i :: 0 <= i < k ==> seen[..k][i] == seen[i];
  }

  lemma {:induction false} FaithfulInOrder(kind: Kind, cells: seq<nat>, seen: seq<nat>)
    requires |cells| == kind.Size() && Faithful(kind, cells, seen) && !kind.Text?
    ensures |seen| <= |cells| && seen == cells[..|seen|]
    ensures kind.Table? && |seen| > 0 ==> |seen| - 1 <= Min(cells[0], kind.capacity)
  {
    if seen != [] {
      FaithfulInOrder(kind, cells, seen[..|seen| - 1]);
    }
  }

  /** The value an undisturbed reader finishes with is what the record says. */
  lemma FinishedIsMeaning(kind: Kind, cells: seq<nat>, seen: seq<nat>)
    requires |cells| == kind.Size() && Faithful(kind, cells, seen) && Program(kind, seen).Finished?
    ensures Program(kind, seen).value == Meaning(kind, cells)
  {
    match kind {
      case Text(capacity) =>
        var n := Length(cells, |cells|);
        FaithfulText(cells, n, seen);
        if |seen| == Min(n + 1, |cells|) + n {
          TextFinishes(cells, n, seen);
        } else {
          TextGoesOn(cells, n, seen);
        }
      case _ => FaithfulInOrder(kind, cells, seen);
    }
  }

  lemma ReaderRightAnyReaders(w: World, readers: map<nat, Reader>, kind: Kind, r: Reader)
    ensures ReaderRight(w.(readers := readers), kind, r) == ReaderRight(w, kind, r)
  {
    hide Faithful, Meaning;
  }

  /** A step of a reader is right for everybody if it is right for this reader. */
  lemma ReaderMoves(w: World, kind: Kind, r: nat, reader: Reader)
    requires Inv(w, kind) && ReaderRight(w, kind, reader)
    ensures Inv(w.(readers := w.readers[r := reader]), kind)
  {
    hide ReaderRight;
    var w' := w.(readers := w.readers[r := reader]);
    forall q | q in w'.readers ensures ReaderRight(w', kind, w'.readers[q]) {
      ReaderRightAnyReaders(w, w'.readers, kind, w'.readers[q]);
    }
  }

  lemma CopyIsRight(w: World, kind: Kind, r: nat)
    requires Inv(w, kind) && Enabled(w, kind, Copy(r))
    ensures ReaderRight(w, kind, Apply(w, kind, Copy(r)).readers[r])
  {
    hide Faithful, Program, Meaning;
    var c := w.readers[r];
    assert ReaderRight(w, kind, c);
    if c.before == w.generation {
      FaithfulExtends(kind, w.cells, c.seen);
    }
  }

  lemma RecheckIsRight(w: World, kind: Kind, r: nat)
    requires Inv(w, kind) && Enabled(w, kind, Recheck(r))
    ensures ReaderRight(w, kind, Apply(w, kind, Recheck(r)).readers[r])
  {
    hide Faithful, Program, Meaning;
    var c := w.readers[r];
    assert ReaderRight(w, kind, c);
    if c.before == w.generation {
      FinishedIsMeaning(kind, w.cells, c.seen);
    }
  }

  lemma WriterKeepsInv(w: World, kind: Kind, s: Step)
    requires Inv(w, kind) && Enabled(w, kind, s) && (s.Begin? || s.Write? || s.Commit?)
    ensures Inv(Apply(w, kind, s), kind)
  {
    hide Faithful, Meaning;
    var w' := Apply(w, kind, s);
    forall q | q in w'.readers ensures ReaderRight(w', kind, w'.readers[q]) {
      assert ReaderRight(w, kind, w.readers[q]);
    }
  }

  lemma StepKeepsInv(w: World, kind: Kind, s: Step)
    requires Inv(w, kind) && Enabled(w, kind, s)
    ensures Inv(Apply(w, kind, s), kind)
  {
    hide Inv, Program, Meaning;
    match s {
      case Join(r) => ReaderMoves(w, kind, r, Trying(0));
      case Sample(r) => ReaderMoves(w, kind, r, Apply(w, kind, s).readers[r]);
      case Copy(r) =>
        hide ReaderRight;
        CopyIsRight(w, kind, r);
        ReaderMoves(w, kind, r, Apply(w, kind, s).readers[r]);
      case Recheck(r) =>
        hide ReaderRight;
        RecheckIsRight(w, kind, r);
        ReaderMoves(w, kind, r, Apply(w, kind, s).readers[r]);
      case _ => WriterKeepsInv(w, kind, s);
    }
  }

  lemma {:induction false} RunKeepsInv(trace: seq<World>, steps: seq<Step>, kind: Kind, i: nat)
    requires Run(trace, steps, kind) && i < |trace|
    ensures Inv(trace[i], kind)
  {
    if i > 0 {
      RunKeepsInv(trace, steps, kind, i - 1);
      assert trace[i] == Apply(trace[i - 1], kind, steps[i - 1]);
      StepKeepsInv(trace[i - 1], kind, steps[i - 1]);
    }
  }

  // ----- the theorems ---------------------------------------------------------

  /** Every copy a reader ever accepted is the meaning of one whole published version, no
      matter how the reads and the writes of single cells interleaved. */
  lemma AcceptedIsPublished(trace: seq<World>, steps: seq<Step>, kind: Kind, i: nat, r: nat)
    requires Run(trace, steps, kind) && i < |trace|
    requires r in trace[i].readers && trace[i].readers[r].Accepted?
    ensures var w, a := trace[i], trace[i].readers[r];
            a.version < |w.versions| && |w.versions[a.version]| == kind.Size() && a.value == Meaning(kind, w.versions[a.version])
  {
    RunKeepsInv(trace, steps, kind, i);
  }

  /** And it is the version that is current when the reader accepts it, never an older one. */
  lemma AcceptedIsCurrent(trace: seq<World>, steps: seq<Step>, kind: Kind, i: nat, r: nat)
    requires Run(trace, steps, kind) && i < |steps| && steps[i] == Recheck(r)
    requires r in trace[i + 1].readers && trace[i + 1].readers[r].Accepted?
    ensures trace[i].versions != [] && |trace[i].cells| == kind.Size()
    ensures trace[i].cells == trace[i].versions[|trace[i].versions| - 1]
    ensures trace[i + 1].readers[r] == Accepted(Meaning(kind, trace[i].cells), |trace[i].versions| - 1)
  {
    RunKeepsInv(trace, steps, kind, i);
    RunKeepsInv(trace, steps, kind, i + 1);
    assert trace[i + 1] == Apply(trace[i], kind, steps[i]);
  }

  /** What has been published stays published. */
  lemma {:induction false} VersionsStay(trace: seq<World>, steps: seq<Step>, kind: Kind, i: nat, j: nat)
    requires Run(trace, steps, kind) && i <= j < |trace|
    ensures trace[i].versions <= trace[j].versions
  {
    if i < j {
      VersionsStay(trace, steps, kind, i, j - 1);
      assert trace[j] == Apply(trace[j - 1], kind, steps[j - 1]);
    }
  }

  /** A reader never runs past the record, and it can always go on. */
  lemma ReaderNeverStuck(trace: seq<World>, steps: seq<Step>, kind: Kind, i: nat, r: nat)
    requires Run(trace, steps, kind) && i < |trace| && r in trace[i].readers
    ensures var w := trace[i];
            match w.readers[r]
            case Trying(_) => Enabled(w, kind, Sample(r))
            case Copying(_, _, _) => Enabled(w, kind, Copy(r)) || Enabled(w, kind, Recheck(r))
            case Accepted(_, _) => true
            case Refused => true
  {
    RunKeepsInv(trace, steps, kind, i);
  }

  // ----- giving up ------------------------------------------------------------

  /** An attempt of the reader fails in this step: it finds a change going on, or finds that
      the record has changed since it started. */
  predicate Fails(w: World, s: Step, r: nat) {
    r in w.readers
    && match w.readers[r]
       case Trying(_) => s == Sample(r) && w.generation % 2 == 1
       case Copying(_, before, _) => s == Recheck(r) && w.generation != before
       case _ => false
  }

  function Failures(trace: seq<World>, steps: seq<Step>, r: nat, i: nat): nat
    requires i <= |steps| <= |trace|
  {
    if i == 0 then 0 else Failures(trace, steps, r, i - 1) + if Fails(trace[i - 1], steps[i - 1], r) then 1 else 0
  }

  /** The attempts a reader has behind it are the failures it met. */
  lemma {:induction false} AttemptsAreFailures(trace: seq<World>, steps: seq<Step>, kind: Kind, r: nat, i: nat)
    requires Run(trace, steps, kind) && i <= |steps|
    ensures var failures := Failures(trace, steps, r, i);
            if r !in trace[i].readers then failures == 0
            else
              match trace[i].readers[r]
              case Trying(attempt) => failures == attempt < ATTEMPTS
              case Copying(attempt, _, _) => failures == attempt < ATTEMPTS
              case Accepted(_, _) => failures < ATTEMPTS
              case Refused => failures == ATTEMPTS
  {
    if i > 0 {
      AttemptsAreFailures(trace, steps, kind, r, i - 1);
      assert Enabled(trace[i - 1], kind, steps[i - 1]) && trace[i] == Apply(trace[i - 1], kind, steps[i - 1]);
    }
  }

  /** A reader gives up after exactly three failures, and accepts before that. */
  lemma GivesUpAfterThree(trace: seq<World>, steps: seq<Step>, kind: Kind, r: nat, i: nat)
    requires Run(trace, steps, kind) && i <= |steps| && r in trace[i].readers
    ensures trace[i].readers[r].Refused? <==> Failures(trace, steps, r, i) == 3
    ensures trace[i].readers[r].Accepted? ==> Failures(trace, steps, r, i) < 3
  {
    AttemptsAreFailures(trace, steps, kind, r, i);
  }
}
