/** The two writers of shared records, step by step, and the decisions that the policy readers
    take on what they read. */
module PolicyRecords {
  import opened Sequences
  import opened SeqLock
  import opened PolicyText

  const STAR: nat := 42

  /** These steps lead from trace[0] to the last world, and the writer takes all of them. */
  ghost predicate WriterRun(trace: seq<World>, steps: seq<Step>, kind: Kind) {
    && |trace| == |steps| + 1
    && forall i :: 0 <= i < |steps| ==>
         && (steps[i].Begin? || steps[i].Write? || steps[i].Commit?)
         && Enabled(trace[i], kind, steps[i]) && trace[i + 1] == Apply(trace[i], kind, steps[i])
  }

  /** The run with one more step of the writer. */
  lemma Then(trace: seq<World>, steps: seq<Step>, kind: Kind, s: Step) returns (longer: seq<World>, more: seq<Step>)
    requires WriterRun(trace, steps, kind)
    requires |trace| == |steps| + 1 && (s.Begin? || s.Write? || s.Commit?) && Enabled(trace[|steps|], kind, s)
    ensures WriterRun(longer, more, kind) && |longer| == |more| + 1
    ensures longer[0] == trace[0] && longer[|more|] == Apply(trace[|steps|], kind, s)
  {
    longer, more := trace + [Apply(trace[|steps|], kind, s)], steps + [s];
  }

  lemma NoSteps(w: World, kind: Kind)
    ensures WriterRun([w], [], kind)
  {
  }

  /** A record in shared memory; published counts what readers could accept so far. */
  class SharedRecord {
    var generation: nat
    const cells: array<nat>

    constructor (size: nat)
      ensures generation == 0 && cells.Length == size && fresh(cells)
      ensures forall i :: 0 <= i < size ==> cells[i] == 0
    {
      generation := 0;
      cells := new nat[size](_ => 0);
    }

    /** The state of the record as the protocol sees it. */
    ghost predicate Shows(w: World)
      reads this, cells
    {
      w.generation == generation && w.cells == cells[..]
    }

    /** Publishes the exclusion patterns: the text character by character, then its
        terminator. The ghost results are the writer's steps and the worlds between them. */
    method PublishExclusions(value: seq<nat>, ghost before: World) returns (ghost trace: seq<World>, ghost steps: seq<Step>)
      requires cells.Length == EXCLUSION_CAPACITY && generation % 2 == 0
      requires |value| < EXCLUSION_CAPACITY && 0 !in value
      requires Shows(before)
      modifies this, cells
      ensures WriterRun(trace, steps, Text(EXCLUSION_CAPACITY)) && trace[0] == before && Shows(trace[|steps|])
      ensures Meaning(Text(EXCLUSION_CAPACITY), cells[..]) == value
      ensures if Meaning(Text(EXCLUSION_CAPACITY), old(cells[..])) == value then steps == [] && cells[..] == old(cells[..])
              else generation == old(generation) + 2 && trace[|steps|].versions == before.versions + [cells[..]]
    {
      hide WriterRun;
      trace, steps := [before], [];
      NoSteps(before, Text(EXCLUSION_CAPACITY));
      var n := 0;
      while n < EXCLUSION_CAPACITY && cells[n] != 0
        invariant n <= EXCLUSION_CAPACITY && forall i :: 0 <= i < n ==> cells[i] != 0
      {
        n := n + 1;
      }
      if cells[..n] == value {
        return;
      }
      trace, steps := Then(trace, steps, Text(EXCLUSION_CAPACITY), Begin);
      generation := generation + 1;
      for i := 0 to |value|
        invariant WriterRun(trace, steps, Text(EXCLUSION_CAPACITY)) && |trace| == |steps| + 1 && trace[0] == before && Shows(trace[|steps|])
        invariant generation == old(generation) + 1 && trace[|steps|].versions == before.versions
        invariant cells[..i] == value[..i]
      {
        trace, steps := Then(trace, steps, Text(EXCLUSION_CAPACITY), Write(i, value[i]));
        cells[i] := value[i];
      }
      trace, steps := Then(trace, steps, Text(EXCLUSION_CAPACITY), Write(|value|, 0));
      cells[|value|] := 0;
      trace, steps := Then(trace, steps, Text(EXCLUSION_CAPACITY), Commit);
      generation := generation + 1;
      assert cells[..|value|] == value;
      assert forall i :: 0 <= i < |value| ==> cells[i] == value[i];
    }

    /** Publishes the status table: at most StatusCapacity entries, then their number. */
    method PublishStatus(records: seq<nat>, ghost before: World) returns (ghost trace: seq<World>, ghost steps: seq<Step>)
      requires cells.Length == 1 + STATUS_CAPACITY && generation % 2 == 0
      requires Shows(before)
      modifies this, cells
      ensures WriterRun(trace, steps, Table(STATUS_CAPACITY)) && trace[0] == before && Shows(trace[|steps|])
      ensures Meaning(Table(STATUS_CAPACITY), cells[..]) == if |records| <= 256 then records else records[..256]
      ensures generation == old(generation) + 2 && trace[|steps|].versions == before.versions + [cells[..]]
    {
      hide WriterRun;
      trace, steps := [before], [];
      NoSteps(before, Table(STATUS_CAPACITY));
      trace, steps := Then(trace, steps, Table(STATUS_CAPACITY), Begin);
      generation := generation + 1;
      var count := 0;
      while count < |records| && count != STATUS_CAPACITY
        invariant count <= |records| && count <= STATUS_CAPACITY
        invariant WriterRun(trace, steps, Table(STATUS_CAPACITY)) && |trace| == |steps| + 1 && trace[0] == before && Shows(trace[|steps|])
        invariant generation == old(generation) + 1 && trace[|steps|].versions == before.versions
        invariant cells[1..1 + count] == records[..count]
      {
        trace, steps := Then(trace, steps, Table(STATUS_CAPACITY), Write(1 + count, records[count]));
        cells[1 + count] := records[count];
        count := count + 1;
      }
      trace, steps := Then(trace, steps, Table(STATUS_CAPACITY), Write(0, count));
      cells[0] := count;
      trace, steps := Then(trace, steps, Table(STATUS_CAPACITY), Commit);
      generation := generation + 1;
      assert cells[1..1 + count] == records[..count];
    }

    /** Publishes the route of the last dialog; only a process the agent manages does. */
    method MarkRoute(managed: bool, route: nat, detail: nat, ghost before: World)
      returns (ghost trace: seq<World>, ghost steps: seq<Step>)
      requires cells.Length == 2 && generation % 2 == 0
      requires Shows(before)
      modifies this, cells
      ensures WriterRun(trace, steps, Fields(2)) && trace[0] == before && Shows(trace[|steps|])
      ensures Meaning(Fields(2), cells[..]) == if managed then [route, detail] else old(cells[..])
      ensures if managed then generation == old(generation) + 2 && trace[|steps|].versions == before.versions + [cells[..]]
              else generation == old(generation) && steps == []
    {
      hide WriterRun;
      trace, steps := [before], [];
      NoSteps(before, Fields(2));
      if !managed {
        return;
      }
      trace, steps := Then(trace, steps, Fields(2), Begin);
      generation := generation + 1;
      trace, steps := Then(trace, steps, Fields(2), Write(0, route));
      cells[0] := route;
      trace, steps := Then(trace, steps, Fields(2), Write(1, detail));
      cells[1] := detail;
      trace, steps := Then(trace, steps, Fields(2), Commit);
      generation := generation + 1;
      assert cells[..] == [route, detail];
    }
  }

  // ----- decisions of the policy readers --------------------------------------

  /** The host attaches to a process unless the patterns it read exclude it; a policy it could
      not read counts as "*". */
  ghost predicate HostAttaches(r: Reader, path: seq<nat>, leaf: seq<nat>, spec: Wildcard) {
    !Excluded(if r.Accepted? then r.value else [STAR], path, leaf, spec)
  }

  /** The adapter replaces dialogs only under a policy it could read. */
  ghost predicate AdapterReplaces(r: Reader, image: seq<nat>, leaf: seq<nat>, spec: Wildcard) {
    r.Accepted? && !Excluded(r.value, image, leaf, spec)
  }

  /** The policy published as this version lets the program be changed. */
  ghost predicate Allows(w: World, version: nat, path: seq<nat>, leaf: seq<nat>, spec: Wildcard) {
    && version < |w.versions| && |w.versions[version]| == EXCLUSION_CAPACITY
    && !Excluded(Meaning(Text(EXCLUSION_CAPACITY), w.versions[version]), path, leaf, spec)
  }

  /** The host and the adapter each read the policy for themselves, at any times. Each decides
      as one whole published policy says, or does nothing; and they agree if they have read the
      same version. */
  lemma DecisionsFollowPublishedPolicy(trace: seq<World>, steps: seq<Step>, i: nat, r: nat, j: nat, s: nat,
                                       path: seq<nat>, leaf: seq<nat>, spec: Wildcard)
    requires Run(trace, steps, Text(EXCLUSION_CAPACITY)) && i < |trace| && j < |trace|
    requires r in trace[i].readers && (trace[i].readers[r].Accepted? || trace[i].readers[r].Refused?)
    requires s in trace[j].readers && (trace[j].readers[s].Accepted? || trace[j].readers[s].Refused?)
    requires spec(path, [STAR])
    ensures var host, adapter := trace[i].readers[r], trace[j].readers[s];
            && (HostAttaches(host, path, leaf, spec) <==> host.Accepted? && Allows(trace[i], host.version, path, leaf, spec))
            && (AdapterReplaces(adapter, path, leaf, spec)
                <==> adapter.Accepted? && Allows(trace[j], adapter.version, path, leaf, spec))
            && (host.Accepted? && adapter.Accepted? && host.version == adapter.version ==>
                  HostAttaches(host, path, leaf, spec) == AdapterReplaces(adapter, path, leaf, spec))
  {
    hide Excluded, Meaning, Run;
    if trace[i].readers[r].Accepted? {
      AcceptedIsPublished(trace, steps, Text(EXCLUSION_CAPACITY), i, r);
    } else {
      StarExcludes(path, leaf, spec);
    }
    if trace[j].readers[s].Accepted? {
      AcceptedIsPublished(trace, steps, Text(EXCLUSION_CAPACITY), j, s);
    }
    if i <= j {
      VersionsStay(trace, steps, Text(EXCLUSION_CAPACITY), i, j);
    } else {
      VersionsStay(trace, steps, Text(EXCLUSION_CAPACITY), j, i);
    }
  }

  lemma StarExcludes(path: seq<nat>, leaf: seq<nat>, spec: Wildcard)
    requires spec(path, [STAR])
    ensures Excluded([STAR], path, leaf, spec)
  {
    OneLine([STAR], path, leaf, spec);
    assert [STAR][0..1] == [STAR];
    LineByItsCore([STAR], 0, 1, path, leaf, spec);
  }
}
