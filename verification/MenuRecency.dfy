/** What the stamps of the menu cache mean in a run: they order the cached wrappers as their
    last acquires are ordered, so that eviction and idle retirement take what was not used for
    longest. */
module MenuRecency {
  import opened MenuCache
  import opened MenuProtocol

  /** The step hands out this wrapper, by a hit or freshly built. */
  ghost predicate Acquires(w: World, s: Step, x: nat) {
    match s
    case AcquireHit(_, _, slot) => 0 <= slot < |w.cache.entries| && w.cache.entries[slot].wrapper == x
    case BuildReturns(wrapper, _, _) => wrapper == x
    case _ => false
  }

  ghost predicate Builds(s: Step, x: nat) {
    s.BuildReturns? && s.wrapper == x
  }

  function TimeOf(s: Step): nat {
    match s
    case AcquireHit(_, now, _) => now
    case BuildReturns(_, now, _) => now
    case _ => 0
  }

  /** The number of steps up to and with the last one, before the i-th, that handed out x. */
  ghost function LastAcquire(trace: seq<World>, steps: seq<Step>, i: nat, x: nat): (n: nat)
    requires i <= |steps| < |trace|
    ensures n <= i && (n > 0 ==> Acquires(trace[n - 1], steps[n - 1], x))
  {
    if i == 0 then 0 else if Acquires(trace[i - 1], steps[i - 1], x) then i else LastAcquire(trace, steps, i - 1, x)
  }

  ghost function LastBuild(trace: seq<World>, steps: seq<Step>, i: nat, x: nat): (n: nat)
    requires i <= |steps| < |trace|
    ensures n <= i && (n > 0 ==> Builds(steps[n - 1], x))
  {
    if i == 0 then 0 else if Builds(steps[i - 1], x) then i else LastBuild(trace, steps, i - 1, x)
  }

  /** The key for which the wrapper was built: that of the call into which the build returned. */
  ghost predicate BuiltFor(trace: seq<World>, steps: seq<Step>, i: nat, x: nat, key: Key)
    requires i <= |steps| < |trace|
  {
    var n := LastBuild(trace, steps, i, x);
    n > 0 && var stack := trace[n - 1].stack; stack != [] && stack[|stack| - 1].Building? && stack[|stack| - 1].key == key
  }

  // ----- the invariant --------------------------------------------------------

  /** A cached wrapper knows when it was last handed out, and what it was built for. */
  ghost predicate EntryKnows(trace: seq<World>, steps: seq<Step>, i: nat, e: Entry)
    requires i <= |steps| < |trace|
  {
    var n := LastAcquire(trace, steps, i, e.wrapper);
    n > 0 && e.lastUseMs == TimeOf(steps[n - 1]) && BuiltFor(trace, steps, i, e.wrapper, e.key)
  }

  ghost predicate Stamped(trace: seq<World>, steps: seq<Step>, i: nat)
    requires i <= |steps| < |trace|
  {
    var c := trace[i].cache;
    forall a :: 0 <= a < |c.entries| && c.entries[a].wrapper != 0 ==>
      c.entries[a].lastUse <= c.clock && EntryKnows(trace, steps, i, c.entries[a])
  }

  ghost predicate SameOrder(trace: seq<World>, steps: seq<Step>, i: nat, a: Entry, b: Entry)
    requires i <= |steps| < |trace|
  {
    a.lastUse < b.lastUse <==> LastAcquire(trace, steps, i, a.wrapper) < LastAcquire(trace, steps, i, b.wrapper)
  }

  ghost predicate InUseOrder(trace: seq<World>, steps: seq<Step>, i: nat)
    requires i <= |steps| < |trace|
  {
    var es := trace[i].cache.entries;
    forall a, b :: 0 <= a < |es| && 0 <= b < |es| && es[a].wrapper != 0 && es[b].wrapper != 0 ==>
      SameOrder(trace, steps, i, es[a], es[b])
  }

  ghost predicate Recent(trace: seq<World>, steps: seq<Step>, i: nat)
    requires i <= |steps| < |trace|
  {
    Stamped(trace, steps, i) && InUseOrder(trace, steps, i)
  }

  /** Nothing of the entry has changed that the invariant is about. */
  predicate SameStamp(a: Entry, b: Entry) {
    a.wrapper == b.wrapper && a.lastUse == b.lastUse && a.lastUseMs == b.lastUseMs && a.key == b.key
  }

  ghost predicate OnlyForgets(c: Cache, c': Cache) {
    && |c.entries| == |c'.entries| && c'.clock == c.clock
    && forall a :: 0 <= a < |c.entries| && c'.entries[a].wrapper != 0 ==> SameStamp(c.entries[a], c'.entries[a])
  }

  /** The entry at `slot` has been stamped with the next tick of the clock. */
  ghost predicate Touches(c: Cache, c': Cache, slot: nat) {
    && slot < |c.entries| == |c'.entries| && c'.clock == c.clock + 1
    && c'.entries[slot].lastUse == c'.clock
    && forall a :: 0 <= a < |c.entries| && a != slot ==> c'.entries[a] == c.entries[a]
  }

  /** The step hands out none of these wrappers, except perhaps that of one entry. */
  ghost predicate Spares(w: World, s: Step, es: seq<Entry>, slot: int) {
    forall a :: 0 <= a < |es| && a != slot && es[a].wrapper != 0 ==> !Acquires(w, s, es[a].wrapper)
  }

  lemma SameLast(trace: seq<World>, steps: seq<Step>, i: nat, x: nat)
    requires i < |steps| < |trace| && !Acquires(trace[i], steps[i], x)
    ensures LastAcquire(trace, steps, i + 1, x) == LastAcquire(trace, steps, i, x)
    ensures LastBuild(trace, steps, i + 1, x) == LastBuild(trace, steps, i, x)
  {
  }

  lemma NotAcquired(trace: seq<World>, steps: seq<Step>, i: nat, e: Entry, e': Entry)
    requires i < |steps| < |trace| && SameStamp(e, e') && EntryKnows(trace, steps, i, e)
    requires !Acquires(trace[i], steps[i], e.wrapper)
    ensures EntryKnows(trace, steps, i + 1, e')
    ensures LastAcquire(trace, steps, i + 1, e'.wrapper) == LastAcquire(trace, steps, i, e.wrapper)
  {
    hide Acquires, LastAcquire, LastBuild, TimeOf;
    SameLast(trace, steps, i, e.wrapper);
  }

  lemma ForgettingKeepsRecent(trace: seq<World>, steps: seq<Step>, i: nat)
    requires i < |steps| < |trace| && Recent(trace, steps, i) && OnlyForgets(trace[i].cache, trace[i + 1].cache)
    requires Spares(trace[i], steps[i], trace[i + 1].cache.entries, -1)
    ensures Recent(trace, steps, i + 1)
  {
    hide Acquires, EntryKnows, LastAcquire;
    var es, es' := trace[i].cache.entries, trace[i + 1].cache.entries;
    forall a | 0 <= a < |es'| && es'[a].wrapper != 0
      ensures EntryKnows(trace, steps, i + 1, es'[a]) && es'[a].lastUse <= trace[i + 1].cache.clock
      ensures LastAcquire(trace, steps, i + 1, es'[a].wrapper) == LastAcquire(trace, steps, i, es[a].wrapper)
    {
      assert SameStamp(es[a], es'[a]);
      NotAcquired(trace, steps, i, es[a], es'[a]);
    }
    forall a, b | 0 <= a < |es'| && 0 <= b < |es'| && es'[a].wrapper != 0 && es'[b].wrapper != 0
      ensures SameOrder(trace, steps, i + 1, es'[a], es'[b])
    {
      assert SameStamp(es[a], es'[a]) && SameStamp(es[b], es'[b]);
      assert SameOrder(trace, steps, i, es[a], es[b]);
    }
  }

  lemma TouchingKeepsRecent(trace: seq<World>, steps: seq<Step>, i: nat, slot: nat)
    requires i < |steps| < |trace| && Recent(trace, steps, i) && Touches(trace[i].cache, trace[i + 1].cache, slot)
    requires var e' := trace[i + 1].cache.entries[slot];
             && e'.wrapper != 0 && Acquires(trace[i], steps[i], e'.wrapper)
             && e'.lastUseMs == TimeOf(steps[i]) && BuiltFor(trace, steps, i + 1, e'.wrapper, e'.key)
    requires Spares(trace[i], steps[i], trace[i].cache.entries, slot)
    ensures Recent(trace, steps, i + 1)
  {
    var es, es' := trace[i].cache.entries, trace[i + 1].cache.entries;
    assert LastAcquire(trace, steps, i + 1, es'[slot].wrapper) == i + 1;
    hide Acquires, LastAcquire, BuiltFor;
    forall a | 0 <= a < |es'| && es'[a].wrapper != 0 && a != slot
      ensures EntryKnows(trace, steps, i + 1, es'[a]) && es'[a].lastUse <= trace[i].cache.clock
      ensures LastAcquire(trace, steps, i + 1, es'[a].wrapper) == LastAcquire(trace, steps, i, es[a].wrapper) <= i
    {
      NotAcquired(trace, steps, i, es[a], es'[a]);
    }
    forall a, b | 0 <= a < |es'| && 0 <= b < |es'| && es'[a].wrapper != 0 && es'[b].wrapper != 0
      ensures SameOrder(trace, steps, i + 1, es'[a], es'[b])
    {
      if a != slot && b != slot {
        assert SameOrder(trace, steps, i, es[a], es[b]);
      }
    }
  }

  lemma HitKeepsRecent(trace: seq<World>, steps: seq<Step>, i: nat, budget: bool)
    requires i < |steps| < |trace| && Recent(trace, steps, i) && Inv(trace[i], budget) && steps[i].AcquireHit?
    requires Enabled(trace[i], budget, steps[i]) && trace[i + 1] == Apply(trace[i], budget, steps[i])
    ensures Recent(trace, steps, i + 1)
  {
    hide Recent, DeferredRight, OthersRight, DeferredBounded, ReleasesRight, InPartition;
    var slot := steps[i].slot;
    BuildStays(trace, steps, i, slot);
    TouchingKeepsRecent(trace, steps, i, slot);
  }

  lemma BuildStays(trace: seq<World>, steps: seq<Step>, i: nat, slot: nat)
    requires i < |steps| < |trace| && Recent(trace, steps, i) && !steps[i].BuildReturns?
    requires slot < |trace[i].cache.entries| && trace[i].cache.entries[slot].wrapper != 0
    ensures BuiltFor(trace, steps, i + 1, trace[i].cache.entries[slot].wrapper, trace[i].cache.entries[slot].key)
  {
    assert EntryKnows(trace, steps, i, trace[i].cache.entries[slot]);
  }

  lemma BuildKeepsRecent(trace: seq<World>, steps: seq<Step>, i: nat, budget: bool)
    requires i < |steps| < |trace| && Recent(trace, steps, i) && Inv(trace[i], budget) && steps[i].BuildReturns?
    requires Enabled(trace[i], budget, steps[i]) && trace[i + 1] == Apply(trace[i], budget, steps[i])
    ensures Recent(trace, steps, i + 1)
  {
    hide Recent, DeferredRight, OthersRight, DeferredBounded, ReleasesRight, InPartition;
    var w, s := trace[i], steps[i];
    var f := w.stack[|w.stack| - 1];
    assert Spares(w, s, w.cache.entries, -1);
    if s.wrapper != 0 && f.valid && CanInstall(w.cache, s.slot) {
      TouchingKeepsRecent(trace, steps, i, s.slot);
    } else {
      ForgettingKeepsRecent(trace, steps, i);
    }
  }

  lemma OtherKeepsRecent(trace: seq<World>, steps: seq<Step>, i: nat, budget: bool)
    requires i < |steps| < |trace| && Recent(trace, steps, i) && !steps[i].AcquireHit? && !steps[i].BuildReturns?
    requires Enabled(trace[i], budget, steps[i]) && trace[i + 1] == Apply(trace[i], budget, steps[i])
    ensures Recent(trace, steps, i + 1)
  {
    hide Recent;
    ForgettingKeepsRecent(trace, steps, i);
  }

  lemma NothingCached(trace: seq<World>, steps: seq<Step>)
    requires |trace| == |steps| + 1 && Init(trace[0])
    ensures Recent(trace, steps, 0)
  {
    hide EntryKnows, SameOrder;
  }

  lemma RunStep(trace: seq<World>, steps: seq<Step>, budget: bool, i: nat)
    requires Run(trace, steps, budget)
    ensures |trace| == |steps| + 1 && Init(trace[0])
    ensures i < |steps| ==> Enabled(trace[i], budget, steps[i]) && trace[i + 1] == Apply(trace[i], budget, steps[i])
  {
    hide Enabled, Apply, Init;
  }

  lemma {:induction false} RunKeepsRecent(trace: seq<World>, steps: seq<Step>, budget: bool, i: nat)
    requires Run(trace, steps, budget) && i < |trace|
    ensures Recent(trace, steps, i)
  {
    hide *;
    RunStep(trace, steps, budget, 0);
    if i == 0 {
      NothingCached(trace, steps);
    } else {
      RunKeepsRecent(trace, steps, budget, i - 1);
      RunKeepsInv(trace, steps, budget, i - 1);
      RunStep(trace, steps, budget, i - 1);
      match steps[i - 1] {
        case AcquireHit(_, _, _) => HitKeepsRecent(trace, steps, i - 1, budget);
        case BuildReturns(_, _, _) => BuildKeepsRecent(trace, steps, i - 1, budget);
        case _ => OtherKeepsRecent(trace, steps, i - 1, budget);
      }
    }
  }

  // ----- the theorems ---------------------------------------------------------

  /** A hit hands out the wrapper that was last built by a call for exactly this key. */
  lemma HitIsForItsKey(trace: seq<World>, steps: seq<Step>, budget: bool, i: nat)
    requires Run(trace, steps, budget) && i < |steps| && steps[i].AcquireHit?
    ensures 0 <= steps[i].slot < |trace[i].cache.entries|
    ensures BuiltFor(trace, steps, i, trace[i].cache.entries[steps[i].slot].wrapper, steps[i].key)
  {
    RunKeepsRecent(trace, steps, budget, i);
    assert Enabled(trace[i], budget, steps[i]);
    hide BuiltFor;
    assert EntryKnows(trace, steps, i, trace[i].cache.entries[steps[i].slot]);
  }

  /** A miss of a valid key means that no cached wrapper was last built for it. */
  lemma MissIsNew(trace: seq<World>, steps: seq<Step>, budget: bool, i: nat, a: nat)
    requires Run(trace, steps, budget) && i < |steps| && steps[i].AcquireMiss? && steps[i].valid
    requires a < |trace[i].cache.entries| && trace[i].cache.entries[a].wrapper != 0
    ensures !BuiltFor(trace, steps, i, trace[i].cache.entries[a].wrapper, steps[i].key)
  {
    RunKeepsRecent(trace, steps, budget, i);
    RunStep(trace, steps, budget, i);
    hide Run, Apply, LastAcquire, LastBuild, InUseOrder;
    assert EntryKnows(trace, steps, i, trace[i].cache.entries[a]);
  }

  /** There is a free entry in its part of the cache; or an idle one, whose wrapper can still be
      put off. */
  predicate HasPlace(c: Cache, key: Key, budget: bool) {
    exists k :: 0 <= k < |c.entries| && MayHold(k, key, budget)
                && (c.entries[k].wrapper == 0 || (c.entries[k].activeUses == 0 && |c.deferred| < 8))
  }

  lemma StampsBelow(c: Cache, trace: seq<World>, steps: seq<Step>, i: nat)
    requires i <= |steps| < |trace| && Stamped(trace, steps, i) && c == trace[i].cache && c.clock < NEVER
    ensures forall k :: 0 <= k < |c.entries| && c.entries[k].wrapper != 0 ==> c.entries[k].lastUse < NEVER
  {
    hide EntryKnows;
  }

  lemma InstallsExactly(c: Cache, key: Key, budget: bool, slot: int)
    requires |c.entries| == CACHE_CAPACITY && InstallSlot(c.entries, key, budget, slot) && |c.deferred| <= 8
    requires forall k :: 0 <= k < |c.entries| && c.entries[k].wrapper != 0 ==> c.entries[k].lastUse < NEVER
    ensures CanInstall(c, slot) <==> (budget ==> key.TextBytes() <= 65536) && HasPlace(c, key, budget)
  {
    var b, e := Begin(key), End(key, budget);
    assert forall k: nat :: MayHold(k, key, budget) <==> b <= k < e;
  }

  lemma IsInstalled(c: Cache, key: Key, x: nat, now: nat, slot: int)
    requires -1 <= slot < |c.entries| && x != 0 && x !in Cached(c.entries)
    ensures x in Cached(Installed(c, key, x, now, slot).entries) <==> CanInstall(c, slot)
  {
    if CanInstall(c, slot) {
      assert Installed(c, key, x, now, slot).entries[slot].wrapper == x;
    }
  }

  /** A wrapper that has been built is cached exactly if its key is valid, not too large under
      the budget, and has a place. */
  lemma BuildIsCachedExactly(trace: seq<World>, steps: seq<Step>, budget: bool, i: nat)
    requires Run(trace, steps, budget) && i < |steps| && steps[i].BuildReturns? && steps[i].wrapper != 0
    requires trace[i].cache.clock < 0xFFFF_FFFF_FFFF_FFFF
    ensures trace[i].stack != [] && trace[i].stack[|trace[i].stack| - 1].Building?
    ensures var f := trace[i].stack[|trace[i].stack| - 1];
            steps[i].wrapper in Cached(trace[i + 1].cache.entries) <==>
              f.valid && (budget ==> f.key.TextBytes() <= 65536) && HasPlace(trace[i].cache, f.key, budget)
  {
    RunKeepsRecent(trace, steps, budget, i);
    RunKeepsInv(trace, steps, budget, i);
    RunStep(trace, steps, budget, i);
    var w, s := trace[i], steps[i];
    var f := w.stack[|w.stack| - 1];
    StampsBelow(w.cache, trace, steps, i);
    HandedKeepsInv(w, budget, s.wrapper);
    hide Run, Recent, HasPlace, OthersRight, DeferredBounded, ReleasesRight, InPartition, Distinct, Evictable, Cached,
         CanInstall, Installed;
    InstallsExactly(w.cache, f.key, budget, s.slot);
    IsInstalled(w.cache, f.key, s.wrapper, s.now, s.slot);
  }

  /** Maintenance waits for the menus: while a cached wrapper is in use, or without a budget, it
      changes nothing. */
  lemma MaintenanceWaits(trace: seq<World>, steps: seq<Step>, budget: bool, i: nat, x: nat)
    requires Run(trace, steps, budget) && i < |steps| && steps[i].Maintain?
    requires !budget || (x in trace[i].uses && x in Cached(trace[i].cache.entries))
    ensures trace[i + 1] == trace[i]
  {
    RunKeepsInv(trace, steps, budget, i);
    RunStep(trace, steps, budget, i);
    hide Run, DeferredRight, OthersRight, DeferredBounded, ReleasesRight, InPartition, Distinct;
  }

  /** A build that evicts takes the place of an idle wrapper of its own part of the cache,
      which is full, and every other idle wrapper there was handed out later. */
  lemma EvictsTheLeastRecent(trace: seq<World>, steps: seq<Step>, budget: bool, i: nat)
    requires Run(trace, steps, budget) && i < |steps| && steps[i].BuildReturns? && steps[i].wrapper != 0
    requires 0 <= steps[i].slot < |trace[i].cache.entries| && trace[i].cache.entries[steps[i].slot].wrapper != 0
    ensures trace[i].stack != [] && trace[i].stack[|trace[i].stack| - 1].Building?
    ensures var w, slot, key := trace[i], steps[i].slot, trace[i].stack[|trace[i].stack| - 1].key;
            var es := w.cache.entries;
            && MayHold(slot, key, budget) && es[slot].activeUses == 0
            && forall k :: 0 <= k < |es| && k != slot && MayHold(k, key, budget) ==>
                 && es[k].wrapper != 0
                 && (es[k].activeUses == 0 ==>
                       LastAcquire(trace, steps, i, es[slot].wrapper) < LastAcquire(trace, steps, i, es[k].wrapper))
  {
    RunKeepsRecent(trace, steps, budget, i);
    RunKeepsInv(trace, steps, budget, i);
    RunStep(trace, steps, budget, i);
    hide Run, Apply, Inv, Recent, Acquires, LastAcquire, MayHold;
    var w, slot, key := trace[i], steps[i].slot, trace[i].stack[|trace[i].stack| - 1].key;
    var es := w.cache.entries;
    FullPart(es, key, budget, slot);
    hide InstallSlot;
    forall k | 0 <= k < |es| && k != slot && MayHold(k, key, budget) && es[k].activeUses == 0
      ensures LastAcquire(trace, steps, i, es[slot].wrapper) < LastAcquire(trace, steps, i, es[k].wrapper)
    {
      HandedOutBefore(trace, steps, budget, i, slot, k);
    }
  }

  lemma HandedOutBefore(trace: seq<World>, steps: seq<Step>, budget: bool, i: nat, a: nat, b: nat)
    requires Run(trace, steps, budget) && i < |steps| && a < |trace[i].cache.entries| && b < |trace[i].cache.entries| && a != b
    requires var es := trace[i].cache.entries; es[a].wrapper != 0 && es[b].wrapper != 0 && es[a].lastUse <= es[b].lastUse
    ensures var es := trace[i].cache.entries;
            LastAcquire(trace, steps, i, es[a].wrapper) < LastAcquire(trace, steps, i, es[b].wrapper)
  {
    RunKeepsRecent(trace, steps, budget, i);
    OneAtATime(trace, steps, budget, i, a, b);
    hide Run, LastAcquire, Stamped;
    assert SameOrder(trace, steps, i, trace[i].cache.entries[b], trace[i].cache.entries[a]);
  }

  lemma FullPart(es: seq<Entry>, key: Key, budget: bool, slot: nat)
    requires |es| == CACHE_CAPACITY && slot < |es| && InstallSlot(es, key, budget, slot) && es[slot].wrapper != 0
    ensures MayHold(slot, key, budget) && es[slot].activeUses == 0
    ensures forall k :: 0 <= k < |es| && MayHold(k, key, budget) ==>
              es[k].wrapper != 0 && (es[k].activeUses == 0 ==> es[slot].lastUse <= es[k].lastUse)
  {
  }

  /** No step hands out two wrappers. */
  lemma OneAtATime(trace: seq<World>, steps: seq<Step>, budget: bool, i: nat, a: nat, b: nat)
    requires Run(trace, steps, budget) && i < |trace| && a < |trace[i].cache.entries| && b < |trace[i].cache.entries| && a != b
    requires trace[i].cache.entries[a].wrapper != 0 && trace[i].cache.entries[b].wrapper != 0
    ensures LastAcquire(trace, steps, i, trace[i].cache.entries[a].wrapper)
            != LastAcquire(trace, steps, i, trace[i].cache.entries[b].wrapper)
  {
    RunKeepsInv(trace, steps, budget, i);
    RunKeepsRecent(trace, steps, budget, i);
    hide LastAcquire, BuiltFor, DeferredRight, OthersRight, InPartition, Enabled, Apply;
    var x, y := trace[i].cache.entries[a].wrapper, trace[i].cache.entries[b].wrapper;
    assert EntryKnows(trace, steps, i, trace[i].cache.entries[a]);
  }

  /** The entry is not in use, and was last handed out two minutes ago or more on the system's
      64-bit clock if the mode is 0. */
  ghost predicate Dispensable(trace: seq<World>, steps: seq<Step>, i: nat, e: Entry, mode: nat, now: nat)
    requires i <= |steps| < |trace|
  {
    var n := LastAcquire(trace, steps, i, e.wrapper);
    n > 0 && e.activeUses == 0 && (mode != 0 || (now - TimeOf(steps[n - 1])) % 0x1_0000_0000_0000_0000 >= 120000)
  }

  lemma RetirableIsDispensable(trace: seq<World>, steps: seq<Step>, i: nat, e: Entry, mode: nat, now: nat)
    requires i <= |steps| < |trace| && e.wrapper != 0 && EntryKnows(trace, steps, i, e)
    ensures Retirable(e, mode, now) <==> Dispensable(trace, steps, i, e, mode, now)
  {
    hide BuiltFor, LastAcquire, TimeOf;
  }

  lemma Knows(trace: seq<World>, steps: seq<Step>, i: nat, k: nat)
    requires i <= |steps| < |trace| && Recent(trace, steps, i)
    requires k < |trace[i].cache.entries| && trace[i].cache.entries[k].wrapper != 0
    ensures EntryKnows(trace, steps, i, trace[i].cache.entries[k])
  {
    hide EntryKnows, InUseOrder;
  }

  /** Maintenance is about to go on at entry `from`: it starts, with no entry in use, or one of
      its native releases returns. */
  ghost predicate MaintainsFrom(w: World, budget: bool, s: Step, from: nat, mode: nat, now: nat, slot: int) {
    || (s == Maintain(mode, now, slot) && budget && from == 0
        && forall k :: 0 <= k < |w.cache.entries| ==> w.cache.entries[k].activeUses == 0)
    || (s == ReleaseReturns(slot) && w.stack != [] && w.stack[|w.stack| - 1] == Retiring(from, mode, now))
  }

  lemma ScansOn(w: World, budget: bool, s: Step, from: nat, mode: nat, now: nat, slot: int)
    requires Enabled(w, budget, s) && MaintainsFrom(w, budget, s, from, mode, now, slot)
    ensures slot == -1 || from <= slot < |w.cache.entries|
    ensures slot >= 0 ==> Retirable(w.cache.entries[slot], mode, now) && w.cache.entries[slot].wrapper != 0
    ensures forall k :: from <= k < |w.cache.entries| && Retirable(w.cache.entries[k], mode, now) ==> 0 <= slot <= k
  {
  }

  lemma SameSize(w: World, budget: bool)
    requires Inv(w, budget)
    ensures |w.cache.entries| == CACHE_CAPACITY
  {
  }

  /** The entry is cleared, its wrapper is released natively, and the scan goes on behind it;
      where there is none, one wrapper that was put off is released, if there is any. */
  lemma ScanEffect(w: World, budget: bool, s: Step, from: nat, mode: nat, now: nat, slot: int)
    requires Inv(w, budget) && Enabled(w, budget, s) && MaintainsFrom(w, budget, s, from, mode, now, slot)
    ensures -1 <= slot < |w.cache.entries|
    ensures var w', rest := Apply(w, budget, s), if s.Maintain? then w.stack else w.stack[..|w.stack| - 1];
            if slot >= 0 then
              && w'.cache.entries[slot].wrapper == 0 && w'.stack == rest + [Retiring(slot + 1, mode, now)]
              && w'.releases == w.releases + [Release(w.cache.entries[slot].wrapper, true, 0)]
            else if w.cache.deferred == [] then w'.releases == w.releases && w'.stack == rest
            else
              && w'.releases == w.releases + [Release(w.cache.deferred[|w.cache.deferred| - 1], true, 0)]
              && w'.stack == rest + [Draining] && w'.cache.entries == w.cache.entries
  {
    hide OthersRight, DeferredBounded, ReleasesRight, InPartition, Distinct, Cached;
  }

  /** Maintenance retires only what is dispensable, and its scan passes over nothing that is. */
  lemma RetiresExactlyTheIdle(trace: seq<World>, steps: seq<Step>, budget: bool, i: nat, from: nat, mode: nat, now: nat, slot: int)
    requires Run(trace, steps, budget) && i < |steps| && MaintainsFrom(trace[i], budget, steps[i], from, mode, now, slot)
    ensures var es := trace[i].cache.entries;
            && (slot == -1
                || (from <= slot < |es| && es[slot].wrapper != 0 && Dispensable(trace, steps, i, es[slot], mode, now)))
            && forall k :: from <= k < |es| && es[k].wrapper != 0 && Dispensable(trace, steps, i, es[k], mode, now) ==>
                 0 <= slot <= k
    ensures 0 <= slot < |trace[i].cache.entries| ==>
              && |trace[i + 1].cache.entries| == |trace[i].cache.entries| && trace[i + 1].cache.entries[slot].wrapper == 0
              && trace[i + 1].releases == trace[i].releases + [Release(trace[i].cache.entries[slot].wrapper, true, 0)]
              && trace[i + 1].stack != [] && trace[i + 1].stack[|trace[i + 1].stack| - 1] == Retiring(slot + 1, mode, now)
  {
    hide *;
    RunStep(trace, steps, budget, i);
    RunKeepsInv(trace, steps, budget, i);
    RunKeepsInv(trace, steps, budget, i + 1);
    SameSize(trace[i], budget);
    SameSize(trace[i + 1], budget);
    RunKeepsRecent(trace, steps, budget, i);
    ScansOn(trace[i], budget, steps[i], from, mode, now, slot);
    ScanEffect(trace[i], budget, steps[i], from, mode, now, slot);
    var es := trace[i].cache.entries;
    forall k | from <= k < |es| && es[k].wrapper != 0
      ensures Retirable(es[k], mode, now) <==> Dispensable(trace, steps, i, es[k], mode, now)
    {
      Knows(trace, steps, i, k);
      RetirableIsDispensable(trace, steps, i, es[k], mode, now);
    }
  }
}
