/** Runs of the context-menu cache. A native build and a native release are calls into code
    that may open and close further menus or run maintenance before it returns, so a run is a
    sequence of steps over a stack of calls in progress. The native allocator returns any
    wrapper that is not alive, and every wrapper handed out is given back once per acquire. */
module MenuProtocol {
  import opened MenuCache

  /** A call that is inside native code: a build, a release after which the deferred wrappers
      are drained, or a release by maintenance, which goes on at entry `next`. */
  datatype Frame = Building(key: Key, valid: bool) | Draining | Retiring(next: nat, mode: nat, now: nat)

  /** What was true of a wrapper at the moment it reached the native release. */
  datatype Release = Release(wrapper: nat, alive: bool, outstanding: nat)

  /** alive: built and not natively released; uses: acquires not yet given back. */
  datatype World = World(
    cache: Cache, stack: seq<Frame>, alive: set<nat>, uses: multiset<nat>, built: nat, releases: seq<Release>)
  {
    function NativeRelease(x: nat): World {
      this.(alive := alive - {x}, releases := releases + [Release(x, x in alive, uses[x])])
    }

    function Push(f: Frame): World {
      this.(stack := stack + [f])
    }

    function Pop(): World
      requires stack != []
    {
      this.(stack := stack[..|stack| - 1])
    }
  }

  /** Drains one deferred wrapper, or leaves the drain loop when there is none. */
  function Drain(w: World): World {
    var d := w.cache.deferred;
    if d == [] then w
    else w.(cache := w.cache.(deferred := d[..|d| - 1])).NativeRelease(d[|d| - 1]).Push(Draining)
  }

  /** Goes on with maintenance, having found `slot` as the next entry to retire. */
  function Retire(w: World, mode: nat, now: nat, slot: int): World
    requires -1 <= slot < |w.cache.entries|
  {
    if slot < 0 then Drain(w)
    else w.(cache := Retired(w.cache, slot)).NativeRelease(w.cache.entries[slot].wrapper).Push(Retiring(slot + 1, mode, now))
  }

  datatype Step =
    | AcquireHit(key: Key, now: nat, slot: int)
    | AcquireMiss(key: Key, valid: bool)
    | BuildReturns(wrapper: nat, now: nat, slot: int)
    | GiveBack(wrapper: nat, slot: int)
    | ReleaseReturns(slot: int)
    | Maintain(mode: nat, now: nat, slot: int)

  ghost predicate Enabled(w: World, budget: bool, s: Step) {
    && |w.cache.entries| == CACHE_CAPACITY
    && match s
       case AcquireHit(key, _, slot) => slot >= 0 && KeySlot(w.cache.entries, key, slot)
       case AcquireMiss(key, valid) => valid ==> KeySlot(w.cache.entries, key, -1)
       case BuildReturns(wrapper, _, slot) =>
         && w.stack != [] && w.stack[|w.stack| - 1].Building?
         && wrapper !in w.alive
         && InstallSlot(w.cache.entries, w.stack[|w.stack| - 1].key, budget, slot)
       case GiveBack(wrapper, slot) => wrapper in w.uses && WrapperSlot(w.cache.entries, wrapper, slot)
       case ReleaseReturns(slot) =>
         && w.stack != []
         && !w.stack[|w.stack| - 1].Building?
         && var f := w.stack[|w.stack| - 1];
         f.Retiring? ==> RetireSlot(w.cache.entries, f.next, f.mode, f.now, slot)
       case Maintain(mode, now, slot) =>
         budget && !AnyActive(w.cache.entries) ==> RetireSlot(w.cache.entries, 0, mode, now, slot)
  }

  ghost function Apply(w: World, budget: bool, s: Step): World
    requires Enabled(w, budget, s)
  {
    match s
    case AcquireHit(_, now, slot) =>
      w.(cache := Used(w.cache, slot, now), uses := w.uses + multiset{w.cache.entries[slot].wrapper})
    case AcquireMiss(key, valid) => w.Push(Building(key, valid))
    case BuildReturns(wrapper, now, slot) =>
      var f := w.stack[|w.stack| - 1];
      if wrapper == 0 then w.Pop()
      else
        w.(cache := if f.valid then Installed(w.cache, f.key, wrapper, now, slot) else w.cache,
           alive := w.alive + {wrapper}, uses := w.uses + multiset{wrapper}, built := w.built + 1).Pop()
    case GiveBack(wrapper, slot) =>
      var given := w.(uses := w.uses - multiset{wrapper});
      if slot >= 0 then Drain(given.(cache := Unused(w.cache, slot)))
      else given.NativeRelease(wrapper).Push(Draining)
    case ReleaseReturns(slot) =>
      var f := w.stack[|w.stack| - 1];
      if f.Retiring? then Retire(w.Pop(), f.mode, f.now, slot) else Drain(w.Pop())
    case Maintain(mode, now, slot) =>
      if budget && !AnyActive(w.cache.entries) then Retire(w, mode, now, slot) else w
  }

  ghost predicate Init(w: World) {
    && |w.cache.entries| == CACHE_CAPACITY && w.cache.deferred == []
    && (forall e :: e in w.cache.entries ==> e.wrapper == 0 && e.activeUses == 0)
    && w.stack == [] && w.alive == {} && w.uses == multiset{} && w.built == 0 && w.releases == []
  }

  ghost predicate Run(trace: seq<World>, steps: seq<Step>, budget: bool) {
    && |trace| == |steps| + 1
    && Init(trace[0])
    && forall i :: 0 <= i < |steps| ==> Enabled(trace[i], budget, steps[i]) && trace[i + 1] == Apply(trace[i], budget, steps[i])
  }

  // ----- the invariant --------------------------------------------------------

  function Cached(entries: seq<Entry>): set<nat> {
    set i | 0 <= i < |entries| && entries[i].wrapper != 0 :: entries[i].wrapper
  }

  ghost predicate Distinct(es: seq<Entry>) {
    forall i, j :: 0 <= i < j < |es| && es[i].wrapper != 0 ==> es[i].wrapper != es[j].wrapper
  }

  lemma CachedAfter(es: seq<Entry>, slot: nat, e: Entry)
    requires slot < |es| && Distinct(es)
    ensures Cached(es[slot := e]) == Cached(es) - {es[slot].wrapper} + (if e.wrapper != 0 then {e.wrapper} else {})
  {
    var es' := es[slot := e];
    forall x | x in Cached(es) && x != es[slot].wrapper ensures x in Cached(es') {
      var i :| 0 <= i < |es| && es[i].wrapper == x;
      assert es'[i].wrapper == x;
    }
    if e.wrapper != 0 {
      assert es'[slot].wrapper == e.wrapper;
    }
    forall x | x in Cached(es') ensures x in Cached(es) - {es[slot].wrapper} || x == e.wrapper != 0 {
      var i :| 0 <= i < |es'| && es'[i].wrapper == x;
      assert i != slot ==> es[i].wrapper == x;
    }
  }

  predicate InPartition(i: nat, key: Key, budget: bool) {
    Begin(key) <= i < End(key, budget) && !(budget && TooLarge(key))
  }

  ghost predicate EntriesRight(w: World, budget: bool) {
    var es := w.cache.entries;
    && |es| == CACHE_CAPACITY
    && (forall i :: 0 <= i < |es| && es[i].wrapper != 0 ==>
          es[i].wrapper in w.alive && es[i].activeUses == w.uses[es[i].wrapper] && InPartition(i, es[i].key, budget))
    && (forall i :: 0 <= i < |es| && es[i].wrapper == 0 ==> es[i].activeUses == 0)
    && Distinct(es)
  }

  ghost predicate DeferredRight(w: World) {
    var d := w.cache.deferred;
    && |d| <= DEFERRED_CAPACITY
    && (forall k :: 0 <= k < |d| ==> d[k] in w.alive && w.uses[d[k]] == 0 && d[k] !in Cached(w.cache.entries))
    && (forall k, l :: 0 <= k < l < |d| ==> d[k] != d[l])
  }

  /** A live wrapper that is neither cached nor put off is in the hands of one open menu. */
  ghost predicate OthersRight(w: World) {
    && 0 !in w.alive
    && (forall x :: x in w.uses ==> x in w.alive)
    && (forall x :: x in w.alive && x !in Cached(w.cache.entries) && x !in w.cache.deferred ==> w.uses[x] == 1)
    && w.built == |w.releases| + |w.alive|
  }

  /** The uses of all cached wrappers together. */
  function ActiveUses(es: seq<Entry>, n: nat): nat
    requires n <= |es|
  {
    if n == 0 then 0 else ActiveUses(es, n - 1) + es[n - 1].activeUses
  }

  lemma {:induction false} ActiveAfter(es: seq<Entry>, n: nat, slot: nat, e: Entry)
    requires n <= |es| && slot < |es|
    ensures ActiveUses(es[slot := e], n) == ActiveUses(es, n) + (if slot < n then e.activeUses - es[slot].activeUses else 0)
  {
    if n > 0 {
      ActiveAfter(es, n - 1, slot, e);
    }
  }

  /** Every wrapper that was put off was put off for a cached menu that is still open. */
  ghost predicate DeferredBounded(c: Cache, slack: nat) {
    |c.entries| == CACHE_CAPACITY && |c.deferred| <= ActiveUses(c.entries, CACHE_CAPACITY) + slack
  }

  ghost predicate ReleasesRight(w: World) {
    forall r :: r in w.releases ==> r.alive && r.outstanding == 0
  }

  ghost predicate Inv(w: World, budget: bool) {
    EntriesRight(w, budget) && DeferredRight(w) && OthersRight(w) && DeferredBounded(w.cache, 0) && ReleasesRight(w)
  }

  /** The invariant up to `slack` wrappers that the drain to come will take. */
  ghost predicate Core(w: World, budget: bool, slack: nat) {
    EntriesRight(w, budget) && DeferredRight(w) && OthersRight(w) && DeferredBounded(w.cache, slack) && ReleasesRight(w)
  }

  lemma TakingDeferredIsSafe(w: World, budget: bool)
    requires Core(w, budget, 1) && w.cache.deferred != []
    ensures DeferredRight(Drain(w)) && ReleasesRight(Drain(w))
  {
  }

  lemma DrainKeepsInv(w: World, budget: bool)
    requires Core(w, budget, 1)
    ensures Inv(Drain(w), budget)
  {
    var d := w.cache.deferred;
    if d != [] {
      TakingDeferredIsSafe(w, budget);
      var x := d[|d| - 1];
      assert x in d && d == d[..|d| - 1] + [x];
      assert EntriesRight(Drain(w), budget);
    }
  }

  /** The entry is cleared and its wrapper released. */
  function AfterRetiring(w: World, f: Frame, slot: nat): World
    requires slot < |w.cache.entries|
  {
    w.(cache := Retired(w.cache, slot)).NativeRelease(w.cache.entries[slot].wrapper).Push(f)
  }

  lemma RetiredKeepsEntries(w: World, budget: bool, f: Frame, slot: nat)
    requires EntriesRight(w, budget) && slot < |w.cache.entries| && w.cache.entries[slot].wrapper != 0
    ensures EntriesRight(AfterRetiring(w, f, slot), budget)
  {
    hide Cached, InPartition;
  }

  lemma RetiredKeepsOthers(w: World, budget: bool, f: Frame, slot: nat)
    requires Inv(w, budget) && slot < |w.cache.entries|
    requires w.cache.entries[slot].wrapper != 0 && w.cache.entries[slot].activeUses == 0
    ensures DeferredRight(AfterRetiring(w, f, slot)) && OthersRight(AfterRetiring(w, f, slot))
  {
    CachedAfter(w.cache.entries, slot, Retired(w.cache, slot).entries[slot]);
    assert w.cache.entries[slot].wrapper in Cached(w.cache.entries);
    hide Cached, InPartition, Distinct;
  }

  lemma RetiredKeepsInv(w: World, budget: bool, f: Frame, slot: nat)
    requires Inv(w, budget) && slot < |w.cache.entries|
    requires w.cache.entries[slot].wrapper != 0 && w.cache.entries[slot].activeUses == 0
    ensures Inv(AfterRetiring(w, f, slot), budget)
  {
    RetiredKeepsEntries(w, budget, f, slot);
    RetiredKeepsOthers(w, budget, f, slot);
    ActiveAfter(w.cache.entries, CACHE_CAPACITY, slot, Retired(w.cache, slot).entries[slot]);
    hide DeferredRight, OthersRight, Cached, InPartition, Distinct;
  }

  lemma RetireKeepsInv(w: World, budget: bool, mode: nat, now: nat, slot: int)
    requires Inv(w, budget) && -1 <= slot < |w.cache.entries|
    requires slot >= 0 ==> Retirable(w.cache.entries[slot], mode, now)
    ensures Inv(Retire(w, mode, now, slot), budget)
  {
    if slot < 0 {
      DrainKeepsInv(w, budget);
    } else {
      RetiredKeepsInv(w, budget, Retiring(slot + 1, mode, now), slot);
    }
  }

  lemma HitKeepsInv(w: World, budget: bool, now: nat, slot: nat)
    requires Inv(w, budget) && slot < |w.cache.entries| && w.cache.entries[slot].wrapper != 0
    ensures Inv(w.(cache := Used(w.cache, slot, now), uses := w.uses + multiset{w.cache.entries[slot].wrapper}), budget)
  {
    var e' := Used(w.cache, slot, now).entries[slot];
    CachedAfter(w.cache.entries, slot, e');
    ActiveAfter(w.cache.entries, CACHE_CAPACITY, slot, e');
  }

  lemma UnusedKeepsCore(w: World, budget: bool, wrapper: nat, slot: nat)
    requires Inv(w, budget) && wrapper in w.uses && slot < |w.cache.entries| && w.cache.entries[slot].wrapper == wrapper
    ensures Core(w.(uses := w.uses - multiset{wrapper}, cache := Unused(w.cache, slot)), budget, 1)
  {
    var e' := Unused(w.cache, slot).entries[slot];
    CachedAfter(w.cache.entries, slot, e');
    ActiveAfter(w.cache.entries, CACHE_CAPACITY, slot, e');
  }

  /** A wrapper that is not in the cache is given back and released. */
  function AfterGivingBack(w: World, wrapper: nat): World {
    w.(uses := w.uses - multiset{wrapper}).NativeRelease(wrapper).Push(Draining)
  }

  lemma UncachedKeepsEntries(w: World, budget: bool, wrapper: nat)
    requires EntriesRight(w, budget) && wrapper in w.uses && wrapper !in Cached(w.cache.entries)
    ensures EntriesRight(AfterGivingBack(w, wrapper), budget)
  {
    hide InPartition;
    var es := w.cache.entries;
    assert forall i :: 0 <= i < |es| && es[i].wrapper != 0 ==> es[i].wrapper in Cached(es);
    hide Cached;
  }

  lemma UncachedKeepsOthers(w: World, wrapper: nat)
    requires DeferredRight(w) && OthersRight(w) && wrapper in w.uses && wrapper !in Cached(w.cache.entries)
    ensures DeferredRight(AfterGivingBack(w, wrapper)) && OthersRight(AfterGivingBack(w, wrapper))
    ensures wrapper in w.alive && (AfterGivingBack(w, wrapper).uses)[wrapper] == 0
  {
    hide Cached;
    assert wrapper in w.alive && wrapper !in w.cache.deferred && w.uses[wrapper] == 1;
  }

  lemma UncachedKeepsInv(w: World, budget: bool, wrapper: nat)
    requires Inv(w, budget) && wrapper in w.uses && wrapper !in Cached(w.cache.entries)
    ensures Inv(AfterGivingBack(w, wrapper), budget)
  {
    hide EntriesRight, DeferredRight, OthersRight, Cached;
    UncachedKeepsEntries(w, budget, wrapper);
    UncachedKeepsOthers(w, wrapper);
  }

  /** The new wrapper before it is installed: one more uncached wrapper in use. */
  function Handed(w: World, wrapper: nat): World {
    w.(alive := w.alive + {wrapper}, uses := w.uses + multiset{wrapper}, built := w.built + 1)
  }

  lemma HandedKeepsInv(w: World, budget: bool, wrapper: nat)
    requires Inv(w, budget) && wrapper != 0 && wrapper !in w.alive
    ensures Inv(Handed(w, wrapper), budget)
    ensures wrapper !in Cached(w.cache.entries) && wrapper !in w.cache.deferred && wrapper !in w.uses
  {
    var d := w.cache.deferred;
    assert forall k :: 0 <= k < |d| ==> d[k] in w.alive;
  }

  lemma InstalledKeepsEntries(w: World, budget: bool, key: Key, wrapper: nat, now: nat, slot: int)
    requires EntriesRight(w, budget) && wrapper in w.alive && wrapper != 0 && w.uses[wrapper] == 1
    requires wrapper !in Cached(w.cache.entries) && InstallSlot(w.cache.entries, key, budget, slot)
    ensures EntriesRight(w.(cache := Installed(w.cache, key, wrapper, now, slot)), budget)
  {
  }

  lemma InstalledKeepsOthers(w: World, budget: bool, key: Key, wrapper: nat, now: nat, slot: int)
    requires EntriesRight(w, budget) && DeferredRight(w) && OthersRight(w) && wrapper in w.alive && w.uses[wrapper] == 1
    requires wrapper !in Cached(w.cache.entries) && wrapper !in w.cache.deferred
    requires InstallSlot(w.cache.entries, key, budget, slot)
    ensures DeferredRight(w.(cache := Installed(w.cache, key, wrapper, now, slot)))
    ensures OthersRight(w.(cache := Installed(w.cache, key, wrapper, now, slot)))
  {
    var c, c' := w.cache, Installed(w.cache, key, wrapper, now, slot);
    if CanInstall(c, slot) {
      CachedAfter(c.entries, slot, c'.entries[slot]);
      var evicted := c.entries[slot].wrapper;
      if evicted != 0 {
        assert evicted in Cached(c.entries);
        assert forall x :: x in c'.deferred <==> x in c.deferred || x == evicted;
      }
    }
    hide Cached, Distinct, InPartition;
  }

  lemma InstalledKeepsBound(w: World, budget: bool, key: Key, wrapper: nat, now: nat, slot: int)
    requires EntriesRight(w, budget) && DeferredBounded(w.cache, 0) && InstallSlot(w.cache.entries, key, budget, slot)
    ensures DeferredBounded(Installed(w.cache, key, wrapper, now, slot), 0)
  {
    hide Cached, Distinct, InPartition;
    var c, c' := w.cache, Installed(w.cache, key, wrapper, now, slot);
    if CanInstall(c, slot) {
      ActiveAfter(c.entries, CACHE_CAPACITY, slot, c'.entries[slot]);
    }
  }

  lemma InstalledKeepsInv(w: World, budget: bool, key: Key, wrapper: nat, now: nat, slot: int)
    requires Inv(w, budget) && wrapper in w.alive && wrapper != 0 && w.uses[wrapper] == 1
    requires wrapper !in Cached(w.cache.entries) && wrapper !in w.cache.deferred
    requires InstallSlot(w.cache.entries, key, budget, slot)
    ensures Inv(w.(cache := Installed(w.cache, key, wrapper, now, slot)), budget)
  {
    hide EntriesRight, DeferredRight, OthersRight, DeferredBounded, Cached, Installed, InstallSlot;
    InstalledKeepsEntries(w, budget, key, wrapper, now, slot);
    InstalledKeepsOthers(w, budget, key, wrapper, now, slot);
    InstalledKeepsBound(w, budget, key, wrapper, now, slot);
  }

  lemma BuildKeepsInv(w: World, budget: bool, wrapper: nat, now: nat, slot: int)
    requires Inv(w, budget) && Enabled(w, budget, BuildReturns(wrapper, now, slot))
    ensures Inv(Apply(w, budget, BuildReturns(wrapper, now, slot)), budget)
  {
    var f := w.stack[|w.stack| - 1];
    if wrapper != 0 {
      HandedKeepsInv(w, budget, wrapper);
      if f.valid {
        InstalledKeepsInv(Handed(w, wrapper), budget, f.key, wrapper, now, slot);
      }
    }
  }

  lemma GiveBackKeepsInv(w: World, budget: bool, wrapper: nat, slot: int)
    requires Inv(w, budget) && Enabled(w, budget, GiveBack(wrapper, slot))
    ensures Inv(Apply(w, budget, GiveBack(wrapper, slot)), budget)
  {
    if slot >= 0 {
      UnusedKeepsCore(w, budget, wrapper, slot);
      DrainKeepsInv(w.(uses := w.uses - multiset{wrapper}, cache := Unused(w.cache, slot)), budget);
    } else {
      UncachedKeepsInv(w, budget, wrapper);
    }
  }

  /** Every step keeps the invariant. */
  lemma StepKeepsInv(w: World, budget: bool, s: Step)
    requires Inv(w, budget) && Enabled(w, budget, s)
    ensures Inv(Apply(w, budget, s), budget)
  {
    match s {
      case AcquireHit(key, now, slot) => HitKeepsInv(w, budget, now, slot);
      case AcquireMiss(key, valid) =>
      case BuildReturns(wrapper, now, slot) => BuildKeepsInv(w, budget, wrapper, now, slot);
      case GiveBack(wrapper, slot) => GiveBackKeepsInv(w, budget, wrapper, slot);
      case ReleaseReturns(slot) =>
        var f := w.stack[|w.stack| - 1];
        if f.Retiring? {
          RetireKeepsInv(w.Pop(), budget, f.mode, f.now, slot);
        } else {
          DrainKeepsInv(w.Pop(), budget);
        }
      case Maintain(mode, now, slot) =>
        if budget && !AnyActive(w.cache.entries) {
          RetireKeepsInv(w, budget, mode, now, slot);
        }
    }
  }

  lemma {:induction false} RunKeepsInv(trace: seq<World>, steps: seq<Step>, budget: bool, i: nat)
    requires Run(trace, steps, budget) && i < |trace|
    ensures Inv(trace[i], budget)
  {
    if i > 0 {
      RunKeepsInv(trace, steps, budget, i - 1);
      assert trace[i] == Apply(trace[i - 1], budget, steps[i - 1]);
      StepKeepsInv(trace[i - 1], budget, steps[i - 1]);
    }
  }

  // ----- the theorems ---------------------------------------------------------

  /** No wrapper reaches the native release while somebody still uses it, none is released
      twice, and a hit never hands out a wrapper that was released. */
  lemma ReleasedOnceAndUnused(trace: seq<World>, steps: seq<Step>, budget: bool, i: nat)
    requires Run(trace, steps, budget) && i < |trace|
    ensures forall r :: r in trace[i].releases ==> r.alive && r.outstanding == 0
    ensures forall x :: x in trace[i].uses ==> x in trace[i].alive
    ensures i < |steps| && steps[i].AcquireHit? ==> trace[i].cache.entries[steps[i].slot].wrapper in trace[i].alive
  {
    RunKeepsInv(trace, steps, budget, i);
    if i < |steps| {
      assert Enabled(trace[i], budget, steps[i]);
    }
  }

  /** The number of occupied entries among the first n. */
  function Occupied(es: seq<Entry>, n: nat): nat
    requires n <= |es|
  {
    if n == 0 then 0 else Occupied(es, n - 1) + (if es[n - 1].wrapper != 0 then 1 else 0)
  }

  lemma CachedOneMore(es: seq<Entry>, n: nat)
    requires n < |es|
    ensures Cached(es[..n + 1]) == Cached(es[..n]) + (if es[n].wrapper != 0 then {es[n].wrapper} else {})
  {
    forall x | x in Cached(es[..n]) ensures x in Cached(es[..n + 1]) {
      var i :| 0 <= i < n && es[..n][i].wrapper == x;
      assert es[..n + 1][i].wrapper == x;
    }
    assert es[..n + 1][n] == es[n];
    forall x | x in Cached(es[..n + 1]) && x != es[n].wrapper ensures x in Cached(es[..n]) {
      var i :| 0 <= i < n + 1 && es[..n + 1][i].wrapper == x;
      assert es[..n][i].wrapper == x;
    }
  }

  lemma {:induction false} OccupiedIsCached(es: seq<Entry>, n: nat)
    requires n <= |es| && Distinct(es)
    ensures Occupied(es, n) == |Cached(es[..n])|
  {
    if n > 0 {
      OccupiedIsCached(es, n - 1);
      CachedOneMore(es, n - 1);
    }
  }

  lemma {:induction false} OccupiedBound(es: seq<Entry>, budget: bool, n: nat)
    requires n <= |es| == CACHE_CAPACITY
    requires forall i :: 0 <= i < |es| && es[i].wrapper != 0 ==> InPartition(i, es[i].key, budget)
    ensures Occupied(es, n) <= if !budget then n else if n <= 16 then n else if n <= 64 then 16 else if n <= 66 then n - 48 else 18
  {
    if n > 0 {
      OccupiedBound(es, budget, n - 1);
    }
  }

  function Elements(d: seq<nat>): set<nat> {
    set x | x in d
  }

  lemma {:induction false} DistinctCount(d: seq<nat>)
    requires forall k, l :: 0 <= k < l < |d| ==> d[k] != d[l]
    ensures |Elements(d)| == |d|
  {
    if d != [] {
      var n := |d| - 1;
      DistinctCount(d[..n]);
      assert d == d[..n] + [d[n]];
      assert Elements(d) == Elements(d[..n]) + {d[n]};
      assert d[n] !in Elements(d[..n]);
    }
  }

  /** The live wrappers that are neither cached nor put off. */
  function Loose(w: World): set<nat> {
    w.alive - Cached(w.cache.entries) - Elements(w.cache.deferred)
  }

  lemma ThreeParts(a: set<nat>, c: set<nat>, d: set<nat>)
    requires c <= a && d <= a && c !! d
    ensures |a| == |c| + |d| + |a - c - d|
  {
    assert a == c + d + (a - c - d);
  }

  lemma AliveSplits(w: World, budget: bool)
    requires Inv(w, budget)
    ensures |w.alive| == Occupied(w.cache.entries, CACHE_CAPACITY) + |w.cache.deferred| + |Loose(w)|
  {
    OccupiedIsCached(w.cache.entries, CACHE_CAPACITY);
    assert w.cache.entries[..CACHE_CAPACITY] == w.cache.entries;
    DistinctCount(w.cache.deferred);
    ThreeParts(w.alive, Cached(w.cache.entries), Elements(w.cache.deferred));
  }

  /** Conservation: every wrapper ever built is natively released, cached, put off, or in the
      hands of exactly one open menu, and nothing is counted twice. */
  lemma WrappersAreConserved(trace: seq<World>, steps: seq<Step>, budget: bool, i: nat)
    requires Run(trace, steps, budget) && i < |trace|
    ensures var w := trace[i];
            && |w.cache.entries| == CACHE_CAPACITY
            && w.built == |w.releases| + Occupied(w.cache.entries, CACHE_CAPACITY) + |w.cache.deferred| + |Loose(w)|
            && forall x :: x in Loose(w) ==> w.uses[x] == 1
  {
    RunKeepsInv(trace, steps, budget, i);
    AliveSplits(trace[i], budget);
  }

  /** The part of the cache for menus of this kind, in plain numbers. */
  predicate MayHold(k: nat, key: Key, budget: bool) {
    if key.selectionCount != 0 then k < (if budget then 16 else 64) else 64 <= k < (if budget then 66 else 68)
  }

  lemma {:induction false} ActiveWithin(es: seq<Entry>, n: nat, uses: multiset<nat>)
    requires n <= |es| && Distinct(es)
    requires forall i :: 0 <= i < n ==> es[i].activeUses == (if es[i].wrapper == 0 then 0 else uses[es[i].wrapper])
    ensures ActiveUses(es, n) <= |uses|
  {
    if n > 0 {
      var x := es[n - 1].wrapper;
      if x == 0 {
        ActiveWithin(es, n - 1, uses);
      } else {
        ActiveWithin(es, n - 1, uses[x := 0]);
      }
    }
  }

  /** At every moment, also inside nested calls, no more wrappers are put off than there are
      uses outstanding. */
  lemma PutOffIsBounded(trace: seq<World>, steps: seq<Step>, budget: bool, i: nat)
    requires Run(trace, steps, budget) && i < |trace|
    ensures |trace[i].cache.deferred| <= |trace[i].uses|
    ensures |trace[i].cache.deferred| <= 8
  {
    RunKeepsInv(trace, steps, budget, i);
    ActiveWithin(trace[i].cache.entries, CACHE_CAPACITY, trace[i].uses);
  }

  /** With no menu open, nothing is put off any more: exactly the cached wrappers are alive,
      none is marked in use, each lies in the stretch its kind may use, and their number is
      within the capacity. */
  lemma QuietCacheHoldsEverything(trace: seq<World>, steps: seq<Step>, budget: bool, i: nat)
    requires Run(trace, steps, budget) && i < |trace| && trace[i].uses == multiset{}
    ensures var w := trace[i];
            && w.cache.deferred == [] && w.alive == Cached(w.cache.entries)
            && |w.cache.entries| == CACHE_CAPACITY && !AnyActive(w.cache.entries)
            && (forall k :: 0 <= k < CACHE_CAPACITY && w.cache.entries[k].wrapper != 0 ==>
                  MayHold(k, w.cache.entries[k].key, budget) && (budget ==> w.cache.entries[k].key.TextBytes() <= 65536))
            && w.built - |w.releases| == Occupied(w.cache.entries, CACHE_CAPACITY) <= (if budget then 16 + 2 else 64 + 4)
  {
    PutOffIsBounded(trace, steps, budget, i);
    RunKeepsInv(trace, steps, budget, i);
    WrappersAreConserved(trace, steps, budget, i);
    var w := trace[i];
    OccupiedBound(w.cache.entries, budget, CACHE_CAPACITY);
    forall x | x in w.alive ensures x in Cached(w.cache.entries) {
      assert w.uses[x] == 0;
    }
    assert Loose(w) == {};
  }
}
