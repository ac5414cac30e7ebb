/** The cache of context-menu wrappers of patcher/menu_payload.cpp: what each stretch of code
    between two native calls does to it. The predicates say which slot a scan has to find and
    the functions what the cache becomes; the class performs the scans and updates in place. */
module MenuCache {

  const SELECTED_CAPACITY: nat := 64
  const CACHE_CAPACITY: nat := 68
  const DEFERRED_CAPACITY: nat := 8
  const NEVER: nat := 0xFFFF_FFFF_FFFF_FFFF
  const IDLE_MILLISECONDS: nat := 120000
  const TICKS: nat := 0x1_0000_0000_0000_0000

  /** Two menus are the same when every field agrees. */
  datatype Key = Key(
    hashA: nat, hashB: nat, folderLength: nat, selectionCount: nat, contextCount: nat,
    selectionTextBytes: nat, contextTextBytes: nat, queryFlags: nat, selectionMode: nat,
    clipboardSequence: nat, modifierState: nat)
  {
    function TextBytes(): nat {
      selectionTextBytes + contextTextBytes + folderLength
    }
  }

  /** wrapper == 0 marks a free entry. */
  datatype Entry = Entry(key: Key, wrapper: nat, lastUse: nat, activeUses: nat, lastUseMs: nat)

  datatype Cache = Cache(entries: seq<Entry>, deferred: seq<nat>, clock: nat)

  // ----- the scans ------------------------------------------------------------

  /** slot is the first entry that holds this key, or -1 when there is none. */
  ghost predicate KeySlot(entries: seq<Entry>, key: Key, slot: int) {
    && -1 <= slot < |entries|
    && (slot >= 0 ==> entries[slot].wrapper != 0 && entries[slot].key == key)
    && (forall i :: 0 <= i < (if slot >= 0 then slot else |entries|) ==>
          entries[i].wrapper == 0 || entries[i].key != key)
  }

  ghost predicate WrapperSlot(entries: seq<Entry>, wrapper: nat, slot: int) {
    && -1 <= slot < |entries|
    && (slot >= 0 ==> wrapper != 0 && entries[slot].wrapper == wrapper)
    && (slot < 0 ==> forall i :: 0 <= i < |entries| ==> wrapper == 0 || entries[i].wrapper != wrapper)
  }

  /** The stretch of the cache that menus of this kind may use. */
  function Begin(key: Key): nat {
    if key.selectionCount != 0 then 0 else SELECTED_CAPACITY
  }

  function End(key: Key, budget: bool): nat {
    if budget then (if key.selectionCount != 0 then 16 else SELECTED_CAPACITY + 2)
    else (if key.selectionCount != 0 then SELECTED_CAPACITY else CACHE_CAPACITY)
  }

  predicate TooLarge(key: Key) {
    key.TextBytes() > 65536
  }

  predicate Evictable(e: Entry) {
    e.activeUses == 0 && e.lastUse < NEVER
  }

  /** The first free entry of the partition if there is one, else its least recently used entry that
      no open menu uses, else nothing. */
  ghost predicate InstallSlot(entries: seq<Entry>, key: Key, budget: bool, slot: int)
    requires |entries| == CACHE_CAPACITY
  {
    if budget && TooLarge(key) then slot == -1
    else
      var b, e := Begin(key), End(key, budget);
      if exists i :: b <= i < e && entries[i].wrapper == 0 then
        b <= slot < e && entries[slot].wrapper == 0 && forall i :: b <= i < slot ==> entries[i].wrapper != 0
      else if exists i :: b <= i < e && Evictable(entries[i]) then
        && b <= slot < e && Evictable(entries[slot])
        && forall i :: b <= i < e && entries[i].activeUses == 0 ==> entries[slot].lastUse <= entries[i].lastUse
      else slot == -1
  }

  /** The next entry that idle maintenance retires, from index `from` on. */
  predicate Retirable(e: Entry, mode: nat, now: nat) {
    e.wrapper != 0 && e.activeUses == 0 && (mode != 0 || (now - e.lastUseMs) % TICKS >= IDLE_MILLISECONDS)
  }

  ghost predicate RetireSlot(entries: seq<Entry>, from: nat, mode: nat, now: nat, slot: int) {
    && (slot == -1 || from <= slot < |entries|)
    && (slot >= 0 ==> Retirable(entries[slot], mode, now))
    && (forall i :: from <= i < (if slot >= 0 then slot else |entries|) ==> !Retirable(entries[i], mode, now))
  }

  predicate AnyActive(entries: seq<Entry>) {
    exists i :: 0 <= i < |entries| && entries[i].activeUses != 0
  }

  // ----- the updates ----------------------------------------------------------

  function Used(c: Cache, slot: nat, now: nat): Cache
    requires slot < |c.entries|
  {
    var e := c.entries[slot];
    c.(entries := c.entries[slot := e.(lastUse := c.clock + 1, lastUseMs := now, activeUses := e.activeUses + 1)],
       clock := c.clock + 1)
  }

  predicate CanInstall(c: Cache, slot: int)
    requires -1 <= slot < |c.entries|
  {
    slot >= 0 && (c.entries[slot].wrapper == 0 || |c.deferred| != DEFERRED_CAPACITY)
  }

  /** An evicted wrapper is not destroyed but put off until a menu closes. */
  function Installed(c: Cache, key: Key, wrapper: nat, now: nat, slot: int): Cache
    requires -1 <= slot < |c.entries|
  {
    if !CanInstall(c, slot) then c
    else
      Cache(c.entries[slot := Entry(key, wrapper, c.clock + 1, 1, now)],
            if c.entries[slot].wrapper != 0 then c.deferred + [c.entries[slot].wrapper] else c.deferred,
            c.clock + 1)
  }

  function Unused(c: Cache, slot: nat): Cache
    requires slot < |c.entries|
  {
    var e := c.entries[slot];
    c.(entries := c.entries[slot := e.(activeUses := if e.activeUses > 0 then e.activeUses - 1 else 0)])
  }

  function Retired(c: Cache, slot: nat): Cache
    requires slot < |c.entries|
  {
    c.(entries := c.entries[slot := c.entries[slot].(wrapper := 0, activeUses := 0)])
  }

  // ----- the same in place ----------------------------------------------------

  class Menus {
    const entries: array<Entry>
    const deferred: array<nat>
    var deferredCount: nat
    var clock: nat
    const budget: bool

    ghost predicate Valid()
      reads this
    {
      entries.Length == CACHE_CAPACITY && deferred.Length == DEFERRED_CAPACITY && deferredCount <= DEFERRED_CAPACITY
    }

    ghost function Value(): Cache
      reads this, entries, deferred
      requires Valid()
    {
      Cache(entries[..], deferred[..deferredCount], clock)
    }

    constructor (budget: bool)
      ensures Valid() && fresh(entries) && fresh(deferred) && this.budget == budget
      ensures Value().deferred == [] && Value().clock == 0
      ensures forall e :: e in Value().entries ==> e.wrapper == 0 && e.activeUses == 0
    {
      entries := new Entry[CACHE_CAPACITY](_ => Entry(Key(0, 0, 0, 0, 0, 0, 0, 0, 0, 0, 0), 0, 0, 0, 0));
      deferred := new nat[DEFERRED_CAPACITY](_ => 0);
      deferredCount, clock := 0, 0;
      this.budget := budget;
    }

    method FindCachedKey(key: Key) returns (slot: int)
      requires Valid()
      ensures KeySlot(entries[..], key, slot)
    {
      for i := 0 to CACHE_CAPACITY
        invariant forall k :: 0 <= k < i ==> entries[k].wrapper == 0 || entries[k].key != key
      {
        if entries[i].wrapper != 0 && entries[i].key == key {
          return i;
        }
      }
      return -1;
    }

    method FindCachedWrapper(wrapper: nat) returns (slot: int)
      requires Valid()
      ensures WrapperSlot(entries[..], wrapper, slot)
    {
      for i := 0 to CACHE_CAPACITY
        invariant forall k :: 0 <= k < i ==> wrapper == 0 || entries[k].wrapper != wrapper
      {
        if wrapper != 0 && entries[i].wrapper == wrapper {
          return i;
        }
      }
      return -1;
    }

    method FindInstallSlot(key: Key) returns (slot: int)
      requires Valid()
      ensures InstallSlot(entries[..], key, budget, slot)
    {
      var begin, end := Begin(key), End(key, budget);
      if budget && TooLarge(key) {
        return -1;
      }
      for i := begin to end
        invariant forall k :: begin <= k < i ==> entries[k].wrapper != 0
      {
        if entries[i].wrapper == 0 {
          return i;
        }
      }
      slot := -1;
      var oldest := NEVER;
      for i := begin to end
        invariant slot == -1 || begin <= slot < i
        invariant slot == -1 ==> oldest == NEVER
        invariant slot >= 0 ==> entries[slot].activeUses == 0 && entries[slot].lastUse == oldest < NEVER
        invariant forall k :: begin <= k < i && entries[k].activeUses == 0 ==> oldest <= entries[k].lastUse
      {
        if entries[i].activeUses == 0 && entries[i].lastUse < oldest {
          oldest := entries[i].lastUse;
          slot := i;
        }
      }
    }

    method InstallCacheEntry(key: Key, wrapper: nat, now: nat) returns (ok: bool, ghost slot: int)
      requires Valid()
      modifies this, entries, deferred
      ensures Valid()
      ensures InstallSlot(old(entries[..]), key, budget, slot)
      ensures Value() == Installed(old(Value()), key, wrapper, now, slot)
      ensures ok == CanInstall(old(Value()), slot)
    {
      var at := FindInstallSlot(key);
      slot := at;
      if at < 0 {
        return false, slot;
      }
      if entries[at].wrapper != 0 {
        if deferredCount == DEFERRED_CAPACITY {
          return false, slot;
        }
        deferred[deferredCount] := entries[at].wrapper;
        deferredCount := deferredCount + 1;
      }
      clock := clock + 1;
      entries[at] := Entry(key, wrapper, clock, 1, now);
      return true, slot;
    }

    /** The part of MenuAcquireHook before the native build; 0 stands for a miss. */
    method Lookup(key: Key, valid: bool, now: nat) returns (wrapper: nat, ghost slot: int)
      requires Valid()
      modifies this, entries
      ensures Valid()
      ensures KeySlot(old(entries[..]), key, slot)
      ensures if valid && slot >= 0
              then Value() == Used(old(Value()), slot, now) && wrapper == old(entries[..])[slot].wrapper
              else Value() == old(Value()) && wrapper == 0
    {
      var at := FindCachedKey(key);
      slot := at;
      if valid && at >= 0 {
        clock := clock + 1;
        entries[at] := entries[at].(lastUse := clock, lastUseMs := now, activeUses := entries[at].activeUses + 1);
        return entries[at].wrapper, slot;
      }
      return 0, slot;
    }

    /** The part of MenuReleaseHook before the drain; native says that the wrapper is not
        cached and has to be released natively. */
    method ReleaseUse(wrapper: nat) returns (native: bool, ghost slot: int)
      requires Valid()
      modifies entries
      ensures Valid()
      ensures WrapperSlot(old(entries[..]), wrapper, slot)
      ensures native == (slot < 0)
      ensures Value() == if slot >= 0 then Unused(old(Value()), slot) else old(Value())
    {
      var at := FindCachedWrapper(wrapper);
      slot := at;
      if at >= 0 && entries[at].activeUses > 0 {
        entries[at] := entries[at].(activeUses := entries[at].activeUses - 1);
      }
      return at < 0, slot;
    }

    /** One turn of the drain loop, up to its native call. */
    method TakeDeferred() returns (wrapper: nat)
      requires Valid() && deferredCount > 0
      modifies this, deferred
      ensures Valid()
      ensures old(Value()).deferred == Value().deferred + [wrapper]
      ensures Value() == old(Value()).(deferred := Value().deferred)
    {
      deferredCount := deferredCount - 1;
      wrapper := deferred[deferredCount];
      deferred[deferredCount] := 0;
    }

    /** The maintenance loop from entry `from` up to its next native call; -1 ends it. */
    method RetireNext(from: nat, mode: nat, now: nat) returns (slot: int, wrapper: nat)
      requires Valid() && from <= CACHE_CAPACITY
      modifies entries
      ensures Valid()
      ensures RetireSlot(old(entries[..]), from, mode, now, slot)
      ensures if slot >= 0
              then Value() == Retired(old(Value()), slot) && wrapper == old(entries[..])[slot].wrapper
              else Value() == old(Value())
    {
      for i := from to CACHE_CAPACITY
        invariant entries[..] == old(entries[..])
        invariant forall k :: from <= k < i ==> !Retirable(entries[k], mode, now)
      {
        var e := entries[i];
        if e.wrapper == 0 || e.activeUses != 0 || (mode == 0 && (now - e.lastUseMs) % TICKS < IDLE_MILLISECONDS) {
          continue;
        }
        entries[i] := e.(wrapper := 0, activeUses := 0);
        return i, e.wrapper;
      }
      return -1, 0;
    }

    /** Maintenance does nothing while any menu is open. */
    method MayMaintain() returns (ok: bool)
      requires Valid()
      ensures ok == (budget && !AnyActive(entries[..]))
    {
      if !budget {
        return false;
      }
      for i := 0 to CACHE_CAPACITY
        invariant forall k :: 0 <= k < i ==> entries[k].activeUses == 0
      {
        if entries[i].activeUses != 0 {
          assert entries[..][i].activeUses != 0;
          return false;
        }
      }
      return true;
    }
  }
}
