/** `LiquidCacheStore`: the cache object, every method of which does what its function on values says. */
module Stores {
  import opened Arith
  import opened Budget
  import opened CacheModel
  import opened Lru
  import opened Wrappers

  class LiquidCacheStore {
    var entries: Entries
    var maxCacheBytes: nat
    /** For every loaded file, the offsets of its row groups. */
    var fileMetadata: map<nat, seq<nat>>
    const budget: MemoryBudget
    const lru: LruPolicy<LiquidCacheKey>

    ghost predicate Valid()
      reads this, budget, lru
    {
      budget.Valid() && lru.Valid() && budget.maxBytes == maxCacheBytes
    }

    /** The state as a value. */
    function AsValue(): Store
      reads this, budget, lru
    {
      Store(entries, lru.list, budget.usedBytes, maxCacheBytes)
    }

    constructor (max: nat)
      requires max < TWO_64
      ensures Valid() && AsValue() == Empty(max) && fileMetadata == map[] && fresh(budget) && fresh(lru)
    {
      entries, maxCacheBytes, fileMetadata := map[], max, map[];
      budget := new MemoryBudget(max);
      lru := new LruPolicy();
    }

    method SetMaxCacheBytes(max: nat)
      requires Valid() && max < TWO_64
      modifies this`maxCacheBytes, budget
      ensures Valid() && AsValue() == Apply(old(AsValue()), SetMax(max))
      ensures maxCacheBytes == max && lru.list == old(lru.list) && budget.usedBytes == old(budget.usedBytes)
    {
      maxCacheBytes := max;
      budget.SetMaxBytes(max);
    }

    /** `insert`, and `insert_arrow` with an entry of the other kind. */
    method Insert(key: LiquidCacheKey, entry: CacheEntry) returns (ok: bool)
      requires Valid()
      modifies this`entries, budget, lru
      ensures Valid() && (AsValue(), ok) == Put(old(AsValue()), key, entry)
      ensures ok ==> key in entries && entries[key] == entry && lru.list != [] && lru.list[0] == key
      ensures forall k :: k in entries && !(ok && k == key) ==> k in old(entries) && entries[k] == old(entries)[k]
    {
      ghost var s := AsValue();
      ghost var room := RoomForEntry(s, key, entry.MemorySize());
      PutFrom(s, key, entry, room.0, room.1);
      RoomSubMap(s, key, entry);
      ok := Account(key, entry.MemorySize());
      if !ok { return false; }
      entries := entries[key := entry];
      lru.NotifyInsert(key);
    }

    /** Room as an insertion asks for it, by the size of the entry. */
    static function RoomForEntry(s: Store, key: LiquidCacheKey, entrySize: nat): (Store, bool) {
      if key !in s.entries then MakeSpace(s, entrySize)
      else if entrySize > OldSize(s, key) then MakeSpace(s, entrySize - OldSize(s, key)) else (s, true)
    }

    /** The budget side of an insertion. */
    method Account(key: LiquidCacheKey, entrySize: nat) returns (ok: bool)
      requires Valid() && entrySize < TWO_64
      modifies this`entries, budget, lru
      ensures Valid()
      ensures var s := old(AsValue()); var (r, room) := RoomForEntry(s, key, entrySize);
              ok == room && AsValue() == if ok then r.(used := Wrap(r.used + entrySize - OldSize(s, key))) else r
    {
      if key in entries {
        ok := Replace(key, entrySize);
      } else {
        ok := Reserve(entrySize);
      }
    }

    /** The budget side of an update: the old size is read before anything is evicted. */
    method Replace(key: LiquidCacheKey, entrySize: nat) returns (ok: bool)
      requires Valid() && key in entries && entrySize < TWO_64
      modifies this`entries, budget, lru
      ensures Valid()
      ensures var s := old(AsValue()); var (r, room) := RoomForEntry(s, key, entrySize);
              ok == room && AsValue() == if ok then r.(used := Wrap(r.used + entrySize - OldSize(s, key))) else r
    {
      var oldSize := entries[key].MemorySize();
      if entrySize > oldSize {
        var room := MakeBudgetSpace(entrySize - oldSize);
        if !room { return false; }
      }
      ok := budget.TryUpdate(oldSize, entrySize);
    }

    /** The budget side of a new entry. */
    method Reserve(entrySize: nat) returns (ok: bool)
      requires Valid() && entrySize < TWO_64
      modifies this`entries, budget, lru
      ensures Valid()
      ensures var (r, room) := MakeSpace(old(AsValue()), entrySize);
              ok == room && AsValue() == if ok then r.(used := Wrap(r.used + entrySize)) else r
    {
      var room := MakeBudgetSpace(entrySize);
      if !room { return false; }
      ok := budget.TryReserve(entrySize);
    }

    method Get(key: LiquidCacheKey) returns (r: Option<seq<Row>>)
      requires Valid()
      modifies lru
      ensures Valid() && AsValue() == Apply(old(AsValue()), CacheModel.Get(key))
      ensures r == if key in entries then entries[key].Read() else None
      ensures key in entries && !entries[key].isLiquid && entries[key].arrowArray.Some? ==>
                r == Some(entries[key].arrowArray.value.rows)
      ensures key in entries && entries[key].isLiquid && entries[key].liquidArray.Some? ==>
                r == Some(entries[key].liquidArray.value.rows)
    {
      r := GetUnlocked(key);
      if r.Some? {
        lru.NotifyAccess(key);
      }
    }

    function GetUnlocked(key: LiquidCacheKey): Option<seq<Row>>
      reads this`entries
    {
      if key in entries then entries[key].Read() else None
    }

    method Clear()
      requires Valid()
      modifies this`entries, this`fileMetadata, budget, lru
      ensures Valid() && AsValue() == Apply(old(AsValue()), CacheModel.Clear) && fileMetadata == map[]
      ensures entries == map[] && lru.list == [] && budget.usedBytes == 0
    {
      entries := map[];
      budget.Reset();
      lru.Clear();
      fileMetadata := map[];
    }

    /** The write at the end of loading a file. */
    method LoadMetadata(fileId: nat, rgOffsets: seq<nat>)
      requires Valid()
      modifies this`fileMetadata
      ensures Valid() && AsValue() == old(AsValue()) && fileMetadata == old(fileMetadata)[fileId := rgOffsets]
    {
      fileMetadata := fileMetadata[fileId := rgOffsets];
    }

    /** The write that loading a file does. */
    method Load(key: LiquidCacheKey, entry: CacheEntry)
      requires Valid()
      modifies this`entries
      ensures Valid() && AsValue() == Apply(old(AsValue()), LoadEntry(key, entry))
      ensures entries == old(entries)[key := entry] && lru.list == old(lru.list)
              && budget.usedBytes == old(budget.usedBytes)
    {
      entries := entries[key := entry];
    }

    /** Evicts groups of eight from the end of the list, stopping inside a group as soon as there is room. */
    method MakeBudgetSpace(needed: nat) returns (ok: bool)
      requires Valid() && needed < TWO_64
      modifies this`entries, budget, lru
      ensures Valid() && (AsValue(), ok) == MakeSpace(old(AsValue()), needed)
    {
      if maxCacheBytes == 0 { return true; }
      if needed > maxCacheBytes { return false; }
      ghost var s := AsValue();
      ghost var done := 0;
      var attempt, victims, room := 0, true, false;
      while attempt < MAX_ATTEMPTS && victims && !room
        invariant Valid() && maxCacheBytes == s.max && attempt <= MAX_ATTEMPTS
        invariant room ==> (AsValue(), true) == MakeSpace(s, needed)
        invariant !room ==> Reached(s, needed, done) && done == Min(|s.lru|, GROUP * attempt)
        invariant !room && !victims ==> done == |s.lru|
        decreases MAX_ATTEMPTS - attempt, victims, !room
      {
        room, victims, done := Attempt(needed, s, attempt, done);
        if victims && !room { attempt := attempt + 1; }
      }
      if room { return true; }
      ok := Wrap(budget.usedBytes + needed) <= maxCacheBytes;
      DelistedSoFar(s, attempt, done);
      StopsAt(s, needed, done, done, AsValue());
    }

    /** `done` keys of `s` are erased and off the list, and none before made room. */
    ghost predicate Reached(s: Store, needed: nat, done: nat)
      reads this, budget, lru
    {
      && done <= |s.lru|
      && entries == Erased(s, done).entries && budget.usedBytes == Erased(s, done).used
      && lru.list == s.lru[..|s.lru| - done]
      && forall j :: 0 <= j < done ==> !Roomy(s, j, needed)
    }

    /** One attempt: is there room by now, and if not, one more group of victims. */
    method Attempt(needed: nat, ghost s: Store, ghost attempt: nat, ghost done: nat)
      returns (room: bool, victims: bool, ghost next: nat)
      requires Valid() && maxCacheBytes == s.max != 0 && needed <= s.max && attempt < MAX_ATTEMPTS
      requires Reached(s, needed, done) && done == Min(|s.lru|, GROUP * attempt)
      modifies this`entries, budget, lru
      ensures Valid()
      ensures room ==> (AsValue(), true) == MakeSpace(s, needed)
      ensures !room ==> Reached(s, needed, next)
      ensures !room ==> if victims then next == Min(|s.lru|, GROUP * (attempt + 1)) else next == done == |s.lru|
    {
      next := done;
      if Wrap(budget.usedBytes + needed) <= maxCacheBytes {
        DelistedSoFar(s, attempt, done);
        StopsAt(s, needed, done, done, AsValue());
        return true, true, done;
      }
      var group := lru.FindVictims(GROUP);
      if group == [] {
        return false, false, done;
      }
      ghost var k;
      room, k := EvictGroup(group, needed, s, done);
      if room {
        DelistedInGroup(s, attempt, done, k, |group|);
        StopsAt(s, needed, k, done + |group|, AsValue());
      }
      victims, next := true, done + |group|;
    }

    /** The loop over one group of victims; `k` counts all keys erased so far. */
    method EvictGroup(victims: seq<LiquidCacheKey>, needed: nat, ghost s: Store, ghost done: nat)
      returns (ok: bool, ghost k: nat)
      requires Valid() && s.max == maxCacheBytes && done + |victims| <= |s.lru|
      requires forall i :: 0 <= i < |victims| ==> victims[i] == s.lru[|s.lru| - 1 - (done + i)]
      requires entries == Erased(s, done).entries && budget.usedBytes == Erased(s, done).used
      requires forall j :: 0 <= j <= done ==> !Roomy(s, j, needed)
      modifies this`entries, budget
      ensures Valid() && done <= k <= done + |victims|
      ensures entries == Erased(s, k).entries && budget.usedBytes == Erased(s, k).used
      ensures forall j :: 0 <= j < k ==> !Roomy(s, j, needed)
      ensures ok == Roomy(s, k, needed)
      ensures if ok then done < k else k == done + |victims|
    {
      k := done;
      for i := 0 to |victims|
        invariant Valid() && maxCacheBytes == s.max && k == done + i
        invariant entries == Erased(s, k).entries && budget.usedBytes == Erased(s, k).used
        invariant forall j :: 0 <= j <= k ==> !Roomy(s, j, needed)
      {
        ok := EvictVictim(victims[i], needed, s, k);
        k := k + 1;
        if ok { return; }
      }
      ok := false;
    }

    /** Erases one victim, if it is cached, and looks whether there is room now. */
    method EvictVictim(victim: LiquidCacheKey, needed: nat, ghost s: Store, ghost n: nat) returns (room: bool)
      requires Valid() && s.max == maxCacheBytes && n < |s.lru| && victim == s.lru[|s.lru| - 1 - n]
      requires entries == Erased(s, n).entries && budget.usedBytes == Erased(s, n).used && !Roomy(s, n, needed)
      modifies this`entries, budget
      ensures Valid() && entries == Erased(s, n + 1).entries && budget.usedBytes == Erased(s, n + 1).used
      ensures room == Roomy(s, n + 1, needed)
    {
      OneMoreErased(s, n, victim);
      if victim in entries {
        var freed := entries[victim].MemorySize();
        entries := entries - {victim};
        budget.Release(freed);
        if Wrap(budget.usedBytes + needed) <= maxCacheBytes {
          return true;
        }
      }
      room := false;
    }
  }

  /** Any sequence of operations on a new cache object leaves it in the state the model says, so what holds of all
      reachable states of the model holds of it. */
  method Drive(ops: seq<Op>, max: nat) returns (c: LiquidCacheStore)
    requires max < TWO_64 && forall i :: 0 <= i < |ops| && ops[i].SetMax? ==> ops[i].max < TWO_64
    ensures c.Valid() && c.AsValue() == After(Empty(max), ops)
    ensures Listed(c.AsValue()) && SubMap(c.entries, Recorded(ops, max)) && Accounted(c.AsValue(), Drift(ops, max))
    ensures Descending(c.lru.list, LastUses(ops, max))
    ensures 0 < max && Clean(ops, max) && SumsFit(ops, max) ==> Total(c.entries) == c.budget.usedBytes <= max
  {
    c := new LiquidCacheStore(max);
    for i := 0 to |ops|
      invariant fresh(c) && fresh(c.budget) && fresh(c.lru) && c.Valid() && c.AsValue() == After(Empty(max), ops[..i])
    {
      assert ops[..i + 1][..i] == ops[..i];
      match ops[i]
      case Insert(key, entry) => var _ := c.Insert(key, entry);
      case Get(key) => var _ := c.Get(key);
      case Clear => c.Clear();
      case SetMax(m) => c.SetMaxCacheBytes(m);
      case LoadEntry(key, entry) => c.Load(key, entry);
    }
    assert ops[..|ops|] == ops;
    AlwaysListed(ops, max);
    AlwaysSubMap(ops, max);
    AlwaysRecent(ops, max);
    AlwaysAccounted(ops, max);
    if 0 < max && Clean(ops, max) && SumsFit(ops, max) {
      AlwaysExact(ops, max);
    }
  }

  /** What was inserted with success is read: the rows of the array, of either kind. A refused insertion leaves the key
      with its old entry or with none. */
  method InsertThenGet(c: LiquidCacheStore, key: LiquidCacheKey, entry: CacheEntry)
    returns (ok: bool, r: Option<seq<Row>>)
    requires c.Valid()
    modifies c`entries, c.budget, c.lru
    ensures c.Valid()
    ensures ok && !entry.isLiquid && entry.arrowArray.Some? ==> r == Some(entry.arrowArray.value.rows)
    ensures ok && entry.isLiquid && entry.liquidArray.Some? ==> r == Some(entry.liquidArray.value.rows)
    ensures !ok && key in c.entries ==> key in old(c.entries) && c.entries[key] == old(c.entries[key])
  {
    ghost var s := c.AsValue();
    ok := c.Insert(key, entry);
    if ok {
      PutHolds(s, key, entry);
    } else {
      RoomSubMap(s, key, entry);
    }
    r := c.Get(key);
  }

  lemma OneMoreErased(s: Store, n: nat, victim: LiquidCacheKey)
    requires n < |s.lru| && victim == s.lru[|s.lru| - 1 - n]
    ensures Erased(s, n + 1) == Erase(Erased(s, n), victim)
    ensures victim !in Erased(s, n).entries ==> forall needed :: Roomy(s, n + 1, needed) == Roomy(s, n, needed)
  {
  }

  lemma DelistedSoFar(s: Store, attempt: nat, done: nat)
    requires done == Min(|s.lru|, GROUP * attempt)
    ensures Delisted(s, done) == done
  {
  }

  lemma DelistedInGroup(s: Store, attempt: nat, done: nat, k: nat, taken: nat)
    requires done == Min(|s.lru|, GROUP * attempt) && taken == Min(GROUP, |s.lru| - done) && done < k <= done + taken
    ensures Delisted(s, k) == done + taken
  {
  }

  /** Stopping after `k` erasures, with their groups off the list, is what making room means, when `k` is the first
      that has room or the last that is allowed. */
  lemma StopsAt(s: Store, needed: nat, k: nat, m: nat, r: Store)
    requires s.max != 0 && needed <= s.max && k <= EvictionLimit(s)
    requires forall j :: 0 <= j < k ==> !Roomy(s, j, needed)
    requires Roomy(s, k, needed) || k == EvictionLimit(s)
    requires r.entries == Erased(s, k).entries && r.used == Erased(s, k).used && r.max == s.max
    requires m == Delisted(s, k) && r.lru == s.lru[..|s.lru| - m]
    ensures MakeSpace(s, needed) == (r, Roomy(s, k, needed))
  {
    var n := Shortest(s, needed, 0, EvictionLimit(s));
    assert !(n < k) && !(k < n);
  }
}
