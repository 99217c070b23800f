/** The cache as a state machine on values: entries, the LRU list, and the accounting, one function an operation. */
module CacheModel {
  import opened Arith
  import opened Budget
  import opened Lru
  import opened Wrappers

  datatype LiquidCacheKey = LiquidCacheKey(fileId: nat, rgId: nat, colId: nat, batchId: nat)

  type Row = Option<int>

  datatype ArrowArray = ArrowArray(rows: seq<Row>, buffers: seq<Option<nat>>)

  datatype LiquidArray = LiquidArray(rows: seq<Row>, memory: nat)

  function BufferBytes(buffers: seq<Option<nat>>): nat {
    if buffers == [] then 0
    else (if buffers[0].Some? then buffers[0].value else 0) + BufferBytes(buffers[1..])
  }

  /** A cached array of either kind; the reference of its kind may be absent. */
  datatype CacheEntry = CacheEntry(isLiquid: bool, arrowArray: Option<ArrowArray>, liquidArray: Option<LiquidArray>) {
    /** The rows, or nothing when the reference is absent. */
    function Read(): Option<seq<Row>> {
      if isLiquid && liquidArray.Some? then Some(liquidArray.value.rows)
      else if !isLiquid && arrowArray.Some? then Some(arrowArray.value.rows)
      else None
    }

    function MemorySize(): (n: nat)
      ensures n < TWO_64
    {
      if isLiquid && liquidArray.Some? then Wrap(liquidArray.value.memory)
      else if !isLiquid && arrowArray.Some? then Wrap(BufferBytes(arrowArray.value.buffers))
      else 0
    }
  }

  type Entries = map<LiquidCacheKey, CacheEntry>

  /** Entries, the keys from most to least recently used, the bytes accounted for, and the limit (0 for none). */
  datatype Store = Store(entries: Entries, lru: seq<LiquidCacheKey>, used: nat, max: nat)

  // ---------------------------------------------------------------- making room

  /** Dropping one entry and releasing its size. */
  function Erase(s: Store, k: LiquidCacheKey): Store {
    if k in s.entries then s.(entries := s.entries - {k}, used := Wrap(s.used - s.entries[k].MemorySize())) else s
  }

  /** The store after the `n` last keys of the list are erased; the list is left alone. */
  function Erased(s: Store, n: nat): (r: Store)
    requires n <= |s.lru|
    ensures r.lru == s.lru && r.max == s.max
  {
    if n == 0 then s else Erase(Erased(s, n - 1), s.lru[|s.lru| - n])
  }

  /** Enough room once `n` keys are erased? */
  predicate Roomy(s: Store, n: nat, needed: nat)
    requires n <= |s.lru|
  {
    Fits(Erased(s, n).used, needed, s.max)
  }

  /** The fewest keys, from `n` on, that make enough room, or the limit. */
  function Shortest(s: Store, needed: nat, n: nat, limit: nat): (k: nat)
    requires n <= limit <= |s.lru|
    ensures n <= k <= limit
    ensures forall j :: n <= j < k ==> !Roomy(s, j, needed)
    ensures k < limit ==> Roomy(s, k, needed)
    decreases limit - n
  {
    if n == limit || Roomy(s, n, needed) then n else Shortest(s, needed, n + 1, limit)
  }

  const GROUP: nat := 8
  const MAX_ATTEMPTS: nat := 1024

  /** At most 1024 groups of eight are tried. */
  function EvictionLimit(s: Store): nat {
    Min(|s.lru|, GROUP * MAX_ATTEMPTS)
  }

  /** Victims leave the list by whole groups of eight, however few of the last group are erased. */
  function Delisted(s: Store, k: nat): nat {
    Min(|s.lru|, (k + GROUP - 1) / GROUP * GROUP)
  }

  /** In numbers: at most 8192 keys are erased, and the list loses the erased keys and the rest of their last group of
      eight, as far as it reaches. */
  lemma EvictionNumbers(s: Store, k: nat)
    requires k <= |s.lru|
    ensures EvictionLimit(s) == if |s.lru| < 8192 then |s.lru| else 8192
    ensures k <= Delisted(s, k) <= |s.lru| && Delisted(s, k) < k + 8
    ensures Delisted(s, k) == |s.lru| || Delisted(s, k) % 8 == 0
    ensures forall m :: k <= m < Delisted(s, k) ==> m % 8 != 0
    ensures Delisted(s, k) == k <==> k == |s.lru| || k % 8 == 0
  {
  }

  function MakeSpace(s: Store, needed: nat): (Store, bool) {
    if s.max == 0 then (s, true)
    else if needed > s.max then (s, false)
    else
      var k := Shortest(s, needed, 0, EvictionLimit(s));
      (Erased(s, k).(lru := s.lru[..|s.lru| - Delisted(s, k)]), Roomy(s, k, needed))
  }

  // ---------------------------------------------------------------- operations

  /** Does replacing or adding an entry need room, and how much? */
  function Growth(s: Store, key: LiquidCacheKey, entry: CacheEntry): Option<nat> {
    if key !in s.entries then Some(entry.MemorySize())
    else if entry.MemorySize() > s.entries[key].MemorySize() then Some(entry.MemorySize() - s.entries[key].MemorySize())
    else None
  }

  function OldSize(s: Store, key: LiquidCacheKey): nat {
    if key in s.entries then s.entries[key].MemorySize() else 0
  }

  /** Room for an entry, if any is needed. */
  function RoomFor(s: Store, key: LiquidCacheKey, entry: CacheEntry): (Store, bool) {
    var g := Growth(s, key, entry);
    if g.Some? then MakeSpace(s, g.value) else (s, true)
  }

  /** `insert` and `insert_arrow`: the size before is read before anything is evicted. */
  function Put(s: Store, key: LiquidCacheKey, entry: CacheEntry): (Store, bool) {
    var (r, ok) := RoomFor(s, key, entry);
    if !ok then (r, false)
    else (Store(r.entries[key := entry], Fronted(r.lru, key), Wrap(r.used + entry.MemorySize() - OldSize(s, key)),
                r.max), true)
  }

  /** An insertion, by the state left by making room. */
  lemma PutFrom(s: Store, key: LiquidCacheKey, entry: CacheEntry, r: Store, ok: bool)
    requires (r, ok) == if key in s.entries then
                          (if entry.MemorySize() > OldSize(s, key)
                              then MakeSpace(s, entry.MemorySize() - OldSize(s, key)) else (s, true))
                        else MakeSpace(s, entry.MemorySize())
    ensures Put(s, key, entry)
         == (if ok then Store(r.entries[key := entry], Fronted(r.lru, key),
                              Wrap(r.used + entry.MemorySize() - OldSize(s, key)), r.max)
             else r, ok)
  {
  }

  /** After a successful insertion, whatever it evicted, the key is cached with the entry. */
  lemma PutHolds(s: Store, key: LiquidCacheKey, entry: CacheEntry)
    requires Put(s, key, entry).1
    ensures key in Put(s, key, entry).0.entries && Put(s, key, entry).0.entries[key] == entry
  {
  }

  /** The rows of an inserted array, of either kind, are read back. */
  lemma PutThenRead(s: Store, key: LiquidCacheKey, rows: seq<Row>, buffers: seq<Option<nat>>, memory: nat)
    ensures var (r, ok) := Put(s, key, CacheEntry(false, Some(ArrowArray(rows, buffers)), None));
            ok ==> key in r.entries && r.entries[key].Read() == Some(rows)
    ensures var (r, ok) := Put(s, key, CacheEntry(true, None, Some(LiquidArray(rows, memory))));
            ok ==> key in r.entries && r.entries[key].Read() == Some(rows)
  {
    var arrow := CacheEntry(false, Some(ArrowArray(rows, buffers)), None);
    var liquid := CacheEntry(true, None, Some(LiquidArray(rows, memory)));
    if Put(s, key, arrow).1 {
      PutHolds(s, key, arrow);
    }
    if Put(s, key, liquid).1 {
      PutHolds(s, key, liquid);
    }
  }

  /** The bytes of buffers: absent ones count nothing. */
  lemma {:induction false} BufferBytesSum(a: seq<Option<nat>>, b: seq<Option<nat>>, n: nat)
    ensures BufferBytes(a + b) == BufferBytes(a) + BufferBytes(b)
    ensures BufferBytes([Some(n)]) == n && BufferBytes([None]) == 0
  {
    if a == [] {
      assert a + b == b;
    } else {
      BufferBytesSum(a[1..], b, n);
      assert (a + b)[1..] == a[1..] + b;
    }
  }

  /** An entry counts the size of the array of its kind, in 64 bits, and nothing when that is absent. */
  lemma EntrySizes(rows: seq<Row>, buffers: seq<Option<nat>>, memory: nat)
    ensures CacheEntry(true, None, Some(LiquidArray(rows, memory))).MemorySize() == memory % 0x1_0000_0000_0000_0000
    ensures CacheEntry(false, Some(ArrowArray(rows, buffers)), None).MemorySize()
         == BufferBytes(buffers) % 0x1_0000_0000_0000_0000
    ensures CacheEntry(true, Some(ArrowArray(rows, buffers)), None).MemorySize() == 0
    ensures CacheEntry(false, None, Some(LiquidArray(rows, memory))).MemorySize() == 0
    ensures CacheEntry(true, Some(ArrowArray(rows, buffers)), None).Read() == None
    ensures CacheEntry(false, None, Some(LiquidArray(rows, memory))).Read() == None
  {
  }

  /** Only a read that finds something counts as a use. */
  function Accessed(s: Store, key: LiquidCacheKey): Store {
    if key in s.entries && s.entries[key].Read().Some? && key in s.lru then s.(lru := Fronted(s.lru, key)) else s
  }

  datatype Op =
    | Insert(key: LiquidCacheKey, entry: CacheEntry)
    | Get(key: LiquidCacheKey)
    | Clear
    | SetMax(max: nat)
    | LoadEntry(key: LiquidCacheKey, entry: CacheEntry)

  /** One operation. Loading a file writes entries past the budget and the list. */
  function Apply(s: Store, op: Op): Store {
    match op
    case Insert(key, entry) => Put(s, key, entry).0
    case Get(key) => Accessed(s, key)
    case Clear => s.(entries := map[], lru := [], used := 0)
    case SetMax(max) => s.(max := max)
    case LoadEntry(key, entry) => s.(entries := s.entries[key := entry])
  }

  function After(s: Store, ops: seq<Op>): Store {
    if ops == [] then s else Apply(After(s, ops[..|ops| - 1]), ops[|ops| - 1])
  }

  function Empty(max: nat): Store {
    Store(map[], [], 0, max)
  }

  // ---------------------------------------------------------------- the list and the map, over all runs

  /** No key is listed twice, and every listed key is cached. */
  ghost predicate Listed(s: Store) {
    NoRepeats(s.lru) && forall k :: k in s.lru ==> k in s.entries
  }

  /** Erasing drops exactly the last keys of the list, and no other entry changes. */
  lemma {:induction false} ErasedKeys(s: Store, n: nat)
    requires n <= |s.lru|
    ensures forall x :: x in Erased(s, n).entries <==> x in s.entries && x !in s.lru[|s.lru| - n..]
    ensures forall x :: x in Erased(s, n).entries ==> Erased(s, n).entries[x] == s.entries[x]
  {
    if n > 0 {
      ErasedKeys(s, n - 1);
      assert s.lru[|s.lru| - n..] == [s.lru[|s.lru| - n]] + s.lru[|s.lru| - (n - 1)..];
    }
  }

  lemma KeptListed(s: Store, k: nat, m: nat, x: LiquidCacheKey)
    requires Listed(s) && k <= m <= |s.lru| && x in s.lru[..|s.lru| - m]
    ensures x in Erased(s, k).entries
  {
    ErasedKeys(s, k);
    var j :| 0 <= j < |s.lru| - m && s.lru[j] == x;
    assert s.lru[j] in s.entries;
  }

  lemma MakeSpaceListed(s: Store, needed: nat)
    requires Listed(s)
    ensures Listed(MakeSpace(s, needed).0)
  {
    if s.max != 0 && needed <= s.max {
      var k := Shortest(s, needed, 0, EvictionLimit(s));
      forall x | x in s.lru[..|s.lru| - Delisted(s, k)] ensures x in Erased(s, k).entries {
        KeptListed(s, k, Delisted(s, k), x);
      }
    }
  }

  lemma ApplyListed(s: Store, op: Op)
    requires Listed(s)
    ensures Listed(Apply(s, op))
  {
    match op
    case Insert(key, entry) =>
      if Growth(s, key, entry).Some? {
        MakeSpaceListed(s, Growth(s, key, entry).value);
      }
      FrontedNoRepeats(RoomFor(s, key, entry).0.lru, key);
    case Get(key) =>
      FrontedNoRepeats(s.lru, key);
    case _ =>
  }

  /** In every reachable state the list has no repeats and only cached keys. */
  lemma {:induction false} AlwaysListed(ops: seq<Op>, max: nat)
    ensures Listed(After(Empty(max), ops))
  {
    if ops != [] {
      AlwaysListed(ops[..|ops| - 1], max);
      ApplyListed(After(Empty(max), ops[..|ops| - 1]), ops[|ops| - 1]);
    }
  }

  /** The simple map: the last entry inserted with success, or loaded, for every key since the last clear. */
  function Recorded(ops: seq<Op>, max: nat): Entries {
    if ops == [] then map[]
    else
      var before, op := Recorded(ops[..|ops| - 1], max), ops[|ops| - 1];
      match op
      case Insert(key, entry) => if Put(After(Empty(max), ops[..|ops| - 1]), key, entry).1 then before[key := entry]
          else before
      case LoadEntry(key, entry) => before[key := entry]
      case Clear => map[]
      case _ => before
  }

  /** Every entry is the recorded one. */
  ghost predicate SubMap(a: Entries, b: Entries) {
    forall k :: k in a ==> k in b && a[k] == b[k]
  }

  lemma RoomSubMap(s: Store, key: LiquidCacheKey, entry: CacheEntry)
    ensures SubMap(RoomFor(s, key, entry).0.entries, s.entries)
  {
    var g := Growth(s, key, entry);
    if g.Some? && s.max != 0 && g.value <= s.max {
      ErasedKeys(s, Shortest(s, g.value, 0, EvictionLimit(s)));
    }
  }

  /** The cache never holds anything but the last successful write of a key: it is a part of the simple map. */
  lemma {:induction false} AlwaysSubMap(ops: seq<Op>, max: nat)
    ensures SubMap(After(Empty(max), ops).entries, Recorded(ops, max))
  {
    if ops != [] {
      var s, op := After(Empty(max), ops[..|ops| - 1]), ops[|ops| - 1];
      AlwaysSubMap(ops[..|ops| - 1], max);
      if op.Insert? {
        RoomSubMap(s, op.key, op.entry);
      }
    }
  }

  // ---------------------------------------------------------------- accounting

  /** The sum of the sizes of all entries. */
  ghost function Total(m: Entries): nat {
    if m == map[] then 0
    else
      var k :| k in m;
      m[k].MemorySize() + Total(m - {k})
  }

  /** The order in which sizes are added does not matter. */
  lemma {:induction false} TotalWithout(m: Entries, k: LiquidCacheKey)
    requires k in m
    ensures Total(m) == m[k].MemorySize() + Total(m - {k})
    decreases |m|
  {
    var j :| j in m && Total(m) == m[j].MemorySize() + Total(m - {j});
    if j != k {
      TotalWithout(m - {j}, k);
      TotalWithout(m - {k}, j);
      assert m - {j} - {k} == m - {k} - {j};
    }
  }

  lemma TotalPut(m: Entries, k: LiquidCacheKey, e: CacheEntry)
    ensures Total(m[k := e]) == Total(m - {k}) + e.MemorySize()
  {
    TotalWithout(m[k := e], k);
    assert m[k := e] - {k} == m - {k};
  }

  lemma TotalUpdate(m: Entries, k: LiquidCacheKey, e: CacheEntry)
    ensures Total(m[k := e]) == Total(m) + e.MemorySize() - (if k in m then m[k].MemorySize() else 0)
  {
    TotalPut(m, k, e);
    if k in m {
      TotalWithout(m, k);
    } else {
      assert m - {k} == m;
    }
  }

  /** Does a growing update evict the very entry it replaces? Its old size is then released twice over. */
  predicate EvictsItself(s: Store, key: LiquidCacheKey, entry: CacheEntry) {
    key in s.entries && RoomFor(s, key, entry).1 && key !in RoomFor(s, key, entry).0.entries
  }

  /** Bytes held by the `n` last keys of the list. */
  function Freed(s: Store, n: nat): nat
    requires n <= |s.lru|
  {
    if n == 0 then 0 else Freed(s, n - 1) + OldSize(s, s.lru[|s.lru| - n])
  }

  /** Would giving up the `n` last keys make room, in the 64-bit test of the original? */
  predicate Suffices(s: Store, n: nat, needed: nat)
    requires n <= |s.lru|
  {
    Fits(Wrap(s.used - Freed(s, n)), needed, s.max)
  }

  /** How far from the end of the list a key is. */
  function FromEnd(list: seq<LiquidCacheKey>, key: LiquidCacheKey): (p: nat)
    requires key in list
    ensures p < |list| && list[|list| - 1 - p] == key
  {
    if list[|list| - 1] == key then 0 else 1 + FromEnd(list[..|list| - 1], key)
  }

  /** The same question, of the state before the call alone: the update grows within the limit, the key is among those
      that may be tried, neither those behind it nor it make room, and some more do. */
  predicate WillEvictItself(s: Store, key: LiquidCacheKey, entry: CacheEntry) {
    && key in s.entries && entry.MemorySize() > OldSize(s, key)
    && var g := entry.MemorySize() - OldSize(s, key);
       && 0 < s.max && g <= s.max && key in s.lru && FromEnd(s.lru, key) < 8192
       && FewerDoNot(s, FromEnd(s.lru, key), g) && SomeDo(s, g)
  }

  predicate FewerDoNot(s: Store, p: nat, g: nat)
    requires p < |s.lru|
  {
    forall n :: 0 <= n <= p ==> !Suffices(s, n, g)
  }

  predicate SomeDo(s: Store, g: nat) {
    exists n :: 0 <= n <= |s.lru| && n <= 8192 && Suffices(s, n, g)
  }

  /** The next key to erase is cached, with its own size. */
  lemma NextErased(s: Store, n: nat)
    requires Listed(s) && 0 < n <= |s.lru|
    ensures var k, before := s.lru[|s.lru| - n], Erased(s, n - 1);
            k in before.entries && before.entries[k] == s.entries[k] && k in s.entries
  {
    var k := s.lru[|s.lru| - n];
    ErasedKeys(s, n - 1);
    assert k in s.lru && k !in s.lru[|s.lru| - (n - 1)..];
  }

  lemma ReleasedUsed(s: Store, k: LiquidCacheKey, size: nat)
    requires k in s.entries && size == s.entries[k].MemorySize()
    ensures Erase(s, k).used == Wrap(s.used - size)
  {
  }

  lemma WrapLess(used: nat, freed: nat, size: nat)
    ensures Wrap(Wrap(used - freed) - size) == Wrap(used - (freed + size))
  {
    var less: int := size;
    WrapStep(used - freed, -less);
  }

  lemma NextUsed(s: Store, n: nat)
    requires Listed(s) && 0 < n <= |s.lru| && Erased(s, n - 1).used == Wrap(s.used - Freed(s, n - 1))
    ensures Erased(s, n).used == Wrap(s.used - Freed(s, n))
  {
    var k := s.lru[|s.lru| - n];
    NextErased(s, n);
    ReleasedUsed(Erased(s, n - 1), k, OldSize(s, k));
    WrapLess(s.used, Freed(s, n - 1), OldSize(s, k));
  }

  /** Erasing listed keys releases their sizes, in 64 bits. */
  lemma {:induction false} ErasedUsed(s: Store, n: nat)
    requires Listed(s) && s.used < TWO_64 && n <= |s.lru|
    ensures Erased(s, n).used == Wrap(s.used - Freed(s, n))
  {
    if n == 0 {
      ModSmall(s.used, TWO_64);
    } else {
      ErasedUsed(s, n - 1);
      NextUsed(s, n);
    }
  }

  lemma RoomySuffices(s: Store, g: nat)
    requires Listed(s) && s.used < TWO_64
    ensures forall n {:trigger Roomy(s, n, g)} {:trigger Suffices(s, n, g)} :: 0 <= n <= |s.lru| ==>
              (Roomy(s, n, g) <==> Suffices(s, n, g))
  {
    forall n | 0 <= n <= |s.lru| ensures Roomy(s, n, g) <==> Suffices(s, n, g) {
      ErasedUsed(s, n);
    }
  }

  /** In a list without repeats a key is among the last `k` precisely when fewer than `k` are behind it. */
  lemma AmongLast(list: seq<LiquidCacheKey>, key: LiquidCacheKey, k: nat)
    requires NoRepeats(list) && k <= |list|
    ensures key in list[|list| - k..] <==> key in list && FromEnd(list, key) < k
  {
    if key in list {
      var p := FromEnd(list, key);
      if p < k {
        assert list[|list| - k..][k - 1 - p] == key;
      }
    }
  }

  lemma ErasesKey(s: Store, key: LiquidCacheKey, k: nat)
    requires NoRepeats(s.lru) && k <= |s.lru| && key in s.entries
    ensures key !in Erased(s, k).entries <==> key in s.lru && FromEnd(s.lru, key) < k
  {
    ErasedKeys(s, k);
    AmongLast(s.lru, key, k);
  }

  /** The outcome is known beforehand. */
  lemma EvictsItselfIff(s: Store, key: LiquidCacheKey, entry: CacheEntry)
    requires Listed(s) && s.used < TWO_64
    ensures EvictsItself(s, key, entry) <==> WillEvictItself(s, key, entry)
  {
    if key in s.entries && entry.MemorySize() > OldSize(s, key) && s.max != 0
        && entry.MemorySize() - OldSize(s, key) <= s.max {
      var g := entry.MemorySize() - OldSize(s, key);
      var k := Shortest(s, g, 0, EvictionLimit(s));
      ErasesKey(s, key, k);
      if key in s.lru {
        ReachesKey(s, g, k, FromEnd(s.lru, key));
      }
    }
  }

  /** The shortest run makes room and reaches position `p` precisely when no run up to `p` makes room and some run
      does. */
  lemma ReachesKey(s: Store, g: nat, k: nat, p: nat)
    requires Listed(s) && s.used < TWO_64 && k == Shortest(s, g, 0, EvictionLimit(s)) && p < |s.lru|
    ensures Roomy(s, k, g) && p < k <==> p < 8192 && FewerDoNot(s, p, g) && SomeDo(s, g)
  {
    RoomySuffices(s, g);
    if Roomy(s, k, g) {
      assert Suffices(s, k, g);
    } else if SomeDo(s, g) {
      LimitReached(s, g, k);
    }
  }

  lemma LimitReached(s: Store, g: nat, k: nat)
    requires Listed(s) && s.used < TWO_64 && k == Shortest(s, g, 0, EvictionLimit(s)) && SomeDo(s, g)
    ensures Roomy(s, k, g)
  {
    RoomySuffices(s, g);
    var n :| 0 <= n <= |s.lru| && n <= 8192 && Suffices(s, n, g);
    ShortestReaches(s, g, n);
  }

  /** The counter of every reachable state is a 64-bit register. */
  lemma {:induction false} AlwaysRegister(ops: seq<Op>, max: nat)
    ensures After(Empty(max), ops).used < TWO_64
  {
    if ops != [] {
      AlwaysRegister(ops[..|ops| - 1], max);
      ApplyRegister(After(Empty(max), ops[..|ops| - 1]), ops[|ops| - 1]);
    }
  }

  lemma ApplyRegister(s: Store, op: Op)
    requires s.used < TWO_64
    ensures Apply(s, op).used < TWO_64
  {
    if op.Insert? && Growth(s, op.key, op.entry).Some? {
      var g := Growth(s, op.key, op.entry).value;
      if s.max != 0 && g <= s.max {
        ErasedRegister(s, Shortest(s, g, 0, EvictionLimit(s)));
      }
    }
  }

  lemma {:induction false} ErasedRegister(s: Store, n: nat)
    requires s.used < TWO_64 && n <= |s.lru|
    ensures Erased(s, n).used < TWO_64
  {
    if n > 0 {
      ErasedRegister(s, n - 1);
    }
  }

  /** Bytes cached but not accounted for: old sizes released twice, and entries loaded past the budget. */
  function Drift(ops: seq<Op>, max: nat): int {
    if ops == [] then 0
    else DriftAfter(After(Empty(max), ops[..|ops| - 1]), ops[|ops| - 1], Drift(ops[..|ops| - 1], max))
  }

  function DriftAfter(s: Store, op: Op, before: int): int {
    match op
    case Insert(key, entry) => before + (if WillEvictItself(s, key, entry) then OldSize(s, key) else 0)
    case LoadEntry(key, entry) => before + entry.MemorySize() - OldSize(s, key)
    case Clear => 0
    case _ => before
  }

  /** The budget counts all entries but `d` bytes. */
  ghost predicate Accounted(s: Store, d: int) {
    s.used == Wrap(Total(s.entries) - d)
  }

  lemma EraseAccounted(s: Store, k: LiquidCacheKey, d: int)
    requires Accounted(s, d)
    ensures Accounted(Erase(s, k), d)
  {
    if k in s.entries {
      TotalWithout(s.entries, k);
      var size: int := s.entries[k].MemorySize();
      WrapStep(Total(s.entries) - d, -size);
    }
  }

  lemma {:induction false} ErasedAccounted(s: Store, n: nat, d: int)
    requires n <= |s.lru| && Accounted(s, d)
    ensures Accounted(Erased(s, n), d)
  {
    if n > 0 {
      ErasedAccounted(s, n - 1, d);
      EraseAccounted(Erased(s, n - 1), s.lru[|s.lru| - n], d);
    }
  }

  lemma RoomAccounted(s: Store, key: LiquidCacheKey, entry: CacheEntry, d: int)
    requires Accounted(s, d)
    ensures Accounted(RoomFor(s, key, entry).0, d)
  {
    var g := Growth(s, key, entry);
    if g.Some? && s.max != 0 && g.value <= s.max {
      ErasedAccounted(s, Shortest(s, g.value, 0, EvictionLimit(s)), d);
    }
  }

  lemma PutAccounted(s: Store, key: LiquidCacheKey, entry: CacheEntry, d: int)
    requires Accounted(s, d)
    ensures Accounted(Put(s, key, entry).0, d + if EvictsItself(s, key, entry) then OldSize(s, key) else 0)
  {
    var (r, ok) := RoomFor(s, key, entry);
    RoomAccounted(s, key, entry, d);
    RoomSubMap(s, key, entry);
    if ok {
      TotalUpdate(r.entries, key, entry);
      WrapStep(Total(r.entries) - d, entry.MemorySize() - OldSize(s, key));
    }
  }

  lemma LoadAccounted(s: Store, key: LiquidCacheKey, entry: CacheEntry, d: int)
    requires Accounted(s, d)
    ensures Accounted(Apply(s, LoadEntry(key, entry)), d + entry.MemorySize() - OldSize(s, key))
  {
    TotalUpdate(s.entries, key, entry);
  }

  lemma ApplyAccounted(s: Store, op: Op, d: int)
    requires Listed(s) && Accounted(s, d)
    ensures Accounted(Apply(s, op), DriftAfter(s, op, d))
  {
    match op
    case Insert(key, entry) =>
      PutAccounted(s, key, entry, d);
      EvictsItselfIff(s, key, entry);
    case LoadEntry(key, entry) => LoadAccounted(s, key, entry, d);
    case _ =>
  }

  /** In every run the budget is the sum of the sizes of all entries less the drift, reduced to 64 bits. */
  lemma {:induction false} AlwaysAccounted(ops: seq<Op>, max: nat)
    ensures Accounted(After(Empty(max), ops), Drift(ops, max))
  {
    if ops != [] {
      var before := ops[..|ops| - 1];
      AlwaysAccounted(before, max);
      AlwaysListed(before, max);
      ApplyAccounted(After(Empty(max), before), ops[|ops| - 1], Drift(before, max));
    }
  }

  /** No growing update evicts itself, nothing is loaded past the budget, and the limit is never changed. */
  ghost predicate Clean(ops: seq<Op>, max: nat) {
    ops != [] ==>
      && Clean(ops[..|ops| - 1], max)
      && match ops[|ops| - 1]
         case Insert(key, entry) => !WillEvictItself(After(Empty(max), ops[..|ops| - 1]), key, entry)
         case LoadEntry(_, _) => false
         case SetMax(_) => false
         case _ => true
  }

  /** A clean run has no drift, so that with no limit, too, the budget is the sum of all sizes. */
  lemma {:induction false} CleanHasNoDrift(ops: seq<Op>, max: nat)
    requires Clean(ops, max)
    ensures Drift(ops, max) == 0 && Accounted(After(Empty(max), ops), 0)
  {
    AlwaysAccounted(ops, max);
    if ops != [] {
      CleanHasNoDrift(ops[..|ops| - 1], max);
    }
  }

  /** The budget is exact and within the limit. */
  ghost predicate Exact(s: Store) {
    s.used == Total(s.entries) <= s.max
  }

  /** The budget is exact; the limit may have been lowered below it. */
  ghost predicate Balanced(s: Store) {
    s.used == Total(s.entries) < TWO_64
  }

  /** The entries of listed keys leave the sum as they are erased. */
  lemma {:induction false} FreedTotal(s: Store, n: nat)
    requires Listed(s) && n <= |s.lru|
    ensures Total(Erased(s, n).entries) == Total(s.entries) - Freed(s, n)
  {
    if n > 0 {
      FreedTotal(s, n - 1);
      NextErased(s, n);
      TotalWithout(Erased(s, n - 1).entries, s.lru[|s.lru| - n]);
    }
  }

  /** With an exact budget, erasing listed keys frees their sizes, and nothing wraps. */
  lemma ErasedBalanced(s: Store, n: nat)
    requires Balanced(s) && Listed(s) && n <= |s.lru|
    ensures Balanced(Erased(s, n)) && Erased(s, n).used == s.used - Freed(s, n)
  {
    FreedTotal(s, n);
    ErasedUsed(s, n);
    ModSmall(s.used - Freed(s, n), TWO_64);
  }

  /** The test of the original does not wrap when the sum before does not. */
  lemma RoomyMeans(s: Store, needed: nat)
    requires Balanced(s) && s.used + needed < TWO_64 && Listed(s)
    ensures forall n {:trigger Roomy(s, n, needed)} {:trigger FreesEnough(s, n, needed)} ::
              0 <= n <= |s.lru| ==> (Roomy(s, n, needed) <==> FreesEnough(s, n, needed))
  {
    forall n | 0 <= n <= |s.lru| ensures Roomy(s, n, needed) <==> FreesEnough(s, n, needed) {
      RoomyAt(s, n, needed);
    }
  }

  lemma RoomyAt(s: Store, n: nat, needed: nat)
    requires Balanced(s) && s.used + needed < TWO_64 && Listed(s) && n <= |s.lru|
    ensures Roomy(s, n, needed) <==> FreesEnough(s, n, needed)
  {
    ErasedBalanced(s, n);
  }

  lemma ShortestIsRun(s: Store, needed: nat, k: nat)
    requires Balanced(s) && s.used + needed < TWO_64 && Listed(s) && 0 < s.max && needed <= s.max
    requires k == Shortest(s, needed, 0, EvictionLimit(s)) && Roomy(s, k, needed)
    ensures ShortestRun(s, k, needed, MakeSpace(s, needed).0)
  {
    RoomyMeans(s, needed);
    DelistedGroups(s, k);
    RunErased(s, k, needed, MakeSpace(s, needed).0);
  }

  lemma RunErased(s: Store, k: nat, needed: nat, r: Store)
    requires k <= |s.lru| && FreesEnough(s, k, needed) && forall n :: 0 <= n < k ==> !FreesEnough(s, n, needed)
    requires r.entries == Erased(s, k).entries && r.lru == s.lru[..|s.lru| - WholeGroups(k, |s.lru|)]
    ensures ShortestRun(s, k, needed, r)
  {
    ErasedKeys(s, k);
  }

  lemma DelistedGroups(s: Store, k: nat)
    requires k <= |s.lru|
    ensures Delisted(s, k) == WholeGroups(k, |s.lru|)
  {
    EvictionNumbers(s, k);
    SameGroup(k, Delisted(s, k), WholeGroups(k, |s.lru|), |s.lru|);
  }

  lemma SameGroup(k: nat, a: nat, b: nat, n: nat)
    requires k <= a <= n && k <= b <= n && a < k + 8 && b < k + 8
    requires (a == n || a % 8 == 0) && (b == n || b % 8 == 0)
    requires forall j :: k <= j < a || k <= j < b ==> j % 8 != 0
    ensures a == b
  {
  }

  /** The least multiple of eight from `k` on, but no more than `n`. */
  function WholeGroups(k: nat, n: nat): (m: nat)
    requires k <= n
    ensures k <= m <= n && m < k + 8 && (m == n || m % 8 == 0)
    ensures forall j :: k <= j < m ==> j % 8 != 0
  {
    Min(n, k + (8 - k % 8) % 8)
  }

  ghost predicate LosesShortestRun(s: Store, needed: nat, r: Store) {
    exists k :: 0 <= k <= |s.lru| && k <= 8192 && ShortestRun(s, k, needed, r)
  }

  /** Making room, with an exact budget and a sum that fits 64 bits, over the limit or not: it succeeds precisely when
      the request is within the limit and some run of at most 8192 least recently used keys frees enough; it erases
      exactly the shortest such run, or all that may be tried, and respects the limit. */
  lemma MakeSpaceExactly(s: Store, needed: nat)
    requires Balanced(s) && s.used + needed < TWO_64 && Listed(s) && 0 < s.max
    ensures var (r, ok) := MakeSpace(s, needed);
            && (ok <==> needed <= s.max && SomeFree(s, needed))
            && Balanced(r) && r.used <= s.used
            && (ok ==> LosesShortestRun(s, needed, r) && Total(r.entries) + needed <= s.max)
            && (!ok && needed > s.max ==> r == s)
            && (!ok && needed <= s.max ==> r.used == s.used - Freed(s, if |s.lru| < 8192 then |s.lru| else 8192))
  {
    if needed <= s.max {
      RoomMade(s, needed, Shortest(s, needed, 0, EvictionLimit(s)));
    }
  }

  lemma RoomMade(s: Store, needed: nat, k: nat)
    requires Balanced(s) && s.used + needed < TWO_64 && Listed(s) && 0 < s.max && needed <= s.max
    requires k == Shortest(s, needed, 0, EvictionLimit(s))
    ensures var (r, ok) := MakeSpace(s, needed);
            && (ok <==> SomeFree(s, needed)) && Balanced(r) && r.used == s.used - Freed(s, k)
            && (ok ==> LosesShortestRun(s, needed, r) && Total(r.entries) + needed <= s.max)
    ensures !MakeSpace(s, needed).1 ==> k == if |s.lru| < 8192 then |s.lru| else 8192
  {
    ErasedBalanced(s, k);
    RoomyIfSome(s, needed, k);
    if Roomy(s, k, needed) {
      ShortestIsRun(s, needed, k);
    }
  }

  lemma RoomyIfSome(s: Store, needed: nat, k: nat)
    requires Balanced(s) && s.used + needed < TWO_64 && Listed(s) && k == Shortest(s, needed, 0, EvictionLimit(s))
    ensures Roomy(s, k, needed) <==> FreesEnough(s, k, needed)
    ensures Roomy(s, k, needed) <==> SomeFree(s, needed)
  {
    RoomyAt(s, k, needed);
    if SomeFree(s, needed) {
      var n :| 0 <= n <= |s.lru| && n <= 8192 && FreesEnough(s, n, needed);
      RoomyAt(s, n, needed);
      ShortestReaches(s, needed, n);
    }
  }

  /** If some run makes room, the shortest does. */
  lemma ShortestReaches(s: Store, needed: nat, n: nat)
    requires n <= |s.lru| && n <= 8192 && Roomy(s, n, needed)
    ensures Roomy(s, Shortest(s, needed, 0, EvictionLimit(s)), needed)
  {
  }

  ghost predicate FreesEnough(s: Store, n: nat, needed: nat)
    requires n <= |s.lru|
  {
    Total(s.entries) - Freed(s, n) + needed <= s.max
  }

  /** Some run of at most 8192 last keys frees enough. */
  ghost predicate SomeFree(s: Store, needed: nat) {
    exists n :: 0 <= n <= |s.lru| && n <= 8192 && FreesEnough(s, n, needed)
  }

  /** `r` is `s` without the entries of its last `k` keys, `k` is the least that frees enough, and the list has lost
      those keys and the rest of their last group of eight. */
  ghost predicate ShortestRun(s: Store, k: nat, needed: nat, r: Store)
    requires k <= |s.lru|
  {
    && FreesEnough(s, k, needed) && (forall n :: 0 <= n < k ==> !FreesEnough(s, n, needed))
    && (forall x :: x in r.entries <==> x in s.entries && x !in s.lru[|s.lru| - k..])
    && (forall x :: x in r.entries ==> r.entries[x] == s.entries[x])
    && r.lru == s.lru[..|s.lru| - WholeGroups(k, |s.lru|)]
  }

  /** Without a limit every insertion succeeds, and no other entry goes. */
  lemma UnlimitedPut(s: Store, key: LiquidCacheKey, entry: CacheEntry)
    requires s.max == 0
    ensures var (r, ok) := Put(s, key, entry); ok && r.entries == s.entries[key := entry] && r.max == 0
  {
  }

  /** Erasing all listed keys leaves nothing when every cached key is listed. */
  lemma AllFreed(s: Store)
    requires Listed(s) && AllListed(s)
    ensures Freed(s, |s.lru|) == Total(s.entries)
  {
    FreedTotal(s, |s.lru|);
    ErasedKeys(s, |s.lru|);
    assert s.lru[|s.lru| - |s.lru|..] == s.lru;
    assert Erased(s, |s.lru|).entries == map[];
  }

  /** With an exact budget, every cached key listed and no more keys than may be tried, room is made precisely for the
      requests within the limit. */
  lemma MakeSpaceSucceedsIff(s: Store, needed: nat)
    requires Balanced(s) && s.used + needed < TWO_64 && Listed(s) && AllListed(s) && |s.lru| <= 8192 && 0 < s.max
    ensures MakeSpace(s, needed).1 <==> needed <= s.max
  {
    MakeSpaceExactly(s, needed);
    AllFreed(s);
    assert needed <= s.max ==> FreesEnough(s, |s.lru|, needed);
  }

  // ---------------------------------------------------------------- keys that leave the list without being erased

  /** Every cached key is listed, and so can be evicted. */
  ghost predicate AllListed(s: Store) {
    forall x :: x in s.entries ==> x in s.lru
  }

  /** A key taken off the list but not erased stays cached. */
  lemma UnusedVictimsStayCached(s: Store, needed: nat, i: nat)
    requires Listed(s) && s.max != 0 && needed <= s.max
    requires var k := Shortest(s, needed, 0, EvictionLimit(s)); k <= i < Delisted(s, k)
    ensures var r, x := MakeSpace(s, needed).0, s.lru[|s.lru| - 1 - i];
            x in r.entries && x !in r.lru
  {
    var k, x := Shortest(s, needed, 0, EvictionLimit(s)), s.lru[|s.lru| - 1 - i];
    ErasedKeys(s, k);
    assert x in s.entries;
  }

  lemma KeptAreListed(s: Store, k: nat, x: LiquidCacheKey)
    requires AllListed(s) && k <= |s.lru| && x in Erased(s, k).entries
    ensures x in s.lru[..|s.lru| - k]
  {
    ErasedKeys(s, k);
    assert s.lru == s.lru[..|s.lru| - k] + s.lru[|s.lru| - k..];
  }

  /** Making room leaves every cached key on the list if and only if it erases whole groups, or the whole list. */
  lemma KeepsListedIff(s: Store, needed: nat)
    requires Listed(s) && AllListed(s) && s.max != 0 && needed <= s.max
    ensures var k := Shortest(s, needed, 0, EvictionLimit(s));
            AllListed(MakeSpace(s, needed).0) <==> k % 8 == 0 || k == |s.lru|
  {
    var k := Shortest(s, needed, 0, EvictionLimit(s));
    EvictionNumbers(s, k);
    if Delisted(s, k) == k {
      WholeGroupsKeep(s, needed, k);
    } else {
      UnusedVictimsStayCached(s, needed, k);
    }
  }

  lemma WholeGroupsKeep(s: Store, needed: nat, k: nat)
    requires AllListed(s) && s.max != 0 && needed <= s.max
    requires k == Shortest(s, needed, 0, EvictionLimit(s)) && Delisted(s, k) == k
    ensures AllListed(MakeSpace(s, needed).0)
  {
    forall x | x in Erased(s, k).entries ensures x in s.lru[..|s.lru| - k] {
      KeptAreListed(s, k, x);
    }
  }

  /** Does an operation bring a key back: by a write to it, or by clearing everything? */
  predicate Touches(op: Op, x: LiquidCacheKey) {
    op.Clear? || (op.Insert? && op.key == x) || (op.LoadEntry? && op.key == x)
  }

  lemma DelistedStep(s: Store, op: Op, x: LiquidCacheKey)
    requires Listed(s) && x in s.entries && x !in s.lru && !Touches(op, x)
    ensures x in Apply(s, op).entries && Apply(s, op).entries[x] == s.entries[x] && x !in Apply(s, op).lru
  {
    if op.Insert? {
      var r := RoomFor(s, op.key, op.entry).0;
      DelistedRoom(s, op.key, op.entry, x);
      if Growth(s, op.key, op.entry).Some? {
        MakeSpaceListed(s, Growth(s, op.key, op.entry).value);
      }
      FrontedNoRepeats(r.lru, op.key);
    } else if op.Get? {
      FrontedNoRepeats(s.lru, op.key);
    }
  }

  lemma DelistedRoom(s: Store, key: LiquidCacheKey, entry: CacheEntry, x: LiquidCacheKey)
    requires x in s.entries && x !in s.lru
    ensures var r := RoomFor(s, key, entry).0; x in r.entries && r.entries[x] == s.entries[x] && x !in r.lru
  {
    var g := Growth(s, key, entry);
    if g.Some? && s.max != 0 && g.value <= s.max {
      ErasedKeys(s, Shortest(s, g.value, 0, EvictionLimit(s)));
    }
  }

  /** A cached key that is off the list stays cached and off the list, with its entry, through any run that neither
      writes it nor clears the cache: no eviction can reach it. */
  lemma {:induction false} DelistedStays(s: Store, ops: seq<Op>, x: LiquidCacheKey)
    requires Listed(s) && x in s.entries && x !in s.lru
    requires forall i :: 0 <= i < |ops| ==> !Touches(ops[i], x)
    ensures Listed(After(s, ops))
    ensures x in After(s, ops).entries && After(s, ops).entries[x] == s.entries[x] && x !in After(s, ops).lru
  {
    if ops != [] {
      var before := ops[..|ops| - 1];
      DelistedStays(s, before, x);
      ApplyListed(After(s, before), ops[|ops| - 1]);
      DelistedStep(After(s, before), ops[|ops| - 1], x);
    }
  }

  // ---------------------------------------------------------------- the list and the history of use

  /** Is the operation a use of the key: a successful insertion, or a successful read while it is listed? */
  predicate Uses(s: Store, op: Op, k: LiquidCacheKey) {
    match op
    case Insert(key, entry) => key == k && Put(s, key, entry).1
    case Get(key) => key == k && key in s.entries && s.entries[key].Read().Some? && key in s.lru
    case _ => false
  }

  /** When a key was last used in a run, or -1. */
  function LastUse(ops: seq<Op>, max: nat, k: LiquidCacheKey): (t: int)
    ensures -1 <= t < |ops|
  {
    if ops == [] then -1
    else if Uses(After(Empty(max), ops[..|ops| - 1]), ops[|ops| - 1], k) then |ops| - 1
    else LastUse(ops[..|ops| - 1], max, k)
  }

  function LastUses(ops: seq<Op>, max: nat): LiquidCacheKey -> int {
    (k: LiquidCacheKey) => LastUse(ops, max, k)
  }

  /** Making room takes keys off the end of the list only. */
  lemma RoomPrefix(s: Store, key: LiquidCacheKey, entry: CacheEntry)
    ensures RoomFor(s, key, entry).0.lru <= s.lru
  {
  }

  lemma ApplyRecent(s: Store, op: Op, before: LiquidCacheKey -> int, use: LiquidCacheKey -> int)
    requires Listed(s) && Descending(s.lru, before)
    requires forall k {:trigger use(k)} ::
               if Uses(s, op, k) then forall x :: use(k) > before(x) else use(k) == before(k)
    ensures Descending(Apply(s, op).lru, use)
  {
    match op
    case Insert(key, entry) =>
      var r := RoomFor(s, key, entry).0;
      RoomPrefix(s, key, entry);
      assert Descending(r.lru, before) && NoRepeats(r.lru);
      if Put(s, key, entry).1 {
        FrontedDescending(r.lru, key, before, use);
      }
    case Get(key) =>
      if Uses(s, op, key) {
        FrontedDescending(s.lru, key, before, use);
      }
    case _ =>
  }

  /** In every reachable state the list is in order of last use: of any two listed keys, the one nearer the front was
      used later. */
  lemma {:induction false} AlwaysRecent(ops: seq<Op>, max: nat)
    ensures Descending(After(Empty(max), ops).lru, LastUses(ops, max))
  {
    if ops != [] {
      var before, op := ops[..|ops| - 1], ops[|ops| - 1];
      AlwaysRecent(before, max);
      AlwaysListed(before, max);
      forall k {:trigger LastUses(ops, max)(k)}
        ensures if Uses(After(Empty(max), before), op, k)
                  then forall x :: LastUses(ops, max)(k) > LastUses(before, max)(x)
                else LastUses(ops, max)(k) == LastUses(before, max)(k)
      {
      }
      ApplyRecent(After(Empty(max), before), op, LastUses(before, max), LastUses(ops, max));
    }
  }

  /** Every listed key has been used. */
  lemma {:induction false} ListedWereUsed(ops: seq<Op>, max: nat, k: LiquidCacheKey)
    requires k in After(Empty(max), ops).lru
    ensures LastUse(ops, max, k) >= 0
  {
    var before := ops[..|ops| - 1];
    var s, op := After(Empty(max), before), ops[|ops| - 1];
    AlwaysListed(before, max);
    if !Uses(s, op, k) {
      StillListed(s, op, k);
      ListedWereUsed(before, max, k);
    }
  }

  lemma StillListed(s: Store, op: Op, k: LiquidCacheKey)
    requires Listed(s) && k in Apply(s, op).lru && !Uses(s, op, k)
    ensures k in s.lru
  {
    match op
    case Insert(key, entry) =>
      var r := RoomFor(s, key, entry).0;
      RoomPrefix(s, key, entry);
      assert NoRepeats(r.lru);
      FrontedNoRepeats(r.lru, key);
      assert forall x :: x in r.lru ==> x in s.lru;
    case Get(key) =>
      FrontedNoRepeats(s.lru, key);
    case _ =>
  }

  /** A key among the last `k` comes after one before the last `m`. */
  lemma LastAfterFirst(list: seq<LiquidCacheKey>, k: nat, m: nat, x: LiquidCacheKey, y: LiquidCacheKey,
                       use: LiquidCacheKey -> int)
    requires Descending(list, use) && k <= m <= |list| && x in list[|list| - k..] && y in list[..|list| - m]
    ensures x in list && use(x) < use(y)
  {
    var j :| 0 <= j < k && list[|list| - k..][j] == x;
    var i :| 0 <= i < |list| - m && list[i] == y;
    assert list[|list| - k + j] == x;
  }

  /** So the keys that making room erases were all used before every key that stays on the list. */
  lemma ErasesLeastRecent(ops: seq<Op>, max: nat, needed: nat, x: LiquidCacheKey, y: LiquidCacheKey)
    requires var s := After(Empty(max), ops);
             x in s.entries && x !in MakeSpace(s, needed).0.entries && y in MakeSpace(s, needed).0.lru
    ensures x in After(Empty(max), ops).lru && 0 <= LastUse(ops, max, x) < LastUse(ops, max, y)
  {
    var s := After(Empty(max), ops);
    var k := Shortest(s, needed, 0, EvictionLimit(s));
    AlwaysRecent(ops, max);
    ErasedKeys(s, k);
    LastAfterFirst(s.lru, k, Delisted(s, k), x, y, LastUses(ops, max));
    ListedWereUsed(ops, max, x);
  }

  // ---------------------------------------------------------------- exact accounting over runs

  /** The growth an insertion asks for, if it is within the limit, does not push the sum over 64 bits. */
  predicate SumFits(s: Store, key: LiquidCacheKey, entry: CacheEntry) {
    Growth(s, key, entry).Some? && Growth(s, key, entry).value <= s.max ==>
        s.used + Growth(s, key, entry).value < TWO_64
  }

  lemma RoomExact(s: Store, key: LiquidCacheKey, entry: CacheEntry)
    requires Exact(s) && 0 < s.max < TWO_64 && Listed(s) && SumFits(s, key, entry)
    ensures var (r, ok) := RoomFor(s, key, entry);
            && Exact(r) && r.max == s.max
            && (ok && Growth(s, key, entry).Some? ==> Total(r.entries) + Growth(s, key, entry).value <= s.max)
  {
    var g := Growth(s, key, entry);
    if g.Some? && g.value <= s.max {
      MakeSpaceExactly(s, g.value);
    }
  }

  lemma ExactReplaced(used: nat, total: nat, max: nat, newSize: nat, oldSize: nat)
    requires used == total <= max < TWO_64 && oldSize <= total && total + newSize - oldSize <= max
    ensures Wrap(used + newSize - oldSize) == total + newSize - oldSize
  {
  }

  /** Writing the entry over a store with room for it. */
  lemma WriteExact(r: Store, key: LiquidCacheKey, entry: CacheEntry, max: nat)
    requires Exact(r) && r.max == max < TWO_64 && Total(r.entries) + entry.MemorySize() - OldSize(r, key) <= max
    ensures Wrap(r.used + entry.MemorySize() - OldSize(r, key)) == Total(r.entries[key := entry]) <= max
  {
    TotalUpdate(r.entries, key, entry);
    if key in r.entries {
      TotalWithout(r.entries, key);
    }
    ExactReplaced(r.used, Total(r.entries), max, entry.MemorySize(), OldSize(r, key));
  }

  lemma PutExact(s: Store, key: LiquidCacheKey, entry: CacheEntry)
    requires Exact(s) && 0 < s.max < TWO_64 && Listed(s) && SumFits(s, key, entry) && !EvictsItself(s, key, entry)
    ensures Exact(Put(s, key, entry).0)
  {
    var (r, ok) := RoomFor(s, key, entry);
    RoomSubMap(s, key, entry);
    RoomExact(s, key, entry);
    if ok {
      assert OldSize(r, key) == OldSize(s, key);
      RoomLeft(s, key, entry, r);
      WriteExact(r, key, entry, s.max);
    }
  }

  /** The growth fits the room that was made; a shrinking entry needs none. */
  lemma RoomLeft(s: Store, key: LiquidCacheKey, entry: CacheEntry, r: Store)
    requires Exact(r) && r.max == s.max && OldSize(r, key) == OldSize(s, key)
    requires Growth(s, key, entry).Some? ==> Total(r.entries) + Growth(s, key, entry).value <= s.max
    ensures Total(r.entries) + entry.MemorySize() - OldSize(r, key) <= s.max
  {
  }

  /** A wrapped sum fits at once: nothing is evicted, and the total passes 2^64. */
  lemma WrappedNotExact(s: Store, key: LiquidCacheKey, entry: CacheEntry)
    requires Exact(s) && 0 < s.max < TWO_64 && !SumFits(s, key, entry)
    ensures Put(s, key, entry).1 && Total(Put(s, key, entry).0.entries) >= TWO_64 > s.max
  {
    var g := Growth(s, key, entry).value;
    assert Wrap(s.used + g) == s.used + g - TWO_64;
    assert Roomy(s, 0, g) && s.lru[..|s.lru| - Delisted(s, 0)] == s.lru;
    assert RoomFor(s, key, entry) == (s, true);
    TotalUpdate(s.entries, key, entry);
  }

  /** An insertion that will not evict itself keeps an exact budget exact if and only if its sum does not wrap. */
  lemma PutExactIff(s: Store, key: LiquidCacheKey, entry: CacheEntry)
    requires Exact(s) && 0 < s.max < TWO_64 && Listed(s) && !WillEvictItself(s, key, entry)
    ensures Exact(Put(s, key, entry).0) <==> SumFits(s, key, entry)
  {
    if SumFits(s, key, entry) {
      EvictsItselfIff(s, key, entry);
      PutExact(s, key, entry);
    } else {
      WrappedNotExact(s, key, entry);
    }
  }

  /** Every insertion of a run keeps the sum of the test within 64 bits. */
  ghost predicate SumsFit(ops: seq<Op>, max: nat) {
    ops != [] ==>
      && SumsFit(ops[..|ops| - 1], max)
      && var op := ops[|ops| - 1];
         op.Insert? ==> SumFits(After(Empty(max), ops[..|ops| - 1]), op.key, op.entry)
  }

  /** In every clean run under a fixed limit whose sums fit 64 bits, the budget is exactly the sum of the sizes of all
      entries, and never exceeds the limit. */
  lemma {:induction false} AlwaysExact(ops: seq<Op>, max: nat)
    requires 0 < max < TWO_64 && Clean(ops, max) && SumsFit(ops, max)
    ensures Exact(After(Empty(max), ops)) && After(Empty(max), ops).max == max
  {
    if ops != [] {
      var before := ops[..|ops| - 1];
      var s, op := After(Empty(max), before), ops[|ops| - 1];
      AlwaysExact(before, max);
      AlwaysListed(before, max);
      AlwaysRegister(before, max);
      if op.Insert? {
        EvictsItselfIff(s, op.key, op.entry);
        PutExact(s, op.key, op.entry);
      }
    }
  }

  /** The budget is exact after every operation of a run. */
  ghost predicate ExactAllAlong(ops: seq<Op>, max: nat) {
    Exact(After(Empty(max), ops)) && (ops != [] ==> ExactAllAlong(ops[..|ops| - 1], max))
  }

  /** For every limit, the budget of a clean run is exact all along if and only if no sum wraps. */
  lemma {:induction false} AlwaysExactIff(ops: seq<Op>, max: nat)
    requires 0 < max < TWO_64 && Clean(ops, max)
    ensures SumsFit(ops, max) <==> ExactAllAlong(ops, max)
  {
    if ops != [] {
      var before, op := ops[..|ops| - 1], ops[|ops| - 1];
      AlwaysExactIff(before, max);
      if SumsFit(before, max) {
        AlwaysExact(before, max);
        LastExactIff(After(Empty(max), before), op, before, max);
      }
    }
  }

  lemma LastExactIff(s: Store, op: Op, before: seq<Op>, max: nat)
    requires s == After(Empty(max), before) && Exact(s) && s.max == max && 0 < max < TWO_64
    requires !op.LoadEntry? && !op.SetMax? && (op.Insert? ==> !WillEvictItself(s, op.key, op.entry))
    ensures Exact(Apply(s, op)) <==> (op.Insert? ==> SumFits(s, op.key, op.entry))
  {
    AlwaysListed(before, max);
    if op.Insert? {
      PutExactIff(s, op.key, op.entry);
    }
  }

  /** Below a limit of 2^63 they always do. */
  lemma {:induction false} SmallLimitFits(ops: seq<Op>, max: nat)
    requires 0 < max < HALF_RANGE && Clean(ops, max)
    ensures SumsFit(ops, max)
  {
    if ops != [] {
      SmallLimitFits(ops[..|ops| - 1], max);
      AlwaysExact(ops[..|ops| - 1], max);
    }
  }

  const HALF_RANGE: nat := 0x8000_0000_0000_0000

  /** At greater limits they need not: under the greatest, two entries of 2^63 bytes are both taken, and the budget
      says 0. */
  lemma WrappedSum(a: LiquidCacheKey, b: LiquidCacheKey)
    requires a != b
    ensures var ops := [Insert(a, Sized(HALF_RANGE)), Insert(b, Sized(HALF_RANGE))];
            var s := After(Empty(TWO_64 - 1), ops);
            s.used == 0 && Total(s.entries) == TWO_64 > s.max
  {
    var ops := [Insert(a, Sized(HALF_RANGE)), Insert(b, Sized(HALF_RANGE))];
    var s0 := Empty(TWO_64 - 1);
    assert ops[..1] == [ops[0]] && ops[..1][..0] == [];
    assert After(s0, []) == s0;
    var s1 := Apply(s0, ops[0]);
    assert Roomy(s0, 0, HALF_RANGE);
    assert s1 == Store(map[a := Sized(HALF_RANGE)], [a], HALF_RANGE, TWO_64 - 1);
    assert After(s0, ops[..1]) == s1;
    assert Roomy(s1, 0, HALF_RANGE);
    var none: Entries, one: Entries := map[], map[a := Sized(HALF_RANGE)];
    assert After(s0, ops).entries == one[b := Sized(HALF_RANGE)];
    TotalUpdate(one, b, Sized(HALF_RANGE));
    assert none[a := Sized(HALF_RANGE)] == one;
    TotalUpdate(none, a, Sized(HALF_RANGE));
  }

  /** A successful insertion keeps the count right precisely when it will not evict itself, as known before the call, or
      had no bytes to count. */
  lemma CountedIff(s: Store, key: LiquidCacheKey, entry: CacheEntry)
    requires Accounted(s, 0) && Listed(s) && Put(s, key, entry).1
    ensures Accounted(Put(s, key, entry).0, 0) <==> !WillEvictItself(s, key, entry) || OldSize(s, key) == 0
  {
    PutAccounted(s, key, entry, 0);
    EvictsItselfIff(s, key, entry);
    if EvictsItself(s, key, entry) {
      SameResidue(Total(Put(s, key, entry).0.entries), OldSize(s, key));
    }
  }

  lemma SameResidue(t: int, d: nat)
    requires d < TWO_64
    ensures Wrap(t - d) == Wrap(t) <==> d == 0
  {
  }

  // ---------------------------------------------------------------- when the accounting drifts

  function Sized(bytes: nat): CacheEntry {
    CacheEntry(true, None, Some(LiquidArray([], bytes)))
  }

  /** The state in which the drift arises: `a` of 6 bytes and `b` of 4 fill a cache of 10, `a` used least recently. */
  function FullCache(a: LiquidCacheKey, b: LiquidCacheKey): Store {
    Store(map[a := Sized(6), b := Sized(4)], [b, a], 10, 10)
  }

  lemma FullCacheReached(a: LiquidCacheKey, b: LiquidCacheKey)
    requires a != b
    ensures After(Empty(10), [Insert(a, Sized(6)), Insert(b, Sized(4))]) == FullCache(a, b)
  {
    var ops := [Insert(a, Sized(6)), Insert(b, Sized(4))];
    assert ops[..1] == [Insert(a, Sized(6))] && ops[..1][..0] == [];
    var s0 := Empty(10);
    assert After(s0, []) == s0;
    var s1 := Apply(s0, ops[0]);
    assert Roomy(s0, 0, 6);
    assert s1 == Store(map[a := Sized(6)], [a], 6, 10);
    assert After(s0, ops[..1]) == s1;
    assert Roomy(s1, 0, 4);
    assert Without([a], b) == [a];
    assert Apply(s1, ops[1]) == FullCache(a, b);
  }

  /** From there an update of `a` to 8 bytes evicts `a` itself, and takes `b` off the list with it. */
  lemma FullCacheUpdated(a: LiquidCacheKey, b: LiquidCacheKey)
    requires a != b
    ensures MakeSpace(FullCache(a, b), 2) == (Store(map[b := Sized(4)], [], 4, 10), true)
    ensures Put(FullCache(a, b), a, Sized(8)) == (Store(map[b := Sized(4), a := Sized(8)], [a], 6, 10), true)
  {
    var s := FullCache(a, b);
    assert Erased(s, 0) == s && !Roomy(s, 0, 2);
    assert Erased(s, 1) == Erase(s, a) && Erased(s, 1).entries == map[b := Sized(4)] && Erased(s, 1).used == 4
        && Roomy(s, 1, 2);
    assert Shortest(s, 2, 0, 2) == 1;
    assert Growth(s, a, Sized(8)) == Some(2);
    assert MakeSpace(s, 2) == (Store(map[b := Sized(4)], [], 4, 10), true);
    var none: seq<LiquidCacheKey> := [];
    assert Fronted(none, a) == [a];
    assert Put(s, a, Sized(8)).0.entries == map[b := Sized(4)][a := Sized(8)];
    assert map[b := Sized(4)][a := Sized(8)] == map[b := Sized(4), a := Sized(8)];
  }

  /** A growing update that evicts itself is counted without its old size: 12 bytes are cached under a limit of 10,
      and the budget says 6. */
  lemma SelfEvictionDrifts(a: LiquidCacheKey, b: LiquidCacheKey)
    requires a != b
    ensures EvictsItself(FullCache(a, b), a, Sized(8))
    ensures var (r, ok) := Put(FullCache(a, b), a, Sized(8));
            ok && r.used == 6 && Total(r.entries) == 12 > r.max
  {
    var r := Put(FullCache(a, b), a, Sized(8)).0;
    FullCacheUpdated(a, b);
    var none: Entries, one: Entries := map[], map[b := Sized(4)];
    assert r.entries == one[a := Sized(8)];
    TotalUpdate(one, a, Sized(8));
    assert none[b := Sized(4)] == one;
    TotalUpdate(none, b, Sized(4));
  }

  /** After it `b` is cached and off the list, and stays so through any run that does not write it or clear the cache:
      not even a request for the whole limit evicts it. */
  lemma StrandedKey(a: LiquidCacheKey, b: LiquidCacheKey, ops: seq<Op>)
    requires a != b && forall i :: 0 <= i < |ops| ==> !Touches(ops[i], b)
    ensures var s := After(Put(FullCache(a, b), a, Sized(8)).0, ops);
            b in s.entries && s.entries[b] == Sized(4) && b !in s.lru
  {
    FullCacheUpdated(a, b);
    DelistedStays(Put(FullCache(a, b), a, Sized(8)).0, ops, b);
  }
}
