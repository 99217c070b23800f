/** Reading byte-range splits: from a range to row groups, from row groups to concatenated batches. */
module Splits {
  import opened Arith
  import opened Budget
  import opened CacheModel
  import opened Wrappers
  import Stores

  const IDS: nat := 0x1_0000

  // ---------------------------------------------------------------- row groups of a range

  /** The row groups among the first `n` whose offset lies in `[offset, limit)`, as 16-bit ids. */
  function InRange(rgOffsets: seq<nat>, offset: nat, limit: nat, n: nat): seq<nat>
    requires n <= |rgOffsets|
  {
    if n == 0 then []
    else
      var before := InRange(rgOffsets, offset, limit, n - 1);
      if offset <= rgOffsets[n - 1] < limit then before + [(n - 1) % IDS] else before
  }

  /** The row groups of a split; its end may wrap. */
  function RowGroups(rgOffsets: seq<nat>, offset: nat, length: nat): seq<nat> {
    InRange(rgOffsets, offset, Wrap(offset + length), |rgOffsets|)
  }

  method GetRowGroupsForRange(fileMetadata: map<nat, seq<nat>>, fileId: nat, offset: nat, length: nat)
    returns (rgs: seq<nat>)
    ensures rgs == if fileId in fileMetadata then RowGroups(fileMetadata[fileId], offset, length) else []
  {
    if fileId !in fileMetadata {
      return [];
    }
    var rgOffsets, limit := fileMetadata[fileId], Wrap(offset + length);
    rgs := [];
    for i := 0 to |rgOffsets|
      invariant rgs == InRange(rgOffsets, offset, limit, i)
    {
      if rgOffsets[i] >= offset && rgOffsets[i] < limit {
        rgs := rgs + [i % IDS];
      }
    }
  }

  ghost predicate Sorted(s: seq<nat>) {
    forall i, j :: 0 <= i <= j < |s| ==> s[i] <= s[j]
  }

  /** How many of the first `n` offsets are below `x`. */
  function Below(rgOffsets: seq<nat>, x: nat, n: nat): (c: nat)
    requires n <= |rgOffsets|
    ensures c <= n
  {
    if n == 0 then 0 else Below(rgOffsets, x, n - 1) + (if rgOffsets[n - 1] < x then 1 else 0)
  }

  function Ids(from: nat, to: nat): (s: seq<nat>)
    requires from <= to
    ensures |s| == to - from
    ensures forall i :: 0 <= i < |s| ==> s[i] == from + i
  {
    seq(to - from, i => from + i)
  }

  lemma {:induction false} BelowIsPrefix(rgOffsets: seq<nat>, x: nat, n: nat, i: nat)
    requires Sorted(rgOffsets) && i < n <= |rgOffsets|
    ensures rgOffsets[i] < x <==> i < Below(rgOffsets, x, n)
  {
    if i < n - 1 {
      BelowIsPrefix(rgOffsets, x, n - 1, i);
    }
    if n > 1 {
      BelowIsPrefix(rgOffsets, x, n - 1, n - 2);
    }
  }

  lemma {:induction false} BelowMono(rgOffsets: seq<nat>, a: nat, b: nat, n: nat)
    requires n <= |rgOffsets| && a <= b
    ensures Below(rgOffsets, a, n) <= Below(rgOffsets, b, n)
  {
    if n > 0 {
      BelowMono(rgOffsets, a, b, n - 1);
    }
  }

  /** With sorted offsets the row groups of a range are consecutive. */
  lemma {:induction false} ConsecutiveGroups(rgOffsets: seq<nat>, a: nat, b: nat, n: nat)
    requires Sorted(rgOffsets) && n <= |rgOffsets| < IDS && a <= b
    ensures Below(rgOffsets, a, n) <= Below(rgOffsets, b, n)
    ensures InRange(rgOffsets, a, b, n) == Ids(Below(rgOffsets, a, n), Below(rgOffsets, b, n))
  {
    BelowMono(rgOffsets, a, b, n);
    if n > 0 {
      ConsecutiveGroups(rgOffsets, a, b, n - 1);
      BelowIsPrefix(rgOffsets, a, n, n - 1);
      BelowIsPrefix(rgOffsets, b, n, n - 1);
    }
  }

  /** A row group is in a split precisely when its offset is in the byte range; it is there once, and in order. */
  lemma RowGroupsExact(rgOffsets: seq<nat>, offset: nat, length: nat)
    requires Sorted(rgOffsets) && |rgOffsets| < 0x1_0000 && offset + length < TWO_64
    ensures var rgs := RowGroups(rgOffsets, offset, length);
            && (forall j, k :: 0 <= j < k < |rgs| ==> rgs[j] < rgs[k])
            && (forall i :: i in rgs <==> 0 <= i < |rgOffsets| && offset <= rgOffsets[i] < offset + length)
  {
    var n := |rgOffsets|;
    var a, b := Below(rgOffsets, offset, n), Below(rgOffsets, offset + length, n);
    ConsecutiveGroups(rgOffsets, offset, offset + length, n);
    var rgs := RowGroups(rgOffsets, offset, length);
    forall i ensures i in rgs <==> 0 <= i < n && offset <= rgOffsets[i] < offset + length {
      if 0 <= i < n {
        BelowIsPrefix(rgOffsets, offset, n, i);
        BelowIsPrefix(rgOffsets, offset + length, n, i);
        assert a <= i < b ==> rgs[i - a] == i;
      }
    }
  }

  /** Ids are 16-bit numbers: past 65536 row groups they start over. */
  lemma {:induction false} IdsWrap(rgOffsets: seq<nat>, offset: nat, limit: nat, n: nat, i: nat)
    requires i < n <= |rgOffsets| && offset <= rgOffsets[i] < limit
    ensures i % 0x1_0000 in InRange(rgOffsets, offset, limit, n)
    ensures forall id :: id in InRange(rgOffsets, offset, limit, n) ==> id < 0x1_0000
  {
    if i < n - 1 {
      IdsWrap(rgOffsets, offset, limit, n - 1, i);
    } else {
      IdsBelow(rgOffsets, offset, limit, n - 1);
    }
  }

  lemma {:induction false} IdsBelow(rgOffsets: seq<nat>, offset: nat, limit: nat, n: nat)
    requires n <= |rgOffsets|
    ensures forall id :: id in InRange(rgOffsets, offset, limit, n) ==> id < 0x1_0000
  {
    if n > 0 {
      IdsBelow(rgOffsets, offset, limit, n - 1);
    }
  }

  /** A range whose end passes 2^64 selects nothing, whatever row groups it covers. */
  lemma {:induction false} OverflowSelectsNothing(rgOffsets: seq<nat>, offset: nat, length: nat, n: nat)
    requires n <= |rgOffsets| && offset < TWO_64 && length < TWO_64 <= offset + length
    ensures InRange(rgOffsets, offset, Wrap(offset + length), n) == []
  {
    if n > 0 {
      OverflowSelectsNothing(rgOffsets, offset, length, n - 1);
    }
  }

  /** The row groups between two offsets, as ids. */
  lemma GroupsBetween(rgOffsets: seq<nat>, a: nat, b: nat)
    requires Sorted(rgOffsets) && |rgOffsets| < IDS && a <= b < TWO_64
    ensures Below(rgOffsets, a, |rgOffsets|) <= Below(rgOffsets, b, |rgOffsets|)
    ensures RowGroups(rgOffsets, a, b - a) == Ids(Below(rgOffsets, a, |rgOffsets|), Below(rgOffsets, b, |rgOffsets|))
  {
    ModSmall(b, TWO_64);
    ConsecutiveGroups(rgOffsets, a, b, |rgOffsets|);
  }

  lemma IdsJoin(a: nat, b: nat, c: nat)
    requires a <= b <= c
    ensures Ids(a, b) + Ids(b, c) == Ids(a, c)
  {
  }

  /** Adjacent splits select adjacent row groups. */
  lemma GroupsJoin(rgOffsets: seq<nat>, a: nat, b: nat, c: nat)
    requires Sorted(rgOffsets) && |rgOffsets| < IDS && a <= b <= c < TWO_64
    ensures RowGroups(rgOffsets, a, b - a) + RowGroups(rgOffsets, b, c - b) == RowGroups(rgOffsets, a, c - a)
  {
    var n := |rgOffsets|;
    GroupsBetween(rgOffsets, a, b);
    GroupsBetween(rgOffsets, b, c);
    GroupsBetween(rgOffsets, a, c);
    IdsJoin(Below(rgOffsets, a, n), Below(rgOffsets, b, n), Below(rgOffsets, c, n));
  }

  // ---------------------------------------------------------------- batches of row groups

  function Key(fileId: nat, rg: nat, col: nat, b: nat): LiquidCacheKey {
    LiquidCacheKey(fileId, rg, col, b)
  }

  /** Every cached batch of the column is a Liquid array, and some batch id is free, without which the read never ends.
      */
  ghost predicate Readable(entries: Entries, fileId: nat, rg: nat, col: nat) {
    && (exists b :: 0 <= b < IDS && Key(fileId, rg, col, b) !in entries)
    && forall b :: 0 <= b < IDS && Key(fileId, rg, col, b) in entries ==>
         entries[Key(fileId, rg, col, b)].liquidArray.Some?
  }

  function LiquidRows(e: CacheEntry): seq<Row> {
    if e.liquidArray.Some? then e.liquidArray.value.rows else []
  }

  /** The batches of a row group, from `b` up to the first that is missing. */
  function Batches(entries: Entries, fileId: nat, rg: nat, col: nat, b: nat): seq<seq<Row>>
    decreases IDS - b
  {
    if b < IDS && Key(fileId, rg, col, b) in entries
    then [LiquidRows(entries[Key(fileId, rg, col, b)])] + Batches(entries, fileId, rg, col, b + 1)
    else []
  }

  /** The batches of a row group, as a function of the row group. */
  function BatchesOf(entries: Entries, fileId: nat, col: nat): nat -> seq<seq<Row>> {
    (rg: nat) => Batches(entries, fileId, rg, col, 0)
  }

  /** What `f` gives for every row group in turn. */
  function Collected(f: nat -> seq<seq<Row>>, rgs: seq<nat>): seq<seq<Row>> {
    if rgs == [] then [] else Collected(f, rgs[..|rgs| - 1]) + f(rgs[|rgs| - 1])
  }

  function Pieces(entries: Entries, fileId: nat, rgs: seq<nat>, col: nat): seq<seq<Row>> {
    Collected(BatchesOf(entries, fileId, col), rgs)
  }

  function Joined(pieces: seq<seq<Row>>): seq<Row> {
    if pieces == [] then [] else Joined(pieces[..|pieces| - 1]) + pieces[|pieces| - 1]
  }

  lemma {:induction false} JoinedSum(a: seq<seq<Row>>, b: seq<seq<Row>>)
    ensures Joined(a + b) == Joined(a) + Joined(b)
  {
    if b == [] {
      assert a + b == a;
    } else {
      JoinedSum(a, b[..|b| - 1]);
      assert (a + b)[..|a + b| - 1] == a + b[..|b| - 1];
    }
  }

  lemma {:induction false} CollectedSum(f: nat -> seq<seq<Row>>, a: seq<nat>, b: seq<nat>)
    ensures Collected(f, a + b) == Collected(f, a) + Collected(f, b)
  {
    if b == [] {
      assert a + b == a;
    } else {
      CollectedSum(f, a, b[..|b| - 1]);
      assert (a + b)[..|a + b| - 1] == a + b[..|b| - 1];
    }
  }

  /** The columns of a split, or nothing when it has no row group, no column, or a column without a batch. */
  function ReadSplit(entries: Entries, fileId: nat, rgs: seq<nat>, cols: seq<nat>): Option<seq<seq<Row>>> {
    if rgs == [] || cols == [] || exists c :: c in cols && Pieces(entries, fileId, rgs, c) == [] then None
    else Some(seq(|cols|, i requires 0 <= i < |cols| => Joined(Pieces(entries, fileId, rgs, cols[i]))))
  }

  lemma NothingRead(entries: Entries, fileId: nat, rgs: seq<nat>, cols: seq<nat>, i: nat)
    requires i < |cols| && Pieces(entries, fileId, rgs, cols[i]) == []
    ensures ReadSplit(entries, fileId, rgs, cols) == None
  {
    assert cols[i] in cols;
  }

  lemma AllRead(entries: Entries, fileId: nat, rgs: seq<nat>, cols: seq<nat>, children: seq<seq<Row>>)
    requires rgs != [] && cols != [] && |children| == |cols|
    requires forall j {:trigger children[j]} :: 0 <= j < |cols| ==> IsColumn(entries, fileId, rgs, cols[j], children[j])
    ensures ReadSplit(entries, fileId, rgs, cols) == Some(children)
  {
    forall c | c in cols ensures Pieces(entries, fileId, rgs, c) != [] {
      var j :| 0 <= j < |cols| && cols[j] == c;
      assert IsColumn(entries, fileId, rgs, cols[j], children[j]);
    }
    assert ReadSplit(entries, fileId, rgs, cols).value == children;
  }

  /** Collects the batches of one column over the row groups. */
  method CollectPieces(entries: Entries, fileId: nat, rgs: seq<nat>, col: nat) returns (pieces: seq<seq<Row>>)
    requires forall rg {:trigger Readable(entries, fileId, rg, col)} :: rg in rgs ==> Readable(entries, fileId, rg, col)
    ensures pieces == Pieces(entries, fileId, rgs, col)
  {
    pieces := [];
    for r := 0 to |rgs|
      invariant pieces == Pieces(entries, fileId, rgs[..r], col)
    {
      var batches := CollectBatches(entries, fileId, rgs[r], col);
      assert rgs[..r + 1][..r] == rgs[..r];
      pieces := pieces + batches;
    }
    assert rgs[..|rgs|] == rgs;
  }

  /** The loop over batch ids, a 16-bit counter. */
  method CollectBatches(entries: Entries, fileId: nat, rg: nat, col: nat) returns (pieces: seq<seq<Row>>)
    requires Readable(entries, fileId, rg, col)
    ensures pieces == Batches(entries, fileId, rg, col, 0)
  {
    ghost var free :| 0 <= free < IDS && Key(fileId, rg, col, free) !in entries;
    pieces := [];
    var b := 0;
    while true
      invariant b <= free && pieces + Batches(entries, fileId, rg, col, b) == Batches(entries, fileId, rg, col, 0)
      decreases free - b
    {
      var key := Key(fileId, rg, col, b);
      if key !in entries { break; }
      pieces := pieces + [entries[key].liquidArray.value.rows];
      b := (b + 1) % IDS;
    }
  }

  /** Copies the pieces into one vector at a moving offset. */
  method Merge(pieces: seq<seq<Row>>) returns (rows: seq<Row>)
    ensures rows == Joined(pieces)
  {
    assert pieces[..|pieces|] == pieces;
    if |pieces| == 1 {
      assert Joined(pieces[..0]) == [];
      return pieces[0];
    }
    var total := 0;
    for i := 0 to |pieces|
      invariant total == |Joined(pieces[..i])|
    {
      assert pieces[..i + 1][..i] == pieces[..i];
      total := total + |pieces[i]|;
    }
    var merged := new Row[total](_ => None);
    var off := 0;
    for i := 0 to |pieces|
      invariant off == |Joined(pieces[..i])| <= total && merged[..off] == Joined(pieces[..i])
    {
      assert pieces[..i + 1][..i] == pieces[..i];
      JoinedPrefix(pieces, i + 1);
      CopyRows(merged, off, pieces[i]);
      off := off + |pieces[i]|;
    }
    rows := merged[..];
  }

  lemma {:induction false} JoinedPrefix(pieces: seq<seq<Row>>, i: nat)
    requires i <= |pieces|
    ensures |Joined(pieces[..i])| <= |Joined(pieces)|
  {
    JoinedSum(pieces[..i], pieces[i..]);
    assert pieces[..i] + pieces[i..] == pieces;
  }

  method CopyRows(dst: array<Row>, at: nat, src: seq<Row>)
    requires at + |src| <= dst.Length
    modifies dst
    ensures dst[..at + |src|] == old(dst[..at]) + src
  {
    for i := 0 to |src|
      invariant dst[..at] == old(dst[..at]) && dst[at..at + i] == src[..i]
    {
      dst[at + i] := src[i];
    }
    assert dst[..at + |src|] == dst[..at] + dst[at..at + |src|];
  }

  ghost predicate AllReadable(entries: Entries, fileId: nat, rgs: seq<nat>, cols: seq<nat>) {
    forall rg, col {:trigger Readable(entries, fileId, rg, col)} :: rg in rgs && col in cols ==>
      Readable(entries, fileId, rg, col)
  }

  method ReadSplitVelox(entries: Entries, fileMetadata: map<nat, seq<nat>>, fileId: nat, offset: nat, length: nat,
                        cols: seq<nat>)
    returns (r: Option<seq<seq<Row>>>)
    requires fileId in fileMetadata ==>
               AllReadable(entries, fileId, RowGroups(fileMetadata[fileId], offset, length), cols)
    ensures r == if fileId in fileMetadata
              then ReadSplit(entries, fileId, RowGroups(fileMetadata[fileId], offset, length), cols)
                 else None
    ensures fileId in fileMetadata ==>
              ReturnsCached(r, entries, fileId, RowGroups(fileMetadata[fileId], offset, length), cols)
  {
    var rgs := GetRowGroupsForRange(fileMetadata, fileId, offset, length);
    if fileId in fileMetadata {
      ReadReturnsCached(entries, fileId, rgs, cols);
    }
    if rgs == [] || cols == [] {
      return None;
    }
    r := ReadColumns(entries, fileId, rgs, cols);
  }

  /** The read as a method of the cache: it changes nothing, and counts as no use of the keys. */
  method ReadStore(c: Stores.LiquidCacheStore, fileId: nat, offset: nat, length: nat, cols: seq<nat>)
    returns (r: Option<seq<seq<Row>>>)
    requires fileId in c.fileMetadata ==>
               AllReadable(c.entries, fileId, RowGroups(c.fileMetadata[fileId], offset, length), cols)
    ensures r == if fileId in c.fileMetadata
                 then ReadSplit(c.entries, fileId, RowGroups(c.fileMetadata[fileId], offset, length), cols) else None
    ensures fileId in c.fileMetadata ==>
              ReturnsCached(r, c.entries, fileId, RowGroups(c.fileMetadata[fileId], offset, length), cols)
  {
    r := ReadSplitVelox(c.entries, c.fileMetadata, fileId, offset, length, cols);
  }

  /** After clearing nothing is read. */
  method ReadCleared(c: Stores.LiquidCacheStore, fileId: nat, offset: nat, length: nat, cols: seq<nat>)
    returns (r: Option<seq<seq<Row>>>)
    requires c.Valid()
    modifies c`entries, c`fileMetadata, c.budget, c.lru
    ensures r == None
  {
    c.Clear();
    r := ReadStore(c, fileId, offset, length, cols);
  }

  /** One merged vector a column. */
  method ReadColumns(entries: Entries, fileId: nat, rgs: seq<nat>, cols: seq<nat>) returns (r: Option<seq<seq<Row>>>)
    requires rgs != [] && cols != [] && AllReadable(entries, fileId, rgs, cols)
    ensures r == ReadSplit(entries, fileId, rgs, cols)
  {
    var children := [];
    for i := 0 to |cols|
      invariant |children| == i
      invariant forall j {:trigger children[j]} :: 0 <= j < i ==> IsColumn(entries, fileId, rgs, cols[j], children[j])
    {
      var child := ReadColumn(entries, fileId, rgs, cols[i]);
      if child.None? {
        NothingRead(entries, fileId, rgs, cols, i);
        return None;
      }
      children := children + [child.value];
    }
    AllRead(entries, fileId, rgs, cols, children);
    r := Some(children);
  }

  ghost predicate IsColumn(entries: Entries, fileId: nat, rgs: seq<nat>, col: nat, child: seq<Row>) {
    Pieces(entries, fileId, rgs, col) != [] && child == Joined(Pieces(entries, fileId, rgs, col))
  }

  method ReadColumn(entries: Entries, fileId: nat, rgs: seq<nat>, col: nat) returns (r: Option<seq<Row>>)
    requires forall rg {:trigger Readable(entries, fileId, rg, col)} :: rg in rgs ==> Readable(entries, fileId, rg, col)
    ensures r.None? ==> Pieces(entries, fileId, rgs, col) == []
    ensures r.Some? ==> IsColumn(entries, fileId, rgs, col, r.value)
  {
    var pieces := CollectPieces(entries, fileId, rgs, col);
    if pieces == [] {
      return None;
    }
    var merged := Merge(pieces);
    r := Some(merged);
  }

  // ---------------------------------------------------------------- the rows that were cached

  /** The first batch id of a column, from `b` on, that is not cached. */
  function FirstMissing(entries: Entries, fileId: nat, rg: nat, col: nat, b: nat): (m: nat)
    ensures b <= m && (b <= IDS ==> m <= IDS)
    ensures forall i :: b <= i < m ==> Key(fileId, rg, col, i) in entries
    ensures m < IDS ==> Key(fileId, rg, col, m) !in entries
    decreases IDS - b
  {
    if b < IDS && Key(fileId, rg, col, b) in entries then FirstMissing(entries, fileId, rg, col, b + 1) else b
  }

  /** The first `n` batches of a row group are cached as Liquid arrays. */
  ghost predicate Held(entries: Entries, fileId: nat, rg: nat, col: nat, n: nat) {
    forall b :: 0 <= b < n ==>
      LiquidCacheKey(fileId, rg, col, b) in entries && entries[LiquidCacheKey(fileId, rg, col, b)].liquidArray.Some?
  }

  /** The rows of the first `n` batches of a row group, end to end. */
  ghost function GroupRows(entries: Entries, fileId: nat, rg: nat, col: nat, n: nat): seq<Row>
    requires Held(entries, fileId, rg, col, n)
  {
    if n == 0 then []
    else GroupRows(entries, fileId, rg, col, n - 1)
         + entries[LiquidCacheKey(fileId, rg, col, n - 1)].liquidArray.value.rows
  }

  /** Of a readable row group the batches before the first missing one are held, and there are at most 65535. */
  lemma FirstMissingExact(entries: Entries, fileId: nat, rg: nat, col: nat)
    requires Readable(entries, fileId, rg, col)
    ensures var m := FirstMissing(entries, fileId, rg, col, 0);
            Held(entries, fileId, rg, col, m) && m < 0x1_0000 && LiquidCacheKey(fileId, rg, col, m) !in entries
  {
    var m := FirstMissing(entries, fileId, rg, col, 0);
    forall b | 0 <= b < m
      ensures LiquidCacheKey(fileId, rg, col, b) in entries
      ensures entries[LiquidCacheKey(fileId, rg, col, b)].liquidArray.Some?
    {
      assert Key(fileId, rg, col, b) in entries;
    }
  }

  /** The rows of a column over the row groups, end to end: of each the rows of all batches before the first missing. */
  ghost function ColumnRows(entries: Entries, fileId: nat, rgs: seq<nat>, col: nat): seq<Row>
    requires forall rg {:trigger Readable(entries, fileId, rg, col)} :: rg in rgs ==> Readable(entries, fileId, rg, col)
  {
    if rgs == [] then []
    else
      var last := rgs[|rgs| - 1];
      FirstMissingExact(entries, fileId, last, col);
      ColumnRows(entries, fileId, rgs[..|rgs| - 1], col)
      + GroupRows(entries, fileId, last, col, FirstMissing(entries, fileId, last, col, 0))
  }

  /** What the loop collects from batch `b` on follows the rows of the batches before. */
  lemma {:induction false} BatchesAreRows(entries: Entries, fileId: nat, rg: nat, col: nat, b: nat, m: nat)
    requires m == FirstMissing(entries, fileId, rg, col, b) && b <= m <= IDS && Held(entries, fileId, rg, col, m)
    ensures GroupRows(entries, fileId, rg, col, m)
         == GroupRows(entries, fileId, rg, col, b) + Joined(Batches(entries, fileId, rg, col, b))
    decreases IDS - b
  {
    if b < IDS && Key(fileId, rg, col, b) in entries {
      var rows := entries[LiquidCacheKey(fileId, rg, col, b)].liquidArray.value.rows;
      BatchesAreRows(entries, fileId, rg, col, b + 1, m);
      JoinedSum([rows], Batches(entries, fileId, rg, col, b + 1));
      JoinedOne(rows);
    }
  }

  lemma {:induction false} PiecesAreRows(entries: Entries, fileId: nat, rgs: seq<nat>, col: nat)
    requires forall rg {:trigger Readable(entries, fileId, rg, col)} :: rg in rgs ==> Readable(entries, fileId, rg, col)
    ensures Joined(Pieces(entries, fileId, rgs, col)) == ColumnRows(entries, fileId, rgs, col)
  {
    if rgs != [] {
      var init, last := rgs[..|rgs| - 1], rgs[|rgs| - 1];
      PiecesAreRows(entries, fileId, init, col);
      GroupIsRows(entries, fileId, last, col, 0);
      JoinedSum(Pieces(entries, fileId, init, col), Batches(entries, fileId, last, col, 0));
    }
  }

  lemma GroupIsRows(entries: Entries, fileId: nat, rg: nat, col: nat, b: nat)
    requires b == 0 && Readable(entries, fileId, rg, col)
    ensures var m := FirstMissing(entries, fileId, rg, col, b);
            Held(entries, fileId, rg, col, m)
            && Joined(Batches(entries, fileId, rg, col, b)) == GroupRows(entries, fileId, rg, col, m)
  {
    FirstMissingExact(entries, fileId, rg, col);
    BatchesAreRows(entries, fileId, rg, col, b, FirstMissing(entries, fileId, rg, col, b));
  }

  ghost predicate NotCached(entries: Entries, fileId: nat, rgs: seq<nat>, col: nat) {
    forall rg :: rg in rgs ==> LiquidCacheKey(fileId, rg, col, 0) !in entries
  }

  /** A column has no batch at all precisely when batch 0 is missing in every row group. */
  lemma {:induction false} NoPieceIff(entries: Entries, fileId: nat, rgs: seq<nat>, col: nat)
    ensures Pieces(entries, fileId, rgs, col) == [] <==> NotCached(entries, fileId, rgs, col)
  {
    if rgs != [] {
      var init, last := rgs[..|rgs| - 1], rgs[|rgs| - 1];
      NoPieceIff(entries, fileId, init, col);
      assert last in rgs && forall rg :: rg in rgs <==> rg in init || rg == last;
    }
  }

  /** A read returns the rows that were cached: of every column, over the row groups in order, the rows of each
      batch from 0 on up to the first that is missing. It returns nothing precisely when there is no row group or no
      column, or batch 0 of some column is missing in every row group. */
  ghost predicate ReturnsCached(r: Option<seq<seq<Row>>>, entries: Entries, fileId: nat, rgs: seq<nat>, cols: seq<nat>)
    requires AllReadable(entries, fileId, rgs, cols)
  {
    && r.None? == (rgs == [] || cols == [] || exists c :: c in cols && NotCached(entries, fileId, rgs, c))
    && (r.Some? ==> |r.value| == |cols|)
    && (r.Some? ==> forall i :: 0 <= i < |cols| ==> r.value[i] == ColumnRows(entries, fileId, rgs, cols[i]))
  }

  lemma ReadReturnsCached(entries: Entries, fileId: nat, rgs: seq<nat>, cols: seq<nat>)
    requires AllReadable(entries, fileId, rgs, cols)
    ensures ReturnsCached(ReadSplit(entries, fileId, rgs, cols), entries, fileId, rgs, cols)
  {
    forall c | c in cols
      ensures Pieces(entries, fileId, rgs, c) == [] <==> NotCached(entries, fileId, rgs, c)
      ensures Joined(Pieces(entries, fileId, rgs, c)) == ColumnRows(entries, fileId, rgs, c)
    {
      NoPieceIff(entries, fileId, rgs, c);
      PiecesAreRows(entries, fileId, rgs, c);
    }
  }

  /** With one batch cached, its rows are what is read. */
  lemma OneBatchRead(entries: Entries, fileId: nat, rg: nat, col: nat, b: nat, rows: seq<Row>, memory: nat)
    requires b == 0
    requires entries
          == map[LiquidCacheKey(fileId, rg, col, b) := CacheEntry(true, None, Some(LiquidArray(rows, memory)))]
    ensures ReadSplit(entries, fileId, [rg], [col]) == Some([rows])
  {
    OneGroup(entries, fileId, rg, col);
    NextBatches(entries, fileId, rg, col, b);
    NoMoreBatches(entries, fileId, rg, col, b + 1);
    JoinedOne(rows);
    AllRead(entries, fileId, [rg], [col], [rows]);
  }

  // ---------------------------------------------------------------- columns of the same length

  /** Batches hold rows, and those of two columns with the same id equally many. */
  ghost predicate Aligned(entries: Entries, fileId: nat, rg: nat, c: nat, d: nat) {
    forall b {:trigger Key(fileId, rg, c, b)} {:trigger Key(fileId, rg, d, b)} :: 0 <= b < IDS ==>
      && (Key(fileId, rg, c, b) in entries ==> LiquidRows(entries[Key(fileId, rg, c, b)]) != [])
      && (Key(fileId, rg, d, b) in entries ==> LiquidRows(entries[Key(fileId, rg, d, b)]) != [])
      && (Key(fileId, rg, c, b) in entries && Key(fileId, rg, d, b) in entries ==>
            |LiquidRows(entries[Key(fileId, rg, c, b)])| == |LiquidRows(entries[Key(fileId, rg, d, b)])|)
  }

  lemma RowsFrom(entries: Entries, fileId: nat, rg: nat, col: nat, b: nat)
    ensures var rest := |Joined(Batches(entries, fileId, rg, col, b + 1))|;
            |Joined(Batches(entries, fileId, rg, col, b))|
            == if b < IDS && Key(fileId, rg, col, b) in entries
                then |LiquidRows(entries[Key(fileId, rg, col, b)])| + rest else 0
  {
    if b < IDS && Key(fileId, rg, col, b) in entries {
      var first := [LiquidRows(entries[Key(fileId, rg, col, b)])];
      JoinedSum(first, Batches(entries, fileId, rg, col, b + 1));
      assert first[..0] == [] && Joined(first) == first[0];
    }
  }

  /** Two columns give equally many rows of a row group if and only if the first batch missing is the same. */
  lemma {:induction false} EvenIff(entries: Entries, fileId: nat, rg: nat, c: nat, d: nat, b: nat)
    requires Aligned(entries, fileId, rg, c, d) && b <= IDS
    ensures |Joined(Batches(entries, fileId, rg, c, b))| == |Joined(Batches(entries, fileId, rg, d, b))|
       <==> FirstMissing(entries, fileId, rg, c, b) == FirstMissing(entries, fileId, rg, d, b)
    decreases IDS - b
  {
    RowsFrom(entries, fileId, rg, c, b);
    RowsFrom(entries, fileId, rg, d, b);
    if b < IDS {
      EvenIff(entries, fileId, rg, c, d, b + 1);
    }
  }

  /** No column lacks a batch that another has. */
  ghost predicate SameMissing(entries: Entries, fileId: nat, rgs: seq<nat>, c: nat, d: nat) {
    forall rg {:trigger FirstMissing(entries, fileId, rg, c, 0)} :: rg in rgs ==>
      FirstMissing(entries, fileId, rg, c, 0) == FirstMissing(entries, fileId, rg, d, 0)
  }

  /** Then the columns of a read have equally many rows, over any row groups. */
  lemma {:induction false} EvenColumns(entries: Entries, fileId: nat, rgs: seq<nat>, c: nat, d: nat)
    requires forall rg :: rg in rgs ==> Aligned(entries, fileId, rg, c, d)
    requires SameMissing(entries, fileId, rgs, c, d)
    ensures |Joined(Pieces(entries, fileId, rgs, c))| == |Joined(Pieces(entries, fileId, rgs, d))|
  {
    if rgs != [] {
      var init, last := rgs[..|rgs| - 1], rgs[|rgs| - 1];
      assert last in rgs && FirstMissing(entries, fileId, last, c, 0) == FirstMissing(entries, fileId, last, d, 0);
      EvenColumns(entries, fileId, init, c, d);
      EvenIff(entries, fileId, last, c, d, 0);
      JoinedSum(Pieces(entries, fileId, init, c), Batches(entries, fileId, last, c, 0));
      JoinedSum(Pieces(entries, fileId, init, d), Batches(entries, fileId, last, d, 0));
    }
  }

  /** The rows of a column before row group `n` of a read. */
  function RowsBefore(entries: Entries, fileId: nat, rgs: seq<nat>, n: nat, col: nat): nat
    requires n <= |rgs|
  {
    |Joined(Pieces(entries, fileId, rgs[..n], col))|
  }

  lemma NextRows(entries: Entries, fileId: nat, rgs: seq<nat>, n: nat, col: nat)
    requires n < |rgs|
    ensures RowsBefore(entries, fileId, rgs, n + 1, col)
         == RowsBefore(entries, fileId, rgs, n, col) + |Joined(Batches(entries, fileId, rgs[n], col, 0))|
  {
    assert rgs[..n + 1][..n] == rgs[..n];
    JoinedSum(Pieces(entries, fileId, rgs[..n], col), Batches(entries, fileId, rgs[n], col, 0));
  }

  /** Every row group starts at the same row in two columns of a read, and they end together. */
  ghost predicate SameStarts(entries: Entries, fileId: nat, rgs: seq<nat>, c: nat, d: nat) {
    forall n {:trigger RowsBefore(entries, fileId, rgs, n, c)} :: 0 <= n <= |rgs| ==>
      RowsBefore(entries, fileId, rgs, n, c) == RowsBefore(entries, fileId, rgs, n, d)
  }

  /** They do if and only if the first batch missing is the same in every row group, over any row groups. */
  lemma SameStartsIff(entries: Entries, fileId: nat, rgs: seq<nat>, c: nat, d: nat)
    requires forall rg :: rg in rgs ==> Aligned(entries, fileId, rg, c, d)
    ensures SameStarts(entries, fileId, rgs, c, d) <==> SameMissing(entries, fileId, rgs, c, d)
  {
    if SameMissing(entries, fileId, rgs, c, d) {
      forall n | 0 <= n <= |rgs|
        ensures RowsBefore(entries, fileId, rgs, n, c) == RowsBefore(entries, fileId, rgs, n, d)
      {
        EvenColumns(entries, fileId, rgs[..n], c, d);
      }
    }
    if SameStarts(entries, fileId, rgs, c, d) {
      forall rg | rg in rgs ensures FirstMissing(entries, fileId, rg, c, 0) == FirstMissing(entries, fileId, rg, d, 0) {
        var n :| 0 <= n < |rgs| && rgs[n] == rg;
        NextRows(entries, fileId, rgs, n, c);
        NextRows(entries, fileId, rgs, n, d);
        EvenIff(entries, fileId, rg, c, d, 0);
      }
    }
  }

  /** The columns of a read agree on where every row group starts and on where they end. */
  ghost predicate EvenRead(entries: Entries, fileId: nat, rgs: seq<nat>, cols: seq<nat>) {
    forall i, j :: 0 <= i < |cols| && 0 <= j < |cols| ==> SameStarts(entries, fileId, rgs, cols[i], cols[j])
  }

  /** For a split that is read at all, of any row groups and columns: the columns agree on every row group, and so have
      equally many rows, if and only if no column lacks a batch that another has. */
  lemma EvenReadIff(entries: Entries, fileId: nat, rgs: seq<nat>, cols: seq<nat>)
    requires forall rg, c, d :: rg in rgs && c in cols && d in cols ==> Aligned(entries, fileId, rg, c, d)
    requires ReadSplit(entries, fileId, rgs, cols).Some?
    ensures EvenRead(entries, fileId, rgs, cols)
       <==> forall i, j :: 0 <= i < |cols| && 0 <= j < |cols| ==> SameMissing(entries, fileId, rgs, cols[i], cols[j])
    ensures var r := ReadSplit(entries, fileId, rgs, cols).value;
            && (forall i :: 0 <= i < |r| ==> |r[i]| == RowsBefore(entries, fileId, rgs, |rgs|, cols[i]))
            && (EvenRead(entries, fileId, rgs, cols) ==> forall i, j :: 0 <= i < |r| && 0 <= j < |r| ==>
                |r[i]| == |r[j]|)
  {
    assert rgs[..|rgs|] == rgs;
    forall i, j | 0 <= i < |cols| && 0 <= j < |cols|
      ensures SameStarts(entries, fileId, rgs, cols[i], cols[j])
         <==> SameMissing(entries, fileId, rgs, cols[i], cols[j])
      ensures SameStarts(entries, fileId, rgs, cols[i], cols[j]) ==>
                RowsBefore(entries, fileId, rgs, |rgs|, cols[i]) == RowsBefore(entries, fileId, rgs, |rgs|, cols[j])
    {
      SameStartsIff(entries, fileId, rgs, cols[i], cols[j]);
    }
  }

  /** For one row group that says when the columns are equally long. */
  lemma OneGroupEven(entries: Entries, fileId: nat, rg: nat, c: nat, d: nat)
    requires Aligned(entries, fileId, rg, c, d)
    ensures |Joined(Pieces(entries, fileId, [rg], c))| == |Joined(Pieces(entries, fileId, [rg], d))|
       <==> SameStarts(entries, fileId, [rg], c, d)
  {
    OneGroup(entries, fileId, rg, c);
    OneGroup(entries, fileId, rg, d);
    EvenIff(entries, fileId, rg, c, d, 0);
    SameStartsIff(entries, fileId, [rg], c, d);
  }

  lemma OneGroup(entries: Entries, fileId: nat, rg: nat, col: nat)
    ensures Pieces(entries, fileId, [rg], col) == Batches(entries, fileId, rg, col, 0)
  {
    var f := BatchesOf(entries, fileId, col);
    assert [rg][..0] == [] && Collected(f, []) == [];
  }

  lemma NextBatches(entries: Entries, fileId: nat, rg: nat, col: nat, b: nat)
    requires b < IDS && Key(fileId, rg, col, b) in entries
    ensures Batches(entries, fileId, rg, col, b)
         == [LiquidRows(entries[Key(fileId, rg, col, b)])] + Batches(entries, fileId, rg, col, b + 1)
  {
  }

  lemma NoMoreBatches(entries: Entries, fileId: nat, rg: nat, col: nat, b: nat)
    requires Key(fileId, rg, col, b) !in entries
    ensures Batches(entries, fileId, rg, col, b) == []
  {
  }

  lemma JoinedOne(a: seq<Row>)
    ensures Joined([a]) == a
  {
    assert [a][..0] == [];
  }

  lemma JoinedTwo(a: seq<Row>, b: seq<Row>)
    ensures Joined([a, b]) == a + b
  {
    assert [a, b][..1] == [a];
    JoinedOne(a);
  }

  /** Of two columns of two batches the second batch of the second column was evicted: the read does not fail, and gives
      columns of different lengths. */
  lemma RaggedRead(entries: Entries, fileId: nat, rg: nat, c: nat, d: nat, b: nat)
    requires Aligned(entries, fileId, rg, c, d)
    requires b == 0 && Key(fileId, rg, c, b + 2) !in entries && Key(fileId, rg, d, b + 1) !in entries
    requires Key(fileId, rg, c, b) in entries && Key(fileId, rg, c, b + 1) in entries
             && Key(fileId, rg, d, b) in entries
    ensures ReadSplit(entries, fileId, [rg], [c, d])
         == Some([LiquidRows(entries[Key(fileId, rg, c, b)]) + LiquidRows(entries[Key(fileId, rg, c, b + 1)]),
                  LiquidRows(entries[Key(fileId, rg, d, b)])])
    ensures var r := ReadSplit(entries, fileId, [rg], [c, d]).value; |r[0]| > |r[1]|
  {
    var x, y := LiquidRows(entries[Key(fileId, rg, c, b)]), LiquidRows(entries[Key(fileId, rg, c, b + 1)]);
    var z := LiquidRows(entries[Key(fileId, rg, d, b)]);
    RaggedPieces(entries, fileId, rg, c, d, b);
    JoinedTwo(x, y);
    JoinedOne(z);
    AllRead(entries, fileId, [rg], [c, d], [x + y, z]);
  }

  lemma RaggedPieces(entries: Entries, fileId: nat, rg: nat, c: nat, d: nat, b: nat)
    requires b == 0 && Key(fileId, rg, c, b + 2) !in entries && Key(fileId, rg, d, b + 1) !in entries
    requires Key(fileId, rg, c, b) in entries && Key(fileId, rg, c, b + 1) in entries
             && Key(fileId, rg, d, b) in entries
    ensures Pieces(entries, fileId, [rg], c)
         == [LiquidRows(entries[Key(fileId, rg, c, b)]), LiquidRows(entries[Key(fileId, rg, c, b + 1)])]
    ensures Pieces(entries, fileId, [rg], d) == [LiquidRows(entries[Key(fileId, rg, d, b)])]
  {
    OneGroup(entries, fileId, rg, c);
    OneGroup(entries, fileId, rg, d);
    NextBatches(entries, fileId, rg, c, b);
    NextBatches(entries, fileId, rg, c, b + 1);
    NoMoreBatches(entries, fileId, rg, c, b + 2);
    NextBatches(entries, fileId, rg, d, b);
    NoMoreBatches(entries, fileId, rg, d, b + 1);
  }

  // ---------------------------------------------------------------- tiling

  ghost predicate CutPoints(cuts: seq<nat>) {
    |cuts| > 0 && Sorted(cuts) && cuts[|cuts| - 1] < TWO_64
  }

  /** The row groups of all splits between consecutive cut points, one split after the other. */
  function TiledGroups(rgOffsets: seq<nat>, cuts: seq<nat>): seq<nat>
    requires Sorted(cuts)
  {
    if |cuts| < 2 then []
    else
      var n := |cuts|;
      TiledGroups(rgOffsets, cuts[..n - 1]) + RowGroups(rgOffsets, cuts[n - 2], cuts[n - 1] - cuts[n - 2])
  }

  /** However a byte range is cut, its splits select the row groups of the whole range, each once and in order. */
  lemma {:induction false} GroupsTile(rgOffsets: seq<nat>, cuts: seq<nat>)
    requires Sorted(rgOffsets) && |rgOffsets| < 0x1_0000 && CutPoints(cuts)
    ensures TiledGroups(rgOffsets, cuts) == RowGroups(rgOffsets, cuts[0], cuts[|cuts| - 1] - cuts[0])
  {
    var n := |cuts|;
    if n == 1 {
      ConsecutiveGroups(rgOffsets, cuts[0], cuts[0], |rgOffsets|);
    } else {
      GroupsTile(rgOffsets, cuts[..n - 1]);
      GroupsJoin(rgOffsets, cuts[0], cuts[n - 2], cuts[n - 1]);
    }
  }

  /** Every row group is cached for every column read, from batch 0 on. */
  ghost predicate Complete(entries: Entries, fileId: nat, n: nat, cols: seq<nat>) {
    forall rg, col :: 0 <= rg < n && col in cols ==> Key(fileId, rg, col, 0) in entries
  }

  /** The rows of one column of a read; nothing when the read returns nothing. */
  function RowsOf(r: Option<seq<seq<Row>>>, c: nat): seq<Row> {
    if r.Some? && c < |r.value| then r.value[c] else []
  }

  lemma RowsOfSplit(entries: Entries, fileId: nat, rgs: seq<nat>, cols: seq<nat>, n: nat, c: nat)
    requires Complete(entries, fileId, n, cols) && c < |cols| && forall rg :: rg in rgs ==> rg < n
    ensures RowsOf(ReadSplit(entries, fileId, rgs, cols), c) == Joined(Pieces(entries, fileId, rgs, cols[c]))
  {
    if rgs != [] {
      forall col | col in cols ensures Pieces(entries, fileId, rgs, col) != [] {
        var last := rgs[|rgs| - 1];
        assert last in rgs;
        assert Key(fileId, last, col, 0) in entries;
        assert |Batches(entries, fileId, last, col, 0)| > 0;
      }
    }
  }

  /** The rows of a column in the split from `lo` to `hi`. */
  function SplitRows(entries: Entries, fileId: nat, rgOffsets: seq<nat>, lo: nat, hi: nat, cols: seq<nat>,
                     c: nat): seq<Row>
    requires lo <= hi
  {
    RowsOf(ReadSplit(entries, fileId, RowGroups(rgOffsets, lo, hi - lo), cols), c)
  }

  /** The rows of a column over all splits between consecutive cut points. */
  function TiledRows(entries: Entries, fileId: nat, rgOffsets: seq<nat>, cuts: seq<nat>, cols: seq<nat>,
                     c: nat): seq<Row>
    requires Sorted(cuts)
  {
    if |cuts| < 2 then []
    else
      TiledRows(entries, fileId, rgOffsets, cuts[..|cuts| - 1], cols, c)
      + SplitRows(entries, fileId, rgOffsets, cuts[|cuts| - 2], cuts[|cuts| - 1], cols, c)
  }

  /** The rows of adjacent splits are the rows of the single read over the whole range, for every column and every cut.
      */
  lemma {:induction false} RowsTile(entries: Entries, fileId: nat, rgOffsets: seq<nat>, cuts: seq<nat>, cols: seq<nat>,
                                    c: nat)
    requires Sorted(rgOffsets) && |rgOffsets| < 0x1_0000 && CutPoints(cuts) && c < |cols|
    requires Complete(entries, fileId, |rgOffsets|, cols)
    ensures TiledRows(entries, fileId, rgOffsets, cuts, cols, c)
         == SplitRows(entries, fileId, rgOffsets, cuts[0], cuts[|cuts| - 1], cols, c)
    decreases |cuts|
  {
    if |cuts| == 1 {
      ConsecutiveGroups(rgOffsets, cuts[0], cuts[0], |rgOffsets|);
    } else {
      var init := cuts[..|cuts| - 1];
      RowsTile(entries, fileId, rgOffsets, init, cols, c);
      RowsJoin(entries, fileId, rgOffsets, init[0], init[|init| - 1], cuts[|cuts| - 1], cols, c);
    }
  }

  /** Two adjacent splits. */
  lemma RowsJoin(entries: Entries, fileId: nat, rgOffsets: seq<nat>, x: nat, y: nat, z: nat, cols: seq<nat>, c: nat)
    requires Sorted(rgOffsets) && |rgOffsets| < IDS && x <= y <= z < TWO_64 && c < |cols|
    requires Complete(entries, fileId, |rgOffsets|, cols)
    ensures SplitRows(entries, fileId, rgOffsets, x, y, cols, c) + SplitRows(entries, fileId, rgOffsets, y, z, cols, c)
         == SplitRows(entries, fileId, rgOffsets, x, z, cols, c)
  {
    RowGroupsExact(rgOffsets, x, y - x);
    RowGroupsExact(rgOffsets, y, z - y);
    RowGroupsExact(rgOffsets, x, z - x);
    GroupsJoin(rgOffsets, x, y, z);
    var first, second := RowGroups(rgOffsets, x, y - x), RowGroups(rgOffsets, y, z - y);
    RowsOfSplit(entries, fileId, first, cols, |rgOffsets|, c);
    RowsOfSplit(entries, fileId, second, cols, |rgOffsets|, c);
    RowsOfSplit(entries, fileId, first + second, cols, |rgOffsets|, c);
    CollectedSum(BatchesOf(entries, fileId, cols[c]), first, second);
    JoinedSum(Pieces(entries, fileId, first, cols[c]), Pieces(entries, fileId, second, cols[c]));
  }
}
