/** Byte strings laid end to end, with the offsets at which they start. */
module Chunks {
  import opened Bytes

  function Concat(chunks: seq<seq<byte>>): seq<byte> {
    if chunks == [] then [] else Concat(chunks[..|chunks| - 1]) + chunks[|chunks| - 1]
  }

  /** Where chunk `i` starts, and where the last one ends. */
  function Start(chunks: seq<seq<byte>>, i: nat): nat
    requires i <= |chunks|
  {
    |Concat(chunks[..i])|
  }

  function Starts(chunks: seq<seq<byte>>): (s: seq<nat>)
    ensures |s| == |chunks| + 1
    ensures forall i {:trigger Start(chunks, i)} :: 0 <= i <= |chunks| ==> s[i] == Start(chunks, i)
  {
    seq(|chunks| + 1, i requires 0 <= i <= |chunks| => Start(chunks, i))
  }

  lemma ConcatNext(chunks: seq<seq<byte>>, i: nat)
    requires i < |chunks|
    ensures Concat(chunks[..i + 1]) == Concat(chunks[..i]) + chunks[i]
  {
    assert chunks[..i + 1][..i] == chunks[..i];
  }

  lemma ConcatAll(chunks: seq<seq<byte>>)
    ensures Concat(chunks[..|chunks|]) == Concat(chunks)
  {
    assert chunks[..|chunks|] == chunks;
  }

  lemma ConcatAppend(chunks: seq<seq<byte>>, c: seq<byte>)
    ensures Concat(chunks + [c]) == Concat(chunks) + c
  {
    assert (chunks + [c])[..|chunks|] == chunks;
  }

  lemma {:induction false} ConcatPrefix(chunks: seq<seq<byte>>, i: nat)
    requires i <= |chunks|
    ensures |Concat(chunks[..i])| <= |Concat(chunks)|
    ensures Concat(chunks)[..|Concat(chunks[..i])|] == Concat(chunks[..i])
  {
    ConcatAll(chunks);
    if i < |chunks| {
      var init := chunks[..|chunks| - 1];
      ConcatPrefix(init, i);
      assert init[..i] == chunks[..i];
    }
  }

  /** Cutting at the starts gives the chunks back. */
  lemma ChunkAt(chunks: seq<seq<byte>>, i: nat)
    requires i < |chunks|
    ensures Start(chunks, i + 1) == Start(chunks, i) + |chunks[i]| <= |Concat(chunks)|
    ensures Concat(chunks)[Start(chunks, i)..Start(chunks, i + 1)] == chunks[i]
  {
    var all, next, here := Concat(chunks), Concat(chunks[..i + 1]), Concat(chunks[..i]);
    ConcatNext(chunks, i);
    ConcatPrefix(chunks, i + 1);
    assert all[|here|..|next|] == all[..|next|][|here|..];
  }

  lemma SliceAt(chunks: seq<seq<byte>>, i: nat, from: nat, to: nat)
    requires i < |chunks| && from == Starts(chunks)[i] && to == Starts(chunks)[i + 1]
    ensures from <= to <= |Concat(chunks)| && Concat(chunks)[from..to] == chunks[i]
  {
    ChunkAt(chunks, i);
    assert from == Start(chunks, i) && to == Start(chunks, i + 1);
  }

  /** Total length is the sum of the lengths, so fewer or shorter chunks are shorter in all. */
  lemma {:induction false} ConcatShorter(a: seq<seq<byte>>, b: seq<seq<byte>>, k: nat)
    requires |a| == |b| && forall i :: 0 <= i < |a| ==> |a[i]| <= k * |b[i]|
    ensures |Concat(a)| <= k * |Concat(b)|
  {
    if a != [] {
      var n := |a| - 1;
      ConcatShorter(a[..n], b[..n], k);
      assert k * |Concat(b)| == k * |Concat(b[..n])| + k * |b[n]|;
    }
  }
}
