/**
 * `chunk(arr, size)` (tools/new-problem.ts): the example input lines cut into
 * groups of `size`, one group per example; a shorter group left at the end is
 * dropped.
 *
 * As written, the loop steps by `size`, so with `size == 0` its guard
 * `i + size <= arr.length` never becomes false and the loop never ends
 * (`ChunkIterations`, `ZeroSizeNeverStops`).  The model the rest of the
 * project uses, `Chunk`, returns no groups for `size == 0` and agrees with
 * the loop for every other size (`IterationsReachChunks`).
 */
module Chunking {

  /** The groups of `size` consecutive elements, from the left, for a size that is not zero. */
  function Chunks<T>(arr: seq<T>, size: nat): (r: seq<seq<T>>)
    decreases |arr|
  {
    if size == 0 || |arr| < size then []
    else [arr[..size]] + Chunks(arr[size..], size)
  }

  /** All groups, joined back together. */
  function Flatten<T>(groups: seq<seq<T>>): seq<T> {
    if groups == [] then [] else groups[0] + Flatten(groups[1..])
  }

  /** `chunk(arr, size)`, with `size == 0` giving no groups instead of running forever. */
  method Chunk<T>(arr: seq<T>, size: nat) returns (chunks: seq<seq<T>>)
    ensures chunks == Chunks(arr, size)
  {
    chunks := [];
    if size == 0 {
      return;
    }
    var i := 0;
    while i + size <= |arr|
      invariant i <= |arr|
      invariant chunks + Chunks(arr[i..], size) == Chunks(arr, size)
      decreases |arr| - i
    {
      assert arr[i..][..size] == arr[i..i + size];
      assert arr[i..][size..] == arr[i + size..];
      chunks := chunks + [arr[i..i + size]];
      i := i + size;
    }
  }

  // ---------------------------------------------------------------------------
  // The loop as written

  /** The loop's state, `i` and the groups pushed so far, after `n` turns of the loop (a turn whose guard fails changes nothing). */
  function ChunkIterations<T>(arr: seq<T>, size: nat, n: nat): (state: (nat, seq<seq<T>>))
    ensures state.0 <= |arr|
  {
    if n == 0 then (0, [])
    else
      var (i, chunks) := ChunkIterations(arr, size, n - 1);
      if i + size <= |arr| then (i + size, chunks + [arr[i..i + size]]) else (i, chunks)
  }

  /** With `size == 0` the guard holds after every number of turns, and every turn pushes one more empty group. */
  lemma {:induction false} ZeroSizeNeverStops<T>(arr: seq<T>, n: nat)
    ensures ChunkIterations(arr, 0, n).0 == 0
    ensures ChunkIterations(arr, 0, n).0 + 0 <= |arr|
    ensures |ChunkIterations(arr, 0, n).1| == n
  {
    if n > 0 {
      ZeroSizeNeverStops(arr, n - 1);
    }
  }

  /** For a size that is not zero, the loop stops after `|arr| / size` turns having pushed `Chunks(arr, size)`. */
  lemma {:induction false} IterationsReachChunks<T>(arr: seq<T>, size: nat, n: nat)
    requires size > 0 && n <= |Chunks(arr, size)|
    ensures ChunkIterations(arr, size, n) == (n * size, Chunks(arr, size)[..n])
  {
    ChunkGroups(arr, size);
    if n > 0 {
      IterationsReachChunks(arr, size, n - 1);
      var c := Chunks(arr, size);
      assert (n - 1) * size + size == n * size;
      assert (n - 1) * size + size <= |arr| by {
        ChunkCount(arr, size);
        assert n <= |arr| / size;
        MulLeDiv(n, size, |arr|);
      }
      assert c[n - 1] == arr[(n - 1) * size..(n - 1) * size + size];
      assert c[..n] == c[..n - 1] + [c[n - 1]];
    }
  }

  /** Once all groups are pushed the guard fails: the loop ends. */
  lemma LoopEndsAfterChunks<T>(arr: seq<T>, size: nat)
    requires size > 0
    ensures ChunkIterations(arr, size, |Chunks(arr, size)|).0 + size > |arr|
  {
    var n := |Chunks(arr, size)|;
    IterationsReachChunks(arr, size, n);
    ChunkCount(arr, size);
    DivBounds(|arr|, size);
  }

  // ---------------------------------------------------------------------------
  // Properties of the groups

  lemma MulLeDiv(n: nat, size: nat, len: nat)
    requires size > 0 && n <= len / size
    ensures n * size <= len
  {
    assert n * size <= (len / size) * size;
  }

  lemma DivBounds(len: nat, size: nat)
    requires size > 0
    ensures (len / size) * size <= len < (len / size) * size + size
  {
  }

  /** The quotient is the one count of whole groups that fits. */
  lemma DivUnique(len: nat, size: nat, q: nat)
    requires size > 0 && q * size <= len < q * size + size
    ensures len / size == q
  {
    var d := len / size;
    DivBounds(len, size);
    MulMono(q + 1, d, size);
    MulMono(d + 1, q, size);
  }

  lemma MulMono(a: nat, b: nat, c: nat)
    ensures a <= b ==> a * c <= b * c
  {
  }

  /** The groups use up all but fewer than `size` elements. */
  lemma {:induction false} ChunkBounds<T>(arr: seq<T>, size: nat)
    requires size > 0
    ensures |Chunks(arr, size)| * size <= |arr| < |Chunks(arr, size)| * size + size
    decreases |arr|
  {
    if |arr| >= size {
      ChunkBounds(arr[size..], size);
      var n := |Chunks(arr[size..], size)|;
      assert (n + 1) * size == n * size + size;
    }
  }

  /** One group per full `size` elements. */
  lemma ChunkCount<T>(arr: seq<T>, size: nat)
    requires size > 0
    ensures |Chunks(arr, size)| == |arr| / size
  {
    ChunkBounds(arr, size);
    DivUnique(|arr|, size, |Chunks(arr, size)|);
  }

  /** Group `k` holds the elements `k * size` up to `(k + 1) * size`, every one of length `size`. */
  lemma {:induction false} ChunkGroups<T>(arr: seq<T>, size: nat)
    requires size > 0
    ensures forall k :: 0 <= k < |Chunks(arr, size)| ==>
      |Chunks(arr, size)[k]| == size && (k + 1) * size <= |arr| &&
      Chunks(arr, size)[k] == arr[k * size..(k + 1) * size]
  {
    var c := Chunks(arr, size);
    forall k | 0 <= k < |c|
      ensures |c[k]| == size && (k + 1) * size <= |arr| && c[k] == arr[k * size..(k + 1) * size]
    {
      ChunkAt(arr, size, k);
    }
  }

  /** Group `k` on its own: the group after the first `k` ones. */
  lemma {:induction false} ChunkAt<T>(arr: seq<T>, size: nat, k: nat)
    requires size > 0 && k < |Chunks(arr, size)|
    ensures |Chunks(arr, size)[k]| == size
    ensures (k + 1) * size <= |arr| && Chunks(arr, size)[k] == arr[k * size..(k + 1) * size]
    decreases k
  {
    var rest := arr[size..];
    assert Chunks(arr, size) == [arr[..size]] + Chunks(rest, size);
    if k == 0 {
      assert (k + 1) * size == size;
    } else {
      var j := k - 1;
      ChunkAt(rest, size, j);
      var lo, hi := j * size, (j + 1) * size;
      assert hi <= |rest| && Chunks(rest, size)[j] == rest[lo..hi];
      NextOffsets(j, size);
      assert k * size == hi && (k + 1) * size == hi + size;
      SliceShift(arr, size, lo, hi);
    }
  }

  lemma NextOffsets(j: nat, size: nat)
    ensures (j + 1) * size == j * size + size
    ensures (j + 2) * size == (j + 1) * size + size
  {
  }

  /** Slicing after dropping `size` elements is slicing `size` further along. */
  lemma SliceShift<T>(arr: seq<T>, size: nat, a: nat, b: nat)
    requires size <= |arr| && a <= b <= |arr| - size
    ensures arr[size..][a..b] == arr[a + size..b + size]
  {
  }

  /** Joined back together, the groups are the input without its incomplete tail. */
  lemma {:induction false} FlattenChunks<T>(arr: seq<T>, size: nat)
    requires size > 0
    ensures |Chunks(arr, size)| * size <= |arr|
    ensures Flatten(Chunks(arr, size)) == arr[..|Chunks(arr, size)| * size]
    decreases |arr|
  {
    ChunkBounds(arr, size);
    if |arr| >= size {
      var rest := arr[size..];
      FlattenChunks(rest, size);
      var n := |Chunks(rest, size)|;
      var c := Chunks(arr, size);
      assert c[1..] == Chunks(rest, size);
      assert |c| * size == (n + 1) * size == size + n * size;
      assert arr[..size] + rest[..n * size] == arr[..size + n * size];
    } else {
      assert arr[..0] == [];
    }
  }

  /** Pairs of lines: what a linked list with a cycle position takes. */
  lemma PairsFromEvenLength<T>(arr: seq<T>, n: nat)
    requires |arr| == 2 * n
    ensures |Chunks(arr, 2)| == n
    ensures Flatten(Chunks(arr, 2)) == arr
  {
    ChunkCount(arr, 2);
    FlattenChunks(arr, 2);
    assert arr[..|arr|] == arr;
  }
}
