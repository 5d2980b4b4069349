/** The endianness flip of `dump_section`: the section bytes are cut into
    consecutive 4-byte chunks (the last one possibly shorter), each chunk is
    reversed, and the chunks are concatenated in their original order. */
module Flip {
  import opened Common

  /** The reverse of a sequence. */
  function Reverse<T>(s: seq<T>): (r: seq<T>)
    ensures |r| == |s|
  {
    if s == [] then [] else Reverse(s[1..]) + [s[0]]
  }

  /** Element i of the reverse is element |s| - 1 - i. */
  lemma {:induction false} ReverseAt<T>(s: seq<T>, i: nat)
    requires i < |s|
    ensures Reverse(s)[i] == s[|s| - 1 - i]
    decreases |s|
  {
    if i < |s| - 1 {
      ReverseAt(s[1..], i);
    }
  }

  /** The start of the chunk holding position i. */
  function ChunkStart(i: nat): nat {
    i / 4 * 4
  }

  /** Where output position i of a flip over n elements takes its element from:
      the mirror of i inside its own chunk, where the chunk starting at a
      multiple of 4 is 4 long, or as long as what is left if that is shorter. */
  function Source(i: nat, n: nat): (j: nat)
    requires i < n
    ensures j < n
    ensures ChunkStart(j) == ChunkStart(i)
  {
    var start := ChunkStart(i);
    var len := if n - start < 4 then n - start else 4;
    start + len - 1 - (i - start)
  }

  /** The flip: every position takes the element at its mirror in its chunk. */
  function FlipChunks<T>(d: seq<T>): (r: seq<T>)
    ensures |r| == |d|
  {
    seq(|d|, i requires 0 <= i < |d| => d[Source(i, |d|)])
  }

  /** The bytes that are emitted: flipped when `flip` is set, untouched otherwise. */
  function Arrange<T>(d: seq<T>, flip: bool): (r: seq<T>)
    ensures |r| == |d|
    ensures !flip ==> r == d
  {
    if flip then FlipChunks(d) else d
  }

  /** Mirroring inside a chunk is its own inverse. */
  lemma SourceSource(i: nat, n: nat)
    requires i < n
    ensures Source(Source(i, n), n) == i
  {
  }

  /** Every full chunk k is reversed: output 4k+j is input 4k+3-j. */
  lemma FlipFullChunk<T>(d: seq<T>, k: nat, j: nat)
    requires 4 * k + 4 <= |d| && j < 4
    ensures FlipChunks(d)[4 * k + j] == d[4 * k + 3 - j]
  {
    assert ChunkStart(4 * k + j) == 4 * k;
  }

  /** The short final chunk of |d| % 4 elements is reversed within itself,
      with no padding. */
  lemma FlipPartialChunk<T>(d: seq<T>, j: nat)
    requires j < |d| % 4
    ensures FlipChunks(d)[|d| - |d| % 4 + j] == d[|d| - 1 - j]
  {
    assert ChunkStart(|d| - |d| % 4 + j) == |d| - |d| % 4;
  }

  /** The whole flip by position: every full chunk reversed, and the short
      final chunk of |d| % 4 elements reversed within itself. */
  lemma FlipLayout<T>(d: seq<T>)
    ensures forall i :: 0 <= i < |d| - |d| % 4 ==> FlipChunks(d)[i] == d[i / 4 * 4 + 3 - i % 4]
    ensures forall i :: |d| - |d| % 4 <= i < |d| ==>
      FlipChunks(d)[i] == d[|d| - 1 - (i - (|d| - |d| % 4))]
  {
    var full := |d| - |d| % 4;
    forall i | 0 <= i < full
      ensures FlipChunks(d)[i] == d[i / 4 * 4 + 3 - i % 4]
    {
      FlipFullChunk(d, i / 4, i % 4);
    }
    forall i | full <= i < |d|
      ensures FlipChunks(d)[i] == d[|d| - 1 - (i - full)]
    {
      FlipPartialChunk(d, i - full);
    }
  }

  /** Chunk boundaries sit at fixed multiples of 4, so flipping twice restores
      any sequence, whatever its length. */
  lemma FlipInvolution<T>(d: seq<T>)
    ensures FlipChunks(FlipChunks(d)) == d
  {
    forall i | 0 <= i < |d| ensures FlipChunks(FlipChunks(d))[i] == d[i] {
      SourceSource(i, |d|);
    }
  }

  /** The chunk loop of the source: `v` grows by each reversed chunk in turn. */
  method FlipLoop(d: seq<u8>) returns (v: seq<u8>)
    ensures v == FlipChunks(d)
  {
    v := [];
    var start := 0;
    while start < |d|
      invariant start <= |d| && (start % 4 == 0 || start == |d|)
      invariant |v| == start
      invariant forall i :: 0 <= i < start ==> v[i] == d[Source(i, |d|)]
    {
      var stop := if |d| - start < 4 then |d| else start + 4;
      var c := Reverse(d[start..stop]);
      forall i | start <= i < stop
        ensures c[i - start] == d[Source(i, |d|)]
      {
        assert ChunkStart(i) == start;
        ReverseAt(d[start..stop], i - start);
      }
      v := v + c;
      start := stop;
    }
  }
}
