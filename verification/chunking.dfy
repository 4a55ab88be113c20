/**
 * The slicing loop of the chunked upload: `for i in range(0, len(p), size)`
 * taking `p[i:i + size]`.
 */
module Chunking {
  import opened Text

  /** `range(start, len, step)` for a positive step. */
  function RangeFrom(start: nat, len: nat, step: nat): (offs: seq<nat>)
    requires step > 0
    ensures forall i :: 0 <= i < |offs| ==> offs[i] == start + i * step && offs[i] < len
    ensures start >= len ==> |offs| == 0
    ensures start < len ==> |offs| > 0 && (|offs| - 1) * step < len - start <= |offs| * step
    decreases len - start
  {
    if start >= len then []
    else
      var rest := RangeFrom(start + step, len, step);
      ConsOffsets(start, len, step, rest);
      [start] + rest
  }

  /** The offsets from `start` are `start` followed by the offsets from `start + step`. */
  lemma ConsOffsets(start: nat, len: nat, step: nat, rest: seq<nat>)
    requires step > 0 && start < len
    requires forall i :: 0 <= i < |rest| ==> rest[i] == start + step + i * step && rest[i] < len
    requires start + step >= len ==> |rest| == 0
    requires start + step < len ==> |rest| > 0 && (|rest| - 1) * step < len - (start + step) <= |rest| * step
    ensures var offs := [start] + rest;
      && (forall i :: 0 <= i < |offs| ==> offs[i] == start + i * step && offs[i] < len)
      && (|offs| - 1) * step < len - start <= |offs| * step
  {
    var offs := [start] + rest;
    forall i | 1 <= i < |offs|
      ensures offs[i] == start + i * step
    {
      MulStep(i, step);
    }
    MulStep(|offs|, step);
  }

  /** The chunk offsets `range(0, len, step)`. */
  function Offsets(len: nat, step: nat): seq<nat>
    requires step > 0
  {
    RangeFrom(0, len, step)
  }

  /** Python's clipped slice `p[offset:offset + size]`. */
  function Slice(p: string, offset: nat, size: nat): string
    requires offset <= |p|
  {
    p[offset..Min(offset + size, |p|)]
  }

  /** The chunks of `p`, in offset order. */
  function Chunks(p: string, size: nat): (cs: seq<string>)
    requires size > 0
    ensures |cs| == |Offsets(|p|, size)|
  {
    var offs := Offsets(|p|, size);
    seq(|offs|, i requires 0 <= i < |offs| => Slice(p, offs[i], size))
  }

  /** Concatenation of a list of strings, left to right. */
  function Flatten(cs: seq<string>): string
    decreases |cs|
  {
    if |cs| == 0 then [] else Flatten(cs[..|cs| - 1]) + cs[|cs| - 1]
  }

  lemma MulCancel(x: int, y: int, d: int)
    requires d > 0 && x * d < y * d
    ensures x < y
  {
  }

  /** The quotient is the unique `q` with `q * d <= a < (q + 1) * d`. */
  lemma DivUnique(a: nat, d: nat, q: nat)
    requires d > 0 && q * d <= a < (q + 1) * d
    ensures a / d == q
  {
    var k := a / d;
    assert k * d <= a < (k + 1) * d;
    MulCancel(q, k + 1, d);
    MulCancel(k, q + 1, d);
  }

  /** The number of chunks is the ceiling of `len / step`. */
  lemma OffsetsCount(len: nat, step: nat)
    requires step > 0
    ensures |Offsets(len, step)| == (len + step - 1) / step
  {
    var n := |Offsets(len, step)|;
    if len > 0 {
      assert (n + 1) * step == n * step + step;
      assert (n - 1) * step == n * step - step;
    }
    DivUnique(len + step - 1, step, n);
  }

  /** Every chunk is non-empty and at most `size` long; all but the last are exactly `size` long. */
  lemma ChunkSizes(p: string, size: nat, i: nat)
    requires size > 0
    requires i < |Chunks(p, size)|
    ensures 0 < |Chunks(p, size)[i]| <= size
    ensures i + 1 < |Chunks(p, size)| ==> |Chunks(p, size)[i]| == size
  {
    var offs := Offsets(|p|, size);
    if i + 1 < |offs| {
      assert offs[i + 1] == offs[i] + size by {
        assert (i + 1) * size == i * size + size;
      }
    }
  }

  /** Chunk `i` is the slice of `p` at offset `i * size`. */
  lemma ChunkAt(p: string, size: nat, i: nat)
    requires size > 0
    requires i < |Chunks(p, size)|
    ensures i * size < |p|
    ensures Chunks(p, size)[i] == p[i * size..Min(i * size + size, |p|)]
  {
  }

  /** Flattening a prefix one element longer appends that element. */
  lemma FlattenSnoc(cs: seq<string>, k: nat)
    requires 0 < k <= |cs|
    ensures Flatten(cs[..k]) == Flatten(cs[..k - 1]) + cs[k - 1]
  {
    assert cs[..k][..k - 1] == cs[..k - 1];
  }

  lemma SliceJoin(p: string, lo: nat, hi: nat)
    requires lo <= hi <= |p|
    ensures p[..lo] + p[lo..hi] == p[..hi]
  {
  }

  lemma MulStep(k: nat, size: nat)
    requires k > 0
    ensures (k - 1) * size + size == k * size
  {
  }

  /** The chunks before index `k` spell out the first `k * size` characters of `p` (clipped). */
  lemma {:induction false} FlattenPrefix(p: string, size: nat, k: nat)
    requires size > 0
    requires k <= |Chunks(p, size)|
    ensures Flatten(Chunks(p, size)[..k]) == p[..Min(k * size, |p|)]
    decreases k
  {
    var cs := Chunks(p, size);
    if k > 0 {
      FlattenPrefix(p, size, k - 1);
      FlattenSnoc(cs, k);
      ChunkAt(p, size, k - 1);
      MulStep(k, size);
      var lo := (k - 1) * size;
      SliceJoin(p, lo, Min(k * size, |p|));
    }
  }

  /** The chunks, concatenated in order, give back the whole payload. */
  lemma FlattenChunks(p: string, size: nat)
    requires size > 0
    ensures Flatten(Chunks(p, size)) == p
  {
    var cs := Chunks(p, size);
    FlattenPrefix(p, size, |cs|);
    assert cs[..|cs|] == cs;
    if |cs| > 0 {
      assert (|cs| - 1) * size + size == |cs| * size;
    }
  }

  /** The session's default for the longest encoded script sent in one command line. */
  const MaxEnvelopeSize: nat := 2000

  /** With the default envelope, a 4500-character payload goes out as 2000 + 2000 + 500. */
  lemma ExampleThreeChunks(p: string)
    requires |p| == 4500
    ensures |Chunks(p, MaxEnvelopeSize)| == 3
    ensures var cs := Chunks(p, MaxEnvelopeSize);
      |cs[0]| == 2000 && |cs[1]| == 2000 && |cs[2]| == 500
  {
    OffsetsCount(4500, MaxEnvelopeSize);
    ChunkAt(p, MaxEnvelopeSize, 2);
  }
}
