/** `pixels.chunks_mut(width).enumerate()`: the split of a row-major pixel
    buffer into horizontal bands that `create_png` renders independently. */
module Bands {
  /** The half-open index range [start, end) of one chunk. */
  datatype Band = Band(start: nat, end: nat)

  predicate Contains(b: Band, k: nat) {
    b.start <= k < b.end
  }

  /** Some band of `bands` holds index `k`. */
  predicate Covered(bands: seq<Band>, k: nat) {
    exists i :: 0 <= i < |bands| && Contains(bands[i], k)
  }

  function Min(a: nat, b: nat): nat {
    if a <= b then a else b
  }

  /** The chunks of the index range [start, len), each `size` long except a
      shorter last one. */
  function ChunksFrom(start: nat, len: nat, size: nat): seq<Band>
    requires size > 0
    decreases len - start
  {
    if start >= len then []
    else [Band(start, Min(start + size, len))] + ChunksFrom(start + size, len, size)
  }

  /** `chunks_mut(size)` over a buffer of `len` pixels. `chunks_mut` panics
      on size 0. */
  function Chunks(len: nat, size: nat): (bands: seq<Band>)
    requires size > 0
    ensures forall b :: b in bands ==> b.start < b.end <= len && b.end - b.start <= size
  {
    ChunksWithin(0, len, size);
    ChunksFrom(0, len, size)
  }

  /** Every chunk of [start, len) is non-empty and lies within [start, len). */
  lemma {:induction false} ChunksWithin(start: nat, len: nat, size: nat)
    requires size > 0
    ensures forall b :: b in ChunksFrom(start, len, size) ==> start <= b.start < b.end <= len
    ensures forall b :: b in ChunksFrom(start, len, size) ==> b.end - b.start <= size
    decreases len - start
  {
    if start < len {
      ChunksWithin(start + size, len, size);
    }
  }

  /** The chunks come in order: each ends no later than any later one starts. */
  lemma {:induction false} ChunksOrdered(start: nat, len: nat, size: nat)
    requires size > 0
    ensures forall i, j :: 0 <= i < j < |ChunksFrom(start, len, size)| ==>
      ChunksFrom(start, len, size)[i].end <= ChunksFrom(start, len, size)[j].start
    decreases len - start
  {
    var bands := ChunksFrom(start, len, size);
    if start < len {
      var rest := ChunksFrom(start + size, len, size);
      ChunksOrdered(start + size, len, size);
      ChunksWithin(start + size, len, size);
      assert bands == [bands[0]] + rest;
      forall i, j | 0 <= i < j < |bands|
        ensures bands[i].end <= bands[j].start
      {
        assert bands[j] == rest[j - 1] && rest[j - 1] in rest;
        if i > 0 {
          assert bands[i] == rest[i - 1];
          assert rest[i - 1].end <= rest[j - 1].start;
        } else {
          assert bands[0] == Band(start, Min(start + size, len));
          assert start + size <= rest[j - 1].start;
        }
      }
    }
  }

  /** The chunks are pairwise disjoint and together cover [start, len). */
  lemma {:induction false} ChunksPartitionFrom(start: nat, len: nat, size: nat)
    requires size > 0
    ensures var bands := ChunksFrom(start, len, size);
      forall i, j, k :: 0 <= i < |bands| && 0 <= j < |bands| && Contains(bands[i], k) && Contains(bands[j], k) ==> i == j
    ensures forall k :: start <= k < len ==> Covered(ChunksFrom(start, len, size), k)
    decreases len - start
  {
    ChunksOrdered(start, len, size);
    var bands := ChunksFrom(start, len, size);
    if start < len {
      var rest := ChunksFrom(start + size, len, size);
      ChunksPartitionFrom(start + size, len, size);
      assert bands == [bands[0]] + rest;
      forall k | start <= k < len
        ensures Covered(bands, k)
      {
        if k < start + size {
          assert Contains(bands[0], k);
        } else {
          assert Covered(rest, k);
          var i :| 0 <= i < |rest| && Contains(rest[i], k);
          assert bands[i + 1] == rest[i];
        }
      }
    }
  }

  /** Over a buffer of `m` rows of `size` pixels, the chunks are exactly the
      rows: there are `m` of them and chunk `i` is [start + i*size, start + (i+1)*size). */
  lemma {:induction false} ChunksOfRows(start: nat, m: nat, size: nat)
    requires size > 0
    ensures |ChunksFrom(start, start + m * size, size)| == m
    ensures forall i :: 0 <= i < m ==>
      ChunksFrom(start, start + m * size, size)[i] == Band(start + i * size, start + i * size + size)
    decreases m
  {
    if m > 0 {
      var rest := ChunksFrom(start + size, start + size + (m - 1) * size, size);
      assert start + m * size == start + size + (m - 1) * size;
      ChunksOfRows(start + size, m - 1, size);
      assert ChunksFrom(start, start + m * size, size) == [Band(start, start + size)] + rest;
      forall i | 1 <= i < m
        ensures ChunksFrom(start, start + m * size, size)[i] == Band(start + i * size, start + i * size + size)
      {
        assert rest[i - 1] == Band(start + size + (i - 1) * size, start + size + (i - 1) * size + size);
        assert start + size + (i - 1) * size == start + i * size;
      }
    }
  }

  /** The bands `create_png` renders: a `width * height` buffer split into
      `height` one-row bands, band `i` being [i*width, (i+1)*width); they are
      pairwise disjoint and cover every pixel. */
  lemma RowBands(width: nat, height: nat)
    requires width > 0
    ensures var bands := Chunks(width * height, width);
      |bands| == height &&
      (forall i :: 0 <= i < height ==> bands[i] == Band(i * width, (i + 1) * width)) &&
      (forall i, j, k :: 0 <= i < height && 0 <= j < height && Contains(bands[i], k) && Contains(bands[j], k) ==> i == j) &&
      (forall k :: 0 <= k < width * height ==> Covered(bands, k))
  {
    assert 0 + height * width == width * height;
    ChunksOfRows(0, height, width);
    ChunksPartitionFrom(0, width * height, width);
    forall i | 0 <= i < height
      ensures Chunks(width * height, width)[i] == Band(i * width, (i + 1) * width)
    {
      assert i * width + width == (i + 1) * width;
    }
  }
}
