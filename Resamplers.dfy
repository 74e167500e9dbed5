/**
  The two resamplers of the reference model and the cost accounting that
  tells them apart.  Both fill a freshly allocated output buffer in place and
  add to a caller-owned `Counters` record; the sequential one charges four
  memory reads per output pixel, the chunked ("SIMD") one charges, per chunk
  of up to N consecutive pixels of a row, one read per distinct neighbour
  coordinate.
*/
module Resamplers {
  import opened Bilinear

  // ---------------------------------------------------------------------
  // Distinct-read sets
  // ---------------------------------------------------------------------

  /** A source pixel coordinate (row, column). */
  type Coord = (int, int)

  /** The four neighbours (iy, ix), (iy, ix+1), (iy+1, ix), (iy+1, ix+1)
      of the Q8.8 source position (sxq, syq). */
  function Neighbours(sc: (int, int)): set<Coord>
  {
    var ix, iy := IntPart(sc.0), IntPart(sc.1);
    {(iy, ix), (iy, ix + 1), (iy + 1, ix), (iy + 1, ix + 1)}
  }

  /** The four neighbours are always four distinct coordinates. */
  lemma NeighboursSize(sc: (int, int))
    ensures |Neighbours(sc)| == 4
  {
    var ix, iy := IntPart(sc.0), IntPart(sc.1);
    FourDistinct((iy, ix), (iy, ix + 1), (iy + 1, ix), (iy + 1, ix + 1));
  }

  lemma FourDistinct(a: Coord, b: Coord, c: Coord, d: Coord)
    requires a != b && a != c && a != d && b != c && b != d && c != d
    ensures |{a, b, c, d}| == 4
  {
    assert {a, b, c, d} == {a, b, c} + {d};
    assert {a, b, c} == {a, b} + {c};
    assert {a, b} == {a} + {b};
  }

  /** The distinct coordinates a list of Q8.8 source positions reads:
      the union of their neighbours. */
  function ReadSet(cs: seq<(int, int)>): set<Coord>
    decreases |cs|
  {
    if cs == [] then {} else ReadSet(cs[..|cs| - 1]) + Neighbours(cs[|cs| - 1])
  }

  /** A coordinate is read exactly when it neighbours one of the positions. */
  lemma {:induction false} ReadSetMembers(cs: seq<(int, int)>, c: Coord)
    ensures c in ReadSet(cs) <==> exists j :: 0 <= j < |cs| && c in Neighbours(cs[j])
    decreases |cs|
  {
    if cs != [] {
      var init := cs[..|cs| - 1];
      ReadSetMembers(init, c);
      if c in ReadSet(init) {
        var j :| 0 <= j < |init| && c in Neighbours(init[j]);
        assert cs[j] == init[j];
      }
      if j :| 0 <= j < |cs| && c in Neighbours(cs[j]) {
        if j < |init| {
          assert init[j] == cs[j];
        }
      }
    }
  }

  /** A read set of a non-empty list holds at least the four neighbours of
      its first position and at most four per position. */
  lemma {:induction false} ReadSetSize(cs: seq<(int, int)>)
    ensures cs != [] ==> 4 <= |ReadSet(cs)| <= 4 * |cs|
    ensures |cs| == 1 ==> |ReadSet(cs)| == 4
    decreases |cs|
  {
    if cs != [] {
      var init := cs[..|cs| - 1];
      var last := Neighbours(cs[|cs| - 1]);
      NeighboursSize(cs[|cs| - 1]);
      assert ReadSet(cs) == ReadSet(init) + last;
      ReadSetSize(init);
      assert |ReadSet(init) + last| <= |ReadSet(init)| + |last|;
      SubsetSize(last, ReadSet(cs));
      if |cs| == 1 {
        assert init == [];
        assert ReadSet(cs) == last;
      }
    }
  }

  lemma SubsetSize(a: set<Coord>, b: set<Coord>)
    requires a <= b
    ensures |a| <= |b|
  {
    assert b == a + (b - a);
  }

  // ---------------------------------------------------------------------
  // Chunks of an output row
  // ---------------------------------------------------------------------

  /** The chunks (first column, length) that the chunked resampler walks
      from column `ox` to the end of a row of `wOut` columns: each as long
      as `n` or as the rest of the row. */
  function Chunks(ox: int, wOut: int, n: int): seq<(int, nat)>
    requires n >= 1
    decreases wOut - ox
  {
    if ox >= wOut then []
    else
      var c := Min(n, wOut - ox);
      [(ox, c)] + Chunks(ox + c, wOut, n)
  }

  /** Consecutive integers from a up to, not including, b. */
  function Range(a: int, b: int): (r: seq<int>)
    ensures |r| == if a <= b then b - a else 0
    ensures forall i :: 0 <= i < |r| ==> r[i] == a + i
    decreases b - a
  {
    if a >= b then [] else [a] + Range(a + 1, b)
  }

  /** The columns a list of chunks covers, chunk by chunk, in order. */
  function Columns(chunks: seq<(int, nat)>): seq<int>
  {
    if chunks == [] then [] else Range(chunks[0].0, chunks[0].0 + chunks[0].1) + Columns(chunks[1..])
  }

  /** The chunks cover the rest of the row in order: together they visit
      every column from ox to wOut - 1 once, left to right. */
  lemma {:induction false} ChunksCover(ox: int, wOut: int, n: int)
    requires n >= 1 && ox <= wOut
    ensures Columns(Chunks(ox, wOut, n)) == Range(ox, wOut)
    decreases wOut - ox
  {
    if ox < wOut {
      var c := Min(n, wOut - ox);
      var rest := Chunks(ox + c, wOut, n);
      assert Chunks(ox, wOut, n) == [(ox, c)] + rest;
      ChunksCover(ox + c, wOut, n);
      assert ([(ox, c)] + rest)[1..] == rest;
      assert Columns(Chunks(ox, wOut, n)) == Range(ox, ox + c) + Columns(rest);
      RangeSplit(ox, ox + c, wOut);
    }
  }

  lemma RangeSplit(a: int, m: int, b: int)
    requires a <= m <= b
    ensures Range(a, b) == Range(a, m) + Range(m, b)
  {
    assert forall i :: 0 <= i < b - a ==> Range(a, b)[i] == (Range(a, m) + Range(m, b))[i];
  }

  /** Every chunk holds between 1 and n columns, and all but the last
      exactly n. */
  lemma {:induction false} ChunksSizes(ox: int, wOut: int, n: int)
    requires n >= 1 && ox <= wOut
    ensures forall k :: 0 <= k < |Chunks(ox, wOut, n)| ==> 1 <= Chunks(ox, wOut, n)[k].1 <= n
    ensures forall k :: 0 <= k < |Chunks(ox, wOut, n)| - 1 ==> Chunks(ox, wOut, n)[k].1 == n
    decreases wOut - ox
  {
    if ox < wOut {
      var c := Min(n, wOut - ox);
      var rest := Chunks(ox + c, wOut, n);
      assert Chunks(ox, wOut, n) == [(ox, c)] + rest;
      ChunksSizes(ox + c, wOut, n);
      if c < n {
        assert rest == [];
      }
    }
  }

  // ---------------------------------------------------------------------
  // Read cost of the chunked resampler
  // ---------------------------------------------------------------------

  /** Q8.8 source positions of the `len` pixels of row oy from column ox,
      as the chunked resampler gathers them. */
  function ChunkCoords(ox: int, oy: int, len: nat, q: int): (cs: seq<(int, int)>)
    ensures |cs| == len
  {
    seq(len, k => (SourceQ(ox + k, q), SourceQ(oy, q)))
  }

  /** The distinct source pixels the `len` pixels of row oy from column ox
      read: for each, the rows iy, iy+1 and the columns ix, ix+1 of its
      Q8.8 source position. */
  function ChunkReadSet(ox: int, oy: int, len: nat, q: int): set<Coord>
  {
    set k, dy, dx | 0 <= k < len && 0 <= dy < 2 && 0 <= dx < 2 :: Tap(ox, oy, q, k, dy, dx)
  }

  /** Neighbour (iy + dy, ix + dx) of pixel ox + k of row oy. */
  function Tap(ox: int, oy: int, q: int, k: int, dy: int, dx: int): Coord
  {
    (IntPart(SourceQ(oy, q)) + dy, IntPart(SourceQ(ox + k, q)) + dx)
  }

  /** The chunk's read set is the read set of its gathered source positions. */
  lemma ChunkReadSetIs(ox: int, oy: int, len: nat, q: int)
    ensures ChunkReadSet(ox, oy, len, q) == ReadSet(ChunkCoords(ox, oy, len, q))
  {
    var cs := ChunkCoords(ox, oy, len, q);
    var iy := IntPart(SourceQ(oy, q));
    forall c | c in ReadSet(cs)
      ensures c in ChunkReadSet(ox, oy, len, q)
    {
      ReadSetMembers(cs, c);
      var k :| 0 <= k < |cs| && c in Neighbours(cs[k]);
      var ix := IntPart(SourceQ(ox + k, q));
      var dy, dx := c.0 - iy, c.1 - ix;
      assert 0 <= dy < 2 && 0 <= dx < 2 && c == Tap(ox, oy, q, k, dy, dx);
    }
    forall c | c in ChunkReadSet(ox, oy, len, q)
      ensures c in ReadSet(cs)
    {
      var k, dy, dx :| 0 <= k < len && 0 <= dy < 2 && 0 <= dx < 2 && c == Tap(ox, oy, q, k, dy, dx);
      assert c in Neighbours(cs[k]);
      ReadSetMembers(cs, c);
    }
  }

  /** Memory reads charged for one chunk: its distinct neighbours. */
  function ChunkReads(ox: int, len: nat, oy: int, q: int): nat
  {
    |ChunkReadSet(ox, oy, len, q)|
  }

  /** The chunk read counts of scale q as one function of (ox, len, oy). */
  function ChunkCost(q: int): (int, nat, int) -> nat
  {
    (ox: int, len: nat, oy: int) => ChunkReads(ox, len, oy, q)
  }

  /** cost charges every chunk its distinct neighbours; the equation is
      used only where the chunk's own read count is in view. */
  ghost predicate ChargesChunks(cost: (int, nat, int) -> nat, q: int)
  {
    forall ox: int, len: nat, oy: int {:trigger ChunkReads(ox, len, oy, q)} ::
      cost(ox, len, oy) == ChunkReads(ox, len, oy, q)
  }

  lemma ChunkCostCharges(q: int)
    ensures ChargesChunks(ChunkCost(q), q)
  {
  }

  /** Memory reads charged for row oy from column ox on: the cost of each
      chunk of the walk `Chunks(ox, wOut, n)`, chunk by chunk (`RowReadsChunks`). */
  function RowReads(cost: (int, nat, int) -> nat, ox: int, wOut: int, n: int, oy: int): nat
    requires n >= 1
    decreases wOut - ox
  {
    if ox >= wOut then 0
    else
      var c := Min(n, wOut - ox);
      cost(ox, c, oy) + RowReads(cost, ox + c, wOut, n, oy)
  }

  /** The cost of each chunk of a list, summed. */
  function ChunksCost(cost: (int, nat, int) -> nat, chunks: seq<(int, nat)>, oy: int): nat
  {
    if chunks == [] then 0 else cost(chunks[0].0, chunks[0].1, oy) + ChunksCost(cost, chunks[1..], oy)
  }

  /** The reads charged for a row are the costs of the chunks of its walk:
      `RowReads` charges exactly the chunks `Chunks` lists, no more, no
      fewer, and no others. */
  lemma {:induction false} RowReadsChunks(cost: (int, nat, int) -> nat, ox: int, wOut: int, n: int, oy: int)
    requires n >= 1
    ensures RowReads(cost, ox, wOut, n, oy) == ChunksCost(cost, Chunks(ox, wOut, n), oy)
    decreases wOut - ox
  {
    if ox < wOut {
      var c := Min(n, wOut - ox);
      var rest := Chunks(ox + c, wOut, n);
      assert Chunks(ox, wOut, n) == [(ox, c)] + rest;
      assert ([(ox, c)] + rest)[1..] == rest;
      RowReadsChunks(cost, ox + c, wOut, n, oy);
    }
  }

  /** One step of the chunk walk: the chunk at ox, then the rest. */
  lemma RowReadsStep(cost: (int, nat, int) -> nat, ox: int, wOut: int, n: int, oy: int)
    requires n >= 1 && ox < wOut
    ensures RowReads(cost, ox, wOut, n, oy)
         == cost(ox, Min(n, wOut - ox), oy) + RowReads(cost, ox + Min(n, wOut - ox), wOut, n, oy)
  {
  }

  /** Memory reads charged for the first `rows` rows of a wOut-wide output
      with chunk width n. */
  function ImageReads(cost: (int, nat, int) -> nat, rows: int, wOut: int, n: int): nat
    requires n >= 1
    decreases rows
  {
    if rows <= 0 then 0
    else ImageReads(cost, rows - 1, wOut, n) + RowReads(cost, 0, wOut, n, rows - 1)
  }

  /** One more row adds that row's reads. */
  lemma ImageReadsStep(cost: (int, nat, int) -> nat, rows: nat, wOut: int, n: int)
    requires n >= 1
    ensures ImageReads(cost, rows + 1, wOut, n) == ImageReads(cost, rows, wOut, n) + RowReads(cost, 0, wOut, n, rows)
  {
  }

  /** Within one row: at most four reads per column, and exactly four per
      column when every chunk has one column. */
  lemma {:induction false} RowReadsBound(ox: int, wOut: int, n: int, oy: int, q: int)
    requires n >= 1 && ox <= wOut
    ensures RowReads(ChunkCost(q), ox, wOut, n, oy) <= 4 * (wOut - ox)
    ensures n == 1 ==> RowReads(ChunkCost(q), ox, wOut, n, oy) == 4 * (wOut - ox)
    decreases wOut - ox
  {
    if ox < wOut {
      var c := Min(n, wOut - ox);
      assert RowReads(ChunkCost(q), ox, wOut, n, oy) == ChunkReads(ox, c, oy, q) + RowReads(ChunkCost(q), ox + c, wOut, n, oy);
      assert ChunkReads(ox, c, oy, q) <= 4 * c && (c == 1 ==> ChunkReads(ox, c, oy, q) == 4) by {
        ChunkReadSetIs(ox, oy, c, q);
        ReadSetSize(ChunkCoords(ox, oy, c, q));
      }
      RowReadsBound(ox + c, wOut, n, oy, q);
    }
  }

  /** The chunked resampler never charges more reads than the sequential
      one (four per output pixel), and exactly as many with chunks of one. */
  lemma {:induction false} ImageReadsBound(rows: int, wOut: int, n: int, q: int)
    requires n >= 1 && wOut >= 0 && rows >= 0
    ensures ImageReads(ChunkCost(q), rows, wOut, n) <= 4 * (wOut * rows)
    ensures n == 1 ==> ImageReads(ChunkCost(q), rows, wOut, n) == 4 * (wOut * rows)
    decreases rows
  {
    if rows > 0 {
      ImageReadsBound(rows - 1, wOut, n, q);
      RowReadsBound(0, wOut, n, rows - 1, q);
      assert wOut * rows == wOut * (rows - 1) + wOut;
    }
  }

  // ---------------------------------------------------------------------
  // Counters
  // ---------------------------------------------------------------------

  /** The cost record: multiplications, additions, memory reads and output
      pixels.  The resamplers only ever add to it. */
  class Counters {
    var muls: nat
    var adds: nat
    var memReads: nat
    var outputs: nat

    constructor ()
      ensures muls == 0 && adds == 0 && memReads == 0 && outputs == 0
    {
      muls, adds, memReads, outputs := 0, 0, 0, 0;
    }
  }

  // ---------------------------------------------------------------------
  // bilinear_reference_sequential
  // ---------------------------------------------------------------------

  /** Resamples `input` (wIn by hIn, row-major) by the scale num/den, one
      output pixel at a time, charging 8 multiplications, 3 additions and
      4 memory reads per output pixel. */
  method Sequential(input: seq<Byte>, wIn: int, hIn: int, num: int, den: int, counters: Counters)
    returns (out: array<Byte>)
    requires wIn >= 1 && hIn >= 1 && |input| == wIn * hIn
    requires 0 < num && 0 < den
    modifies counters
    ensures fresh(out)
    ensures var (wOut, hOut) := OutDims(wIn, hIn, num, den);
      out[..] == Resample(input, wIn, hIn, wOut, hOut, InvScaleQ(num, den))
      && counters.muls == old(counters.muls) + 8 * (wOut * hOut)
      && counters.adds == old(counters.adds) + 3 * (wOut * hOut)
      && counters.memReads == old(counters.memReads) + 4 * (wOut * hOut)
      && counters.outputs == old(counters.outputs) + wOut * hOut
  {
    var (wOut, hOut) := OutDims(wIn, hIn, num, den);
    assert wOut * hOut >= 0 by {
      MulMonotone(0, wOut, hOut);
    }
    out := new Byte[wOut * hOut];
    var q := InvScaleQ(num, den);
    SamplerSamples(input, wIn, hIn, q);
    SequentialRows(input, wIn, hIn, wOut, hOut, q, Sampler(input, wIn, hIn, q), out, counters);
  }

  /** The outer loop of `Sequential`: fills the output rows top to bottom. */
  method SequentialRows(input: seq<Byte>, wIn: int, hIn: int, wOut: nat, hOut: nat, q: int,
                        ghost pixel: (int, int) -> Byte, out: array<Byte>, counters: Counters)
    requires wIn >= 1 && hIn >= 1 && |input| == wIn * hIn && Samples(pixel, input, wIn, hIn, q)
    requires out.Length == wOut * hOut
    modifies out, counters
    ensures out[..] == Grid(pixel, wOut, hOut)
    ensures counters.muls == old(counters.muls) + 8 * (wOut * hOut)
    ensures counters.adds == old(counters.adds) + 3 * (wOut * hOut)
    ensures counters.memReads == old(counters.memReads) + 4 * (wOut * hOut)
    ensures counters.outputs == old(counters.outputs) + wOut * hOut
  {
    ghost var muls0, adds0, reads0, outputs0 := counters.muls, counters.adds, counters.memReads, counters.outputs;
    ghost var done := 0;
    var oy := 0;
    while oy < hOut
      invariant 0 <= oy <= hOut && done == oy * wOut && done <= out.Length
      invariant RowsDone(out[..], pixel, wOut, oy)
      invariant counters.muls == muls0 + 8 * done
      invariant counters.adds == adds0 + 3 * done
      invariant counters.memReads == reads0 + 4 * done
      invariant counters.outputs == outputs0 + done
    {
      NextRow(oy, wOut, hOut);
      SequentialRow(input, wIn, hIn, wOut, q, pixel, oy, out, counters);
      done := done + wOut;
      oy := oy + 1;
    }
    GridFromRows(out[..], pixel, wOut, hOut);
  }

  /** The inner loop of `Sequential`: fills output row oy, column by
      column, leaving the rows above it alone. */
  method SequentialRow(input: seq<Byte>, wIn: int, hIn: int, wOut: nat, q: int, ghost pixel: (int, int) -> Byte,
                       oy: nat, out: array<Byte>, counters: Counters)
    requires wIn >= 1 && hIn >= 1 && |input| == wIn * hIn && Samples(pixel, input, wIn, hIn, q)
    requires oy * wOut + wOut <= out.Length && RowsDone(out[..], pixel, wOut, oy)
    modifies out, counters
    ensures RowsDone(out[..], pixel, wOut, oy + 1)
    ensures counters.muls == old(counters.muls) + 8 * wOut
    ensures counters.adds == old(counters.adds) + 3 * wOut
    ensures counters.memReads == old(counters.memReads) + 4 * wOut
    ensures counters.outputs == old(counters.outputs) + wOut
  {
    ghost var before := out[..];
    ghost var muls0, adds0, reads0, outputs0 := counters.muls, counters.adds, counters.memReads, counters.outputs;
    var ox := 0;
    while ox < wOut
      invariant 0 <= ox <= wOut
      invariant forall i :: 0 <= i < oy * wOut ==> out[i] == before[i]
      invariant forall x :: 0 <= x < ox ==> out[oy * wOut + x] == pixel(oy, x)
      invariant counters.muls == muls0 + 8 * ox
      invariant counters.adds == adds0 + 3 * ox
      invariant counters.memReads == reads0 + 4 * ox
      invariant counters.outputs == outputs0 + ox
    {
      var sxq, syq := SourceQ(ox, q), SourceQ(oy, q);
      // four neighbours read per output pixel
      counters.memReads := counters.memReads + 4;
      var px := OutputPixel(input, wIn, hIn, q, pixel, oy, ox, sxq, syq, counters);
      out[oy * wOut + ox] := px;
      counters.outputs := counters.outputs + 1;
      ox := ox + 1;
    }
    KeepRows(before, out[..], pixel, wOut, oy);
  }

  /** The per-output work both resamplers share: output pixel (oy, ox)
      from its Q8.8 source position, charging four multiplications for the
      weights, four for the weighted neighbours and three additions. */
  method OutputPixel(input: seq<Byte>, wIn: int, hIn: int, q: int, ghost pixel: (int, int) -> Byte,
                     ghost oy: int, ghost ox: int, sxq: int, syq: int, counters: Counters)
    returns (px: Byte)
    requires wIn >= 1 && hIn >= 1 && |input| == wIn * hIn && Samples(pixel, input, wIn, hIn, q)
    requires sxq == SourceQ(ox, q) && syq == SourceQ(oy, q)
    modifies counters
    ensures px == pixel(oy, ox)
    ensures counters.muls == old(counters.muls) + 8 && counters.adds == old(counters.adds) + 3
    ensures counters.memReads == old(counters.memReads) && counters.outputs == old(counters.outputs)
  {
    counters.muls := counters.muls + 4;
    px := Interpolate(input, wIn, hIn, sxq, syq);
    counters.muls := counters.muls + 4;
    counters.adds := counters.adds + 3;
  }

  // ---------------------------------------------------------------------
  // collect_unique_reads_for_outputs
  // ---------------------------------------------------------------------

  /** The set of distinct neighbour coordinates of the given Q8.8 source
      positions, gathered one position (four insertions) at a time into a
      set that starts empty. */
  method CollectUniqueReads(srcCoords: seq<(int, int)>) returns (unique: set<Coord>)
    ensures unique == ReadSet(srcCoords)
    ensures srcCoords != [] ==> 4 <= |unique| <= 4 * |srcCoords|
  {
    unique := {};
    for j := 0 to |srcCoords|
      invariant unique == ReadSet(srcCoords[..j])
    {
      var (sxq, syq) := srcCoords[j];
      var ix, iy := IntPart(sxq), IntPart(syq);
      unique := unique + {(iy, ix)};
      unique := unique + {(iy, ix + 1)};
      unique := unique + {(iy + 1, ix)};
      unique := unique + {(iy + 1, ix + 1)};
      assert srcCoords[..j + 1][..j] == srcCoords[..j];
      assert unique == ReadSet(srcCoords[..j]) + Neighbours(srcCoords[j]);
    }
    assert srcCoords[..|srcCoords|] == srcCoords;
    ReadSetSize(srcCoords);
  }

  // ---------------------------------------------------------------------
  // bilinear_reference_simd
  // ---------------------------------------------------------------------

  /** Resamples like `Sequential`, walking each output row in chunks of N
      pixels (N below 1 counts as 1).  The output and the multiplication,
      addition and output counts are those of `Sequential`; the memory
      reads charged are the distinct neighbours of each chunk, never more
      than the four per pixel `Sequential` charges and exactly that many
      when chunks hold one pixel. */
  method Simd(input: seq<Byte>, wIn: int, hIn: int, num: int, den: int, N: int, counters: Counters)
    returns (out: array<Byte>)
    requires wIn >= 1 && hIn >= 1 && |input| == wIn * hIn
    requires 0 < num && 0 < den
    modifies counters
    ensures fresh(out)
    ensures var (wOut, hOut) := OutDims(wIn, hIn, num, den);
      var q := InvScaleQ(num, den);
      out[..] == Resample(input, wIn, hIn, wOut, hOut, q)
      && counters.muls == old(counters.muls) + 8 * (wOut * hOut)
      && counters.adds == old(counters.adds) + 3 * (wOut * hOut)
      && counters.memReads == old(counters.memReads) + ImageReads(ChunkCost(q), hOut, wOut, Max(N, 1))
      && counters.outputs == old(counters.outputs) + wOut * hOut
    ensures var (wOut, hOut) := OutDims(wIn, hIn, num, den);
      counters.memReads - old(counters.memReads) <= 4 * (wOut * hOut)
      && (N <= 1 ==> counters.memReads - old(counters.memReads) == 4 * (wOut * hOut))
  {
    var (wOut, hOut) := OutDims(wIn, hIn, num, den);
    assert wOut * hOut >= 0 by {
      MulMonotone(0, wOut, hOut);
    }
    out := new Byte[wOut * hOut];
    var n := N;
    if n < 1 {
      n := 1;
    }
    var q := InvScaleQ(num, den);
    ChunkCostCharges(q);
    SamplerSamples(input, wIn, hIn, q);
    SimdRows(input, wIn, hIn, wOut, hOut, q, n, Sampler(input, wIn, hIn, q), ChunkCost(q), out, counters);
    ImageReadsBound(hOut, wOut, n, q);
  }

  /** The row loop of `Simd`: fills the output rows top to bottom. */
  method SimdRows(input: seq<Byte>, wIn: int, hIn: int, wOut: nat, hOut: nat, q: int, n: int,
                  ghost pixel: (int, int) -> Byte, ghost cost: (int, nat, int) -> nat,
                  out: array<Byte>, counters: Counters)
    requires wIn >= 1 && hIn >= 1 && |input| == wIn * hIn && Samples(pixel, input, wIn, hIn, q)
    requires n >= 1 && ChargesChunks(cost, q)
    requires out.Length == wOut * hOut
    modifies out, counters
    ensures out[..] == Grid(pixel, wOut, hOut)
    ensures counters.muls == old(counters.muls) + 8 * (wOut * hOut)
    ensures counters.adds == old(counters.adds) + 3 * (wOut * hOut)
    ensures counters.memReads == old(counters.memReads) + ImageReads(cost, hOut, wOut, n)
    ensures counters.outputs == old(counters.outputs) + wOut * hOut
  {
    ghost var muls0, adds0, reads0, outputs0 := counters.muls, counters.adds, counters.memReads, counters.outputs;
    ghost var done := 0;
    var oy := 0;
    while oy < hOut
      invariant 0 <= oy <= hOut && done == oy * wOut && done <= out.Length
      invariant RowsDone(out[..], pixel, wOut, oy)
      invariant counters.muls == muls0 + 8 * done
      invariant counters.adds == adds0 + 3 * done
      invariant counters.memReads == reads0 + ImageReads(cost, oy, wOut, n)
      invariant counters.outputs == outputs0 + done
    {
      NextRow(oy, wOut, hOut);
      SimdRow(input, wIn, hIn, wOut, q, n, oy, pixel, cost, out, counters);
      ImageReadsStep(cost, oy, wOut, n);
      done := done + wOut;
      oy := oy + 1;
    }
    GridFromRows(out[..], pixel, wOut, hOut);
  }

  /** The chunk loop of `Simd` for output row oy: chunks of min(n, rest of
      the row) columns, left to right, until the row is full. */
  method SimdRow(input: seq<Byte>, wIn: int, hIn: int, wOut: nat, q: int, n: int, oy: nat,
                 ghost pixel: (int, int) -> Byte, ghost cost: (int, nat, int) -> nat,
                 out: array<Byte>, counters: Counters)
    requires wIn >= 1 && hIn >= 1 && |input| == wIn * hIn && Samples(pixel, input, wIn, hIn, q)
    requires n >= 1 && ChargesChunks(cost, q)
    requires oy * wOut + wOut <= out.Length && RowsDone(out[..], pixel, wOut, oy)
    modifies out, counters
    ensures RowsDone(out[..], pixel, wOut, oy + 1)
    ensures counters.muls == old(counters.muls) + 8 * wOut
    ensures counters.adds == old(counters.adds) + 3 * wOut
    ensures counters.memReads == old(counters.memReads) + RowReads(cost, 0, wOut, n, oy)
    ensures counters.outputs == old(counters.outputs) + wOut
  {
    ghost var before := out[..];
    ghost var muls0, adds0, reads0, outputs0 := counters.muls, counters.adds, counters.memReads, counters.outputs;
    // the loop walks the chunks of the row: the i-th chunk it processes is
    // the i-th of Chunks(0, wOut, n), the rest of the walk is what remains
    ghost var walk := Chunks(0, wOut, n);
    ghost var i := 0;
    var ox := 0;
    while ox < wOut
      invariant 0 <= ox <= wOut
      invariant 0 <= i <= |walk| && walk[i..] == Chunks(ox, wOut, n)
      invariant forall k :: 0 <= k < oy * wOut ==> out[k] == before[k]
      invariant forall x :: 0 <= x < ox ==> out[oy * wOut + x] == pixel(oy, x)
      invariant counters.muls == muls0 + 8 * ox
      invariant counters.adds == adds0 + 3 * ox
      invariant counters.memReads + RowReads(cost, ox, wOut, n, oy) == reads0 + RowReads(cost, 0, wOut, n, oy)
      invariant counters.outputs == outputs0 + ox
      decreases wOut - ox
    {
      var chunk := Min(n, wOut - ox);
      WalkStep(walk, i, ox, wOut, n);
      assert (ox, chunk) == walk[i];
      RowReadsStep(cost, ox, wOut, n, oy);
      SimdChunk(input, wIn, hIn, wOut, q, pixel, cost, oy, ox, chunk, out, counters);
      ox := ox + chunk;
      i := i + 1;
    }
    assert walk[i..] == [];
    KeepRows(before, out[..], pixel, wOut, oy);
  }

  /** Where the rest of a chunk walk starts at column ox < wOut, its next
      chunk is (ox, min(n, wOut - ox)) and the walk goes on from the column
      after it. */
  lemma WalkStep(walk: seq<(int, nat)>, i: int, ox: int, wOut: int, n: int)
    requires n >= 1 && ox < wOut
    requires 0 <= i <= |walk| && walk[i..] == Chunks(ox, wOut, n)
    ensures i < |walk| && walk[i] == (ox, Min(n, wOut - ox))
    ensures walk[i + 1..] == Chunks(ox + Min(n, wOut - ox), wOut, n)
  {
    var c := Min(n, wOut - ox);
    assert walk[i..] == [(ox, c)] + Chunks(ox + c, wOut, n);
    assert walk[i + 1..] == walk[i..][1..];
  }

  /** One chunk of `Simd`: gathers the chunk's Q8.8 source positions,
      charges one read per distinct neighbour, then computes the chunk's
      output pixels; nothing outside the chunk's columns is written. */
  method SimdChunk(input: seq<Byte>, wIn: int, hIn: int, wOut: nat, q: int, ghost pixel: (int, int) -> Byte,
                   ghost cost: (int, nat, int) -> nat, oy: nat, ox: nat, chunk: nat,
                   out: array<Byte>, counters: Counters)
    requires wIn >= 1 && hIn >= 1 && |input| == wIn * hIn && Samples(pixel, input, wIn, hIn, q)
    requires ChargesChunks(cost, q)
    requires ox + chunk <= wOut && oy * wOut + wOut <= out.Length
    modifies out, counters
    ensures forall i :: 0 <= i < oy * wOut + ox ==> out[i] == old(out[i])
    ensures forall x :: ox <= x < ox + chunk ==> out[oy * wOut + x] == pixel(oy, x)
    ensures counters.muls == old(counters.muls) + 8 * chunk
    ensures counters.adds == old(counters.adds) + 3 * chunk
    ensures counters.memReads == old(counters.memReads) + cost(ox, chunk, oy)
    ensures counters.outputs == old(counters.outputs) + chunk
  {
    // collect the Q8.8 source positions of the chunk
    var srcCoords: seq<(int, int)> := [];
    for k := 0 to chunk
      invariant |srcCoords| == k
      invariant forall j :: 0 <= j < k ==> srcCoords[j] == (SourceQ(ox + j, q), SourceQ(oy, q))
    {
      var curx := ox + k;
      srcCoords := srcCoords + [(SourceQ(curx, q), SourceQ(oy, q))];
    }

    // charge one read per distinct neighbour of the chunk
    var unique := CollectUniqueReads(srcCoords);
    assert |unique| == ChunkReads(ox, chunk, oy, q) by {
      assert srcCoords == ChunkCoords(ox, oy, chunk, q);
      ChunkReadSetIs(ox, oy, chunk, q);
    }
    counters.memReads := counters.memReads + |unique|;

    // compute the chunk's output pixels
    ChunkPixels(input, wIn, hIn, wOut, q, pixel, oy, ox, srcCoords, out, counters);
  }

  /** The compute loop of one chunk: output pixel ox + k of row oy from the
      k-th gathered source position, for every k of the chunk. */
  method ChunkPixels(input: seq<Byte>, wIn: int, hIn: int, wOut: nat, q: int, ghost pixel: (int, int) -> Byte,
                     oy: nat, ox: nat, srcCoords: seq<(int, int)>, out: array<Byte>, counters: Counters)
    requires wIn >= 1 && hIn >= 1 && |input| == wIn * hIn && Samples(pixel, input, wIn, hIn, q)
    requires ox + |srcCoords| <= wOut && oy * wOut + wOut <= out.Length
    requires forall k :: 0 <= k < |srcCoords| ==> srcCoords[k] == (SourceQ(ox + k, q), SourceQ(oy, q))
    modifies out, counters
    ensures forall i :: 0 <= i < oy * wOut + ox ==> out[i] == old(out[i])
    ensures forall x :: ox <= x < ox + |srcCoords| ==> out[oy * wOut + x] == pixel(oy, x)
    ensures counters.muls == old(counters.muls) + 8 * |srcCoords|
    ensures counters.adds == old(counters.adds) + 3 * |srcCoords|
    ensures counters.memReads == old(counters.memReads)
    ensures counters.outputs == old(counters.outputs) + |srcCoords|
  {
    ghost var before := out[..];
    ghost var muls0, adds0, reads0, outputs0 := counters.muls, counters.adds, counters.memReads, counters.outputs;
    for k := 0 to |srcCoords|
      invariant forall i :: 0 <= i < oy * wOut + ox ==> out[i] == before[i]
      invariant forall x :: ox <= x < ox + k ==> out[oy * wOut + x] == pixel(oy, x)
      invariant counters.muls == muls0 + 8 * k
      invariant counters.adds == adds0 + 3 * k
      invariant counters.memReads == reads0
      invariant counters.outputs == outputs0 + k
    {
      var (sxq, syq) := srcCoords[k];
      ChunkPixel(input, wIn, hIn, q, pixel, oy, ox + k, sxq, syq, oy * wOut + (ox + k), out, counters);
    }
  }

  /** One output pixel of a chunk: computed from its gathered source
      position and stored at index idx of the output. */
  method ChunkPixel(input: seq<Byte>, wIn: int, hIn: int, q: int, ghost pixel: (int, int) -> Byte,
                    ghost oy: int, ghost ox: int, sxq: int, syq: int, idx: nat, out: array<Byte>, counters: Counters)
    requires wIn >= 1 && hIn >= 1 && |input| == wIn * hIn && Samples(pixel, input, wIn, hIn, q)
    requires sxq == SourceQ(ox, q) && syq == SourceQ(oy, q) && idx < out.Length
    modifies out, counters
    ensures out[..] == old(out[..])[idx := pixel(oy, ox)]
    ensures counters.muls == old(counters.muls) + 8 && counters.adds == old(counters.adds) + 3
    ensures counters.memReads == old(counters.memReads) && counters.outputs == old(counters.outputs) + 1
  {
    var px := OutputPixel(input, wIn, hIn, q, pixel, oy, ox, sxq, syq, counters);
    out[idx] := px;
    counters.outputs := counters.outputs + 1;
  }
}
