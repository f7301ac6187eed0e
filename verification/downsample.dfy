/**
 * Block-average downsampling of one tile, as `readTile` performs it once the
 * file is in memory. Output cell `(i, j)` covers the raw samples
 * `(i * f.x + ii, j * f.y + jj)` for `ii < f.x`, `jj < f.y`. Samples at or
 * below the no-data code are skipped, sea samples count as the sea level,
 * and the cell is the mean of what remains, or the sea level when nothing
 * remains.
 */
module Downsampling {
  import opened Geometry
  import opened Extremes
  import opened Sequences

  /**
   * A tile file: its `sx * sy` header and its heights, sample `(a, b)`
   * stored at `a * sy + b`.
   */
  datatype RawTile = RawTile(sx: nat, sy: nat, samples: seq<real>)
  {
    predicate WellFormed()
    {
      |samples| == sx * sy
    }
  }

  /**
   * The height codes of a tileset: a sample is present when it lies
   * strictly above `noValue`; a present sample at or below `seaValue` is sea
   * and is replaced by `seaLevel`.
   */
  datatype Levels = Levels(noValue: real, seaValue: real, seaLevel: real)
  {
    predicate Present(v: real)
    {
      v > noValue
    }

    function Adjusted(v: real): real
    {
      if v <= seaValue then seaLevel else v
    }
  }

  /** A sample inside an `sx * sy` tile has a flat index inside the buffer. */
  lemma FlatIndexBound(sx: nat, sy: nat, a: int, b: int)
    requires 0 <= a < sx && 0 <= b < sy
    ensures 0 <= a * sy + b < sx * sy
  {
    assert a * sy + sy == (a + 1) * sy;
    MulMonotone(a + 1, sx, sy);
  }

  lemma MulMonotone(a: int, b: int, c: nat)
    requires a <= b
    ensures a * c <= b * c
  {
    assert b * c - a * c == (b - a) * c;
  }

  /** The flat sample that `readTile` reads for `(a, b)`. */
  function Sample(t: RawTile, a: int, b: int): real
    requires t.WellFormed() && 0 <= a < t.sx && 0 <= b < t.sy
  {
    FlatIndexBound(t.sx, t.sy, a, b);
    t.samples[a * t.sy + b]
  }

  /** Downsampling factors: at least one raw sample per output cell on each axis. */
  predicate Factor(f: IVec2)
  {
    f.x >= 1 && f.y >= 1
  }

  /** The raw sample `(i * f.x + ii, j * f.y + jj)` is read: it lies inside the tile. */
  predicate Reads(t: RawTile, f: IVec2, i: nat, j: nat, ii: nat, jj: nat)
  {
    i * f.x + ii < t.sx && j * f.y + jj < t.sy
  }

  lemma ProductNonNegative(i: nat, f: int)
    requires f >= 1
    ensures i * f >= 0
  {
  }

  /**
   * Contributions of row `ii` of block `(i, j)`, columns `0 .. jj - 1`:
   * every read, present sample, adjusted for the sea.
   */
  function RowValues(t: RawTile, lv: Levels, f: IVec2, i: nat, j: nat, ii: nat, jj: nat): seq<real>
    requires t.WellFormed() && Factor(f)
    decreases jj
  {
    if jj == 0 then []
    else
      var prev := RowValues(t, lv, f, i, j, ii, jj - 1);
      ProductNonNegative(i, f.x);
      ProductNonNegative(j, f.y);
      if Reads(t, f, i, j, ii, jj - 1) && lv.Present(Sample(t, i * f.x + ii, j * f.y + jj - 1))
      then prev + [lv.Adjusted(Sample(t, i * f.x + ii, j * f.y + jj - 1))]
      else prev
  }

  /** Contributions of rows `0 .. ii - 1` of block `(i, j)`. */
  function BlockRows(t: RawTile, lv: Levels, f: IVec2, i: nat, j: nat, ii: nat): seq<real>
    requires t.WellFormed() && Factor(f)
    decreases ii
  {
    if ii == 0 then [] else BlockRows(t, lv, f, i, j, ii - 1) + RowValues(t, lv, f, i, j, ii - 1, f.y)
  }

  function BlockValues(t: RawTile, lv: Levels, f: IVec2, i: nat, j: nat): seq<real>
    requires t.WellFormed() && Factor(f)
  {
    BlockRows(t, lv, f, i, j, f.x)
  }

  /** Output cell `(i, j)`: the mean of its block's contributions, or the sea level. */
  function CellValue(t: RawTile, lv: Levels, f: IVec2, i: nat, j: nat): real
    requires t.WellFormed() && Factor(f)
  {
    var vs := BlockValues(t, lv, f, i, j);
    if |vs| > 0 then SumOf(Id, vs) / (|vs| as real) else lv.seaLevel
  }

  /** The downsampled tile: `sx / f.x` columns of `sy / f.y` cells. */
  function Downsampled(t: RawTile, lv: Levels, f: IVec2): seq<seq<real>>
    requires t.WellFormed() && Factor(f)
  {
    var nx: nat, ny: nat := t.sx / f.x, t.sy / f.y;
    seq(nx, i requires 0 <= i => seq(ny, j requires 0 <= j => CellValue(t, lv, f, i, j)))
  }

  /** `nx` columns of `ny` copies of `v`. */
  function Filled(nx: nat, ny: nat, v: real): seq<seq<real>>
  {
    seq(nx, _ => seq(ny, _ => v))
  }

  /** A grid of exactly `nx` columns of `ny` cells. */
  predicate Rect(h: seq<seq<real>>, nx: int, ny: int)
  {
    |h| == nx && forall i :: 0 <= i < |h| ==> |h[i]| == ny
  }

  /**
   * Every block of an output cell lies wholly inside the tile, so the
   * bounds test on the raw indices never fails for the cells produced.
   */
  lemma BlockInsideTile(t: RawTile, f: IVec2, i: nat, j: nat, ii: nat, jj: nat)
    requires Factor(f) && i < t.sx / f.x && j < t.sy / f.y && ii < f.x && jj < f.y
    ensures Reads(t, f, i, j, ii, jj)
  {
    MulMonotone(i + 1, t.sx / f.x, f.x);
    MulMonotone(j + 1, t.sy / f.y, f.y);
  }

  lemma {:induction false} RowValuesSource(t: RawTile, lv: Levels, f: IVec2, i: nat, j: nat, ii: nat, jj: nat, k: int)
    returns (jj': nat)
    requires t.WellFormed() && Factor(f) && 0 <= k < |RowValues(t, lv, f, i, j, ii, jj)|
    ensures jj' < jj && Reads(t, f, i, j, ii, jj')
    ensures lv.Present(Sample(t, i * f.x + ii, j * f.y + jj'))
    ensures RowValues(t, lv, f, i, j, ii, jj)[k] == lv.Adjusted(Sample(t, i * f.x + ii, j * f.y + jj'))
    decreases jj
  {
    if k < |RowValues(t, lv, f, i, j, ii, jj - 1)| {
      jj' := RowValuesSource(t, lv, f, i, j, ii, jj - 1, k);
    } else {
      jj' := jj - 1;
    }
  }

  lemma {:induction false} BlockRowsSource(t: RawTile, lv: Levels, f: IVec2, i: nat, j: nat, ii: nat, k: int)
    returns (ii': nat, jj': nat)
    requires t.WellFormed() && Factor(f) && 0 <= k < |BlockRows(t, lv, f, i, j, ii)|
    ensures ii' < ii && jj' < f.y && Reads(t, f, i, j, ii', jj')
    ensures lv.Present(Sample(t, i * f.x + ii', j * f.y + jj'))
    ensures BlockRows(t, lv, f, i, j, ii)[k] == lv.Adjusted(Sample(t, i * f.x + ii', j * f.y + jj'))
    decreases ii
  {
    var prev := BlockRows(t, lv, f, i, j, ii - 1);
    if k < |prev| {
      ii', jj' := BlockRowsSource(t, lv, f, i, j, ii - 1, k);
    } else {
      ii' := ii - 1;
      jj' := RowValuesSource(t, lv, f, i, j, ii - 1, f.y, k - |prev|);
    }
  }

  /** Each contribution to a block is a present raw sample of it, adjusted for the sea. */
  lemma BlockValuesSource(t: RawTile, lv: Levels, f: IVec2, i: nat, j: nat, k: int)
    returns (ii: nat, jj: nat)
    requires t.WellFormed() && Factor(f) && 0 <= k < |BlockValues(t, lv, f, i, j)|
    ensures ii < f.x && jj < f.y && Reads(t, f, i, j, ii, jj)
    ensures lv.Present(Sample(t, i * f.x + ii, j * f.y + jj))
    ensures BlockValues(t, lv, f, i, j)[k] == lv.Adjusted(Sample(t, i * f.x + ii, j * f.y + jj))
  {
    ii, jj := BlockRowsSource(t, lv, f, i, j, f.x, k);
  }

  lemma {:induction false} RowValuesContain(t: RawTile, lv: Levels, f: IVec2, i: nat, j: nat, ii: nat, jj: nat, jj': nat)
    requires t.WellFormed() && Factor(f) && jj' < jj && Reads(t, f, i, j, ii, jj')
    requires lv.Present(Sample(t, i * f.x + ii, j * f.y + jj'))
    ensures lv.Adjusted(Sample(t, i * f.x + ii, j * f.y + jj')) in RowValues(t, lv, f, i, j, ii, jj)
    decreases jj
  {
    if jj' < jj - 1 {
      RowValuesContain(t, lv, f, i, j, ii, jj - 1, jj');
    }
  }

  lemma {:induction false} BlockRowsContain(t: RawTile, lv: Levels, f: IVec2, i: nat, j: nat, ii: nat, ii': nat, jj': nat)
    requires t.WellFormed() && Factor(f) && ii' < ii && jj' < f.y && Reads(t, f, i, j, ii', jj')
    requires lv.Present(Sample(t, i * f.x + ii', j * f.y + jj'))
    ensures lv.Adjusted(Sample(t, i * f.x + ii', j * f.y + jj')) in BlockRows(t, lv, f, i, j, ii)
    decreases ii
  {
    if ii' < ii - 1 {
      BlockRowsContain(t, lv, f, i, j, ii - 1, ii', jj');
    } else {
      RowValuesContain(t, lv, f, i, j, ii', f.y, jj');
    }
  }

  /** Conversely, every present raw sample of a block contributes to it. */
  lemma BlockValuesContain(t: RawTile, lv: Levels, f: IVec2, i: nat, j: nat, ii: nat, jj: nat)
    requires t.WellFormed() && Factor(f) && ii < f.x && jj < f.y && Reads(t, f, i, j, ii, jj)
    requires lv.Present(Sample(t, i * f.x + ii, j * f.y + jj))
    ensures lv.Adjusted(Sample(t, i * f.x + ii, j * f.y + jj)) in BlockValues(t, lv, f, i, j)
  {
    BlockRowsContain(t, lv, f, i, j, f.x, ii, jj);
  }

  /** Offset `(ii, jj)` of block `(i, j)` is read and holds a present sample: it contributes. */
  predicate Contributes(t: RawTile, lv: Levels, f: IVec2, i: nat, j: nat, ii: int, jj: int)
    requires t.WellFormed() && Factor(f)
  {
    ProductNonNegative(i, f.x);
    ProductNonNegative(j, f.y);
    0 <= ii && 0 <= jj && Reads(t, f, i, j, ii, jj) && lv.Present(Sample(t, i * f.x + ii, j * f.y + jj))
  }

  /** The contribution of offset `c` of block `(i, j)`: its sample, adjusted for the sea. */
  function AdjustedAt(t: RawTile, lv: Levels, f: IVec2, i: nat, j: nat, c: IVec2): real
    requires t.WellFormed() && Factor(f) && Contributes(t, lv, f, i, j, c.x, c.y)
  {
    ProductNonNegative(i, f.x);
    ProductNonNegative(j, f.y);
    lv.Adjusted(Sample(t, i * f.x + c.x, j * f.y + c.y))
  }

  /** The contributing offsets of row `ii` of block `(i, j)`, columns `0 .. jj - 1`, in reading order. */
  function RowOffsets(t: RawTile, lv: Levels, f: IVec2, i: nat, j: nat, ii: nat, jj: nat): (cs: seq<IVec2>)
    requires t.WellFormed() && Factor(f)
    ensures forall k :: 0 <= k < |cs| ==>
              cs[k].x == ii && 0 <= cs[k].y < jj && Contributes(t, lv, f, i, j, ii, cs[k].y)
    ensures forall a, b :: 0 <= a < b < |cs| ==> cs[a].y < cs[b].y
    decreases jj
  {
    if jj == 0 then []
    else RowOffsets(t, lv, f, i, j, ii, jj - 1) +
         (if Contributes(t, lv, f, i, j, ii, jj - 1) then [IVec2(ii, jj - 1)] else [])
  }

  /** The contributing offsets of rows `0 .. ii - 1` of block `(i, j)`, in reading order. */
  function BlockOffsets(t: RawTile, lv: Levels, f: IVec2, i: nat, j: nat, ii: nat): (cs: seq<IVec2>)
    requires t.WellFormed() && Factor(f)
    ensures forall k :: 0 <= k < |cs| ==>
              0 <= cs[k].x < ii && 0 <= cs[k].y < f.y && Contributes(t, lv, f, i, j, cs[k].x, cs[k].y)
    ensures forall a, b :: 0 <= a < b < |cs| ==> ScanBefore(cs[a], cs[b])
    decreases ii
  {
    if ii == 0 then [] else BlockOffsets(t, lv, f, i, j, ii - 1) + RowOffsets(t, lv, f, i, j, ii - 1, f.y)
  }

  /** The contributing offsets of block `(i, j)`, as a set. */
  function ContributingOffsets(t: RawTile, lv: Levels, f: IVec2, i: nat, j: nat): set<IVec2>
    requires t.WellFormed() && Factor(f)
  {
    set ii, jj | 0 <= ii < f.x && 0 <= jj < f.y && Contributes(t, lv, f, i, j, ii, jj) :: IVec2(ii, jj)
  }

  lemma {:induction false} RowOffsetsMatch(t: RawTile, lv: Levels, f: IVec2, i: nat, j: nat, ii: nat, jj: nat)
    requires t.WellFormed() && Factor(f)
    ensures |RowValues(t, lv, f, i, j, ii, jj)| == |RowOffsets(t, lv, f, i, j, ii, jj)|
    ensures forall k :: 0 <= k < |RowOffsets(t, lv, f, i, j, ii, jj)| ==>
              RowValues(t, lv, f, i, j, ii, jj)[k] == AdjustedAt(t, lv, f, i, j, RowOffsets(t, lv, f, i, j, ii, jj)[k])
    decreases jj
  {
    if jj > 0 {
      RowOffsetsMatch(t, lv, f, i, j, ii, jj - 1);
    }
  }

  lemma {:induction false} BlockOffsetsMatch(t: RawTile, lv: Levels, f: IVec2, i: nat, j: nat, ii: nat)
    requires t.WellFormed() && Factor(f)
    ensures |BlockRows(t, lv, f, i, j, ii)| == |BlockOffsets(t, lv, f, i, j, ii)|
    ensures forall k :: 0 <= k < |BlockOffsets(t, lv, f, i, j, ii)| ==>
              BlockRows(t, lv, f, i, j, ii)[k] == AdjustedAt(t, lv, f, i, j, BlockOffsets(t, lv, f, i, j, ii)[k])
    decreases ii
  {
    if ii > 0 {
      BlockOffsetsMatch(t, lv, f, i, j, ii - 1);
      RowOffsetsMatch(t, lv, f, i, j, ii - 1, f.y);
      var pv := BlockRows(t, lv, f, i, j, ii - 1);
      var pc: seq<IVec2> := BlockOffsets(t, lv, f, i, j, ii - 1);
      var rv := RowValues(t, lv, f, i, j, ii - 1, f.y);
      var rc: seq<IVec2> := RowOffsets(t, lv, f, i, j, ii - 1, f.y);
      forall k | 0 <= k < |pc| + |rc|
        ensures (pv + rv)[k] == AdjustedAt(t, lv, f, i, j, (pc + rc)[k])
      {
        if k < |pc| {
          assert (pv + rv)[k] == pv[k] && (pc + rc)[k] == pc[k];
        } else {
          assert (pv + rv)[k] == rv[k - |pc|] && (pc + rc)[k] == rc[k - |pc|];
        }
      }
    }
  }

  lemma {:induction false} RowOffsetsContain(t: RawTile, lv: Levels, f: IVec2, i: nat, j: nat, ii: nat, jj: nat, jj': nat)
    requires t.WellFormed() && Factor(f) && jj' < jj && Contributes(t, lv, f, i, j, ii, jj')
    ensures IVec2(ii, jj') in RowOffsets(t, lv, f, i, j, ii, jj)
    decreases jj
  {
    if jj' < jj - 1 {
      RowOffsetsContain(t, lv, f, i, j, ii, jj - 1, jj');
    }
  }

  lemma {:induction false} BlockOffsetsContain(t: RawTile, lv: Levels, f: IVec2, i: nat, j: nat, ii: nat, ii': nat, jj': nat)
    requires t.WellFormed() && Factor(f) && ii' < ii && jj' < f.y && Contributes(t, lv, f, i, j, ii', jj')
    ensures IVec2(ii', jj') in BlockOffsets(t, lv, f, i, j, ii)
    decreases ii
  {
    if ii' < ii - 1 {
      BlockOffsetsContain(t, lv, f, i, j, ii - 1, ii', jj');
    } else {
      RowOffsetsContain(t, lv, f, i, j, ii', f.y, jj');
    }
  }

  /**
   * The contributions of a block are exactly its contributing samples,
   * adjusted for the sea, each taken once, in reading order (row `ii` by
   * row, column `jj` by column).
   */
  lemma BlockValuesEnumerate(t: RawTile, lv: Levels, f: IVec2, i: nat, j: nat)
    requires t.WellFormed() && Factor(f)
    ensures var vs, cs := BlockValues(t, lv, f, i, j), BlockOffsets(t, lv, f, i, j, f.x);
            && |vs| == |cs|
            && (forall k :: 0 <= k < |cs| ==>
                  0 <= cs[k].x < f.x && 0 <= cs[k].y < f.y && Contributes(t, lv, f, i, j, cs[k].x, cs[k].y) &&
                  vs[k] == AdjustedAt(t, lv, f, i, j, cs[k]))
            && (forall a, b :: 0 <= a < b < |cs| ==> ScanBefore(cs[a], cs[b]))
            && (forall ii, jj :: 0 <= ii < f.x && 0 <= jj < f.y && Contributes(t, lv, f, i, j, ii, jj) ==>
                  IVec2(ii, jj) in cs)
  {
    BlockOffsetsMatch(t, lv, f, i, j, f.x);
    forall ii, jj | 0 <= ii < f.x && 0 <= jj < f.y && Contributes(t, lv, f, i, j, ii, jj)
      ensures IVec2(ii, jj) in BlockOffsets(t, lv, f, i, j, f.x)
    {
      BlockOffsetsContain(t, lv, f, i, j, f.x, ii, jj);
    }
  }

  /** A block has exactly as many contributions as contributing samples. */
  lemma BlockValuesCount(t: RawTile, lv: Levels, f: IVec2, i: nat, j: nat)
    requires t.WellFormed() && Factor(f)
    ensures |BlockValues(t, lv, f, i, j)| == |ContributingOffsets(t, lv, f, i, j)|
  {
    var cs := BlockOffsets(t, lv, f, i, j, f.x);
    var offs := ContributingOffsets(t, lv, f, i, j);
    BlockValuesEnumerate(t, lv, f, i, j);
    forall a, b | 0 <= a < b < |cs| ensures cs[a] != cs[b] {
      assert ScanBefore(cs[a], cs[b]);
    }
    DistinctCardinality(cs);
    assert (set c | c in cs) == offs;
  }

  /**
   * An output cell is the sum of its block's contributions divided by the
   * number of contributing samples, or the sea level when none contributes.
   */
  lemma CellValueIsMean(t: RawTile, lv: Levels, f: IVec2, i: nat, j: nat)
    requires t.WellFormed() && Factor(f)
    ensures var n := |ContributingOffsets(t, lv, f, i, j)|;
            CellValue(t, lv, f, i, j) == if n > 0 then SumOf(Id, BlockValues(t, lv, f, i, j)) / (n as real) else lv.seaLevel
  {
    BlockValuesCount(t, lv, f, i, j);
  }

  /**
   * Without downsampling each cell reproduces its raw sample when that is
   * present and above the sea code, and is the sea level otherwise.
   */
  lemma IdentityFactor(t: RawTile, lv: Levels, a: nat, b: nat)
    requires t.WellFormed() && a < t.sx && b < t.sy
    ensures Rect(Downsampled(t, lv, IVec2(1, 1)), t.sx, t.sy)
    ensures Downsampled(t, lv, IVec2(1, 1))[a][b]
         == if lv.Present(Sample(t, a, b)) && Sample(t, a, b) > lv.seaValue then Sample(t, a, b) else lv.seaLevel
  {
    var f := IVec2(1, 1);
    var v := Sample(t, a, b);
    var vs := BlockValues(t, lv, f, a, b);
    assert Reads(t, f, a, b, 0, 0);
    assert vs == RowValues(t, lv, f, a, b, 0, 1) by {
      assert BlockRows(t, lv, f, a, b, 0) == [];
    }
    if lv.Present(v) {
      assert vs == [lv.Adjusted(v)];
      assert SumOf(Id, vs) == SumOf(Id, []) + lv.Adjusted(v) by {
        assert vs == [] + [lv.Adjusted(v)];
        SumOfSnoc(Id, [], lv.Adjusted(v));
      }
    } else {
      assert vs == [];
    }
  }

  /**
   * When every present raw sample, once adjusted for the sea, lies in
   * `[lo, hi]`, and so does the sea level, every output cell lies in
   * `[lo, hi]`: averaging never leaves the range of the data.
   */
  lemma DownsampledWithin(t: RawTile, lv: Levels, f: IVec2, lo: real, hi: real, i: nat, j: nat)
    requires t.WellFormed() && Factor(f)
    requires lo <= lv.seaLevel <= hi
    requires forall a, b :: 0 <= a < t.sx && 0 <= b < t.sy && lv.Present(Sample(t, a, b)) ==>
               lo <= lv.Adjusted(Sample(t, a, b)) <= hi
    requires i < t.sx / f.x && j < t.sy / f.y
    ensures lo <= Downsampled(t, lv, f)[i][j] <= hi
  {
    var vs := BlockValues(t, lv, f, i, j);
    if |vs| > 0 {
      forall k | 0 <= k < |vs| ensures lo <= Id(vs[k]) <= hi {
        var ii, jj := BlockValuesSource(t, lv, f, i, j, k);
      }
      MeanWithin(Id, vs, lo, hi);
    }
  }
}
