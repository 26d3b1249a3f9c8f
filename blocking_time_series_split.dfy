/** The blocking time-series cross-validation splitter.

    A dataset of `n` ordered samples is cut into `nSplits` contiguous blocks
    of `n // nSplits` samples each, left to right; the samples past the last
    block belong to no fold. Each block yields one fold: its first
    `int(trainSize * blockSize)` samples are the training indices, and the
    test indices start `margin` samples after the training ones end and run
    to the end of the block. */
module BlockingTimeSeriesSplitting {
  import opened PythonSemantics

  datatype Result<T, E> = Success(value: T) | Failure(error: E)

  /** The one error this model of the splitter has: `n // 0` when `nSplits`
      is zero. */
  datatype SplitError = ZeroDivisionError

  /** One yielded pair: the training indices and the test indices. */
  datatype Fold = Fold(train: seq<int>, test: seq<int>)

  /** The splitter's configuration as stored by its constructor. */
  datatype SplitConfig = SplitConfig(nSplits: int, trainSize: real, margin: int)
  {
    /** The configurations the splitter is meant for; the splitter itself
        does not check them. */
    predicate Valid() {
      nSplits > 0 && 0.0 <= trainSize <= 1.0 && margin >= 0
    }
  }

  /** Every index a fold mentions, train first. */
  function Indices(f: Fold): seq<int> { f.train + f.test }

  // ---------------------------------------------------------------------
  // Per-block arithmetic, for a positive number of folds

  /** `k_fold_size = n_samples // n_splits`, as the number of whole times
      `nSplits` fits into `n` (see BlockSizeIsFloorDiv). */
  function BlockSize(c: SplitConfig, n: nat): (k: nat)
    requires c.nSplits > 0
    ensures k <= n
    ensures k == 0 <==> n < c.nSplits
  {
    DivCount(n, c.nSplits)
  }

  /** Where block `i` starts: the first block at 0, every later one where the
      previous one stops (see BlockStartIsProduct for `i * k`). */
  function BlockStart(c: SplitConfig, n: nat, i: nat): nat
    requires c.nSplits > 0
  {
    if i == 0 then 0 else BlockStart(c, n, i - 1) + BlockSize(c, n)
  }

  /** Where block `i` stops: `k` samples after it starts. */
  function BlockStop(c: SplitConfig, n: nat, i: nat): nat
    requires c.nSplits > 0
  {
    BlockStart(c, n, i) + BlockSize(c, n)
  }

  /** Where the last block stops: the length of the prefix the blocks cover. */
  function Covered(c: SplitConfig, n: nat): (e: nat)
    requires c.nSplits > 0
    ensures e == BlockStop(c, n, c.nSplits - 1)
  {
    BlockStart(c, n, c.nSplits)
  }

  /** `mid`: where training ends in block `i`. */
  function SplitPoint(c: SplitConfig, n: nat, i: nat): (mid: int)
    requires c.nSplits > 0
    ensures 0.0 <= c.trainSize ==> BlockStart(c, n, i) <= mid
    ensures 0.0 <= c.trainSize <= 1.0 ==> mid <= BlockStop(c, n, i)
  {
    var start := BlockStart(c, n, i);
    var k := BlockStop(c, n, i) - start;
    TruncScaled(c.trainSize, k);
    Trunc(c.trainSize * k as real) + start
  }

  /** The pair yielded for block `i`: two slices of `arange(n)`. */
  function FoldAt(c: SplitConfig, n: nat, i: nat): (f: Fold)
    requires c.nSplits > 0
    ensures forall x :: x in Indices(f) ==> 0 <= x < n
  {
    var indices := Arange(n);
    var mid := SplitPoint(c, n, i);
    var lo, hi := BlockStart(c, n, i), BlockStop(c, n, i);
    ArangeSlice(n, lo, mid);
    ArangeSlice(n, mid + c.margin, hi);
    InIntervalBounds(SliceBound(lo, n), SliceBound(mid, n));
    InIntervalBounds(SliceBound(mid + c.margin, n), SliceBound(hi, n));
    Fold(Slice(indices, lo, mid), Slice(indices, mid + c.margin, hi))
  }

  /** Everything `split` yields for a dataset of `n` samples, in order, or the
      error it raises. `range(nSplits)` is empty for a negative `nSplits`,
      so no fold is produced then; `nSplits == 0` fails before any fold. */
  function Splits(c: SplitConfig, n: nat): (r: Result<seq<Fold>, SplitError>)
    ensures r.Failure? <==> c.nSplits == 0
    ensures r.Failure? ==> r.error == ZeroDivisionError
    ensures c.nSplits > 0 ==> r.Success? && |r.value| == c.nSplits
    ensures c.nSplits < 0 ==> r.Success? && |r.value| == 0
  {
    if c.nSplits == 0 then Failure(ZeroDivisionError)
    else if c.nSplits < 0 then Success([])
    else Success(seq(c.nSplits, i requires 0 <= i < c.nSplits => FoldAt(c, n, i)))
  }

  // ---------------------------------------------------------------------
  // Blocks

  /** The block size is Python's `n // nSplits`. */
  lemma BlockSizeIsFloorDiv(c: SplitConfig, n: nat)
    requires c.nSplits > 0
    ensures BlockSize(c, n) == FloorDiv(n, c.nSplits)
  {
    DivCountIsFloorDiv(n, c.nSplits);
  }

  /** Block `i` starts at `i * k`. */
  lemma {:induction false} BlockStartIsProduct(c: SplitConfig, n: nat, i: nat)
    requires c.nSplits > 0
    ensures BlockStart(c, n, i) == i * BlockSize(c, n)
  {
    if i > 0 {
      BlockStartIsProduct(c, n, i - 1);
      assert (i - 1) * BlockSize(c, n) + BlockSize(c, n) == i * BlockSize(c, n);
    }
  }

  /** Later blocks start no earlier. */
  lemma {:induction false} BlockStartMonotone(c: SplitConfig, n: nat, i: nat, j: nat)
    requires c.nSplits > 0 && i <= j
    ensures BlockStart(c, n, i) <= BlockStart(c, n, j)
  {
    if i < j {
      BlockStartMonotone(c, n, i, j - 1);
    }
  }

  /** The blocks cover `nSplits * k` samples, at most `n`, and fewer than
      `nSplits` samples are left after them. */
  lemma CoveredPrefix(c: SplitConfig, n: nat)
    requires c.nSplits > 0
    ensures Covered(c, n) == c.nSplits * BlockSize(c, n)
    ensures Covered(c, n) <= n < Covered(c, n) + c.nSplits
  {
    BlockStartIsProduct(c, n, c.nSplits);
    BlockSizeIsFloorDiv(c, n);
  }

  /** The samples after the last block number `n % nSplits`. */
  lemma RemainderDropped(c: SplitConfig, n: nat)
    requires c.nSplits > 0
    ensures n - Covered(c, n) == n % c.nSplits
  {
    CoveredPrefix(c, n);
    QuotientUnique(n, c.nSplits, BlockSize(c, n), n / c.nSplits);
  }

  /** Each block is `k` long, starts where the previous one stops, and ends
      inside the covered prefix of `[0, n)`. */
  lemma BlockLayout(c: SplitConfig, n: nat, i: nat)
    requires c.nSplits > 0 && i < c.nSplits
    ensures BlockStop(c, n, i) - BlockStart(c, n, i) == BlockSize(c, n)
    ensures BlockStop(c, n, i) == BlockStart(c, n, i + 1)
    ensures BlockStop(c, n, i) <= Covered(c, n) <= n
  {
    BlockStartMonotone(c, n, i + 1, c.nSplits);
    CoveredPrefix(c, n);
  }

  // ---------------------------------------------------------------------
  // Folds

  /** For a valid configuration, training in block `i` ends at
      `start + floor(trainSize * k)`, which lies inside the block. */
  lemma SplitPointInBlock(c: SplitConfig, n: nat, i: nat)
    requires c.Valid() && i < c.nSplits
    ensures BlockStart(c, n, i) <= SplitPoint(c, n, i) <= BlockStop(c, n, i)
    ensures SplitPoint(c, n, i) == BlockStart(c, n, i) + (c.trainSize * BlockSize(c, n) as real).Floor
  {
    var k := BlockSize(c, n);
    var start := BlockStart(c, n, i);
    assert BlockStop(c, n, i) - start == k;
    var t := Trunc(c.trainSize * k as real);
    assert SplitPoint(c, n, i) == start + t;
    TruncFraction(c.trainSize, k);
  }

  /** For a valid configuration, fold `i` is two runs of consecutive indices:
      training is `[start, mid)` and testing is `[mid + margin, stop)`, which
      is empty when the margin leaves no room. */
  lemma FoldShape(c: SplitConfig, n: nat, i: nat)
    requires c.Valid() && i < c.nSplits
    ensures FoldAt(c, n, i).train == Interval(BlockStart(c, n, i), SplitPoint(c, n, i))
    ensures FoldAt(c, n, i).test == Interval(SplitPoint(c, n, i) + c.margin, BlockStop(c, n, i))
  {
    BlockLayout(c, n, i);
    SplitPointInBlock(c, n, i);
    var start, mid, stop := BlockStart(c, n, i), SplitPoint(c, n, i), BlockStop(c, n, i);
    ArangeSlice(n, start, mid);
    assert SliceBound(start, n) == start && SliceBound(mid, n) == mid;
    ArangeSlice(n, mid + c.margin, stop);
    assert SliceBound(stop, n) == stop;
    assert SliceBound(mid + c.margin, n) == Min(mid + c.margin, n);
  }

  /** Every index of fold `i` lies in block `i`. */
  lemma FoldWithinBlock(c: SplitConfig, n: nat, i: nat)
    requires c.Valid() && i < c.nSplits
    ensures forall x :: x in Indices(FoldAt(c, n, i)) ==> BlockStart(c, n, i) <= x < BlockStop(c, n, i)
  {
    FoldShape(c, n, i);
    SplitPointInBlock(c, n, i);
    var f := FoldAt(c, n, i);
    forall x | x in Indices(f)
      ensures BlockStart(c, n, i) <= x < BlockStop(c, n, i)
    {
      if x in f.train {
        InInterval(BlockStart(c, n, i), SplitPoint(c, n, i), x);
      } else {
        InInterval(SplitPoint(c, n, i) + c.margin, BlockStop(c, n, i), x);
      }
    }
  }

  /** Every training index comes more than `margin` positions before every
      test index of the same fold, so at least `margin` samples separate the
      last training index from the first test index. */
  lemma TrainPrecedesTest(c: SplitConfig, n: nat, i: nat)
    requires c.Valid() && i < c.nSplits
    ensures forall a, b :: a in FoldAt(c, n, i).train && b in FoldAt(c, n, i).test ==> a + c.margin < b
  {
    FoldShape(c, n, i);
    var f := FoldAt(c, n, i);
    forall a, b | a in f.train && b in f.test
      ensures a + c.margin < b
    {
      InInterval(BlockStart(c, n, i), SplitPoint(c, n, i), a);
      InInterval(SplitPoint(c, n, i) + c.margin, BlockStop(c, n, i), b);
    }
  }

  /** No index is both a training and a test index of one fold. */
  lemma TrainTestDisjoint(c: SplitConfig, n: nat, i: nat)
    requires c.Valid() && i < c.nSplits
    ensures forall x :: x in FoldAt(c, n, i).train ==> x !in FoldAt(c, n, i).test
  {
    TrainPrecedesTest(c, n, i);
  }

  /** The test indices are empty exactly when the margin reaches the end of
      the block; this is a normal result, not an error. */
  lemma EmptyTestIff(c: SplitConfig, n: nat, i: nat)
    requires c.Valid() && i < c.nSplits
    ensures FoldAt(c, n, i).test == [] <==> SplitPoint(c, n, i) + c.margin >= BlockStop(c, n, i)
  {
    FoldShape(c, n, i);
  }

  /** Folds of earlier blocks hold only smaller indices: folds never overlap
      and come out in time order. */
  lemma FoldsOrdered(c: SplitConfig, n: nat, i: nat, j: nat)
    requires c.Valid() && i < j < c.nSplits
    ensures forall x, y :: x in Indices(FoldAt(c, n, i)) && y in Indices(FoldAt(c, n, j)) ==> x < y
  {
    FoldWithinBlock(c, n, i);
    FoldWithinBlock(c, n, j);
    BlockLayout(c, n, i);
    BlockStartMonotone(c, n, i + 1, j);
    var bound := BlockStop(c, n, i);
    assert bound <= BlockStart(c, n, j);
    forall x, y | x in Indices(FoldAt(c, n, i)) && y in Indices(FoldAt(c, n, j))
      ensures x < y
    {
      assert x < bound;
      assert bound <= y;
    }
  }

  /** The sequence `split` yields is in block order: every index of an
      earlier fold is smaller than every index of a later one. */
  lemma SplitsInBlockOrder(c: SplitConfig, n: nat)
    requires c.Valid()
    ensures Splits(c, n).Success?
    ensures forall i, j, x, y ::
              0 <= i < j < |Splits(c, n).value| &&
              x in Indices(Splits(c, n).value[i]) && y in Indices(Splits(c, n).value[j])
              ==> x < y
  {
    var folds := Splits(c, n).value;
    forall i, j, x, y |
      0 <= i < j < |folds| && x in Indices(folds[i]) && y in Indices(folds[j])
      ensures x < y
    {
      FoldsOrdered(c, n, i, j);
    }
  }

  /** The trailing samples, from the end of the last block on, appear in no
      fold. */
  lemma RemainderInNoFold(c: SplitConfig, n: nat, i: nat)
    requires c.Valid() && i < c.nSplits
    ensures forall x :: Covered(c, n) <= x ==> x !in Indices(FoldAt(c, n, i))
  {
    BlockLayout(c, n, i);
    FoldWithinBlock(c, n, i);
  }

  /** With more folds than samples every block is empty, and so is every
      fold, whatever the train fraction and margin. */
  lemma MoreFoldsThanSamples(c: SplitConfig, n: nat, i: nat)
    requires c.nSplits > n
    ensures BlockSize(c, n) == 0
    ensures FoldAt(c, n, i).train == [] && FoldAt(c, n, i).test == []
  {
    BlockStartIsProduct(c, n, i);
    assert BlockStart(c, n, i) == 0;
    assert SplitPoint(c, n, i) == 0;
  }

  /** Nothing stops a train fraction above 1: then training runs past its
      block into the next one, which is why the properties above assume a
      valid configuration. Four samples, two folds, fraction 1.5. */
  lemma OversizedTrainSpills()
    ensures FoldAt(SplitConfig(2, 1.5, 0), 4, 0).train == [0, 1, 2]
    ensures BlockStart(SplitConfig(2, 1.5, 0), 4, 1) == 2
  {
    var c := SplitConfig(2, 1.5, 0);
    assert BlockSize(c, 4) == 2;
    assert Trunc(1.5 * 2.0) == 3;
    assert SplitPoint(c, 4, 0) == 3;
    ArangeSlice(4, 0, 3);
    assert Interval(0, 3) == [0, 1, 2];
  }

  /** Five folds of two samples with a 0.8 train fraction: one training and
      one test index each without a margin, no test index with a margin of 1. */
  lemma ExampleFiveFolds()
    ensures Splits(SplitConfig(5, 0.8, 0), 10)
         == Success([Fold([0], [1]), Fold([2], [3]), Fold([4], [5]), Fold([6], [7]), Fold([8], [9])])
    ensures FoldAt(SplitConfig(5, 0.8, 1), 10, 0) == Fold([0], [])
  {
    var c := SplitConfig(5, 0.8, 0);
    assert BlockSize(c, 10) == 2;
    assert (0.8 * 2.0).Floor == 1;
    forall i | 0 <= i < 5
      ensures FoldAt(c, 10, i) == Fold([2 * i], [2 * i + 1])
    {
      BlockStartIsProduct(c, 10, i);
      FoldShape(c, 10, i);
      SplitPointInBlock(c, 10, i);
      assert Interval(2 * i, 2 * i + 1) == [2 * i];
      assert Interval(2 * i + 1, 2 * i + 2) == [2 * i + 1];
    }
    var expected := [Fold([0], [1]), Fold([2], [3]), Fold([4], [5]), Fold([6], [7]), Fold([8], [9])];
    assert forall i :: 0 <= i < 5 ==> Splits(c, 10).value[i] == expected[i];
    assert Splits(c, 10).value == expected;
    var c1 := SplitConfig(5, 0.8, 1);
    FoldShape(c1, 10, 0);
    SplitPointInBlock(c1, 10, 0);
    assert Interval(0, 1) == [0];
  }

  /** Nine samples in four folds of two: index 8 is left out, and a train
      fraction of 1 leaves no test index. */
  lemma ExampleRemainder()
    ensures Splits(SplitConfig(4, 1.0, 0), 9)
         == Success([Fold([0, 1], []), Fold([2, 3], []), Fold([4, 5], []), Fold([6, 7], [])])
  {
    var c := SplitConfig(4, 1.0, 0);
    assert BlockSize(c, 9) == 2;
    forall i | 0 <= i < 4
      ensures FoldAt(c, 9, i) == Fold([2 * i, 2 * i + 1], [])
    {
      BlockStartIsProduct(c, 9, i);
      FoldShape(c, 9, i);
      SplitPointInBlock(c, 9, i);
      assert Interval(2 * i, 2 * i + 2) == [2 * i, 2 * i + 1];
    }
    var expected := [Fold([0, 1], []), Fold([2, 3], []), Fold([4, 5], []), Fold([6, 7], [])];
    assert forall i :: 0 <= i < 4 ==> Splits(c, 9).value[i] == expected[i];
    assert Splits(c, 9).value == expected;
  }

  // ---------------------------------------------------------------------
  // The splitter object

  class BlockingTimeSeriesSplit {
    const nSplits: int
    const trainSize: real
    const margin: int

    constructor (nSplits: int, trainSize: real, margin: int := 0)
      ensures this.nSplits == nSplits && this.trainSize == trainSize && this.margin == margin
    {
      this.nSplits := nSplits;
      this.trainSize := trainSize;
      this.margin := margin;
    }

    function Configuration(): (c: SplitConfig)
      ensures c.nSplits == nSplits && c.trainSize == trainSize && c.margin == margin
    {
      SplitConfig(nSplits, trainSize, margin)
    }

    /** The number of folds, whatever the data, labels and groups are. */
    function GetNSplits<X, Y, G>(x: X, y: Y, groups: G): (r: int)
      ensures r == nSplits
    {
      nSplits
    }

    /** Builds the folds for dataset `x` one block at a time. */
    method Split<T>(x: seq<T>) returns (r: Result<seq<Fold>, SplitError>)
      ensures r == Splits(Configuration(), |x|)
    {
      var nSamples := |x|;
      if nSplits == 0 {
        return Failure(ZeroDivisionError);
      }
      var kFoldSize := FloorDiv(nSamples, nSplits);
      var indices := Arange(nSamples);
      ghost var c := Configuration();
      var folds: seq<Fold> := [];
      var i := 0;
      while i < nSplits
        invariant 0 <= i <= RangeLen(nSplits)
        invariant |folds| == i
        invariant forall j :: 0 <= j < i ==> c.nSplits > 0 && folds[j] == FoldAt(c, nSamples, j)
      {
        BlockSizeIsFloorDiv(c, nSamples);
        var start := i * kFoldSize;
        var stop := start + kFoldSize;
        var mid := Trunc(trainSize * (stop - start) as real) + start;
        BlockStartIsProduct(c, nSamples, i);
        assert start == BlockStart(c, nSamples, i);
        assert stop == BlockStop(c, nSamples, i);
        assert mid == SplitPoint(c, nSamples, i);
        folds := folds + [Fold(Slice(indices, start, mid), Slice(indices, mid + margin, stop))];
        i := i + 1;
      }
      var all := Splits(c, nSamples).value;
      assert |folds| == |all|;
      assert forall j :: 0 <= j < |folds| ==> folds[j] == all[j];
      assert folds == all;
      r := Success(folds);
    }
  }

  /** `get_n_splits` reports exactly the number of folds `split` yields. */
  lemma GetNSplitsCountsFolds<T, Y, G>(s: BlockingTimeSeriesSplit, x: seq<T>, y: Y, groups: G)
    requires s.nSplits > 0
    ensures Splits(s.Configuration(), |x|).Success?
    ensures |Splits(s.Configuration(), |x|).value| == s.GetNSplits(x, y, groups)
  {
  }

  /** The configuration is only read, so splitting the same data twice yields
      the same folds. */
  method SplitReplays<T>(s: BlockingTimeSeriesSplit, x: seq<T>)
    returns (first: Result<seq<Fold>, SplitError>, second: Result<seq<Fold>, SplitError>)
    ensures first == second
    ensures s.nSplits > 0 ==> first.Success? && |first.value| == s.nSplits
  {
    first := s.Split(x);
    second := s.Split(x);
  }
}
