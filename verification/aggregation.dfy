/**
 The integer statistics compcomp.py keeps per compression method: how many
 files were compressed, their total size, the total compressed size, and the
 same two totals with every file rounded up to whole 4 KiB blocks. The main
 loop folds each measurement into the record of its method.
 */
module Aggregation {
  import opened Blocks

  /** The integer part of one measurement `(time, input_size, output_size)`. */
  datatype Sample = Sample(inputSize: nat, outputSize: nat)

  /** A measurement together with the method it was taken for. */
  datatype Record = Record(key: string, sample: Sample)

  /** The integer fields of the `Stats` dataclass. */
  datatype Stats = Stats(
    filesCount: nat,
    inputSize: nat,
    inputSize4k: nat,
    compressedSize: nat,
    compressedSize4k: nat)

  /** `Stats()`: every field at its default of zero. */
  const Empty: Stats := Stats(0, 0, 0, 0, 0)

  /** `roundup(x)` with the default 4 KiB block. */
  function Blocked(x: nat): nat {
    RoundUp(x, BlockSize)
  }

  /** One pass of the loop body: the counters of `s` after sample `x`. */
  function Add(s: Stats, x: Sample): Stats {
    Stats(
      s.filesCount + 1,
      s.inputSize + x.inputSize,
      s.inputSize4k + Blocked(x.inputSize),
      s.compressedSize + x.outputSize,
      s.compressedSize4k + Blocked(x.outputSize))
  }

  // ------------------------------------------------- reference definitions

  function InputOf(x: Sample): nat { x.inputSize }
  function OutputOf(x: Sample): nat { x.outputSize }
  function InputBlocksOf(x: Sample): nat { Blocked(x.inputSize) }
  function OutputBlocksOf(x: Sample): nat { Blocked(x.outputSize) }

  /** The sum of one measure over all samples. */
  function Total(samples: seq<Sample>, measure: Sample -> nat): nat {
    if |samples| == 0 then 0 else measure(samples[0]) + Total(samples[1..], measure)
  }

  /** What the loop keeps true of every record it builds: each 4k total is
      a whole number of blocks, at least the raw total and at most one block
      short of a block per file above it. */
  predicate Valid(s: Stats) {
    && s.inputSize4k % BlockSize == 0
    && s.inputSize <= s.inputSize4k <= s.inputSize + (BlockSize - 1) * s.filesCount
    && s.compressedSize4k % BlockSize == 0
    && s.compressedSize <= s.compressedSize4k <= s.compressedSize + (BlockSize - 1) * s.filesCount
  }

  /** Statistics of two disjoint sets of files taken together. */
  function Combine(a: Stats, b: Stats): Stats {
    Stats(
      a.filesCount + b.filesCount,
      a.inputSize + b.inputSize,
      a.inputSize4k + b.inputSize4k,
      a.compressedSize + b.compressedSize,
      a.compressedSize4k + b.compressedSize4k)
  }

  // ------------------------------------------------------------------ fold

  /** The loop body applied to the samples in order, from `Stats()`. Its
      counters are the number of samples and the sums of their sizes, raw
      and rounded, and they satisfy the invariant. */
  function Fold(samples: seq<Sample>): (r: Stats)
    ensures r.filesCount == |samples|
    ensures r.inputSize == Total(samples, InputOf)
    ensures r.inputSize4k == Total(samples, InputBlocksOf)
    ensures r.compressedSize == Total(samples, OutputOf)
    ensures r.compressedSize4k == Total(samples, OutputBlocksOf)
    ensures Valid(r)
    decreases |samples|
  {
    if |samples| == 0 then Empty
    else
      var init, last := samples[..|samples| - 1], samples[|samples| - 1];
      assert samples == init + [last];
      TotalAppend(init, last, InputOf);
      TotalAppend(init, last, InputBlocksOf);
      TotalAppend(init, last, OutputOf);
      TotalAppend(init, last, OutputBlocksOf);
      AddPreservesValid(Fold(init), last);
      Add(Fold(init), last)
  }

  lemma {:induction false} TotalAppend(samples: seq<Sample>, x: Sample, measure: Sample -> nat)
    ensures Total(samples + [x], measure) == Total(samples, measure) + measure(x)
    decreases |samples|
  {
    if |samples| > 0 {
      assert (samples + [x])[1..] == samples[1..] + [x];
      TotalAppend(samples[1..], x, measure);
    }
  }

  lemma {:induction false} TotalConcat(a: seq<Sample>, b: seq<Sample>, measure: Sample -> nat)
    ensures Total(a + b, measure) == Total(a, measure) + Total(b, measure)
    decreases |a|
  {
    if |a| > 0 {
      assert (a + b)[1..] == a[1..] + b;
      TotalConcat(a[1..], b, measure);
    } else {
      assert a + b == b;
    }
  }

  /** Rounding one more file up keeps the invariant. */
  lemma AddPreservesValid(s: Stats, x: Sample)
    requires Valid(s)
    ensures Valid(Add(s, x))
  {
    var bi, bo := Blocked(x.inputSize), Blocked(x.outputSize);
    assert x.inputSize <= bi <= x.inputSize + BlockSize - 1;
    assert x.outputSize <= bo <= x.outputSize + BlockSize - 1;
    SumOfMultiples(s.inputSize4k, bi);
    SumOfMultiples(s.compressedSize4k, bo);
  }

  lemma SumOfMultiples(a: int, b: int)
    requires a % BlockSize == 0 && b % BlockSize == 0
    ensures (a + b) % BlockSize == 0
  {
  }

  /** Since each 4k total is a multiple of the block size and not below the
      raw total, it is at least the raw total rounded up. */
  lemma ValidBoundsRoundedTotals(s: Stats)
    requires Valid(s)
    ensures RoundUp(s.inputSize, BlockSize) <= s.inputSize4k
    ensures RoundUp(s.compressedSize, BlockSize) <= s.compressedSize4k
  {
    RoundUpIsLeast(s.inputSize, BlockSize, s.inputSize4k);
    RoundUpIsLeast(s.compressedSize, BlockSize, s.compressedSize4k);
  }

  /** Folding two runs of samples one after the other is combining their
      statistics. */
  lemma FoldConcat(a: seq<Sample>, b: seq<Sample>)
    ensures Fold(a + b) == Combine(Fold(a), Fold(b))
  {
    var ab, fa, fb := Fold(a + b), Fold(a), Fold(b);
    var both := Combine(fa, fb);
    assert ab.filesCount == both.filesCount;
    assert ab.inputSize == both.inputSize by {
      TotalConcat(a, b, InputOf);
    }
    assert ab.inputSize4k == both.inputSize4k by {
      TotalConcat(a, b, InputBlocksOf);
    }
    assert ab.compressedSize == both.compressedSize by {
      TotalConcat(a, b, OutputOf);
    }
    assert ab.compressedSize4k == both.compressedSize4k by {
      TotalConcat(a, b, OutputBlocksOf);
    }
  }

  /** One more sample adds exactly its own contribution to each counter. */
  lemma FoldOneMore(samples: seq<Sample>, x: Sample)
    ensures Fold(samples + [x]) == Combine(Fold(samples), Stats(1, x.inputSize, Blocked(x.inputSize), x.outputSize, Blocked(x.outputSize)))
  {
    FoldConcat(samples, [x]);
  }

  lemma {:induction false} TotalPermutation(a: seq<Sample>, b: seq<Sample>, measure: Sample -> nat)
    requires multiset(a) == multiset(b)
    ensures Total(a, measure) == Total(b, measure)
    decreases |a|
  {
    if |a| > 0 {
      var x := a[0];
      assert x in multiset(b);
      var j :| 0 <= j < |b| && b[j] == x;
      var rest := b[..j] + b[j + 1..];
      RemoveOne(a, b, j);
      TotalPermutation(a[1..], rest, measure);
      TotalWithout(b, j, measure);
      assert a == [x] + a[1..];
      TotalConcat([x], a[1..], measure);
      assert Total([x], measure) == measure(x) by {
        assert [x][1..] == [];
      }
    }
  }

  /** Taking the first sample of `a` and one equal sample of `b` out of two
      equal multisets leaves equal multisets. */
  lemma RemoveOne(a: seq<Sample>, b: seq<Sample>, j: int)
    requires multiset(a) == multiset(b) && |a| > 0 && 0 <= j < |b| && b[j] == a[0]
    ensures multiset(a[1..]) == multiset(b[..j] + b[j + 1..])
  {
    var x := a[0];
    assert a == [x] + a[1..];
    assert b == b[..j] + [x] + b[j + 1..];
    var ma, mr := multiset(a[1..]), multiset(b[..j] + b[j + 1..]);
    assert multiset{x} + ma == multiset{x} + mr by {
      calc {
        multiset{x} + ma;
        multiset(a);
        multiset(b);
        multiset(b[..j]) + multiset{x} + multiset(b[j + 1..]);
        multiset{x} + mr;
      }
    }
    CancelOne(x, ma, mr);
  }

  lemma CancelOne(x: Sample, m1: multiset<Sample>, m2: multiset<Sample>)
    requires multiset{x} + m1 == multiset{x} + m2
    ensures m1 == m2
  {
    assert forall y :: m1[y] == (multiset{x} + m1)[y] - multiset{x}[y];
    assert forall y :: m2[y] == (multiset{x} + m2)[y] - multiset{x}[y];
  }

  /** The total of `b` is the `j`-th sample's measure plus the total of the rest. */
  lemma TotalWithout(b: seq<Sample>, j: int, measure: Sample -> nat)
    requires 0 <= j < |b|
    ensures Total(b, measure) == measure(b[j]) + Total(b[..j] + b[j + 1..], measure)
  {
    assert b == b[..j] + [b[j]] + b[j + 1..];
    TotalConcat(b[..j] + [b[j]], b[j + 1..], measure);
    TotalConcat(b[..j], [b[j]], measure);
    TotalConcat(b[..j], b[j + 1..], measure);
    assert Total([b[j]], measure) == measure(b[j]) by {
      assert [b[j]][1..] == [];
    }
  }

  /** The statistics do not depend on the order in which files are visited
      or methods reported. */
  lemma FoldPermutation(a: seq<Sample>, b: seq<Sample>)
    requires multiset(a) == multiset(b)
    ensures Fold(a) == Fold(b)
  {
    assert |a| == |multiset(a)| == |multiset(b)| == |b|;
    TotalPermutation(a, b, InputOf);
    TotalPermutation(a, b, InputBlocksOf);
    TotalPermutation(a, b, OutputOf);
    TotalPermutation(a, b, OutputBlocksOf);
  }

  // ------------------------------------------------------- per-method table

  /** `stats[key]` on the `defaultdict(Stats)`: a missing key reads as `Stats()`. */
  function Lookup(stats: map<string, Stats>, key: string): Stats {
    if key in stats then stats[key] else Empty
  }

  /** One pass of the main loop: the record of the sample's method gains the
      sample, and no other method's record changes. */
  function Accumulate(stats: map<string, Stats>, r: Record): (stats': map<string, Stats>)
    ensures stats'.Keys == stats.Keys + {r.key}
    ensures forall k :: k in stats && k != r.key ==> stats'[k] == stats[k]
    ensures Lookup(stats', r.key) == Add(Lookup(stats, r.key), r.sample)
  {
    stats[r.key := Add(Lookup(stats, r.key), r.sample)]
  }

  /** The methods that occur in a run of records. */
  function KeysOf(records: seq<Record>): set<string> {
    set i | 0 <= i < |records| :: records[i].key
  }

  /** The samples taken for one method, in order. */
  function SamplesOf(records: seq<Record>, key: string): seq<Sample>
    decreases |records|
  {
    if |records| == 0 then []
    else
      var init, last := records[..|records| - 1], records[|records| - 1];
      SamplesOf(init, key) + (if last.key == key then [last.sample] else [])
  }

  /** The main loop over all measurements: afterwards there is a record for
      exactly the methods that produced a measurement, and each is the fold
      of that method's samples alone. */
  method Aggregate(records: seq<Record>) returns (stats: map<string, Stats>)
    ensures stats.Keys == KeysOf(records)
    ensures forall k :: k in stats ==> stats[k] == Fold(SamplesOf(records, k))
  {
    stats := map[];
    var i := 0;
    while i < |records|
      invariant 0 <= i <= |records|
      invariant stats.Keys == KeysOf(records[..i])
      invariant forall k :: Lookup(stats, k) == Fold(SamplesOf(records[..i], k))
    {
      var r := records[i];
      assert records[..i + 1] == records[..i] + [r];
      assert records[..i + 1][..i] == records[..i];
      forall k
        ensures Lookup(Accumulate(stats, r), k) == Fold(SamplesOf(records[..i + 1], k))
      {
        var before := SamplesOf(records[..i], k);
        if k == r.key {
          assert SamplesOf(records[..i + 1], k) == before + [r.sample];
          assert (before + [r.sample])[..|before|] == before;
        } else {
          assert SamplesOf(records[..i + 1], k) == before + [];
          assert before + [] == before;
        }
      }
      assert KeysOf(records[..i + 1]) == KeysOf(records[..i]) + {r.key} by {
        assert records[..i + 1][i] == r;
        forall k | k in KeysOf(records[..i + 1])
          ensures k in KeysOf(records[..i]) + {r.key}
        {
          var j :| 0 <= j < i + 1 && records[..i + 1][j].key == k;
          if j < i {
            assert records[..i][j].key == k;
          }
        }
      }
      stats := Accumulate(stats, r);
      i := i + 1;
    }
    assert records[..i] == records;
  }
}
