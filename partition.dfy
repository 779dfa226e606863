/** How the dictionary is split between producer threads, the arithmetic shared by
    launchProducerThreads (main.cpp) and ThreadManager::launchProducers
    (thread_manager.cpp): n - 1 slices of size / n words and a last slice that
    runs to the end, or a single slice when there are fewer words than threads. */
module Partition {

  /** [begin, end) as dictionary indices. */
  datatype Slice = Slice(begin: nat, end: nat)

  /** std::max(std::thread::hardware_concurrency(), 1u); the hardware query is a parameter. */
  function ThreadCount(hardwareConcurrency: nat): (n: nat)
    ensures n >= 1
    ensures hardwareConcurrency > 0 ==> n == hardwareConcurrency
    ensures hardwareConcurrency == 0 ==> n == 1
  {
    if hardwareConcurrency > 1 then hardwareConcurrency else 1
  }

  /** The first k slices of w words each: [w * i, w * (i + 1)) for i < k. */
  function EqualSlices(w: nat, k: nat): (r: seq<Slice>)
    ensures |r| == k
  {
    if k == 0 then [] else EqualSlices(w, k - 1) + [Slice(w * (k - 1), w * k)]
  }

  lemma {:induction false} EqualSlicesAt(w: nat, k: nat, i: nat)
    requires i < k
    ensures EqualSlices(w, k)[i] == Slice(w * i, w * (i + 1))
  {
    if i < k - 1 {
      EqualSlicesAt(w, k - 1, i);
    }
  }

  /** The slices, one per producer, in launch order. */
  function Slices(size: nat, n: nat): seq<Slice>
    requires n >= 1
  {
    var w := size / n;
    if w > 0 then EqualSlices(w, n - 1) + [Slice(w * (n - 1), size)] else [Slice(0, size)]
  }

  predicate InSlice(s: Slice, x: int) {
    s.begin <= x < s.end
  }

  /** Some slice of sl holds index x. */
  predicate Covered(sl: seq<Slice>, x: int) {
    exists j :: 0 <= j < |sl| && InSlice(sl[j], x)
  }

  /** Non-empty, starting at lo, ending at hi, each slice well formed and starting
      where the previous one ends. */
  predicate Chain(sl: seq<Slice>, lo: nat, hi: nat) {
    && |sl| > 0
    && sl[0].begin == lo
    && sl[|sl| - 1].end == hi
    && (forall j :: 0 <= j < |sl| ==> sl[j].begin <= sl[j].end)
    && (forall j :: 0 <= j < |sl| - 1 ==> sl[j].end == sl[j + 1].begin)
  }

  lemma {:induction false} ChainOrdered(sl: seq<Slice>, lo: nat, hi: nat, i: nat, j: nat)
    requires Chain(sl, lo, hi) && i < j < |sl|
    ensures sl[i].end <= sl[j].begin
    decreases j - i
  {
    if i + 1 < j {
      ChainOrdered(sl, lo, hi, i + 1, j);
    }
  }

  lemma {:induction false} ChainCovers(sl: seq<Slice>, lo: nat, hi: nat, x: nat)
    requires Chain(sl, lo, hi) && lo <= x < hi
    ensures Covered(sl, x)
  {
    if |sl| > 1 {
      var mid := sl[|sl| - 1].begin;
      if x < mid {
        ChainCovers(sl[..|sl| - 1], lo, mid, x);
        var j :| 0 <= j < |sl| - 1 && InSlice(sl[..|sl| - 1][j], x);
        assert InSlice(sl[j], x);
      } else {
        assert InSlice(sl[|sl| - 1], x);
      }
    } else {
      assert InSlice(sl[0], x);
    }
  }

  /** A chain covers [lo, hi) exactly: every index lies in exactly one slice. */
  lemma ChainIsExactCover(sl: seq<Slice>, lo: nat, hi: nat)
    requires Chain(sl, lo, hi)
    ensures forall x :: lo <= x < hi ==> Covered(sl, x)
    ensures forall i, j, x :: 0 <= i < j < |sl| && InSlice(sl[i], x) ==> !InSlice(sl[j], x)
    ensures forall j, x :: 0 <= j < |sl| && InSlice(sl[j], x) ==> lo <= x < hi
  {
    forall x | lo <= x < hi ensures Covered(sl, x) {
      ChainCovers(sl, lo, hi, x);
    }
    forall i, j | 0 <= i < j < |sl| ensures sl[i].end <= sl[j].begin {
      ChainOrdered(sl, lo, hi, i, j);
    }
    forall j | 0 <= j < |sl| ensures lo <= sl[j].begin && sl[j].end <= hi {
      if 0 < j {
        ChainOrdered(sl, lo, hi, 0, j);
      }
      if j < |sl| - 1 {
        ChainOrdered(sl, lo, hi, j, |sl| - 1);
      }
    }
  }

  /** There are n slices, or a single one covering everything when size < n. */
  lemma SlicesCount(size: nat, n: nat)
    requires n >= 1
    ensures |Slices(size, n)| == if size < n then 1 else n
    ensures size < n ==> Slices(size, n) == [Slice(0, size)]
  {
    if size / n > 0 {
      MulMonotone(size / n, n);
      DivMod(size, n);
    } else if size >= n {
      DivAtLeastOne(size, n);
    }
  }

  /** The first n - 1 slices hold size / n words each. */
  lemma SlicesEqualPart(size: nat, n: nat, k: nat)
    requires n >= 1 && size >= n && k < n - 1
    ensures Slices(size, n)[k] == Slice(k * (size / n), (k + 1) * (size / n))
  {
    DivAtLeastOne(size, n);
    EqualSlicesAt(size / n, n - 1, k);
  }

  /** The last slice holds size / n + size % n words. */
  lemma SlicesLast(size: nat, n: nat)
    requires n >= 1
    ensures var sl := Slices(size, n); sl[|sl| - 1].begin <= sl[|sl| - 1].end == size
    ensures var sl := Slices(size, n); sl[|sl| - 1].end - sl[|sl| - 1].begin == size / n + size % n
  {
    var w := size / n;
    DivMod(size, n);
    if w > 0 {
      MulPred(w, n);
    } else {
      assert size == size % n;
    }
  }

  lemma SlicesChain(size: nat, n: nat)
    requires n >= 1
    ensures Chain(Slices(size, n), 0, size)
  {
    var w := size / n;
    var sl := Slices(size, n);
    SlicesLast(size, n);
    if w > 0 {
      forall j | 0 <= j < |sl| - 1 ensures sl[j].end == sl[j + 1].begin {
        EqualSlicesAt(w, n - 1, j);
        if j < n - 2 {
          EqualSlicesAt(w, n - 1, j + 1);
        }
      }
      forall j | 0 <= j < n - 1 ensures sl[j].begin <= sl[j].end {
        EqualSlicesAt(w, n - 1, j);
        MulStep(w, j);
      }
      if n > 1 {
        EqualSlicesAt(w, n - 1, 0);
      }
    }
  }

  lemma MulPred(w: nat, n: nat)
    requires n >= 1
    ensures w * (n - 1) == w * n - w
  {
  }

  lemma MulStep(w: nat, j: nat)
    ensures w * j <= w * (j + 1) == w * j + w
  {
  }

  lemma DivMod(size: nat, n: nat)
    requires n >= 1
    ensures size == (size / n) * n + size % n && 0 <= size % n < n
  {
  }

  lemma MulMonotone(w: nat, n: nat)
    requires w >= 1
    ensures w * n >= n
  {
  }

  lemma DivAtLeastOne(size: nat, n: nat)
    requires 1 <= n <= size
    ensures size / n >= 1
  {
  }

  /** The split covers the dictionary with no gap and no overlap. */
  lemma SlicesExactCover(size: nat, n: nat)
    requires n >= 1
    ensures forall x :: 0 <= x < size ==> Covered(Slices(size, n), x)
    ensures forall i, j, x :: 0 <= i < j < |Slices(size, n)| && InSlice(Slices(size, n)[i], x) ==> !InSlice(Slices(size, n)[j], x)
    ensures forall j, x :: 0 <= j < |Slices(size, n)| && InSlice(Slices(size, n)[j], x) ==> x < size
  {
    SlicesChain(size, n);
    ChainIsExactCover(Slices(size, n), 0, size);
  }
}
