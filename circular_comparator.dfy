/** The circular comparator at the end of ber_calc_shm.work: past a preamble
    match it walks the rest of the block against the rest of the preamble, then
    the payload, then the preamble and payload again, counting mismatches.
    Every pass is guarded by "remaining > 1", so each pass stops one element
    before its segment ends; the model keeps that. */
module CircularComparator {
  import opened BitUnpack

  function Max0(x: int): nat {
    if x > 0 then x else 0
  }

  /** The elements a pass guarded by "remaining > 1" reaches when it starts at
      index 0 with the whole segment remaining. */
  function AllButLast(s: seq<int>): (r: seq<int>)
    ensures |r| == Max0(|s| - 1)
  {
    if |s| == 0 then [] else s[..|s| - 1]
  }

  /** The first preamble pass: it starts one past the window stop with
      P - stop remaining, so it reaches preamble[stop + 1 .. P). */
  function FirstRun(pre: seq<int>, stop: nat): seq<int> {
    if stop + 1 < |pre| then pre[stop + 1..] else []
  }

  /** Reference bits of the first outer iteration. */
  function Head(pre: seq<int>, pay: seq<int>, stop: nat): seq<int> {
    FirstRun(pre, stop) + AllButLast(pay)
  }

  /** Reference bits of every later outer iteration. */
  function Cycle(pre: seq<int>, pay: seq<int>): seq<int> {
    AllButLast(pre) + AllButLast(pay)
  }

  /** Whether a later outer iteration compares at least one bit. */
  predicate CycleNonEmpty(pre: seq<int>, pay: seq<int>) {
    2 <= |pre| || 2 <= |pay|
  }

  /** The head followed by m cycles. */
  function Stream(pre: seq<int>, pay: seq<int>, stop: nat, m: nat): (r: seq<int>)
    ensures CycleNonEmpty(pre, pay) ==> |r| >= m
  {
    if m == 0 then Head(pre, pay, stop) else Stream(pre, pay, stop, m - 1) + Cycle(pre, pay)
  }

  /** The first n reference bits the comparator uses: the head followed by the
      cycle, over and over. */
  function Schedule(pre: seq<int>, pay: seq<int>, stop: nat, n: nat): (r: seq<int>)
    requires n == 0 || CycleNonEmpty(pre, pay)
    ensures |r| == n
  {
    Stream(pre, pay, stop, n)[..n]
  }

  /** Number of positions at which xs and ys differ. */
  function Mismatches(xs: seq<int>, ys: seq<int>): (r: nat)
    requires |xs| == |ys|
    ensures r <= |xs|
  {
    CountUpTo(xs, ys, |xs|)
  }

  /** Number of positions below n at which xs and ys differ. */
  function CountUpTo(xs: seq<int>, ys: seq<int>, n: nat): (r: nat)
    requires n <= |xs| == |ys|
    ensures r <= n
  {
    if n == 0 then 0 else CountUpTo(xs, ys, n - 1) + (if xs[n - 1] != ys[n - 1] then 1 else 0)
  }

  /** Number of bits compared after a match at `first` with window length w:
      bits_left_to_check starts at N - (first + w) and the loops stop at 1. */
  function Comparisons(n: nat, first: nat, w: nat): nat {
    Max0(n - (first + w) - 1)
  }

  /** The loops terminate: either nothing is left to check or every later
      outer iteration compares at least one bit. */
  predicate Terminates(n: nat, first: nat, w: nat, pre: seq<int>, pay: seq<int>) {
    first + w + 1 >= n || CycleNonEmpty(pre, pay)
  }

  /** The error count the comparator is specified to produce: the mismatches
      between input[first + w + 1 ..] and the schedule. */
  function ScheduledErrors(input: seq<int>, first: nat, w: nat, stop: nat, pre: seq<int>, pay: seq<int>): (r: nat)
    requires Terminates(|input|, first, w, pre, pay)
    ensures r <= Comparisons(|input|, first, w)
  {
    var a := first + w + 1;
    var c := Comparisons(|input|, first, w);
    if c == 0 then 0 else Mismatches(input[a..a + c], Schedule(pre, pay, stop, c))
  }

  /** The count below n depends only on the first n pairs. */
  lemma {:induction false} CountUpToAgree(xs: seq<int>, ys: seq<int>, xs2: seq<int>, ys2: seq<int>, n: nat)
    requires n <= |xs| == |ys| && n <= |xs2| == |ys2|
    requires forall i :: 0 <= i < n ==> xs[i] == xs2[i] && ys[i] == ys2[i]
    ensures CountUpTo(xs, ys, n) == CountUpTo(xs2, ys2, n)
  {
    if n > 0 {
      CountUpToAgree(xs, ys, xs2, ys2, n - 1);
    }
  }

  lemma MismatchesSnoc(xs: seq<int>, ys: seq<int>, x: int, y: int)
    requires |xs| == |ys|
    ensures Mismatches(xs + [x], ys + [y]) == Mismatches(xs, ys) + (if x != y then 1 else 0)
  {
    CountUpToAgree(xs + [x], ys + [y], xs, ys, |xs|);
  }

  lemma {:induction false} CountUpToAllSame(xs: seq<int>, ys: seq<int>, n: nat)
    requires n <= |xs| == |ys|
    ensures CountUpTo(xs, ys, n) == 0 <==> forall i :: 0 <= i < n ==> xs[i] == ys[i]
  {
    if n > 0 {
      CountUpToAllSame(xs, ys, n - 1);
    }
  }

  /** No mismatch exactly when the two sequences agree. */
  lemma MismatchesZeroIff(xs: seq<int>, ys: seq<int>)
    requires |xs| == |ys|
    ensures Mismatches(xs, ys) == 0 <==> xs == ys
  {
    CountUpToAllSame(xs, ys, |xs|);
  }

  lemma {:induction false} CountUpToFlip(xs: seq<int>, ys: seq<int>, k: nat, n: nat)
    requires |xs| == |ys| && k < n <= |xs|
    requires IsBit(xs[k]) && IsBit(ys[k])
    ensures var d := CountUpTo(xs[k := 1 - xs[k]], ys, n) - CountUpTo(xs, ys, n);
      d == 1 || d == -1
  {
    if n - 1 == k {
      CountUpToAgree(xs[k := 1 - xs[k]], ys, xs, ys, k);
    } else {
      CountUpToFlip(xs, ys, k, n - 1);
    }
  }

  /** Flipping one bit of xs changes the count by exactly one. */
  lemma MismatchesFlip(xs: seq<int>, ys: seq<int>, k: nat)
    requires |xs| == |ys| && k < |xs|
    requires IsBit(xs[k]) && IsBit(ys[k])
    ensures var d := Mismatches(xs[k := 1 - xs[k]], ys) - Mismatches(xs, ys);
      d == 1 || d == -1
  {
    CountUpToFlip(xs, ys, k, |xs|);
  }

  lemma {:induction false} StreamPrefix(pre: seq<int>, pay: seq<int>, stop: nat, a: nat, b: nat)
    requires a <= b
    ensures Stream(pre, pay, stop, a) <= Stream(pre, pay, stop, b)
  {
    if a < b {
      StreamPrefix(pre, pay, stop, a, b - 1);
    }
  }

  /** Any prefix of the head followed by some number of cycles is the schedule
      of its own length. */
  lemma PrefixIsSchedule(pre: seq<int>, pay: seq<int>, stop: nat, done: seq<int>, m: nat)
    requires done == [] || CycleNonEmpty(pre, pay)
    requires done <= Stream(pre, pay, stop, m)
    ensures done == Schedule(pre, pay, stop, |done|)
  {
    var n := |done|;
    if n > 0 {
      var x, y := Stream(pre, pay, stop, n), Stream(pre, pay, stop, m);
      if m <= n {
        StreamPrefix(pre, pay, stop, m, n);
        assert y <= x;
      } else {
        StreamPrefix(pre, pay, stop, n, m);
        assert x <= y;
        assert x[..n] == y[..n];
      }
    }
  }

  lemma {:induction false} StreamBits(pre: seq<int>, pay: seq<int>, stop: nat, m: nat)
    requires AllBits(pre) && AllBits(pay)
    ensures AllBits(Stream(pre, pay, stop, m))
  {
    if m > 0 {
      StreamBits(pre, pay, stop, m - 1);
    }
  }

  /** The schedule is made of preamble and payload bits only. */
  lemma ScheduleBits(pre: seq<int>, pay: seq<int>, stop: nat, n: nat)
    requires n == 0 || CycleNonEmpty(pre, pay)
    requires AllBits(pre) && AllBits(pay)
    ensures AllBits(Schedule(pre, pay, stop, n))
  {
    StreamBits(pre, pay, stop, n);
  }

  /** The count is zero exactly when every compared input bit agrees with the
      schedule. */
  lemma ZeroErrorsIffAgrees(input: seq<int>, first: nat, w: nat, stop: nat, pre: seq<int>, pay: seq<int>)
    requires Terminates(|input|, first, w, pre, pay)
    ensures var a, c := first + w + 1, Comparisons(|input|, first, w);
      ScheduledErrors(input, first, w, stop, pre, pay) == 0 <==>
      (c == 0 || input[a..a + c] == Schedule(pre, pay, stop, c))
  {
    var a, c := first + w + 1, Comparisons(|input|, first, w);
    if c > 0 {
      MismatchesZeroIff(input[a..a + c], Schedule(pre, pay, stop, c));
    }
  }

  /** Flipping one compared input bit changes the count by exactly one. */
  lemma FlipChangesErrorsByOne(input: seq<int>, first: nat, w: nat, stop: nat, pre: seq<int>, pay: seq<int>, idx: nat)
    requires Terminates(|input|, first, w, pre, pay)
    requires first + w + 1 <= idx < first + w + 1 + Comparisons(|input|, first, w)
    requires AllBits(pre) && AllBits(pay) && IsBit(input[idx])
    ensures var d := ScheduledErrors(input[idx := 1 - input[idx]], first, w, stop, pre, pay)
                   - ScheduledErrors(input, first, w, stop, pre, pay);
      d == 1 || d == -1
  {
    var a, c := first + w + 1, Comparisons(|input|, first, w);
    ScheduleBits(pre, pay, stop, c);
    FlipInSlice(input, a, c, idx, Schedule(pre, pay, stop, c));
    ScheduledErrorsUnfold(input, first, w, stop, pre, pay);
    ScheduledErrorsUnfold(input[idx := 1 - input[idx]], first, w, stop, pre, pay);
  }

  /** Flipping a bit of xs inside the compared slice changes its count
      against any bit sequence s by exactly one. */
  lemma FlipInSlice(xs: seq<int>, a: nat, c: nat, idx: nat, s: seq<int>)
    requires a <= idx < a + c <= |xs| && |s| == c
    requires AllBits(s) && IsBit(xs[idx])
    ensures var d := Mismatches(xs[idx := 1 - xs[idx]][a..a + c], s) - Mismatches(xs[a..a + c], s);
      d == 1 || d == -1
  {
    var x := xs[a..a + c];
    SliceOfUpdate(xs, a, a + c, idx, 1 - xs[idx]);
    assert x[idx - a] == xs[idx];
    MismatchesFlip(x, s, idx - a);
  }

  lemma ScheduledErrorsUnfold(input: seq<int>, first: nat, w: nat, stop: nat, pre: seq<int>, pay: seq<int>)
    requires Terminates(|input|, first, w, pre, pay) && Comparisons(|input|, first, w) > 0
    ensures var a, c := first + w + 1, Comparisons(|input|, first, w);
      ScheduledErrors(input, first, w, stop, pre, pay) == Mismatches(input[a..a + c], Schedule(pre, pay, stop, c))
  {
  }

  /** Updating an element inside a slice's range updates the slice. */
  lemma SliceOfUpdate(xs: seq<int>, lo: nat, hi: nat, i: nat, v: int)
    requires lo <= i < hi <= |xs|
    ensures xs[i := v][lo..hi] == xs[lo..hi][i - lo := v]
  {
  }

  /** The k elements of s from lo on, built one element at a time; empty when
      k is 0, wherever lo is. */
  function Segment(s: seq<int>, lo: nat, k: nat): (r: seq<int>)
    requires k == 0 || lo + k <= |s|
    ensures |r| == k
  {
    if k == 0 then [] else Segment(s, lo, k - 1) + [s[lo + k - 1]]
  }

  lemma {:induction false} SegmentIsSlice(s: seq<int>, lo: nat, k: nat)
    requires lo + k <= |s|
    ensures Segment(s, lo, k) == s[lo..lo + k]
  {
    if k > 0 {
      SegmentIsSlice(s, lo, k - 1);
      assert s[lo..lo + k] == s[lo..lo + k - 1] + [s[lo + k - 1]];
    }
  }

  lemma {:induction false} CountUpToAppend(a: seq<int>, b: seq<int>, c: seq<int>, d: seq<int>, j: nat)
    requires |a| == |c| && j <= |b| == |d|
    ensures CountUpTo(a + b, c + d, |a| + j) == Mismatches(a, c) + CountUpTo(b, d, j)
  {
    if j == 0 {
      CountUpToAgree(a + b, c + d, a, c, |a|);
    } else {
      CountUpToAppend(a, b, c, d, j - 1);
    }
  }

  /** Mismatch counts add up over concatenations. */
  lemma MismatchesAppend(a: seq<int>, b: seq<int>, c: seq<int>, d: seq<int>)
    requires |a| == |c| && |b| == |d|
    ensures Mismatches(a + b, c + d) == Mismatches(a, c) + Mismatches(b, d)
  {
    CountUpToAppend(a, b, c, d, |b|);
  }

  /** What the inner loop leaves behind when it started with r0 bits left in
      its segment and c0 in the block and took k steps: it stopped because one
      of the two counters reached 1 (or never started), and a step was only
      taken while both were above 1. */
  predicate PassStopped(r0: int, c0: int, k: nat) {
    && (k == 0 || (r0 - k >= 1 && c0 - k >= 1))
    && (r0 - k <= 1 || c0 - k <= 1)
  }

  /** The steps a pass takes are min(r0 - 1, c0 - 1), or none. */
  lemma PassLength(r0: int, c0: int, k: nat)
    requires PassStopped(r0, c0, k)
    ensures k == Min(Max0(r0 - 1), Max0(c0 - 1))
  {
  }

  /** One inner loop of the comparator (the preamble pass and the payload pass
      have the same shape): compare input[inputIndex] with ref[refIndex] and
      advance both while more than one bit is left in the segment and in the
      block. */
  method CheckRemainder(input: seq<int>, ref: seq<int>, inputIndex0: nat, refIndex0: nat,
                        bitsLeftInRef0: int, bitsLeftToCheck0: int, errorCount0: nat)
    returns (inputIndex: nat, refIndex: nat, bitsLeftInRef: int, bitsLeftToCheck: int, errorCount: nat)
    requires bitsLeftInRef0 > 1 && bitsLeftToCheck0 > 1 ==>
               refIndex0 + bitsLeftInRef0 - 1 <= |ref| && inputIndex0 + bitsLeftToCheck0 - 1 <= |input|
    ensures inputIndex0 <= inputIndex
    ensures refIndex - refIndex0 == inputIndex - inputIndex0
    ensures bitsLeftInRef == bitsLeftInRef0 - (inputIndex - inputIndex0)
    ensures bitsLeftToCheck == bitsLeftToCheck0 - (inputIndex - inputIndex0)
    ensures PassStopped(bitsLeftInRef0, bitsLeftToCheck0, inputIndex - inputIndex0)
    ensures errorCount == errorCount0 + Mismatches(Segment(input, inputIndex0, inputIndex - inputIndex0),
                                                   Segment(ref, refIndex0, inputIndex - inputIndex0))
  {
    inputIndex, refIndex := inputIndex0, refIndex0;
    bitsLeftInRef, bitsLeftToCheck, errorCount := bitsLeftInRef0, bitsLeftToCheck0, errorCount0;
    while bitsLeftInRef > 1 && bitsLeftToCheck > 1
      invariant inputIndex0 <= inputIndex
      invariant refIndex - refIndex0 == inputIndex - inputIndex0
      invariant bitsLeftInRef == bitsLeftInRef0 - (inputIndex - inputIndex0)
      invariant bitsLeftToCheck == bitsLeftToCheck0 - (inputIndex - inputIndex0)
      invariant inputIndex == inputIndex0 || (bitsLeftInRef >= 1 && bitsLeftToCheck >= 1)
      invariant errorCount == errorCount0 + Mismatches(Segment(input, inputIndex0, inputIndex - inputIndex0),
                                                       Segment(ref, refIndex0, refIndex - refIndex0))
    {
      SegmentStep(input, ref, inputIndex0, refIndex0, inputIndex - inputIndex0);
      if input[inputIndex] != ref[refIndex] {
        errorCount := errorCount + 1;
      }
      bitsLeftToCheck := bitsLeftToCheck - 1;
      inputIndex := inputIndex + 1;
      refIndex := refIndex + 1;
      bitsLeftInRef := bitsLeftInRef - 1;
    }
  }

  /** One more compared pair adds one to the count exactly when the pair differs. */
  lemma SegmentStep(xs: seq<int>, ys: seq<int>, i0: nat, r0: nat, j: nat)
    requires i0 + j < |xs| && r0 + j < |ys|
    ensures Mismatches(Segment(xs, i0, j + 1), Segment(ys, r0, j + 1))
         == Mismatches(Segment(xs, i0, j), Segment(ys, r0, j)) + (if xs[i0 + j] != ys[r0 + j] then 1 else 0)
  {
    SegmentSnoc(xs, i0, j);
    SegmentSnoc(ys, r0, j);
    MismatchesSnoc(Segment(xs, i0, j), Segment(ys, r0, j), xs[i0 + j], ys[r0 + j]);
  }

  lemma SegmentSnoc(s: seq<int>, lo: nat, k: nat)
    requires lo + k < |s|
    ensures Segment(s, lo, k + 1) == Segment(s, lo, k) + [s[lo + k]]
  {
  }

  lemma {:induction false} SegmentConcat(s: seq<int>, lo: nat, a: nat, b: nat)
    requires a + b == 0 || lo + a + b <= |s|
    ensures Segment(s, lo, a) + Segment(s, lo + a, b) == Segment(s, lo, a + b)
  {
    if b == 0 {
      assert Segment(s, lo, a) + [] == Segment(s, lo, a);
    } else {
      SegmentConcat(s, lo, a, b - 1);
      assert Segment(s, lo, a) + Segment(s, lo + a, b)
          == (Segment(s, lo, a) + Segment(s, lo + a, b - 1)) + [s[lo + a + b - 1]];
    }
  }

  /** The preamble segment an outer iteration walks, the index it starts at and
      the count of bits left in it at the start. */
  function PreambleSegment(pre: seq<int>, stop: nat, firstPass: bool): seq<int> {
    if firstPass then FirstRun(pre, stop) else AllButLast(pre)
  }

  function PreambleSegmentStart(stop: nat, firstPass: bool): nat {
    if firstPass then stop + 1 else 0
  }

  function PreambleLeft(pre: seq<int>, stop: nat, firstPass: bool): int {
    if firstPass then |pre| - stop else |pre|
  }

  /** The preamble pass reaches a prefix of its segment, which holds one bit
      fewer than the count it starts with. */
  lemma PreambleSegmentSlice(pre: seq<int>, stop: nat, firstPass: bool, k: nat)
    requires k <= Max0(PreambleLeft(pre, stop, firstPass) - 1)
    ensures |PreambleSegment(pre, stop, firstPass)| == Max0(PreambleLeft(pre, stop, firstPass) - 1)
    ensures k == 0 || PreambleSegmentStart(stop, firstPass) + k <= |pre|
    ensures Segment(pre, PreambleSegmentStart(stop, firstPass), k) == PreambleSegment(pre, stop, firstPass)[..k]
  {
    if k > 0 {
      SegmentIsSlice(pre, PreambleSegmentStart(stop, firstPass), k);
    }
  }

  /** Appending what a pass compared keeps the running count exact: e0 counts
      the bits done so far, e1 adds the k pairs of the pass, which started at
      input index i. */
  lemma AfterPass(input: seq<int>, last: nat, done: seq<int>, ref: seq<int>, ri: int, i: int, k: nat, e0: int, e1: int)
    requires ri >= 0 && i == last + 1 + |done| && i + k <= |input|
    requires k == 0 || ri + k <= |ref|
    requires CountInv(input, last, e0, done)
    requires e1 == e0 + Mismatches(Segment(input, i, k), Segment(ref, ri, k))
    ensures CountInv(input, last, e1, done + Segment(ref, ri, k))
  {
    var x, y, z := Segment(input, last + 1, |done|), Segment(input, i, k), Segment(ref, ri, k);
    SegmentConcat(input, last + 1, |done|, k);
    MismatchesAppend(x, y, done, z);
  }

  /** A completed outer iteration appends one more cycle (or, the first time,
      the head). */
  lemma NextBase(pre: seq<int>, pay: seq<int>, stop: nat, firstPass: bool, base: seq<int>, m: nat)
    requires firstPass ==> base == []
    requires !firstPass ==> base == Stream(pre, pay, stop, m)
    ensures base + PreambleSegment(pre, stop, firstPass) + AllButLast(pay)
         == Stream(pre, pay, stop, if firstPass then 0 else m + 1)
  {
    if !firstPass {
      assert base + AllButLast(pre) + AllButLast(pay) == base + Cycle(pre, pay);
    } else {
      assert [] + FirstRun(pre, stop) + AllButLast(pay) == Head(pre, pay, stop);
    }
  }

  /** What an outer iteration that may have been cut short leaves behind is a
      prefix of what a complete one does. */
  lemma CutShortIsPrefix(base: seq<int>, seg: seq<int>, seg2: seq<int>, k1: nat, k2: nat)
    requires k1 <= |seg| && k2 <= |seg2|
    requires k1 == |seg| || k2 == 0
    ensures base + seg[..k1] + seg2[..k2] <= base + seg + seg2
  {
    if k1 == |seg| {
      assert seg[..k1] == seg;
      assert base + seg + seg2 == (base + seg) + seg2[..k2] + seg2[k2..];
    } else {
      assert seg2[..k2] == [];
      assert base + seg + seg2 == base + seg[..k1] + (seg[k1..] + seg2);
    }
  }

  /** The outer loop's invariant, in three parts. `done` holds the reference
      bits compared so far and m counts the completed later iterations.
      The indices: the preamble pass restarts from 0 after the first
      iteration. */
  ghost predicate PosInv(input: seq<int>, last: nat, stop: nat, pre: seq<int>,
                         inputIndex: int, bitsLeftToCheck: int, preambleIndex: int, bitsLeftInPreamble: int,
                         done: seq<int>, firstPass: bool)
  {
    && inputIndex == last + 1 + |done|
    && bitsLeftToCheck == |input| - last - |done|
    && (done == [] || bitsLeftToCheck >= 1)
    && preambleIndex == PreambleSegmentStart(stop, firstPass)
    && bitsLeftInPreamble == PreambleLeft(pre, stop, firstPass)
  }

  /** The reference bits: a prefix of the head followed by m cycles, all of
      it while the block is not exhausted. */
  ghost predicate RefInv(pre: seq<int>, pay: seq<int>, stop: nat, bitsLeftToCheck: int,
                         done: seq<int>, firstPass: bool, m: nat)
  {
    && (firstPass ==> done == [] && m == 0)
    && (!firstPass && bitsLeftToCheck > 1 ==> done == Stream(pre, pay, stop, m))
    && done <= Stream(pre, pay, stop, m)
  }

  /** The count is exact. */
  ghost predicate CountInv(input: seq<int>, last: nat, errorCount: int, done: seq<int>)
    requires |done| == 0 || last + 1 + |done| <= |input|
  {
    errorCount == Mismatches(Segment(input, last + 1, |done|), done)
  }

  /** The whole outer invariant. The lemmas and the method that carry it from
      one iteration to the next state it as `OuterInv(...) == true`, so that
      it is passed on as one fact instead of being re-proved part by part. */
  ghost predicate OuterInv(input: seq<int>, last: nat, stop: nat, pre: seq<int>, pay: seq<int>,
                           inputIndex: int, bitsLeftToCheck: int, preambleIndex: int, bitsLeftInPreamble: int,
                           errorCount: int, done: seq<int>, firstPass: bool, m: nat)
  {
    && PosInv(input, last, stop, pre, inputIndex, bitsLeftToCheck, preambleIndex, bitsLeftInPreamble, done, firstPass)
    && RefInv(pre, pay, stop, bitsLeftToCheck, done, firstPass, m)
    && CountInv(input, last, errorCount, done)
  }

  /** The reference bits one outer iteration compares: a prefix of its preamble
      segment and, only if that segment was finished, a prefix of the payload
      segment; the whole of both when the block is not exhausted. */
  lemma PassesArePrefixes(pre: seq<int>, stop: nat, firstPass: bool, pay: seq<int>,
                          c0: int, k1: nat, k2: nat)
    requires c0 > 1
    requires PassStopped(PreambleLeft(pre, stop, firstPass), c0, k1)
    requires PassStopped(|pay|, c0 - k1, k2)
    ensures k1 <= |PreambleSegment(pre, stop, firstPass)| && k2 <= |AllButLast(pay)|
    ensures k2 == 0 || k1 == |PreambleSegment(pre, stop, firstPass)|
    ensures c0 - k1 - k2 > 1 ==> k1 == |PreambleSegment(pre, stop, firstPass)| && k2 == |AllButLast(pay)|
    ensures CycleNonEmpty(pre, pay) && !firstPass ==> k1 + k2 >= 1
  {
    PreambleSegmentSlice(pre, stop, firstPass, 0);
  }

  /** The reference part of one outer iteration: the bits compared by the two
      passes extend `done` as the schedule prescribes. */
  lemma StepRef(pre: seq<int>, pay: seq<int>, stop: nat, done: seq<int>, firstPass: bool, m: nat,
                pi0: int, r0: int, c0: int, k1: nat, c1: int, k2: nat, c2: int)
    requires RefInv(pre, pay, stop, c0, done, firstPass, m) && c0 > 1
    requires pi0 == PreambleSegmentStart(stop, firstPass) && r0 == PreambleLeft(pre, stop, firstPass)
    requires PassStopped(r0, c0, k1) && c1 == c0 - k1
    requires PassStopped(|pay|, c1, k2) && c2 == c1 - k2
    ensures k1 == 0 || pi0 + k1 <= |pre|
    ensures k2 == 0 || k2 <= |pay|
    ensures RefInv(pre, pay, stop, c2, done + Segment(pre, pi0, k1) + Segment(pay, 0, k2),
                   false, if firstPass then 0 else m + 1)
    ensures CycleNonEmpty(pre, pay) && !firstPass ==> k1 + k2 >= 1
  {
    var seg, seg2 := PreambleSegment(pre, stop, firstPass), AllButLast(pay);
    PassesArePrefixes(pre, stop, firstPass, pay, c0, k1, k2);
    PreambleSegmentSlice(pre, stop, firstPass, k1);
    if k2 > 0 {
      SegmentIsSlice(pay, 0, k2);
    }
    assert Segment(pay, 0, k2) == seg2[..k2];
    NextBase(pre, pay, stop, firstPass, done, m);
    CutShortIsPrefix(done, seg, seg2, k1, k2);
    if k1 == |seg| && k2 == |seg2| {
      assert seg[..k1] == seg && seg2[..k2] == seg2;
    }
  }

  /** The count part of one outer iteration. */
  lemma StepCount(input: seq<int>, last: nat, done: seq<int>, pre: seq<int>, pi0: int, pay: seq<int>,
                  ii0: int, e0: int, k1: nat, ii1: int, e1: int, k2: nat, e2: int)
    requires pi0 >= 0 && ii0 == last + 1 + |done| && ii1 == ii0 + k1
    requires ii1 + k2 <= |input|
    requires k1 == 0 || pi0 + k1 <= |pre|
    requires k2 == 0 || k2 <= |pay|
    requires CountInv(input, last, e0, done)
    requires e1 == e0 + Mismatches(Segment(input, ii0, k1), Segment(pre, pi0, k1))
    requires e2 == e1 + Mismatches(Segment(input, ii1, k2), Segment(pay, 0, k2))
    ensures CountInv(input, last, e2, done + Segment(pre, pi0, k1) + Segment(pay, 0, k2))
  {
    AfterPass(input, last, done, pre, pi0, ii0, k1, e0, e1);
    AfterPass(input, last, done + Segment(pre, pi0, k1), pay, 0, ii1, k2, e1, e2);
  }

  /** One outer iteration keeps the invariant and, after the first, makes
      progress. The arguments are the loop variables at the head of the
      iteration, after the preamble pass and after the payload pass; the
      requires restate what the two passes ensure. */
  lemma OuterStep(input: seq<int>, first: nat, w: nat, last: nat, stop: nat, pre: seq<int>, pay: seq<int>,
                  done: seq<int>, firstPass: bool, m: nat,
                  ii0: int, c0: int, pi0: int, r0: int, e0: int,
                  k1: nat, ii1: int, c1: int, e1: int,
                  k2: nat, ii2: int, c2: int, e2: int,
                  pi2: int, r2: int, done2: seq<int>, m2: nat)
    requires Terminates(|input|, first, w, pre, pay) && last == first + w
    requires OuterInv(input, last, stop, pre, pay, ii0, c0, pi0, r0, e0, done, firstPass, m) == true
    requires c0 > 1
    requires PassStopped(r0, c0, k1) && ii1 == ii0 + k1 && c1 == c0 - k1
    requires e1 == e0 + Mismatches(Segment(input, ii0, k1), Segment(pre, pi0, k1))
    requires PassStopped(|pay|, c1, k2) && ii2 == ii1 + k2 && c2 == c1 - k2
    requires e2 == e1 + Mismatches(Segment(input, ii1, k2), Segment(pay, 0, k2))
    requires pi2 == 0 && r2 == |pre|
    requires done2 == done + Segment(pre, pi0, k1) + Segment(pay, 0, k2)
    requires m2 == if firstPass then 0 else m + 1
    ensures OuterInv(input, last, stop, pre, pay, ii2, c2, pi2, r2, e2, done2, false, m2) == true
    ensures c2 <= c0 && (firstPass || c2 < c0)
  {
    StepRef(pre, pay, stop, done, firstPass, m, pi0, r0, c0, k1, c1, k2, c2);
    StepCount(input, last, done, pre, pi0, pay, ii0, e0, k1, ii1, e1, k2, e2);
  }

  /** When the outer loop stops, the count is the scheduled one and every bit
      after the match and window but the last has been compared. */
  lemma FinishCompare(input: seq<int>, first: nat, w: nat, stop: nat, pre: seq<int>, pay: seq<int>,
                      inputIndex: int, bitsLeftToCheck: int, preambleIndex: int, bitsLeftInPreamble: int,
                      errorCount: int, done: seq<int>, firstPass: bool, m: nat)
    requires Terminates(|input|, first, w, pre, pay)
    requires OuterInv(input, first + w, stop, pre, pay, inputIndex, bitsLeftToCheck, preambleIndex,
                      bitsLeftInPreamble, errorCount, done, firstPass, m)
    requires bitsLeftToCheck <= 1
    ensures inputIndex - (first + w + 1) == Comparisons(|input|, first, w)
    ensures errorCount == ScheduledErrors(input, first, w, stop, pre, pay)
  {
    PrefixIsSchedule(pre, pay, stop, done, m);
    if |done| > 0 {
      SegmentIsSlice(input, first + w + 1, |done|);
    }
  }

  /** One iteration of the outer loop: the rest of the preamble segment, then
      the payload segment; the preamble is then rewound to index 0. */
  method OuterIteration(input: seq<int>, first: nat, w: nat, stop: nat, pre: seq<int>, pay: seq<int>,
                        inputIndex0: nat, preambleIndex0: nat, bitsLeftInPreamble0: int,
                        bitsLeftToCheck0: int, errorCount0: nat,
                        ghost done0: seq<int>, ghost firstPass: bool, ghost m0: nat)
    returns (inputIndex: nat, preambleIndex: nat, bitsLeftInPreamble: int, bitsLeftToCheck: int, errorCount: nat,
             ghost done: seq<int>, ghost m: nat)
    requires Terminates(|input|, first, w, pre, pay)
    requires OuterInv(input, first + w, stop, pre, pay, inputIndex0, bitsLeftToCheck0, preambleIndex0,
                      bitsLeftInPreamble0, errorCount0, done0, firstPass, m0) == true
    requires bitsLeftToCheck0 > 1
    ensures OuterInv(input, first + w, stop, pre, pay, inputIndex, bitsLeftToCheck, preambleIndex,
                     bitsLeftInPreamble, errorCount, done, false, m) == true
    ensures bitsLeftToCheck <= bitsLeftToCheck0 && (firstPass || bitsLeftToCheck < bitsLeftToCheck0)
  {
    // the preamble pass
    inputIndex, preambleIndex, bitsLeftInPreamble, bitsLeftToCheck, errorCount :=
      CheckRemainder(input, pre, inputIndex0, preambleIndex0, bitsLeftInPreamble0, bitsLeftToCheck0, errorCount0);
    ghost var ii1, c1, e1 := inputIndex, bitsLeftToCheck, errorCount;
    preambleIndex := 0;
    bitsLeftInPreamble := |pre|;

    // the payload pass
    var bitsLeftInPayload: int := |pay|;
    var payloadIndex: nat := 0;
    inputIndex, payloadIndex, bitsLeftInPayload, bitsLeftToCheck, errorCount :=
      CheckRemainder(input, pay, inputIndex, payloadIndex, bitsLeftInPayload, bitsLeftToCheck, errorCount);

    done := done0 + Segment(pre, preambleIndex0, ii1 - inputIndex0) + Segment(pay, 0, inputIndex - ii1);
    m := if firstPass then 0 else m0 + 1;
    OuterStep(input, first, w, first + w, stop, pre, pay, done0, firstPass, m0,
              inputIndex0, bitsLeftToCheck0, preambleIndex0, bitsLeftInPreamble0, errorCount0,
              ii1 - inputIndex0, ii1, c1, e1,
              inputIndex - ii1, inputIndex, bitsLeftToCheck, errorCount,
              preambleIndex, bitsLeftInPreamble, done, m);
  }

  /** The comparator loops as written: three indices advance together, each
      pass stops when one element of its segment or of the block remains, and
      the preamble pass restarts from index 0 after the first outer iteration.
      Returns the mismatch count and the number of bits compared. */
  method CircularCompare(input: seq<int>, first: nat, w: nat, stop: nat, pre: seq<int>, pay: seq<int>)
    returns (errorCount: nat, compared: nat)
    requires Terminates(|input|, first, w, pre, pay)
    ensures compared == Comparisons(|input|, first, w)
    ensures errorCount == ScheduledErrors(input, first, w, stop, pre, pay)
  {
    var last := first + w;
    var bitsLeftToCheck: int := |input| - last;
    var bitsLeftInPreamble: int := |pre| - stop;
    var inputIndex: nat := last + 1;
    var preambleIndex: nat := stop + 1;
    errorCount := 0;

    ghost var done: seq<int> := [];
    ghost var firstPass := true;
    ghost var m: nat := 0;

    while bitsLeftToCheck > 1
      invariant OuterInv(input, last, stop, pre, pay, inputIndex, bitsLeftToCheck, preambleIndex,
                         bitsLeftInPreamble, errorCount, done, firstPass, m) == true
      decreases bitsLeftToCheck, if firstPass then 1 else 0
    {
      inputIndex, preambleIndex, bitsLeftInPreamble, bitsLeftToCheck, errorCount, done, m :=
        OuterIteration(input, first, w, stop, pre, pay, inputIndex, preambleIndex, bitsLeftInPreamble,
                       bitsLeftToCheck, errorCount, done, firstPass, m);
      firstPass := false;
    }

    compared := inputIndex - (last + 1);
    FinishCompare(input, first, w, stop, pre, pay, inputIndex, bitsLeftToCheck, preambleIndex,
                  bitsLeftInPreamble, errorCount, done, firstPass, m);
  }
}
