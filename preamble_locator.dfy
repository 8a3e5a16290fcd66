/** find_subsequence: correlation peaks at the template's self-energy, filtered
    by an exact element-wise comparison. */
module PreambleLocator {

  /** np.dot of two vectors of equal length. */
  function Dot(a: seq<int>, b: seq<int>): (r: int)
    requires |a| == |b|
    ensures a == b ==> r >= 0
    ensures (forall i :: 0 <= i < |a| ==> a[i] == 0) ==> r == 0
  {
    if |a| == 0 then 0 else Dot(a[..|a| - 1], b[..|b| - 1]) + a[|a| - 1] * b[|b| - 1]
  }

  /** np.correlate(s, t, mode='valid') for |t| <= |s|: entry k is the dot
      product of t with the window of s starting at k. */
  function Correlate(s: seq<int>, t: seq<int>): (r: seq<int>)
    requires |t| <= |s|
    ensures |r| == |s| - |t| + 1
    ensures forall k: nat :: k < |r| && OccursAt(s, t, k) ==> r[k] == Dot(t, t)
  {
    seq(|s| - |t| + 1, k requires 0 <= k < |s| - |t| + 1 => Dot(s[k..k + |t|], t))
  }

  predicate StrictlyIncreasing(r: seq<nat>) {
    forall a, b :: 0 <= a < b < |r| ==> r[a] < r[b]
  }

  /** np.where(c == x)[0]: the indices of c holding x, in increasing order. */
  function Where(c: seq<int>, x: int): (r: seq<nat>)
    ensures StrictlyIncreasing(r)
    ensures forall k: nat :: k in r <==> k < |c| && c[k] == x
  {
    if |c| == 0 then []
    else
      var r' := Where(c[..|c| - 1], x);
      assert forall k: nat :: k < |c| - 1 ==> c[..|c| - 1][k] == c[k];
      assert forall i :: 0 <= i < |r'| ==> r'[i] < |c| - 1 by {
        forall i | 0 <= i < |r'|
          ensures r'[i] < |c| - 1
        {
          assert r'[i] in r';
        }
      }
      if c[|c| - 1] == x then r' + [|c| - 1] else r'
  }

  /** The mask of find_subsequence at candidate k: every element of the window
      `seq[k + m]` equals `subseq[m]`. */
  predicate MaskAt(s: seq<int>, t: seq<int>, k: nat)
    requires k + |t| <= |s|
  {
    forall m :: 0 <= m < |t| ==> s[k + m] == t[m]
  }

  /** t occurs in s at offset k. */
  predicate OccursAt(s: seq<int>, t: seq<int>, k: nat) {
    k + |t| <= |s| && s[k..k + |t|] == t
  }

  lemma MaskIsOccurrence(s: seq<int>, t: seq<int>, k: nat)
    requires k + |t| <= |s|
    ensures MaskAt(s, t, k) <==> OccursAt(s, t, k)
  {
    if MaskAt(s, t, k) {
      assert s[k..k + |t|] == t;
    }
  }

  /** `candidates[mask]`: the candidates that pass the mask, in order. */
  function KeepExact(s: seq<int>, t: seq<int>, cands: seq<nat>): (r: seq<nat>)
    requires forall i :: 0 <= i < |cands| ==> cands[i] + |t| <= |s|
    ensures forall k: nat :: k in r <==> k in cands && OccursAt(s, t, k)
    ensures StrictlyIncreasing(cands) ==> StrictlyIncreasing(r)
  {
    if |cands| == 0 then []
    else
      var init := cands[..|cands| - 1];
      var last := cands[|cands| - 1];
      var r' := KeepExact(s, t, init);
      assert forall k: nat :: k in cands <==> k in init || k == last;
      MaskIsOccurrence(s, t, last);
      assert StrictlyIncreasing(cands) ==> forall i :: 0 <= i < |r'| ==> r'[i] < last by {
        if StrictlyIncreasing(cands) {
          forall i | 0 <= i < |r'|
            ensures r'[i] < last
          {
            assert r'[i] in r';
            var j :| 0 <= j < |init| && init[j] == r'[i];
            assert cands[j] < cands[|cands| - 1];
          }
        }
      }
      if MaskAt(s, t, last) then r' + [last] else r'
  }

  /** An exact occurrence always reaches the self-energy, so the correlation
      pre-filter never drops a true match. */
  lemma OccurrenceReachesEnergy(s: seq<int>, t: seq<int>, k: nat)
    requires |t| <= |s| && OccursAt(s, t, k)
    ensures k < |Correlate(s, t)| && Correlate(s, t)[k] == Dot(t, t)
  {
  }

  /** find_subsequence returns exactly the offsets at which the template occurs,
      in strictly increasing order. */
  function FindSubsequence(s: seq<int>, t: seq<int>): (r: seq<nat>)
    requires 0 < |t| <= |s|
    ensures StrictlyIncreasing(r)
    ensures forall k: nat :: k in r <==> OccursAt(s, t, k)
  {
    var target := Dot(t, t);
    var candidates := Where(Correlate(s, t), target);
    assert forall k: nat :: OccursAt(s, t, k) ==> k in candidates by {
      forall k: nat | OccursAt(s, t, k)
        ensures k in candidates
      {
        OccurrenceReachesEnergy(s, t, k);
      }
    }
    assert forall i :: 0 <= i < |candidates| ==> candidates[i] in candidates;
    KeepExact(s, t, candidates)
  }

  /** The first offset returned is the earliest occurrence. */
  lemma FirstIsEarliest(s: seq<int>, t: seq<int>)
    requires 0 < |t| <= |s|
    requires |FindSubsequence(s, t)| > 0
    ensures var first := FindSubsequence(s, t)[0];
      OccursAt(s, t, first) && first + |t| <= |s| &&
      forall k: nat :: OccursAt(s, t, k) ==> first <= k
  {
    var r := FindSubsequence(s, t);
    forall k: nat | OccursAt(s, t, k)
      ensures r[0] <= k
    {
      var i :| 0 <= i < |r| && r[i] == k;
      if i > 0 { assert r[0] < r[i]; }
    }
  }

  /** The template [1, 0] has self-energy 1, and so does the window [1, 1]:
      correlating [1, 1] against [1, 0] yields a candidate peak at 0 ... */
  lemma EqualEnergyPeakIsCandidate()
    ensures Where(Correlate([1, 1], [1, 0]), Dot([1, 0], [1, 0])) == [0]
  {
    var s, t := [1, 1], [1, 0];
    assert [1, 0][..1] == [1] && [1, 1][..1] == [1] && [1][..0] == [];
    assert Dot(t, t) == 1;
    assert s[0..2] == [1, 1];
    assert Dot(s[0..2], t) == 1;
    assert Correlate(s, t) == [1];
    var w := Where([1], 1);
    assert [1][..0] == [];
    assert w == [] + [0];
  }

  /** ... which the mask rejects, so nothing is returned. */
  lemma EqualEnergyPeakRejected()
    ensures FindSubsequence([1, 1], [1, 0]) == []
  {
    var s, t := [1, 1], [1, 0];
    assert s[0..2] != t by { assert s[0..2][1] != t[1]; }
    assert forall k: nat :: !OccursAt(s, t, k);
    var r := FindSubsequence(s, t);
    assert forall k: nat :: k !in r;
  }
}
