/** Expansion of integer vector elements into bits, most significant bit first
    (ber_calc_shm.unpack_k_bits), and the inverse packing used to state the
    round trip. */
module BitUnpack {

  function Min(a: int, b: int): int {
    if a < b then a else b
  }

  function Pow2(j: nat): (r: nat)
    ensures r >= 1
  {
    if j == 0 then 1 else 2 * Pow2(j - 1)
  }

  predicate IsBit(b: int) {
    b == 0 || b == 1
  }

  predicate AllBits(s: seq<int>) {
    forall m :: 0 <= m < |s| ==> IsBit(s[m])
  }

  /** The k bits of t, most significant first: element m is `(t >> (k-1-m)) & 1`.
      Dafny's `/` by a positive divisor floors, exactly like an arithmetic shift
      on a two's-complement value, and `% 2` is the low bit of the result. */
  function UnpackOne(k: nat, t: int): (r: seq<int>)
    ensures |r| == k && AllBits(r)
  {
    seq(k, m requires 0 <= m < k => (t / Pow2(k - 1 - m)) % 2)
  }

  /** Every element of v expanded into k bits, in order. */
  function Unpack(k: nat, v: seq<int>): (r: seq<int>)
    ensures |r| == k * |v| && AllBits(r)
  {
    if |v| == 0 then []
    else
      var init := Unpack(k, v[..|v| - 1]);
      assert k * |v| == k * (|v| - 1) + k;
      init + UnpackOne(k, v[|v| - 1])
  }

  /** Reads bits most significant first as a non-negative number. */
  function Pack(bits: seq<int>): int {
    if |bits| == 0 then 0 else 2 * Pack(bits[..|bits| - 1]) + bits[|bits| - 1]
  }

  /** Splits bits into groups of k and packs each group. */
  function PackAll(k: nat, bits: seq<int>): seq<int>
    requires k > 0
    decreases |bits|
  {
    if |bits| < k then [] else PackAll(k, bits[..|bits| - k]) + [Pack(bits[|bits| - k..])]
  }

  lemma DivUnique(t: int, d: int, q: int, r: int)
    requires d > 0 && 0 <= r < d && t == d * q + r
    ensures t / d == q
  {
    var q', r' := t / d, t % d;
    assert t == d * q' + r';
    assert d * (q - q') == r' - r;
    if q' < q {
      MulAtLeast(d, q - q');
    } else if q' > q {
      MulAtLeast(d, q' - q);
    }
  }

  lemma MulAtLeast(d: int, x: int)
    requires d > 0 && x >= 1
    ensures d * x >= d
  {
  }

  /** Shifting right by one and then by j is shifting right by j + 1. */
  lemma DivTwoThenPow2(t: int, j: nat)
    ensures (t / 2) / Pow2(j) == t / Pow2(j + 1)
  {
    var d := Pow2(j);
    var q, r := (t / 2) / d, (t / 2) % d;
    assert t / 2 == d * q + r;
    assert t == 2 * (t / 2) + t % 2;
    assert t == (2 * d) * q + (2 * r + t % 2);
    DivUnique(t, 2 * d, q, 2 * r + t % 2);
  }

  /** Bit i*k + (k-1-j) of the unpacked vector is bit j of element i. */
  lemma {:induction false} UnpackAt(k: nat, v: seq<int>, i: nat, j: nat)
    requires i < |v| && j < k
    ensures k * i + (k - 1 - j) < |Unpack(k, v)|
    ensures Unpack(k, v)[k * i + (k - 1 - j)] == (v[i] / Pow2(j)) % 2
  {
    var init := v[..|v| - 1];
    assert |Unpack(k, init)| == k * (|v| - 1);
    if i < |v| - 1 {
      UnpackAt(k, init, i, j);
      assert init[i] == v[i];
    } else {
      assert k * i == k * (|v| - 1);
    }
  }

  /** Unpacking distributes over concatenation. */
  lemma {:induction false} UnpackConcat(k: nat, a: seq<int>, b: seq<int>)
    ensures Unpack(k, a + b) == Unpack(k, a) + Unpack(k, b)
  {
    if |b| == 0 {
      assert a + b == a;
    } else {
      var b', x := b[..|b| - 1], b[|b| - 1];
      assert (a + b)[..|a + b| - 1] == a + b';
      assert (a + b)[|a + b| - 1] == x;
      calc {
        Unpack(k, a + b);
        Unpack(k, a + b') + UnpackOne(k, x);
        { UnpackConcat(k, a, b'); }
        Unpack(k, a) + Unpack(k, b') + UnpackOne(k, x);
        Unpack(k, a) + (Unpack(k, b') + UnpackOne(k, x));
      }
    }
  }

  /** The k bits of a value in [0, 2^k) pack back to that value. */
  lemma {:induction false} PackUnpackOne(k: nat, t: int)
    requires 0 <= t < Pow2(k)
    ensures Pack(UnpackOne(k, t)) == t
  {
    if k > 0 {
      var r := UnpackOne(k, t);
      var h := UnpackOne(k - 1, t / 2);
      forall m | 0 <= m < k - 1
        ensures r[m] == h[m]
      {
        DivTwoThenPow2(t, k - 2 - m);
      }
      assert r[..k - 1] == h;
      assert Pow2(0) == 1;
      assert r[k - 1] == t % 2;
      PackUnpackOne(k - 1, t / 2);
    }
  }

  /** Unpacking followed by regrouping k bits at a time restores the vector. */
  lemma {:induction false} PackAllUnpack(k: nat, v: seq<int>)
    requires k > 0
    requires forall i :: 0 <= i < |v| ==> 0 <= v[i] < Pow2(k)
    ensures PackAll(k, Unpack(k, v)) == v
  {
    if |v| > 0 {
      var init := v[..|v| - 1];
      var bits := Unpack(k, v);
      var head := Unpack(k, init);
      var tail := UnpackOne(k, v[|v| - 1]);
      assert bits == head + tail;
      assert bits[..|bits| - k] == head;
      assert bits[|bits| - k..] == tail;
      PackAllUnpack(k, init);
      PackUnpackOne(k, v[|v| - 1]);
      assert v == init + [v[|v| - 1]];
    }
  }

  /** unpack_k_bits: fills a zeroed array of k*|v| slots with a counter n, an
      outer loop over the elements and an inner loop from bit k-1 down to 0. */
  method UnpackKBits(k: nat, v: seq<int>) returns (bits: array<int>)
    ensures fresh(bits)
    ensures bits[..] == Unpack(k, v)
  {
    bits := new int[k * |v|](_ => 0);
    var n := 0;
    for i := 0 to |v|
      invariant bits.Length == k * |v|
      invariant n == k * i
      invariant bits[..n] == Unpack(k, v[..i])
    {
      var t := v[i];
      var j: int := k - 1;
      assert k * (i + 1) <= k * |v| by { MulMono(k, i + 1, |v|); }
      ghost var done := Unpack(k, v[..i]);
      while j >= 0
        invariant -1 <= j <= k - 1
        invariant n == k * i + (k - 1 - j)
        invariant bits[..n] == done + UnpackOne(k, t)[..k - 1 - j]
      {
        ghost var before := bits[..n];
        bits[n] := (t / Pow2(j)) % 2;
        assert bits[..n + 1] == before + [(t / Pow2(j)) % 2];
        UnpackOneStep(k, t, j, done);
        j := j - 1;
        n := n + 1;
      }
      UnpackPrefixStep(k, v, i);
    }
    assert v[..|v|] == v;
    assert bits[..] == bits[..n];
  }

  /** The inner loop's step: the next bit written is the next bit of t. */
  lemma UnpackOneStep(k: nat, t: int, j: nat, done: seq<int>)
    requires j < k
    ensures done + UnpackOne(k, t)[..k - 1 - j] + [(t / Pow2(j)) % 2] == done + UnpackOne(k, t)[..k - j]
  {
    assert UnpackOne(k, t)[..k - j] == UnpackOne(k, t)[..k - 1 - j] + [UnpackOne(k, t)[k - 1 - j]];
  }

  /** The outer loop's step: one more element unpacks to k more bits. */
  lemma UnpackPrefixStep(k: nat, v: seq<int>, i: nat)
    requires i < |v|
    ensures Unpack(k, v[..i + 1]) == Unpack(k, v[..i]) + UnpackOne(k, v[i])[..k]
  {
    assert v[..i + 1][..i] == v[..i];
    assert UnpackOne(k, v[i])[..k] == UnpackOne(k, v[i]);
  }

  lemma MulMono(k: nat, a: nat, b: nat)
    requires a <= b
    ensures k * a <= k * b
  {
  }
}
