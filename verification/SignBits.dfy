/** scripts/reembed.py:93-99 and benchmarks/vector_index_eval.py:58,80: sign-bit packing, most
    significant bit first, and the Hamming distance over packed bytes. */
module SignBits {

  // ---------------------------------------------------------------------------------------
  // Bits of a byte.

  /** The byte with only bit `t` set, counting from the most significant one. */
  function Mask(t: nat): bv8
    requires t < 8
  {
    if t < 4 then (if t < 2 then (if t == 0 then 0x80 else 0x40) else (if t == 2 then 0x20 else 0x10))
    else (if t < 6 then (if t == 4 then 0x08 else 0x04) else (if t == 6 then 0x02 else 0x01))
  }

  method ShiftedOne(t: nat) returns (mask: bv8)
    requires t < 8
    ensures mask == Mask(t)
  {
    mask := 1 << (7 - t);
  }

  predicate Bit(b: bv8, t: nat)
    requires t < 8
  {
    b & Mask(t) != 0
  }

  predicate OneBit(m: bv8) { m != 0 && m & (m - 1) == 0 }

  lemma XorMask(a: bv8, b: bv8, m: bv8)
    requires OneBit(m)
    ensures (a ^ b) & m != 0 <==> (a & m != 0) != (b & m != 0)
  {
  }

  lemma {:induction false} XorBit(a: bv8, b: bv8, t: nat)
    requires t < 8
    ensures Bit(a ^ b, t) <==> Bit(a, t) != Bit(b, t)
  {
    XorMask(a, b, Mask(t));
  }

  // ---------------------------------------------------------------------------------------
  // Packing.

  predicate BitAt(bytes: seq<bv8>, i: nat)
    requires i < 8 * |bytes|
  {
    Bit(bytes[i / 8], i % 8)
  }

  /** Component `i` of the vector is positive; there is nothing past its end. */
  predicate Positive(vec: seq<real>, i: nat) { i < |vec| && vec[i] > 0.0 }

  /** One bit per component, set exactly for the positive ones, and clear padding. */
  ghost predicate Packed(vec: seq<real>, bytes: seq<bv8>) {
    && |bytes| == (|vec| + 7) / 8
    && Signs(vec, bytes)
  }

  ghost predicate Signs(vec: seq<real>, bytes: seq<bv8>) {
    forall i: nat :: i < 8 * |bytes| ==> BitAt(bytes, i) == Positive(vec, i)
  }

  lemma SignsStep(vec: seq<real>, bytes: seq<bv8>, n: nat)
    requires n < |vec| && |bytes| == (|vec| + 7) / 8 && Signs(vec[..n], bytes)
    ensures Signs(vec[..n + 1], if vec[n] > 0.0 then bytes[n / 8 := bytes[n / 8] | Mask(n % 8)] else bytes)
  {
    var after := if vec[n] > 0.0 then bytes[n / 8 := bytes[n / 8] | Mask(n % 8)] else bytes;
    forall i: nat | i < 8 * |bytes| ensures BitAt(after, i) == Positive(vec[..n + 1], i) {
      assert BitAt(bytes, i) == Positive(vec[..n], i);
    }
  }

  method ToBinaryBlob(vec: seq<real>) returns (bits: array<bv8>)
    ensures fresh(bits) && Packed(vec, bits[..])
  {
    bits := new bv8[(|vec| + 7) / 8](_ => 0);
    for n := 0 to |vec|
      invariant Signs(vec[..n], bits[..])
    {
      SignsStep(vec, bits[..], n);
      if vec[n] > 0.0 {
        var mask := ShiftedOne(n % 8);
        bits[n / 8] := bits[n / 8] | mask;
      }
    }
    assert vec[..|vec|] == vec;
  }

  // ---------------------------------------------------------------------------------------
  // Hamming distance.

  function One(b: bool): nat { if b then 1 else 0 }

  function BitsBelow(b: bv8, t: nat): nat
    requires t <= 8
  {
    if t == 0 then 0 else BitsBelow(b, t - 1) + One(Bit(b, t - 1))
  }

  /** The entry of the popcount table for a byte. */
  function PopCount(b: bv8): nat { BitsBelow(b, 8) }

  function Hamming(x: seq<bv8>, y: seq<bv8>): nat
    requires |x| == |y|
  {
    if x == [] then 0
    else Hamming(x[..|x| - 1], y[..|y| - 1]) + PopCount(x[|x| - 1] ^ y[|y| - 1])
  }

  /** How many of the first `n` components disagree in sign. */
  function Disagreements(u: seq<real>, v: seq<real>, n: nat): nat {
    if n == 0 then 0
    else Disagreements(u, v, n - 1) + One(Positive(u, n - 1) != Positive(v, n - 1))
  }

  lemma {:induction false} BitDisagreement(u: seq<real>, v: seq<real>, x: seq<bv8>, y: seq<bv8>, k: nat, t: nat)
    requires k < |x| == |y| && t < 8 && Signs(u, x) && Signs(v, y)
    ensures Disagreements(u, v, 8 * k + t + 1) == Disagreements(u, v, 8 * k + t) + One(Bit(x[k] ^ y[k], t))
  {
    var i := 8 * k + t;
    assert i / 8 == k && i % 8 == t;
    assert BitAt(x, i) == Positive(u, i) && BitAt(y, i) == Positive(v, i);
    XorBit(x[k], y[k], t);
  }

  lemma {:induction false} ByteDisagreements(u: seq<real>, v: seq<real>, x: seq<bv8>, y: seq<bv8>, k: nat, t: nat)
    requires k < |x| == |y| && t <= 8 && Signs(u, x) && Signs(v, y)
    ensures Disagreements(u, v, 8 * k + t) == Disagreements(u, v, 8 * k) + BitsBelow(x[k] ^ y[k], t)
  {
    if t > 0 {
      ByteDisagreements(u, v, x, y, k, t - 1);
      BitDisagreement(u, v, x, y, k, t - 1);
    }
  }

  lemma {:induction false} PackedDisagreements(u: seq<real>, v: seq<real>, x: seq<bv8>, y: seq<bv8>)
    requires |x| == |y| && Signs(u, x) && Signs(v, y)
    ensures Hamming(x, y) == Disagreements(u, v, 8 * |x|)
  {
    if x != [] {
      var k := |x| - 1;
      PackedDisagreements(u, v, x[..k], y[..k]);
      ByteDisagreements(u, v, x, y, k, 8);
      assert Hamming(x, y) == Hamming(x[..k], y[..k]) + BitsBelow(x[k] ^ y[k], 8);
    }
  }

  lemma {:induction false} PaddingAgrees(u: seq<real>, v: seq<real>, n: nat)
    requires |u| == |v| <= n
    ensures Disagreements(u, v, n) == Disagreements(u, v, |u|)
  {
    if n > |u| {
      PaddingAgrees(u, v, n - 1);
    }
  }

  /** The distance over packed bytes is the number of sign disagreements. */
  lemma HammingCountsDisagreements(u: seq<real>, v: seq<real>, x: seq<bv8>, y: seq<bv8>)
    requires |u| == |v| && Packed(u, x) && Packed(v, y)
    ensures Hamming(x, y) == Disagreements(u, v, |u|)
    ensures Hamming(x, y) == |set k | 0 <= k < |u| && (u[k] > 0.0) != (v[k] > 0.0)|
  {
    PackedDisagreements(u, v, x, y);
    PaddingAgrees(u, v, 8 * |x|);
    DisagreementsMeaning(u, v, |u|);
  }

  lemma {:induction false} DisagreementsMeaning(u: seq<real>, v: seq<real>, n: nat)
    requires n <= |u| == |v|
    ensures Disagreements(u, v, n) == |set k | 0 <= k < n && (u[k] > 0.0) != (v[k] > 0.0)|
  {
    var all := set k | 0 <= k < n && (u[k] > 0.0) != (v[k] > 0.0);
    if n == 0 {
      assert all == {};
    } else {
      var before := set k | 0 <= k < n - 1 && (u[k] > 0.0) != (v[k] > 0.0);
      DisagreementsMeaning(u, v, n - 1);
      if (u[n - 1] > 0.0) != (v[n - 1] > 0.0) {
        assert all == before + {n - 1};
      } else {
        assert all == before;
      }
    }
  }

  /** The packed bytes bit by bit: most significant first, set exactly for positive components. */
  lemma PackedMeaning(vec: seq<real>, bytes: seq<bv8>)
    ensures Packed(vec, bytes) <==>
              |bytes| == (|vec| + 7) / 8
              && forall i: nat :: i < 8 * |bytes| ==> (SetAt(bytes[i / 8], i % 8) <==> i < |vec| && vec[i] > 0.0)
  {
    if |bytes| == (|vec| + 7) / 8 {
      forall i: nat | i < 8 * |bytes| ensures SetAt(bytes[i / 8], i % 8) <==> BitAt(bytes, i) {
        MaskMeaning(i % 8);
      }
    }
  }

  predicate SetAt(b: bv8, t: nat)
    requires t < 8
  {
    b & (1 << (7 - t)) != 0
  }

  lemma MaskMeaning(t: nat)
    requires t < 8
    ensures Mask(t) == 1 << (7 - t)
  {
  }

  /** Packing is a function of the signs. */
  lemma PackedUnique(u: seq<real>, x: seq<bv8>, y: seq<bv8>)
    requires Packed(u, x) && Packed(u, y)
    ensures x == y
  {
    forall k | 0 <= k < |x| ensures x[k] == y[k] {
      forall t: nat | t < 8 ensures Bit(x[k], t) == Bit(y[k], t) {
        assert (8 * k + t) / 8 == k && (8 * k + t) % 8 == t;
        assert BitAt(x, 8 * k + t) == Positive(u, 8 * k + t) && BitAt(y, 8 * k + t) == Positive(u, 8 * k + t);
      }
      SameBits(x[k], y[k]);
    }
  }

  lemma SameBits(a: bv8, b: bv8)
    requires forall t: nat :: t < 8 ==> Bit(a, t) == Bit(b, t)
    ensures a == b
  {
    assert Bit(a, 0) == Bit(b, 0) && Bit(a, 1) == Bit(b, 1) && Bit(a, 2) == Bit(b, 2) && Bit(a, 3) == Bit(b, 3);
    assert Bit(a, 4) == Bit(b, 4) && Bit(a, 5) == Bit(b, 5) && Bit(a, 6) == Bit(b, 6) && Bit(a, 7) == Bit(b, 7);
  }
}
