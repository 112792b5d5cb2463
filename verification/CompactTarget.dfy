/** The 32-bit compact form of a 256-bit target: a byte count and three leading bytes. */
module CompactTarget {

  datatype Result = Ok(value: nat) | TooBig | BadShift

  const LOW_MAX: nat := 0xffffff
  const TARGET_MAX: nat := 0x1d00ffff

  function Pow256(k: nat): (p: nat)
    ensures p > 0
  {
    if k == 0 then 1 else 256 * Pow256(k - 1)
  }

  const U256_MAX: nat := Pow256(32) - 1

  /** `Target(value)`. */
  function MakeTarget(value: nat): Result {
    if value > TARGET_MAX then TooBig else Ok(value)
  }

  /** How many bytes are dropped, and what is left. */
  function Shifts(v: nat): nat {
    if v <= LOW_MAX then 0 else 1 + Shifts(v / 256)
  }

  function Mantissa(v: nat): (m: nat)
    ensures m <= LOW_MAX
  {
    if v <= LOW_MAX then v else Mantissa(v / 256)
  }

  function Compact(v: nat): nat {
    (Shifts(v) + 3) * 0x1000000 + Mantissa(v)
  }

  /** `to_target`: the loop never stops on its guard against a large exponent. */
  method ToTarget(v: nat) returns (r: Result)
    requires v <= U256_MAX
    ensures r == MakeTarget(Compact(v)) && Shifts(v) + 3 <= 32
  {
    FewShifts(v, 29);
    BytesOfU256();
    hide Pow256;
    var high: nat, low: nat := 3, v;
    while low > LOW_MAX && high < 0xff
      invariant Shifts(v) + 3 == high + Shifts(low) && Mantissa(v) == Mantissa(low) && low <= v
      decreases low
    {
      high, low := high + 1, low / 256;
    }
    r := MakeTarget(high * 0x1000000 + low);
  }

  /** `to_u256`. */
  function ToU256(target: nat): Result {
    var high, low := target / 0x1000000, target % 0x1000000;
    if high < 3 then BadShift
    else if low * Pow256(high - 3) > U256_MAX then TooBig
    else Ok(low * Pow256(high - 3))
  }

  // ----- size -----

  lemma BytesOfU256()
    ensures U256_MAX < 0x1000000 * Pow256(29)
  {
    assert Pow256(32) == 256 * Pow256(31) && Pow256(31) == 256 * Pow256(30) && Pow256(30) == 256 * Pow256(29);
  }

  /** At most `k` bytes are dropped exactly from values below 2^24 * 256^k. */
  lemma {:induction false} FewShifts(v: nat, k: nat)
    ensures Shifts(v) <= k <==> v < 0x1000000 * Pow256(k)
    decreases k
  {
    if v > LOW_MAX && k > 0 {
      FewShifts(v / 256, k - 1);
    } else if v <= LOW_MAX {
      assert 0x1000000 * Pow256(k) >= 0x1000000;
    }
  }

  lemma {:induction false} LeadingByte(v: nat)
    ensures Shifts(v) > 0 ==> Mantissa(v) >= 0x10000
  {
    if v > LOW_MAX {
      LeadingByte(v / 256);
    }
  }

  /** Accepted exactly below 2^224. */
  lemma AcceptedBelow(v: nat)
    ensures MakeTarget(Compact(v)).Ok? <==> v < 0x1000000 * Pow256(25)
  {
    FewShifts(v, 25);
    LeadingByte(v);
  }

  // ----- order -----

  lemma {:induction false} ShiftsMonotone(v: nat, w: nat)
    requires v <= w
    ensures Shifts(v) < Shifts(w) || (Shifts(v) == Shifts(w) && Mantissa(v) <= Mantissa(w))
    decreases w
  {
    if v > LOW_MAX {
      ShiftsMonotone(v / 256, w / 256);
    }
  }

  lemma CompactMonotone(v: nat, w: nat)
    requires v <= w
    ensures Compact(v) <= Compact(w)
  {
    ShiftsMonotone(v, w);
  }

  // ----- decoding -----

  /** The value that the compact form stands for. */
  function Decoded(v: nat): nat {
    Mantissa(v) * Pow256(Shifts(v))
  }

  lemma {:induction false} DecodedBelow(v: nat)
    ensures Decoded(v) <= v < Decoded(v) + Pow256(Shifts(v))
  {
    if v > LOW_MAX {
      DecodedBelow(v / 256);
      assert Decoded(v) == 256 * Decoded(v / 256) by {
        assert Pow256(Shifts(v)) == 256 * Pow256(Shifts(v / 256));
        Rearrange(Mantissa(v), Pow256(Shifts(v / 256)));
      }
    }
  }

  lemma Rearrange(m: nat, p: nat)
    ensures m * (256 * p) == 256 * (m * p)
  {
  }

  /** Decoding gives back that value. */
  lemma DecodeCompact(v: nat)
    requires v <= U256_MAX
    ensures ToU256(Compact(v)) == Ok(Decoded(v))
  {
    hide Pow256;
    DecodedBelow(v);
    assert Compact(v) / 0x1000000 == Shifts(v) + 3 && Compact(v) % 0x1000000 == Mantissa(v);
  }

  /** The relative error is below 2^-16; short values are exact. */
  lemma SmallError(v: nat)
    ensures Shifts(v) == 0 ==> Decoded(v) == v
    ensures v > 0 ==> (v - Decoded(v)) * 0x10000 < v
  {
    DecodedBelow(v);
    LeadingByte(v);
    if Shifts(v) > 0 {
      var p := Pow256(Shifts(v));
      assert Mantissa(v) * p >= 0x10000 * p by { Scale(0x10000, Mantissa(v), p); }
    }
  }

  lemma Scale(a: nat, b: nat, p: nat)
    requires a <= b
    ensures a * p <= b * p
  {
  }

  /** Encoding a decoded value gives the same compact form. */
  lemma {:induction false} EncodeDecoded(m: nat, e: nat)
    requires m <= LOW_MAX && (e > 0 ==> m >= 0x10000)
    ensures Shifts(m * Pow256(e)) == e && Mantissa(m * Pow256(e)) == m
    decreases e
  {
    if e > 0 {
      EncodeDecoded(m, e - 1);
      Rearrange(m, Pow256(e - 1));
      Scale(0x10000, m, Pow256(e - 1));
      assert m * Pow256(e) == 256 * (m * Pow256(e - 1));
    }
  }

  lemma ReencodeStable(v: nat)
    ensures Compact(Decoded(v)) == Compact(v)
  {
    LeadingByte(v);
    EncodeDecoded(Mantissa(v), Shifts(v));
  }
}
