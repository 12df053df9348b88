/**
 * Bounded secure-random sampling (`getSecureRandom` and `getSecureRandomUint`
 * in src/modules/crypto.js).
 *
 * The platform's random source is a parameter: the sampler receives the
 * sequence of 32-bit words `getSecureRandomUint` would return, in order. The
 * source's loop runs until a draw is accepted; over a finite sequence the
 * model returns `None` when every draw is rejected.
 *
 * Masking follows JavaScript: `&` converts both operands with ToInt32, so for a
 * span of 2^31 or more the mask `2^32 - 1` is the int32 value -1 and the
 * masked draw may be negative.
 */
module SecureRandom {
  import opened Types
  import opened JsNumber

  /** `getSecureRandomUint`: four random bytes read big-endian, as `DataView.getUint32(0)` does. */
  function ReadUint32(b: seq<Byte>): (x: Uint32)
    requires |b| == 4
    ensures x / 0x100_0000 == b[0] && x % 0x100 == b[3]
  {
    var low := (b[1] as int) * 0x1_0000 + (b[2] as int) * 0x100 + b[3] as int;
    DivModUnique((b[0] as int) * 0x100_0000 + low, 0x100_0000, b[0], low);
    DivModUnique((b[0] as int) * 0x100_0000 + low, 0x100, (b[0] as int) * 0x1_0000 + (b[1] as int) * 0x100 + b[2] as int, b[3]);
    (b[0] as int) * 0x100_0000 + low
  }

  /** The four big-endian bytes of a 32-bit word: the reference the reading is checked against. */
  function Uint32Bytes(x: Uint32): (b: seq<Byte>)
    ensures |b| == 4
  {
    var y := x / 0x100;
    var z := y / 0x100;
    [z / 0x100, z % 0x100, y % 0x100, x % 0x100]
  }

  lemma ReadUint32OfBytes(x: Uint32)
    ensures ReadUint32(Uint32Bytes(x)) == x
  {
    var y := x / 0x100;
    var z := y / 0x100;
    assert x == 0x100 * y + x % 0x100;
    assert y == 0x100 * z + y % 0x100;
    assert z == 0x100 * (z / 0x100) + z % 0x100;
  }

  lemma BytesOfReadUint32(b: seq<Byte>)
    requires |b| == 4
    ensures Uint32Bytes(ReadUint32(b)) == b
  {
    var x := ReadUint32(b);
    var y := (b[0] as int) * 0x1_0000 + (b[1] as int) * 0x100 + b[2] as int;
    var z := (b[0] as int) * 0x100 + b[1] as int;
    DivModUnique(x, 0x100, y, b[3]);
    DivModUnique(y, 0x100, z, b[2]);
    DivModUnique(z, 0x100, b[0], b[1]);
  }

  function Abs(x: int): (r: nat)
    ensures r == x || r == -x
  {
    if x < 0 then -x else x
  }

  /** `(to - from).toString(2).length`: the bit length of the span, the least `bits` with `span < 2^bits`. */
  function MaskBits(span: nat): (bits: nat)
    ensures 1 <= bits && span < Pow2(bits)
    ensures span >= 1 ==> Pow2(bits - 1) <= span
  {
    BinaryLength(span);
    |ToRadixString(span, 2)|
  }

  /**
   * `randUint & (Math.pow(2, bits) - 1)`, with the int32 conversions of `&`: an
   * int32 value whose low 32 bits are the low `bits` bits of the draw.
   */
  function Masked(draw: Uint32, bits: nat): (m: int)
    ensures -TWO_31 <= m < TWO_31
    ensures 1 <= bits <= 32 ==> ToUint32(m) == draw % Pow2(bits)
  {
    assert 1 <= bits <= 32 ==> ToUint32(BitAnd(draw, Pow2(bits) - 1)) == draw % Pow2(bits) by {
      if 1 <= bits <= 32 {
        Pow2Constants();
        Pow2Monotone(bits, 32);
        AndLowMask(draw, bits, 32);
      }
    }
    BitAnd(draw, Pow2(bits) - 1)
  }

  /**
   * The loop exits on a draw whose masked value does not exceed the span. Below
   * 2^31 that is the low bits of the draw; from 2^31 on every draw is accepted.
   */
  function Accepts(span: nat, draw: Uint32): (ok: bool)
    ensures span < TWO_31 ==> (ok <==> draw % Pow2(MaskBits(span)) <= span)
    ensures TWO_31 <= span ==> ok
  {
    assert span < TWO_31 ==> Masked(draw, MaskBits(span)) == draw % Pow2(MaskBits(span)) by {
      if span < TWO_31 {
        NarrowDrawAgrees(span, draw);
      }
    }
    Masked(draw, MaskBits(span)) <= span
  }

  /**
   * The value returned for an accepted draw: `from + Math.abs(masked)`. It never
   * exceeds `from + 2^31`, and below 2^31 `Math.abs` leaves the low bits unchanged.
   */
  function Pick(from: int, span: nat, draw: Uint32): (r: int)
    ensures from <= r <= from + TWO_31
    ensures span < TWO_31 ==> r == from + draw % Pow2(MaskBits(span))
  {
    assert span < TWO_31 ==> Masked(draw, MaskBits(span)) == draw % Pow2(MaskBits(span)) by {
      if span < TWO_31 {
        NarrowDrawAgrees(span, draw);
      }
    }
    from + Abs(Masked(draw, MaskBits(span)))
  }

  /** The mask covers the span; for a positive span fewer than half of the masked values are rejected. */
  lemma MaskBitsBounds(span: nat)
    requires span < TWO_32
    ensures 1 <= MaskBits(span) <= 32
    ensures span <= Pow2(MaskBits(span)) - 1
    ensures span > 0 ==> Pow2(MaskBits(span)) - 1 < 2 * span + 1
    ensures span > 0 ==> 2 * (span + 1) > Pow2(MaskBits(span))
  {
    var bits := MaskBits(span);
    BinaryLength(span);
    Pow2Constants();
    if span >= 1 {
      Pow2Order(bits - 1, 32);
    }
  }

  /** With int32 masking, a mask of at most 31 bits keeps the draw modulo 2^bits; the 32-bit mask reinterprets it as signed. */
  lemma MaskedValue(draw: Uint32, bits: nat)
    requires 1 <= bits <= 32
    ensures bits <= 31 ==> Masked(draw, bits) == draw % Pow2(bits)
    ensures bits == 32 ==> Masked(draw, bits) == ToInt32(draw)
  {
    Pow2Constants();
    Pow2Monotone(bits, 32);
    AndLowMask(draw, bits, 32);
    if bits <= 31 {
      Pow2Monotone(bits, 31);
    }
  }

  /** Every accepted draw yields a value in `[from, from + span]`. */
  lemma PickInRange(from: int, span: nat, draw: Uint32)
    requires span < TWO_32 && Accepts(span, draw)
    ensures from <= Pick(from, span, draw) <= from + span
  {
    var bits := MaskBits(span);
    MaskBitsBounds(span);
    MaskedValue(draw, bits);
    if bits == 32 {
      BinaryLength(span);
      Pow2Constants();
    }
  }

  /** The value of `getSecureRandom(from, to)` when the random source yields `draws`. */
  function Sample(from: int, to: int, draws: seq<Uint32>): (r: Option<int>)
    requires from <= to < from + TWO_32
    ensures r.Some? ==> from <= r.value <= to
  {
    if draws == [] then None
    else if Accepts(to - from, draws[0]) then
      PickInRange(from, to - from, draws[0]);
      Some(Pick(from, to - from, draws[0]))
    else Sample(from, to, draws[1..])
  }

  /** The result is the first accepted draw; every earlier draw was rejected. */
  lemma {:induction false} SampleIsFirstAccepted(from: int, to: int, draws: seq<Uint32>, k: nat)
    requires from <= to < from + TWO_32
    requires k < |draws| && Accepts(to - from, draws[k])
    requires forall j | 0 <= j < k :: !Accepts(to - from, draws[j])
    ensures Sample(from, to, draws) == Some(Pick(from, to - from, draws[k]))
  {
    if k > 0 {
      SampleIsFirstAccepted(from, to, draws[1..], k - 1);
    }
  }

  /** No value is produced exactly when every draw is rejected. */
  lemma {:induction false} SampleNoneIffAllRejected(from: int, to: int, draws: seq<Uint32>)
    requires from <= to < from + TWO_32
    ensures Sample(from, to, draws).None? <==> forall j | 0 <= j < |draws| :: !Accepts(to - from, draws[j])
  {
    if draws != [] {
      SampleNoneIffAllRejected(from, to, draws[1..]);
      assert forall j | 1 <= j < |draws| :: draws[j] == draws[1..][j - 1];
    }
  }

  /** A single-value range: one binary digit, only an even draw is accepted, and the value is `x`. */
  lemma {:induction false} DegenerateRange(x: int, draws: seq<Uint32>)
    ensures MaskBits(0) == 1
    ensures forall d: Uint32 :: Accepts(0, d) <==> d % 2 == 0
    ensures Sample(x, x, draws).Some? ==> Sample(x, x, draws).value == x
    ensures Sample(x, x, draws).Some? <==> exists j | 0 <= j < |draws| :: draws[j] % 2 == 0
  {
    forall d: Uint32
      ensures Accepts(0, d) <==> d % 2 == 0
    {
      MaskedValue(d, 1);
    }
    SampleNoneIffAllRejected(x, x, draws);
  }

  /** The source's loop over the draws the random source yields, in order. */
  method GetSecureRandom(from: int, to: int, draws: seq<Uint32>) returns (r: Option<int>)
    requires from <= to < from + TWO_32
    ensures r == Sample(from, to, draws)
    ensures r.Some? ==> from <= r.value <= to
  {
    if |draws| == 0 {
      return None;
    }
    var i := 0;
    var randUint := draws[0];
    var bits := MaskBits(to - from);
    while Masked(randUint, bits) > to - from
      invariant 0 <= i < |draws| && randUint == draws[i]
      invariant forall j | 0 <= j < i :: !Accepts(to - from, draws[j])
      decreases |draws| - i
    {
      assert !Accepts(to - from, draws[i]);
      if i + 1 == |draws| {
        SampleNoneIffAllRejected(from, to, draws);
        return None;
      }
      i := i + 1;
      randUint := draws[i];
    }
    assert Accepts(to - from, draws[i]);
    r := Some(from + Abs(Masked(randUint, bits)));
    assert r == Some(Pick(from, to - from, draws[i]));
    SampleIsFirstAccepted(from, to, draws, i);
  }

  // ---------------------------------------------------------------------------
  // Spans of 2^31 and more: the int32 mask.
  // ---------------------------------------------------------------------------

  /** For a span of 2^31 or more every draw is accepted and the result never exceeds `from + 2^31`. */
  lemma WideSpanResultsCapped(from: int, to: int, draw: Uint32)
    requires TWO_31 <= to - from < TWO_32
    ensures Accepts(to - from, draw)
    ensures Pick(from, to - from, draw) <= from + TWO_31
  {
    WideMaskBits(to - from);
    MaskedValue(draw, 32);
  }

  /** Hence `to` itself is never returned once the span exceeds 2^31. */
  lemma {:induction false} WideSpanMissesTop(from: int, to: int, draws: seq<Uint32>)
    requires TWO_31 < to - from < TWO_32
    ensures Sample(from, to, draws) != Some(to)
  {
    if draws != [] {
      WideSpanResultsCapped(from, to, draws[0]);
    }
  }

  /** A span of 2^31 or more has 32 binary digits. */
  lemma WideMaskBits(span: nat)
    requires TWO_31 <= span < TWO_32
    ensures MaskBits(span) == 32
  {
    MaskBitsBounds(span);
    Pow2Constants();
    Pow2Order(31, MaskBits(span));
  }

  /** Two different draws fold onto the same value: 1 and 2^32 - 1 both give `from + 1` on `[0, 2^32 - 1]`. */
  lemma WideSpanFoldsDraws()
    ensures Pick(0, TWO_32 - 1, 1) == Pick(0, TWO_32 - 1, TWO_32 - 1) == 1
  {
    WideMaskBits(TWO_32 - 1);
    MaskedValue(1, 32);
    MaskedValue(TWO_32 - 1, 32);
  }

  // ---------------------------------------------------------------------------
  // The evidently intended sampler: the mask applied to the unsigned draw.
  // ---------------------------------------------------------------------------

  /** `(randUint & mask) >>> 0`: the masked draw read back as unsigned. */
  function MaskedUnsigned(draw: Uint32, bits: nat): (m: int)
    requires 1 <= bits <= 32
    ensures m == draw % Pow2(bits)
  {
    Pow2Constants();
    Pow2Monotone(bits, 32);
    AndLowMask(draw, bits, 32);
    ToUint32(BitAnd(draw, Pow2(bits) - 1))
  }

  function SampleUnsigned(from: int, to: int, draws: seq<Uint32>): (r: Option<int>)
    requires from <= to < from + TWO_32
    ensures r.Some? ==> from <= r.value <= to
  {
    MaskBitsBounds(to - from);
    if draws == [] then None
    else if MaskedUnsigned(draws[0], MaskBits(to - from)) <= to - from then
      Some(from + MaskedUnsigned(draws[0], MaskBits(to - from)))
    else SampleUnsigned(from, to, draws[1..])
  }

  /** Every value of the range is produced by some draw: the draw `v - from` itself. */
  lemma EveryValueReachable(from: int, to: int, v: int)
    requires from <= v <= to < from + TWO_32
    ensures SampleUnsigned(from, to, [v - from]) == Some(v)
  {
    var bits := MaskBits(to - from);
    MaskBitsBounds(to - from);
    DivModUnique(v - from, Pow2(bits), 0, v - from);
    assert SampleUnsigned(from, to, [v - from]) == Some(from + MaskedUnsigned(v - from, bits));
  }

  /** Below 2^31 the signed and the unsigned masking agree draw by draw. */
  lemma NarrowDrawAgrees(span: nat, draw: Uint32)
    requires span < TWO_31
    ensures 1 <= MaskBits(span) <= 31
    ensures Masked(draw, MaskBits(span)) == MaskedUnsigned(draw, MaskBits(span))
  {
    var bits := MaskBits(span);
    MaskBitsBounds(span);
    BinaryLength(span);
    Pow2Constants();
    if span >= 1 {
      Pow2Order(bits - 1, 31);
    }
    MaskedValue(draw, bits);
  }

  /** Below 2^31 the source's sampler and the unsigned one agree on every draw sequence. */
  lemma {:induction false} NarrowSpansAgree(from: int, to: int, draws: seq<Uint32>)
    requires from <= to && to - from < TWO_31
    ensures Sample(from, to, draws) == SampleUnsigned(from, to, draws)
  {
    if draws != [] {
      NarrowDrawAgrees(to - from, draws[0]);
      NarrowSpansAgree(from, to, draws[1..]);
    }
  }
}
