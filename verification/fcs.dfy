/**
 The 16-bit frame check sequence of RFC 1662, Appendix C.2 (CRC-16/X.25):
 reflected polynomial 0x8408, initial register 0xFFFF, final complement.
 The register never leaves 16 bits, so it is modelled as a `bv16` and the
 final `& 0xFFFF` mask of the original is the identity.
 */
module Fcs {

  type Byte = bv8
  type Bytes = seq<bv8>

  /** Initial register value (RFC 1662 PPPINITFCS16). */
  const InitFcs: bv16 := 0xFFFF
  /** Register value after a frame body followed by its own FCS (PPPGOODFCS16). */
  const GoodFcs: bv16 := 0xF0B8
  /** Reflected CCITT polynomial. */
  const Poly: bv16 := 0x8408

  /** One shift of the bitwise CRC loop. */
  function Shift(fcs: bv16): bv16
  {
    if fcs & 1 == 1 then (fcs >> 1) ^ Poly else fcs >> 1
  }

  /** Folds one octet into the register: xor into the low byte, then eight shifts. */
  function Update(fcs: bv16, b: Byte): bv16
  {
    var x := fcs ^ (b as bv16);
    Shift(Shift(Shift(Shift(Shift(Shift(Shift(Shift(x))))))))
  }

  /** The register after folding every octet of `data`, left to right. */
  function Accumulate(fcs: bv16, data: Bytes): bv16
    decreases |data|
  {
    if |data| == 0 then fcs else Accumulate(Update(fcs, data[0]), data[1..])
  }

  /** `fcs16_ppp`: the complemented register over the whole input. */
  function Fcs16(data: Bytes): (r: bv16)
  {
    Accumulate(InitFcs, data) ^ 0xFFFF
  }

  /** The FCS as transmitted: low octet first. */
  function FcsOctets(fcs: bv16): (r: Bytes)
    ensures |r| == 2
    ensures (r[0] as bv16) | ((r[1] as bv16) << 8) == fcs
  {
    [(fcs & 0xFF) as bv8, ((fcs >> 8) & 0xFF) as bv8]
  }

  /** Folding a concatenation is folding the parts in turn: the checksum can be
      computed incrementally over arbitrarily split input. */
  lemma {:induction false} AccumulateAppend(fcs: bv16, a: Bytes, b: Bytes)
    ensures Accumulate(fcs, a + b) == Accumulate(Accumulate(fcs, a), b)
    decreases |a|
  {
    if |a| == 0 {
      assert a + b == b;
    } else {
      assert (a + b)[1..] == a[1..] + b;
      AccumulateAppend(Update(fcs, a[0]), a[1..], b);
    }
  }

  /** The empty input has FCS 0x0000. */
  lemma EmptyFcs()
    ensures Fcs16([]) == 0x0000
  {
  }

  /** The standard CRC-16/X.25 check value: the FCS of ASCII "123456789" is 0x906E. */
  lemma CheckValue()
    ensures Fcs16([0x31, 0x32, 0x33, 0x34, 0x35, 0x36, 0x37, 0x38, 0x39]) == 0x906E
  {
    var s: Bytes := [0x31, 0x32, 0x33, 0x34, 0x35, 0x36, 0x37, 0x38, 0x39];
    assert s[1..] == [0x32, 0x33, 0x34, 0x35, 0x36, 0x37, 0x38, 0x39];
    assert s[2..] == [0x33, 0x34, 0x35, 0x36, 0x37, 0x38, 0x39];
    assert s[3..] == [0x34, 0x35, 0x36, 0x37, 0x38, 0x39];
    assert s[4..] == [0x35, 0x36, 0x37, 0x38, 0x39];
    assert s[5..] == [0x36, 0x37, 0x38, 0x39];
    assert s[6..] == [0x37, 0x38, 0x39];
    assert s[7..] == [0x38, 0x39];
    assert s[8..] == [0x39];
    assert s[9..] == [];
  }

  /** Inverse of `Shift`: the polynomial has its top bit set, so the top bit of
      a shifted register tells whether the polynomial was folded in. */
  function Unshift(y: bv16): bv16
  {
    if y & 0x8000 != 0 then ((y ^ Poly) << 1) | 1 else y << 1
  }

  function Unshift8(y: bv16): bv16
  {
    Unshift(Unshift(Unshift(Unshift(Unshift(Unshift(Unshift(Unshift(y))))))))
  }

  lemma UnshiftShift(x: bv16)
    ensures Unshift(Shift(x)) == x
  {
  }

  /** Eight unshifts undo `Update`, leaving the register xor the octet. */
  lemma UnshiftUpdate(fcs: bv16, b: Byte)
    ensures Unshift8(Update(fcs, b)) == fcs ^ (b as bv16)
  {
    var x := fcs ^ (b as bv16);
    UnshiftShift(x);
    UnshiftShift(Shift(x));
    UnshiftShift(Shift(Shift(x)));
    UnshiftShift(Shift(Shift(Shift(x))));
    UnshiftShift(Shift(Shift(Shift(Shift(x)))));
    UnshiftShift(Shift(Shift(Shift(Shift(Shift(x))))));
    UnshiftShift(Shift(Shift(Shift(Shift(Shift(Shift(x)))))));
    UnshiftShift(Shift(Shift(Shift(Shift(Shift(Shift(Shift(x))))))));
  }

  /** Any register followed by its own complement, low octet first, ends in GoodFcs. */
  lemma ComplementReachesGood(fcs: bv16)
    ensures Update(Update(fcs, ((fcs ^ 0xFFFF) & 0xFF) as bv8), ((fcs ^ 0xFFFF) >> 8) as bv8) == GoodFcs
  {
  }

  lemma GoodPreimage(hi: Byte)
    ensures Unshift8(Unshift8(GoodFcs) ^ (hi as bv16)) ^ ((hi as bv16) << 8) == 0xFFFF
  {
  }

  lemma GoodOnlyFromComplement(fcs: bv16, lo: Byte, hi: Byte)
    requires Update(Update(fcs, lo), hi) == GoodFcs
    ensures (lo as bv16) | ((hi as bv16) << 8) == fcs ^ 0xFFFF
  {
    var s := Update(fcs, lo);
    UnshiftUpdate(s, hi);
    UnshiftUpdate(fcs, lo);
    GoodPreimage(hi);
    assert s == Unshift8(GoodFcs) ^ (hi as bv16);
    assert fcs ^ (lo as bv16) == Unshift8(s);
  }

  lemma ComplementOctets(fcs: bv16, lo: Byte, hi: Byte)
    requires (lo as bv16) | ((hi as bv16) << 8) == fcs ^ 0xFFFF
    ensures lo == ((fcs ^ 0xFFFF) & 0xFF) as bv8 && hi == ((fcs ^ 0xFFFF) >> 8) as bv8
  {
  }

  /** Two octets drive a register to GoodFcs exactly when they are the
      complement of that register, low octet first. */
  lemma ResidueStep(fcs: bv16, lo: Byte, hi: Byte)
    ensures Update(Update(fcs, lo), hi) == GoodFcs
        <==> (lo as bv16) | ((hi as bv16) << 8) == fcs ^ 0xFFFF
  {
    if Update(Update(fcs, lo), hi) == GoodFcs {
      GoodOnlyFromComplement(fcs, lo, hi);
    }
    if (lo as bv16) | ((hi as bv16) << 8) == fcs ^ 0xFFFF {
      ComplementOctets(fcs, lo, hi);
      ComplementReachesGood(fcs);
    }
  }

  lemma AccumulateTwo(fcs: bv16, lo: Byte, hi: Byte)
    ensures Accumulate(fcs, [lo, hi]) == Update(Update(fcs, lo), hi)
  {
    assert [lo, hi][1..] == [hi];
    assert [hi][1..] == [];
    assert Accumulate(fcs, [lo, hi]) == Accumulate(Update(fcs, lo), [hi]);
    assert Accumulate(Update(fcs, lo), [hi]) == Accumulate(Update(Update(fcs, lo), hi), []);
  }

  /** Section C.2 of RFC 1662: a receiver that runs the FCS over the body and the
      two trailing FCS octets finds GoodFcs exactly when those octets are the FCS
      of the body. So the deframer's "recompute and compare" check is the RFC's
      "good final FCS" check. */
  lemma GoodFcsIffMatch(payload: Bytes, lo: Byte, hi: Byte)
    ensures Accumulate(InitFcs, payload + [lo, hi]) == GoodFcs
        <==> (lo as bv16) | ((hi as bv16) << 8) == Fcs16(payload)
  {
    var r := Accumulate(InitFcs, payload);
    AccumulateAppend(InitFcs, payload, [lo, hi]);
    AccumulateTwo(r, lo, hi);
    ResidueStep(r, lo, hi);
    assert Fcs16(payload) == r ^ 0xFFFF;
  }

  /** One octet step loses no information: different values of the register
      xor the octet give different results. */
  lemma UpdateInjective(f: bv16, b: Byte, g: bv16, c: Byte)
    requires f ^ (b as bv16) != g ^ (c as bv16)
    ensures Update(f, b) != Update(g, c)
  {
    UnshiftUpdate(f, b);
    UnshiftUpdate(g, c);
  }

  /** Registers that differ stay different over any further input. */
  lemma {:induction false} AccumulateInjective(f: bv16, g: bv16, s: Bytes)
    requires f != g
    ensures Accumulate(f, s) != Accumulate(g, s)
    decreases |s|
  {
    if |s| > 0 {
      UpdateInjective(f, s[0], g, s[0]);
      AccumulateInjective(Update(f, s[0]), Update(g, s[0]), s[1..]);
    }
  }

  /** Folding a prefix, one octet, then the rest. */
  lemma AccumulateAround(f: bv16, pre: Bytes, b: Byte, post: Bytes)
    ensures Accumulate(f, pre + ([b] + post)) == Accumulate(Update(Accumulate(f, pre), b), post)
  {
    AccumulateAppend(f, pre, [b] + post);
    assert ([b] + post)[1..] == post;
  }

  /** The FCS register detects every single-octet change of its input. */
  lemma ChangedOctetChangesRegister(s: Bytes, i: nat, x: Byte)
    requires i < |s| && x != s[i]
    ensures Accumulate(InitFcs, s[i := x]) != Accumulate(InitFcs, s)
  {
    var pre, post := s[..i], s[i + 1..];
    var r := Accumulate(InitFcs, pre);
    assert Accumulate(InitFcs, s) == Accumulate(Update(r, s[i]), post) by {
      assert s == pre + ([s[i]] + post);
      AccumulateAround(InitFcs, pre, s[i], post);
    }
    assert Accumulate(InitFcs, s[i := x]) == Accumulate(Update(r, x), post) by {
      assert s[i := x] == pre + ([x] + post);
      AccumulateAround(InitFcs, pre, x, post);
    }
    assert Update(r, x) != Update(r, s[i]) by {
      assert r ^ (x as bv16) != r ^ (s[i] as bv16);
      UpdateInjective(r, x, r, s[i]);
    }
    AccumulateInjective(Update(r, x), Update(r, s[i]), post);
  }
}
