/** The domain parameters of P-256 as the tables of bootloader/crypto/ecdsa_p256.c give them. */
module P256 {
  import opened Limbs
  import opened PointArithmetic
  import opened Curve
  import Ecdsa

  const P: int := 0xFFFFFFFF_00000001_00000000_00000000_00000000_FFFFFFFF_FFFFFFFF_FFFFFFFF
  const B: int := 0x5AC635D8_AA3A93E7_B3EBBD55_769886BC_651D06B0_CC53B0F6_3BCE3C3E_27D2604B
  const GX: int := 0x6B17D1F2_E12C4247_F8BCE6E5_63A440F2_77037D81_2DEB33A0_F4A13945_D898C296
  const GY: int := 0x4FE342E2_FE1A7F9B_8EE7EB4A_7C0F9E16_2BCE3357_6B315ECE_CBB64068_37BF51F5
  const N: int := 0xFFFFFFFF_00000000_FFFFFFFF_FFFFFFFF_BCE6FAAD_A7179E84_F3B9CAC2_FC632551

  const P_LIMBS: Number :=
    [0xFFFFFFFF, 0xFFFFFFFF, 0xFFFFFFFF, 0x00000000, 0x00000000, 0x00000000, 0x00000001, 0xFFFFFFFF]
  const B_LIMBS: Number :=
    [0x27D2604B, 0x3BCE3C3E, 0xCC53B0F6, 0x651D06B0, 0x769886BC, 0xB3EBBD55, 0xAA3A93E7, 0x5AC635D8]
  const GX_LIMBS: Number :=
    [0xD898C296, 0xF4A13945, 0x2DEB33A0, 0x77037D81, 0x63A440F2, 0xF8BCE6E5, 0xE12C4247, 0x6B17D1F2]
  const GY_LIMBS: Number :=
    [0x37BF51F5, 0xCBB64068, 0x6B315ECE, 0x2BCE3357, 0x7C0F9E16, 0x8EE7EB4A, 0xFE1A7F9B, 0x4FE342E2]
  const N_LIMBS: Number :=
    [0xFC632551, 0xF3B9CAC2, 0xA7179E84, 0xBCE6FAAD, 0xFFFFFFFF, 0xFFFFFFFF, 0x00000000, 0xFFFFFFFF]

  /** The field and the coefficient are those of the tables. */
  predicate IsField(f: Parameters) { f.p == P && f.pLimbs == P_LIMBS && f.b == B && f.bLimbs == B_LIMBS }

  /** So are the generator and its order. */
  predicate IsP256(d: Ecdsa.Domain) { IsField(d.field) && d.gx == GX_LIMBS && d.gy == GY_LIMBS && d.order == N_LIMBS }

  /** The limb tables spell the numbers of the standard. */
  lemma FieldIsSpelled(f: Parameters)
    requires IsField(f)
    ensures Spelled(f)
  {
    hide Value;
    Spell8(f.pLimbs);
    Spell8(f.bLimbs);
  }

  lemma TablesSpell(d: Ecdsa.Domain)
    requires IsP256(d)
    ensures Value(d.gx) == GX && Value(d.gy) == GY && Value(d.order) == N
  {
    hide Value;
    Spell8(d.gx);
    Spell8(d.gy);
    Spell8(d.order);
  }

  lemma GeneratorOnCurve(x: int, y: int)
    requires x == GX && y == GY
    ensures AffineDefect(x, y, B) % P == 0
  {
  }

  lemma TwiceTheOrder(n: nat, order: int)
    requires n == LIMBS && order == N
    ensures Weight(n) < 2 * order && P < 2 * order
  {
    Weights(n);
  }

  lemma Weights(n: nat)
    requires n == LIMBS
    ensures Weight(n) == 0x1_00000000_00000000_00000000_00000000_00000000_00000000_00000000_00000000
  {
    hide Weight;
    WeightStep(0);
    WeightStep(1);
    WeightStep(2);
    WeightStep(3);
    WeightStep(4);
    WeightStep(5);
    WeightStep(6);
    WeightStep(7);
    Empty();
  }

  /** The tables are domain parameters of the kind that the verifier is proved for. */
  lemma TablesAreValid(d: Ecdsa.Domain)
    requires IsP256(d)
    ensures d.Valid()
  {
    hide Value, Weight, AffineDefect;
    TablesSpell(d);
    GeneratorOnCurve(GX, GY);
    TwiceTheOrder(LIMBS, N);
  }
}
