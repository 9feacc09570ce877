/** The collider's flag word (OPC_Collider.h): its mask expressions are the operations of a
    record of four booleans, which is how the other modules use it. */
module ColliderFlags {
  import opened ClipMask

  const OPC_FIRST_CONTACT: nat := 1
  const OPC_TEMPORAL_COHERENCE: nat := 2
  const OPC_CONTACT: nat := 4
  const OPC_TEMPORAL_HIT: nat := 8
  const OPC_CONTACT_FOUND: nat := 5
  const OPC_TEMPORAL_CONTACT: nat := 12
  const ALL_BITS: nat := 0xffff_ffff

  datatype Flags = Flags(firstContact: bool, temporalCoherence: bool, contact: bool, temporalHit: bool) {
    predicate ContactFound() { firstContact && contact }
    function Contact(): Flags { this.(contact := true) }
    function TemporalContact(): Flags { this.(contact := true, temporalHit := true) }
    function InitQueryEx(): Flags { this.(contact := false, temporalHit := false) }
  }

  function Read(w: nat): Flags {
    Flags(Active(w, 0), Active(w, 1), Active(w, 2), Active(w, 3))
  }

  lemma {:induction false} AndBits(x: nat, y: nat, i: nat)
    ensures Active(BitAnd(x, y), i) <==> Active(x, i) && Active(y, i)
    decreases i
  {
    if x == 0 || y == 0 {
      ZeroInactive(i);
    } else if i > 0 {
      AndBits(x / 2, y / 2, i - 1);
    }
  }

  lemma SmallBits(w: nat)
    ensures Active(w, 0) <==> w % 2 == 1
    ensures Active(w, 1) <==> (w / 2) % 2 == 1
    ensures Active(w, 2) <==> (w / 4) % 2 == 1
    ensures Active(w, 3) <==> (w / 8) % 2 == 1
  {
    assert w / 2 / 2 == w / 4 && w / 4 / 2 == w / 8;
    assert Active(w, 2) <==> Active(w / 2, 1);
    assert Active(w, 3) <==> Active(w / 2, 2);
    assert Active(w / 2, 2) <==> Active(w / 4, 1);
  }

  lemma Or(w: nat, m: nat)
    ensures Read(BitOr(w, m)) ==
      Flags(Active(w, 0) || Active(m, 0), Active(w, 1) || Active(m, 1), Active(w, 2) || Active(m, 2), Active(w, 3) || Active(m, 3))
  {
    hide Active, BitOr;
    OrBits(w, m, 0);
    OrBits(w, m, 1);
    OrBits(w, m, 2);
    OrBits(w, m, 3);
  }

  lemma And(w: nat, m: nat)
    ensures Read(BitAnd(w, m)) ==
      Flags(Active(w, 0) && Active(m, 0), Active(w, 1) && Active(m, 1), Active(w, 2) && Active(m, 2), Active(w, 3) && Active(m, 3))
  {
    hide Active, BitAnd;
    AndBits(w, m, 0);
    AndBits(w, m, 1);
    AndBits(w, m, 2);
    AndBits(w, m, 3);
  }

  lemma Constants()
    ensures Read(OPC_FIRST_CONTACT) == Flags(true, false, false, false)
    ensures Read(OPC_TEMPORAL_COHERENCE) == Flags(false, true, false, false)
    ensures Read(OPC_CONTACT) == Flags(false, false, true, false)
    ensures Read(OPC_TEMPORAL_CONTACT) == Flags(false, false, true, true)
  {
    hide Active;
    SmallBits(OPC_FIRST_CONTACT);
    SmallBits(OPC_TEMPORAL_COHERENCE);
    SmallBits(OPC_CONTACT);
    SmallBits(OPC_TEMPORAL_CONTACT);
  }

  lemma Complements()
    ensures Read(ALL_BITS - OPC_FIRST_CONTACT) == Flags(false, true, true, true)
    ensures Read(ALL_BITS - OPC_TEMPORAL_COHERENCE) == Flags(true, false, true, true)
    ensures Read(ALL_BITS - OPC_TEMPORAL_CONTACT) == Flags(true, true, false, false)
  {
    hide Active;
    SmallBits(ALL_BITS - OPC_FIRST_CONTACT);
    SmallBits(ALL_BITS - OPC_TEMPORAL_COHERENCE);
    SmallBits(ALL_BITS - OPC_TEMPORAL_CONTACT);
  }

  /** mFlags |= flag */
  lemma SettingFlags(w: nat)
    ensures Read(BitOr(w, OPC_CONTACT)) == Read(w).Contact()
    ensures Read(BitOr(w, OPC_TEMPORAL_CONTACT)) == Read(w).TemporalContact()
    ensures Read(BitOr(w, OPC_FIRST_CONTACT)) == Read(w).(firstContact := true)
    ensures Read(BitOr(w, OPC_TEMPORAL_COHERENCE)) == Read(w).(temporalCoherence := true)
  {
    hide Active, BitOr;
    Constants();
    Or(w, OPC_CONTACT);
    Or(w, OPC_TEMPORAL_CONTACT);
    Or(w, OPC_FIRST_CONTACT);
    Or(w, OPC_TEMPORAL_COHERENCE);
  }

  /** mFlags &= ~flag */
  lemma ClearingFlags(w: nat)
    ensures Read(BitAnd(w, ALL_BITS - OPC_TEMPORAL_CONTACT)) == Read(w).InitQueryEx()
    ensures Read(BitAnd(w, ALL_BITS - OPC_FIRST_CONTACT)) == Read(w).(firstContact := false)
    ensures Read(BitAnd(w, ALL_BITS - OPC_TEMPORAL_COHERENCE)) == Read(w).(temporalCoherence := false)
  {
    hide Active, BitAnd;
    Complements();
    And(w, ALL_BITS - OPC_TEMPORAL_CONTACT);
    And(w, ALL_BITS - OPC_FIRST_CONTACT);
    And(w, ALL_BITS - OPC_TEMPORAL_COHERENCE);
  }

  /** The status getters; in particular ContactFound needs both bits of its mask. */
  lemma StatusGetters(w: nat)
    ensures BitAnd(w, OPC_CONTACT) != 0 <==> Read(w).contact
    ensures BitAnd(w, OPC_FIRST_CONTACT) != 0 <==> Read(w).firstContact
    ensures BitAnd(w, OPC_TEMPORAL_COHERENCE) != 0 <==> Read(w).temporalCoherence
    ensures BitAnd(w, OPC_TEMPORAL_HIT) != 0 <==> Read(w).temporalHit
    ensures BitAnd(w, OPC_CONTACT_FOUND) == OPC_CONTACT_FOUND <==> Read(w).ContactFound()
  {
    assert Pow2(0) == 1 && Pow2(1) == 2 && Pow2(2) == 4 && Pow2(3) == 8;
    AndIsActive(w, 0);
    AndIsActive(w, 1);
    AndIsActive(w, 2);
    AndIsActive(w, 3);
    And5(w);
    hide Active, BitAnd, Pow2;
  }

  lemma And5(w: nat)
    ensures BitAnd(w, 5) == 5 <==> Active(w, 0) && Active(w, 2)
  {
    SmallBits(w);
    if w != 0 {
      AndSmall(w, 5);
      AndSmall(w / 2, 2);
      AndSmall(w / 4, 1);
    }
    assert w / 2 / 2 == w / 4;
  }

  lemma AndSmall(x: nat, y: nat)
    requires y != 0
    ensures BitAnd(x, y) == (x % 2) * (y % 2) + 2 * BitAnd(x / 2, y / 2)
  {}
}
