/** Bit vectors used as sets of small indices (hw4/include/custom_functions.h:27, 38-39). */
module SlotBits {

  const SLOTS: nat := 64
  const PRINTERS: nat := 32

  lemma Narrow(i: nat)
    requires i < SLOTS
    ensures (i as bv8) as int == i
  {
  }

  // `i` as a shift amount.
  function Shift(i: nat): (k: bv8)
    requires i < SLOTS
    ensures k < 64
    ensures i < PRINTERS ==> k < 32
  {
    Narrow(i);
    i as bv8
  }

  lemma ShiftIsInjective(i: nat, j: nat)
    requires i < SLOTS && j < SLOTS && Shift(i) == Shift(j)
    ensures i == j
  {
    Narrow(i);
    Narrow(j);
  }

  predicate BitAt(x: bv64, k: bv8)
    requires k < 64
  {
    (x >> k) & 1 != 0
  }

  predicate Bit(x: bv64, i: nat)
    requires i < SLOTS
  {
    BitAt(x, Shift(i))
  }

  function With(x: bv64, i: nat): bv64
    requires i < SLOTS
  {
    x | ((1 as bv64) << Shift(i))
  }

  function Flipped(x: bv64, i: nat): bv64
    requires i < SLOTS
  {
    x ^ ((1 as bv64) << Shift(i))
  }

  lemma WithAt(x: bv64, i: bv8, j: bv8)
    requires i < 64 && j < 64
    ensures BitAt(x | ((1 as bv64) << i), j) <==> i == j || BitAt(x, j)
  {
  }

  lemma FlippedAt(x: bv64, i: bv8, j: bv8)
    requires i < 64 && j < 64
    ensures BitAt(x ^ ((1 as bv64) << i), j) <==> if i == j then !BitAt(x, j) else BitAt(x, j)
  {
  }

  lemma WithBits(x: bv64, i: nat)
    requires i < SLOTS
    ensures forall j: nat | j < SLOTS :: Bit(With(x, i), j) <==> i == j || Bit(x, j)
  {
    forall j: nat | j < SLOTS
      ensures Bit(With(x, i), j) <==> i == j || Bit(x, j)
    {
      WithAt(x, Shift(i), Shift(j));
      if Shift(i) == Shift(j) { ShiftIsInjective(i, j); }
    }
  }

  lemma FlippedBits(x: bv64, i: nat)
    requires i < SLOTS
    ensures forall j: nat | j < SLOTS ::
      Bit(Flipped(x, i), j) <==> if i == j then !Bit(x, j) else Bit(x, j)
  {
    forall j: nat | j < SLOTS
      ensures Bit(Flipped(x, i), j) <==> if i == j then !Bit(x, j) else Bit(x, j)
    {
      FlippedAt(x, Shift(i), Shift(j));
      if Shift(i) == Shift(j) { ShiftIsInjective(i, j); }
    }
  }

  lemma AllSet(x: bv64, i: nat)
    requires i < SLOTS && !x == 0
    ensures Bit(x, i)
  {
    AllSetAt(x, Shift(i));
  }

  lemma AllSetAt(x: bv64, k: bv8)
    requires k < 64 && !x == 0
    ensures BitAt(x, k)
  {
  }

  lemma NoneSet(i: nat)
    requires i < SLOTS
    ensures !Bit(0, i)
  {
    NoneSetAt(Shift(i));
  }

  lemma NoneSetAt(k: bv8)
    requires k < 64
    ensures !BitAt(0, k)
  {
  }

  // The printer set of a job: bit `p` is 1 when printer `p` may take it.
  predicate Has(chosen: bv32, p: nat)
    requires p < PRINTERS
  {
    HasAt(chosen, Shift(p))
  }

  predicate HasAt(chosen: bv32, k: bv8)
    requires k < 32
  {
    chosen & ((1 as bv32) << k) != 0
  }

  function Plus(chosen: bv32, p: nat): bv32
    requires p < PRINTERS
  {
    chosen | ((1 as bv32) << Shift(p))
  }

  lemma PlusAt(chosen: bv32, i: bv8, j: bv8)
    requires i < 32 && j < 32
    ensures HasAt(chosen | ((1 as bv32) << i), j) <==> i == j || HasAt(chosen, j)
  {
  }

  lemma PlusHas(chosen: bv32, i: nat)
    requires i < PRINTERS
    ensures forall j: nat | j < PRINTERS :: Has(Plus(chosen, i), j) <==> i == j || Has(chosen, j)
  {
    forall j: nat | j < PRINTERS
      ensures Has(Plus(chosen, i), j) <==> i == j || Has(chosen, j)
    {
      PlusAt(chosen, Shift(i), Shift(j));
      if Shift(i) == Shift(j) { ShiftIsInjective(i, j); }
    }
  }

  // `0` chooses no printer and `~0` all of them.
  lemma NoneAndAll(p: nat)
    requires p < PRINTERS
    ensures !Has(0, p) && Has(!(0 as bv32), p)
  {
    NoneAndAllAt(Shift(p));
  }

  lemma NoneAndAllAt(k: bv8)
    requires k < 32
    ensures !HasAt(0, k) && HasAt(!(0 as bv32), k)
  {
  }
}
