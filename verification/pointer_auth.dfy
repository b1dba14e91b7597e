/** Signing, authenticating and stripping 64-bit pointers. The code of a pointer
    sits in its PAC field: the bits from `bottom` to `top`, except bit 55, which
    selects the translation table and stays in place. */
module PointerAuth {
  import opened Bits
  import opened Bitfields
  import opened PACHash

  const TABLE_BIT: nat := 55

  /** The field of a pointer with 48-bit addresses is Layout(48, 55): the top
      byte is ignored. Without an ignored top byte, `top` is 63. */
  datatype Layout = Layout(bottom: nat, top: nat) {
    predicate Valid() {
      (top == 55 || top == 63) && bottom < top - 2 && bottom <= 54
    }

    predicate HasTBI() {
      top == 55
    }

    predicate InField(j: nat) {
      bottom <= j <= top && j != TABLE_BIT
    }

    /** The low one of the two bits that report a failed authentication. */
    function ErrorBit(): nat
      requires Valid()
    {
      top - 2
    }
  }

  // ---- What the operations compute, bit by bit ----

  /** The pointer with bit 55 copied into its whole PAC field. */
  function Canonical(ptr: nat, l: Layout): nat {
    Word(64, CanonicalBit(ptr, l))
  }

  function CanonicalBit(ptr: nat, l: Layout): nat -> bool {
    (j: nat) => if l.InField(j) then Bit(ptr, TABLE_BIT) else Bit(ptr, j)
  }

  /** All bits of the PAC field agree with bit 55. */
  ghost predicate IsCanonical(ptr: nat, l: Layout) {
    forall j: nat :: l.InField(j) ==> Bit(ptr, j) == Bit(ptr, TABLE_BIT)
  }

  /** The signed pointer carries the hash of the canonical pointer in its field;
      the bit below the top is inverted if the pointer was not canonical. */
  ghost function Signed(ptr: nat, context: nat, key: PACKey, l: Layout): nat
    requires l.Valid()
  {
    Word(64, SignedBit(ptr, PAC(Canonical(ptr, l), context, key), IsCanonical(ptr, l), l))
  }

  function SignedBit(ptr: nat, pac: nat, clean: bool, l: Layout): nat -> bool
    requires l.Valid()
  {
    (j: nat) => if l.InField(j) then Bit(pac, j) != (!clean && j == l.top - 1) else Bit(ptr, j)
  }

  /** The field of the pointer holds the hash of the canonical pointer. */
  ghost predicate Accepts(ptr: nat, context: nat, key: PACKey, l: Layout) {
    forall j: nat :: l.InField(j) ==> Bit(ptr, j) == Bit(PAC(Canonical(ptr, l), context, key), j)
  }

  /** The canonical pointer with the two error bits holding `code`. */
  function Poisoned(ptr: nat, number: nat, l: Layout): nat
    requires l.Valid()
  {
    Word(64, PoisonedBit(ptr, number, l))
  }

  function PoisonedBit(ptr: nat, number: nat, l: Layout): nat -> bool
    requires l.Valid()
  {
    (j: nat) =>
      if l.ErrorBit() <= j < l.ErrorBit() + 2 then j == l.ErrorBit() + number
      else if l.InField(j) then Bit(ptr, TABLE_BIT)
      else Bit(ptr, j)
  }

  ghost function Authenticated(ptr: nat, context: nat, key: PACKey, l: Layout): nat
    requires l.Valid()
  {
    if Accepts(ptr, context, key, l) then Canonical(ptr, l) else Poisoned(ptr, key.number, l)
  }

  // ---- Their bits ----

  lemma CanonicalBits(ptr: nat, l: Layout)
    ensures Canonical(ptr, l) < Pow2(64)
    ensures forall j: nat :: Bit(Canonical(ptr, l), j) <==>
              j < 64 && if l.InField(j) then Bit(ptr, TABLE_BIT) else Bit(ptr, j)
  {
    hide Word, Bit, Pow2;
    WordBits(64, CanonicalBit(ptr, l));
  }

  lemma SignedBits(ptr: nat, context: nat, key: PACKey, l: Layout)
    requires l.Valid()
    ensures Signed(ptr, context, key, l) < Pow2(64)
    ensures forall j: nat :: Bit(Signed(ptr, context, key, l), j) <==> (j < 64 &&
              if l.InField(j) then
                Bit(PAC(Canonical(ptr, l), context, key), j) != (!IsCanonical(ptr, l) && j == l.top - 1)
              else Bit(ptr, j))
  {
    hide Word, Bit, Pow2, PAC, Canonical, IsCanonical;
    WordBits(64, SignedBit(ptr, PAC(Canonical(ptr, l), context, key), IsCanonical(ptr, l), l));
  }

  lemma PoisonedBits(ptr: nat, number: nat, l: Layout)
    requires l.Valid()
    ensures Poisoned(ptr, number, l) < Pow2(64)
    ensures forall j: nat :: Bit(Poisoned(ptr, number, l), j) <==> (j < 64 &&
              if l.ErrorBit() <= j < l.ErrorBit() + 2 then j == l.ErrorBit() + number
              else if l.InField(j) then Bit(ptr, TABLE_BIT) else Bit(ptr, j))
  {
    hide Word, Bit, Pow2;
    WordBits(64, PoisonedBit(ptr, number, l));
  }

  lemma CanonicalIsCanonical(ptr: nat, l: Layout)
    requires l.Valid()
    ensures IsCanonical(Canonical(ptr, l), l)
    ensures Bit(Canonical(ptr, l), TABLE_BIT) == Bit(ptr, TABLE_BIT)
  {
    hide Bit, Pow2, Canonical;
    CanonicalBits(ptr, l);
  }

  lemma CanonicalFixed(ptr: nat, l: Layout)
    requires l.Valid() && ptr < Pow2(64)
    ensures Canonical(ptr, l) == ptr <==> IsCanonical(ptr, l)
  {
    hide Bit, Pow2, Canonical;
    CanonicalIsCanonical(ptr, l);
    CanonicalBits(ptr, l);
    if IsCanonical(ptr, l) {
      SameWord(64, Canonical(ptr, l), ptr);
    }
  }

  // ---- The operations ----

  method CalculatePACMask(l: Layout) returns (mask: nat)
    requires l.Valid()
    ensures forall j: nat :: Bit(mask, j) <==> l.InField(j)
    ensures l.top == 55 ==> mask + Pow2(l.bottom) == Pow2(55)
    ensures l.top == 63 ==> mask + Pow2(l.bottom) + Pow2(55) == Pow2(64)
  {
    hide Bit, Pow2, And, Shr, Shl, Not64, ExtractUnsignedBitfield64;
    var tableMask := Shl(1, TABLE_BIT);
    var all := And(0xffff_ffff_ffff_ffff, Not64(tableMask));
    AllButTableBit(all);
    BoundByBits(all, 64);
    var field := ExtractUnsignedBitfield64(l.top, l.bottom, all);
    ExtractedBits(l.top, l.bottom, all);
    mask := Shl(field, l.bottom);
    forall j: nat
      ensures Bit(mask, j) <==> l.InField(j)
    {
      BitShl(field, l.bottom, j);
    }
    MaskValue(mask, l);
  }

  /** The mask as a number. */
  lemma MaskValue(mask: nat, l: Layout)
    requires l.Valid() && forall j: nat :: Bit(mask, j) <==> l.InField(j)
    ensures mask + Pow2(l.bottom) + (if l.top == 55 then 0 else Pow2(55)) == Pow2(l.top + if l.top == 55 then 0 else 1)
  {
    hide Bit, Pow2, Shl;
    var end := if l.top == 55 then 55 else 64;
    var run := Shl(Pow2(end - l.bottom) - 1, l.bottom);
    forall j: nat
      ensures Bit(run, j) <==> l.bottom <= j < end
    {
      BitShl(Pow2(end - l.bottom) - 1, l.bottom, j);
      if l.bottom <= j {
        BitOfMask(end - l.bottom, j - l.bottom);
      }
    }
    ShlIsMul(Pow2(end - l.bottom) - 1, l.bottom);
    MulDist(Pow2(end - l.bottom), -1, Pow2(l.bottom));
    Pow2Add(end - l.bottom, l.bottom);
    if l.top == 55 {
      SameBits(mask, run);
    } else {
      AddBit(mask, run, 55);
    }
  }

  lemma AllButTableBit(all: nat)
    requires all == And(0xffff_ffff_ffff_ffff, Not64(Shl(1, TABLE_BIT)))
    ensures forall j: nat :: Bit(all, j) <==> j < 64 && j != TABLE_BIT
  {
    Pow2Values();
    hide Bit, Pow2, And, Shl, Not64;
    ShlOfOne(TABLE_BIT);
    forall j: nat
      ensures Bit(all, j) <==> j < 64 && j != TABLE_BIT
    {
      BitAnd(0xffff_ffff_ffff_ffff, Not64(Shl(1, TABLE_BIT)), j);
      BitNot64(Shl(1, TABLE_BIT), j);
      BitOfPow2(TABLE_BIT, j);
      BitOfMask(64, j);
    }
  }

  lemma NoBits(x: nat)
    requires forall j: nat :: !Bit(x, j)
    ensures x == 0
  {
    hide *;
    ZeroBits();
    SameBits(x, 0);
  }

  /** StripPAC: also the first step of authenticating and signing. */
  method StripPAC(ptr: nat, l: Layout) returns (stripped: nat)
    requires l.Valid() && ptr < Pow2(64)
    ensures stripped == Canonical(ptr, l)
  {
    hide Bit, Pow2, And, Or, Shl, Not64, Canonical;
    var mask := CalculatePACMask(l);
    BitTest(ptr, TABLE_BIT);
    stripped := if And(ptr, Shl(1, TABLE_BIT)) == 0 then And(ptr, Not64(mask)) else Or(ptr, mask);
    Extended(ptr, mask, l);
  }

  /** Clearing or setting the masked bits makes the pointer canonical. */
  lemma Extended(ptr: nat, mask: nat, l: Layout)
    requires l.Valid() && ptr < Pow2(64)
    requires forall j: nat :: Bit(mask, j) <==> l.InField(j)
    ensures (if Bit(ptr, TABLE_BIT) then Or(ptr, mask) else And(ptr, Not64(mask))) == Canonical(ptr, l)
  {
    hide Bit, Pow2, And, Or, Not64, Canonical;
    CanonicalBits(ptr, l);
    var word := if Bit(ptr, TABLE_BIT) then Or(ptr, mask) else And(ptr, Not64(mask));
    forall j: nat
      ensures Bit(word, j) == Bit(Canonical(ptr, l), j)
    {
      BitOr(ptr, mask, j);
      BitAnd(ptr, Not64(mask), j);
      BitNot64(mask, j);
      if 64 <= j {
        BitHigh(ptr, 64, j);
      }
    }
    SameBits(word, Canonical(ptr, l));
  }

  method AddPAC(ptr: nat, context: nat, key: PACKey, l: Layout) returns (signed: nat)
    requires l.Valid() && l.HasTBI() && ptr < Pow2(64)
    ensures signed == Signed(ptr, context, key, l)
  {
    hide Bit, Pow2, And, Or, Xor, Shl, Shr, Not64, Canonical, PAC, IsCanonical, Signed, Layout.InField, Layout.Valid;
    var ttbr := And(Shr(ptr, 55), 1);
    TableBitValue(ptr);
    var mask := CalculatePACMask(l);
    var ext := if ttbr == 0 then And(ptr, Not64(mask)) else Or(ptr, mask);
    Extended(ptr, mask, l);
    var pac := ComputePAC(ext, context, key);
    ghost var hash := pac;
    MixedField(ptr, mask, l);
    if And(ptr, Or(mask, Shl(1, TABLE_BIT))) != 0 && And(Not64(ptr), Or(mask, Shl(1, TABLE_BIT))) != 0 {
      pac := Xor(pac, Shl(1, l.top - 1));
      FlipBit(hash, l.top - 1);
    }
    signed := Or(Or(And(pac, mask), Shl(ttbr, 55)), And(ptr, Not64(mask)));
    Assembled(ptr, pac, mask, ttbr, signed, l);
    IsSigned(ptr, context, key, pac, signed, l);
  }

  lemma IsSigned(ptr: nat, context: nat, key: PACKey, pac: nat, signed: nat, l: Layout)
    requires l.Valid()
    requires forall j: nat :: Bit(pac, j) ==
               (Bit(PAC(Canonical(ptr, l), context, key), j) != (!IsCanonical(ptr, l) && j == l.top - 1))
    requires forall j: nat :: Bit(signed, j) <==> (j < 64 && if l.InField(j) then Bit(pac, j) else Bit(ptr, j))
    ensures signed == Signed(ptr, context, key, l)
  {
    hide Bit, Pow2, Canonical, PAC, IsCanonical, Signed;
    SignedBits(ptr, context, key, l);
    SameBits(signed, Signed(ptr, context, key, l));
  }

  lemma TableBitValue(ptr: nat)
    ensures And(Shr(ptr, 55), 1) == if Bit(ptr, TABLE_BIT) then 1 else 0
  {
    hide Bit, And, Shr, Low;
    BitShr(ptr, 55, 0);
    assert Pow2(1) - 1 == 1;
    AndMask(Shr(ptr, 55), 1);
    assert Low(Shr(ptr, 55), 1) == Shr(ptr, 55) % 2 by {
      ShrLowAreDivMod(Shr(ptr, 55), 1);
    }
    BitIsOdd(Shr(ptr, 55));
  }

  lemma BitIsOdd(x: nat)
    ensures Bit(x, 0) <==> x % 2 == 1
  {
  }

  lemma FlipBit(x: nat, k: nat)
    ensures forall j: nat :: Bit(Xor(x, Shl(1, k)), j) == (Bit(x, j) != (j == k))
  {
    hide *;
    ShlOfOne(k);
    forall j: nat
      ensures Bit(Xor(x, Shl(1, k)), j) == (Bit(x, j) != (j == k))
    {
      BitXor(x, Shl(1, k), j);
      BitOfPow2(k, j);
    }
  }

  /** The pointer has both a set and a clear bit in its field and bit 55 exactly
      if it is not canonical. */
  lemma MixedField(ptr: nat, mask: nat, l: Layout)
    requires l.Valid()
    requires forall j: nat :: Bit(mask, j) <==> l.InField(j)
    ensures (And(ptr, Or(mask, Shl(1, TABLE_BIT))) != 0 && And(Not64(ptr), Or(mask, Shl(1, TABLE_BIT))) != 0)
            <==> !IsCanonical(ptr, l)
  {
    hide Bit, Pow2, And, Or, Shl, Not64;
    var around := Or(mask, Shl(1, TABLE_BIT));
    AroundBits(ptr, mask, l);
    ZeroBits();
    if And(ptr, around) == 0 {
      assert forall j: nat :: l.InField(j) || j == TABLE_BIT ==> !Bit(ptr, j);
    } else if And(Not64(ptr), around) == 0 {
      assert forall j: nat :: l.InField(j) || j == TABLE_BIT ==> Bit(ptr, j);
    } else if IsCanonical(ptr, l) {
      NoBits(if Bit(ptr, TABLE_BIT) then And(Not64(ptr), around) else And(ptr, around));
    }
  }

  lemma AroundBits(ptr: nat, mask: nat, l: Layout)
    requires l.Valid()
    requires forall j: nat :: Bit(mask, j) <==> l.InField(j)
    ensures var around := Or(mask, Shl(1, TABLE_BIT));
            forall j: nat ::
              && (Bit(And(ptr, around), j) <==> (l.InField(j) || j == TABLE_BIT) && Bit(ptr, j))
              && (Bit(And(Not64(ptr), around), j) <==> (l.InField(j) || j == TABLE_BIT) && !Bit(ptr, j))
  {
    hide Bit, Pow2, And, Or, Shl, Not64;
    var around := Or(mask, Shl(1, TABLE_BIT));
    ShlOfOne(TABLE_BIT);
    forall j: nat
      ensures
        && (Bit(And(ptr, around), j) <==> (l.InField(j) || j == TABLE_BIT) && Bit(ptr, j))
        && (Bit(And(Not64(ptr), around), j) <==> (l.InField(j) || j == TABLE_BIT) && !Bit(ptr, j))
    {
      BitAnd(ptr, around, j);
      BitAnd(Not64(ptr), around, j);
      BitNot64(ptr, j);
      BitOr(mask, Shl(1, TABLE_BIT), j);
      BitOfPow2(TABLE_BIT, j);
    }
  }

  lemma Assembled(ptr: nat, pac: nat, mask: nat, ttbr: nat, signed: nat, l: Layout)
    requires l.Valid() && ptr < Pow2(64)
    requires forall j: nat :: Bit(mask, j) <==> l.InField(j)
    requires ttbr == if Bit(ptr, TABLE_BIT) then 1 else 0
    requires signed == Or(Or(And(pac, mask), Shl(ttbr, 55)), And(ptr, Not64(mask)))
    ensures forall j: nat :: Bit(signed, j) <==> (j < 64 && if l.InField(j) then Bit(pac, j) else Bit(ptr, j))
  {
    hide Bit, Pow2, And, Or, Shl, Not64;
    ShlOfOne(55);
    forall j: nat
      ensures Bit(signed, j) <==> (j < 64 && if l.InField(j) then Bit(pac, j) else Bit(ptr, j))
    {
      BitOr(Or(And(pac, mask), Shl(ttbr, 55)), And(ptr, Not64(mask)), j);
      BitOr(And(pac, mask), Shl(ttbr, 55), j);
      BitAnd(pac, mask, j);
      BitAnd(ptr, Not64(mask), j);
      BitNot64(mask, j);
      BitOfPow2(55, j);
      BitZero(j);
      if 64 <= j {
        BitHigh(ptr, 64, j);
      }
    }
  }

  method AuthPAC(ptr: nat, context: nat, key: PACKey, l: Layout) returns (result: nat)
    requires l.Valid() && ptr < Pow2(64)
    requires key.number < 2
    ensures result == Authenticated(ptr, context, key, l)
  {
    hide Bit, Pow2, And, Or, Xor, Shl, Shr, Not64, Canonical, PAC, Accepts, Poisoned;
    var mask := CalculatePACMask(l);
    BitTest(ptr, TABLE_BIT);
    var original := if And(ptr, Shl(1, TABLE_BIT)) == 0 then And(ptr, Not64(mask)) else Or(ptr, mask);
    Extended(ptr, mask, l);
    var pac := ComputePAC(original, context, key);
    var errorCode := Shl(1, key.number);
    CompareFields(ptr, context, key, mask, l);
    if And(pac, mask) == And(ptr, mask) {
      return original;
    }
    var errorMask := Shl(3, l.ErrorBit());
    result := Or(And(original, Not64(errorMask)), Shl(errorCode, l.ErrorBit()));
    WriteError(ptr, key.number, result, l);
  }

  lemma CompareFields(ptr: nat, context: nat, key: PACKey, mask: nat, l: Layout)
    requires forall j: nat :: Bit(mask, j) <==> l.InField(j)
    ensures And(PAC(Canonical(ptr, l), context, key), mask) == And(ptr, mask) <==> Accepts(ptr, context, key, l)
  {
    hide Bit, And, Canonical, PAC;
    var pac := PAC(Canonical(ptr, l), context, key);
    forall j: nat
      ensures Bit(And(pac, mask), j) <==> l.InField(j) && Bit(pac, j)
      ensures Bit(And(ptr, mask), j) <==> l.InField(j) && Bit(ptr, j)
    {
      BitAnd(pac, mask, j);
      BitAnd(ptr, mask, j);
    }
    if Accepts(ptr, context, key, l) {
      SameBits(And(pac, mask), And(ptr, mask));
    }
  }

  lemma WriteError(ptr: nat, number: nat, result: nat, l: Layout)
    requires l.Valid() && number < 2
    requires result == Or(And(Canonical(ptr, l), Not64(Shl(3, l.ErrorBit()))), Shl(Shl(1, number), l.ErrorBit()))
    ensures result == Poisoned(ptr, number, l)
  {
    hide Bit, Pow2, And, Or, Shl, Not64, Canonical, Poisoned;
    var e := l.ErrorBit();
    CanonicalBits(ptr, l);
    PoisonedBits(ptr, number, l);
    ShlShl(1, number, e);
    ShlOfOne(number + e);
    Pow2Values();
    forall j: nat
      ensures Bit(result, j) == Bit(Poisoned(ptr, number, l), j)
    {
      BitOr(And(Canonical(ptr, l), Not64(Shl(3, e))), Shl(Shl(1, number), e), j);
      BitAnd(Canonical(ptr, l), Not64(Shl(3, e)), j);
      BitNot64(Shl(3, e), j);
      BitShl(3, e, j);
      if e <= j {
        BitOfMask(2, j - e);
      }
      BitOfPow2(number + e, j);
    }
    SameBits(result, Poisoned(ptr, number, l));
  }

  // ---- Signing and authenticating undo each other ----

  /** Signing does not change what the canonical pointer is. */
  lemma SignedKeepsCanonical(ptr: nat, context: nat, key: PACKey, l: Layout)
    requires l.Valid() && ptr < Pow2(64)
    ensures Canonical(Signed(ptr, context, key, l), l) == Canonical(ptr, l)
    ensures Signed(ptr, context, key, l) < Pow2(64)
  {
    hide Bit, Pow2, Canonical, Signed, PAC, IsCanonical;
    SignedBits(ptr, context, key, l);
    CanonicalBits(ptr, l);
    CanonicalBits(Signed(ptr, context, key, l), l);
    assert Bit(Signed(ptr, context, key, l), TABLE_BIT) == Bit(ptr, TABLE_BIT);
    SameWord(64, Canonical(Signed(ptr, context, key, l), l), Canonical(ptr, l));
  }

  /** A signed pointer authenticates exactly if the pointer was canonical. */
  lemma AcceptsSigned(ptr: nat, context: nat, key: PACKey, l: Layout)
    requires l.Valid() && ptr < Pow2(64)
    ensures Accepts(Signed(ptr, context, key, l), context, key, l) <==> IsCanonical(ptr, l)
  {
    hide Bit, Pow2, Canonical, Signed, PAC, IsCanonical;
    SignedBits(ptr, context, key, l);
    SignedKeepsCanonical(ptr, context, key, l);
    if !IsCanonical(ptr, l) {
      assert l.InField(l.top - 1);
    }
  }

  /** Authenticating a signed pointer gives the pointer back if it was canonical,
      and its poisoned form otherwise. */
  lemma AuthenticateUndoesSign(ptr: nat, context: nat, key: PACKey, l: Layout)
    requires l.Valid() && ptr < Pow2(64) && key.number < 2
    ensures Authenticated(Signed(ptr, context, key, l), context, key, l)
            == if IsCanonical(ptr, l) then ptr else Poisoned(ptr, key.number, l)
  {
    hide Bit, Pow2, Canonical, Signed, PAC, IsCanonical, Accepts, Poisoned;
    AcceptsSigned(ptr, context, key, l);
    SignedKeepsCanonical(ptr, context, key, l);
    CanonicalFixed(ptr, l);
    PoisonedDependsOnCanonical(Signed(ptr, context, key, l), ptr, key.number, l);
  }

  lemma PoisonedDependsOnCanonical(p: nat, q: nat, number: nat, l: Layout)
    requires l.Valid() && number < 2 && Canonical(p, l) == Canonical(q, l)
    ensures Poisoned(p, number, l) == Poisoned(q, number, l)
  {
    hide Bit, Pow2, Canonical, Poisoned;
    PoisonedBits(p, number, l);
    PoisonedBits(q, number, l);
    CanonicalBits(p, l);
    CanonicalBits(q, l);
    forall j: nat | j < 64
      ensures Bit(Poisoned(p, number, l), j) == Bit(Poisoned(q, number, l), j)
    {
      assert Bit(Canonical(p, l), j) == Bit(Canonical(q, l), j);
    }
    SameWord(64, Poisoned(p, number, l), Poisoned(q, number, l));
  }

  /** The error bits hold the code of a key, and all other bits of the field agree
      with bit 55. */
  ghost predicate HoldsError(ptr: nat, number: nat, l: Layout)
    requires l.Valid() && number < 2
  {
    && Bit(ptr, l.ErrorBit() + number)
    && !Bit(ptr, l.ErrorBit() + 1 - number)
    && forall j: nat :: l.InField(j) && !(l.ErrorBit() <= j < l.ErrorBit() + 2) ==> Bit(ptr, j) == Bit(ptr, TABLE_BIT)
  }

  /** Poisoning changes nothing exactly if the pointer holds the key's error. */
  lemma PoisonedFixed(ptr: nat, number: nat, l: Layout)
    requires l.Valid() && ptr < Pow2(64) && number < 2
    ensures Poisoned(ptr, number, l) == ptr <==> HoldsError(ptr, number, l)
  {
    hide Bit, Pow2, Poisoned;
    PoisonedBits(ptr, number, l);
    if HoldsError(ptr, number, l) {
      SameWord(64, Poisoned(ptr, number, l), ptr);
    }
  }

  /** Poisoning twice is poisoning once. */
  lemma PoisonedTwice(ptr: nat, number: nat, l: Layout)
    requires l.Valid() && number < 2
    ensures Poisoned(Poisoned(ptr, number, l), number, l) == Poisoned(ptr, number, l)
    ensures Poisoned(ptr, number, l) < Pow2(64)
  {
    hide Bit, Pow2, Poisoned;
    var once := Poisoned(ptr, number, l);
    PoisonedBits(ptr, number, l);
    PoisonedBits(once, number, l);
    SameWord(64, Poisoned(once, number, l), once);
  }

  /** Signing and then authenticating gives the pointer back exactly if it was
      canonical or already held the error of the key. */
  lemma RoundTripExactly(ptr: nat, context: nat, key: PACKey, l: Layout)
    requires l.Valid() && ptr < Pow2(64) && key.number < 2
    ensures Authenticated(Signed(ptr, context, key, l), context, key, l) == ptr
            <==> IsCanonical(ptr, l) || HoldsError(ptr, key.number, l)
  {
    hide Bit, Pow2, Signed, PAC, IsCanonical, Poisoned, Authenticated, HoldsError;
    AuthenticateUndoesSign(ptr, context, key, l);
    PoisonedFixed(ptr, key.number, l);
  }

  /** Every result of a failed authentication holds the error of its key: it is not
      canonical, and signing and authenticating it gives it back all the same. */
  lemma FailureSurvivesRoundTrip(ptr: nat, context: nat, key: PACKey, l: Layout)
    requires l.Valid() && key.number < 2 && !Accepts(ptr, context, key, l)
    ensures var failed := Authenticated(ptr, context, key, l);
            && !IsCanonical(failed, l) && HoldsError(failed, key.number, l)
            && Authenticated(Signed(failed, context, key, l), context, key, l) == failed
  {
    var failed := Authenticated(ptr, context, key, l);
    assert failed == Poisoned(ptr, key.number, l);
    hide Bit, Pow2, Signed, PAC, IsCanonical, Accepts, Poisoned, Authenticated, HoldsError;
    PoisonedTwice(ptr, key.number, l);
    PoisonedFixed(failed, key.number, l);
    RejectionIsVisible(ptr, context, key, l);
    RoundTripExactly(failed, context, key, l);
  }

  /** The result of a failed authentication, as a number: the canonical pointer with
      the bit 2^(top - 2 + number) added if bit 55 is clear, and with the other error
      bit taken away if it is set. */
  lemma PoisonedValue(ptr: nat, number: nat, l: Layout)
    requires l.Valid() && number < 2
    ensures Bit(Poisoned(ptr, number, l), l.top - 2 + number) && !Bit(Poisoned(ptr, number, l), l.top - 1 - number)
    ensures if Bit(ptr, 55) then Poisoned(ptr, number, l) + Pow2(l.top - 1 - number) == Canonical(ptr, l)
            else Poisoned(ptr, number, l) == Canonical(ptr, l) + Pow2(l.top - 2 + number)
  {
    hide Bit, Pow2, Poisoned, Canonical;
    CanonicalBits(ptr, l);
    PoisonedBits(ptr, number, l);
    if Bit(ptr, 55) {
      AddBit(Poisoned(ptr, number, l), Canonical(ptr, l), l.top - 1 - number);
    } else {
      AddBit(Canonical(ptr, l), Poisoned(ptr, number, l), l.top - 2 + number);
    }
  }

  /** Whatever the input, the result is canonical exactly if it was accepted; a
      rejected one shows the key's number in its error bits. */
  lemma RejectionIsVisible(ptr: nat, context: nat, key: PACKey, l: Layout)
    requires l.Valid() && key.number < 2
    ensures IsCanonical(Authenticated(ptr, context, key, l), l) <==> Accepts(ptr, context, key, l)
    ensures !Accepts(ptr, context, key, l) ==>
              var result := Authenticated(ptr, context, key, l);
              && Bit(result, l.top - 2 + key.number)
              && !Bit(result, l.top - 1 - key.number)
  {
    hide Bit, Pow2, Canonical, PAC, Accepts, Poisoned;
    CanonicalIsCanonical(ptr, l);
    PoisonedBits(ptr, key.number, l);
    var e := l.ErrorBit();
    assert l.InField(e) && l.InField(e + 1);
  }

  /** The only pointer that authenticates, among those that differ in their PAC
      field alone, is the signed canonical one. */
  lemma OnlySignedIsAccepted(ptr: nat, context: nat, key: PACKey, l: Layout)
    requires l.Valid() && ptr < Pow2(64)
    ensures Accepts(ptr, context, key, l) <==> ptr == Signed(Canonical(ptr, l), context, key, l)
  {
    hide Bit, Pow2, Canonical, Signed, PAC, IsCanonical;
    var c := Canonical(ptr, l);
    CanonicalBits(ptr, l);
    CanonicalIsCanonical(ptr, l);
    CanonicalFixed(c, l);
    AcceptsSigned(c, context, key, l);
    SignedBits(c, context, key, l);
    if Accepts(ptr, context, key, l) {
      SameWord(64, ptr, Signed(c, context, key, l));
    }
  }

  // ---- The check made by branches and loads ----

  /** What an authenticating branch or load does with the result: it stops unless
      both error bits are clear. */
  method AuthenticatedAddress(ptr: nat, context: nat, key: PACKey, l: Layout) returns (address: nat, failed: bool)
    requires l.Valid() && ptr < Pow2(64)
    requires key.number < 2
    ensures address == Authenticated(ptr, context, key, l)
    ensures !failed <==> Accepts(ptr, context, key, l) && !Bit(ptr, TABLE_BIT)
  {
    hide Pow2, Canonical, PAC, Accepts, Poisoned, Authenticated, Shr, And, Bit;
    address := AuthPAC(ptr, context, key, l);
    failed := And(Shr(address, l.ErrorBit()), 3) != 0;
    TwoBits(address, l.ErrorBit());
    PassesCheck(ptr, context, key, l);
  }

  lemma TwoBits(x: nat, e: nat)
    ensures And(Shr(x, e), 3) == 0 <==> !Bit(x, e) && !Bit(x, e + 1)
  {
    var y := Shr(x, e);
    assert And(y, 3) == 0 <==> !Bit(y, 0) && !Bit(y, 1) by {
      AndStep(y, 3);
      AndStep(y / 2, 1);
      AndZero(y / 2 / 2);
      assert Bit(y, 1) == Bit(y / 2, 0);
    }
    hide *;
    BitShr(x, e, 0);
    BitShr(x, e, 1);
  }

  /** The check passes exactly for accepted pointers whose bit 55 is clear: an
      accepted pointer with bit 55 set is stopped like a forged one. */
  lemma PassesCheck(ptr: nat, context: nat, key: PACKey, l: Layout)
    requires l.Valid() && key.number < 2
    ensures (var result := Authenticated(ptr, context, key, l);
             !Bit(result, l.top - 2) && !Bit(result, l.top - 1))
            <==> Accepts(ptr, context, key, l) && !Bit(ptr, 55)
  {
    hide Bit, Pow2, Canonical, PAC, Accepts, Poisoned, IsCanonical;
    RejectionIsVisible(ptr, context, key, l);
    CanonicalBits(ptr, l);
    assert l.InField(l.ErrorBit()) && l.InField(l.ErrorBit() + 1);
  }

  /** Every canonical pointer with bit 55 set authenticates back to itself once it is
      signed, and the check stops it all the same: both its error bits are set. */
  lemma UpperPointerIsStopped(ptr: nat, context: nat, key: PACKey, l: Layout)
    requires l.Valid() && key.number < 2
    requires ptr < Pow2(64) && IsCanonical(ptr, l) && Bit(ptr, 55)
    ensures var signed := Signed(ptr, context, key, l);
            && Accepts(signed, context, key, l)
            && Authenticated(signed, context, key, l) == ptr
            && Bit(ptr, l.top - 2) && Bit(ptr, l.top - 1)
  {
    hide Bit, Pow2, Canonical, PAC, Accepts, Poisoned, Signed, Authenticated;
    AuthenticateUndoesSign(ptr, context, key, l);
    AcceptsSigned(ptr, context, key, l);
    assert l.InField(l.ErrorBit()) && l.InField(l.ErrorBit() + 1);
  }

  /** The all-ones word is such a pointer. */
  lemma OnesAreCanonical(l: Layout)
    requires l.Valid()
    ensures 0xffff_ffff_ffff_ffff < Pow2(64)
    ensures IsCanonical(0xffff_ffff_ffff_ffff, l) && Bit(0xffff_ffff_ffff_ffff, TABLE_BIT)
  {
    Pow2Values();
    hide Bit, Pow2;
    BitOfMask(64, TABLE_BIT);
    forall j: nat | l.InField(j)
      ensures Bit(0xffff_ffff_ffff_ffff, j)
    {
      BitOfMask(64, j);
    }
  }
}
