/** Fields of 64-bit words, and words as signed integers. */
module Bitfields {
  import opened Bits

  const WRAP: nat := 0x1_0000_0000_0000_0000

  /** The 64-bit word of an integer. */
  function Word64(x: int): nat {
    x % WRAP
  }

  /** The signed integer of a 64-bit word. */
  function AsInt64(w: nat): int {
    if w < 0x8000_0000_0000_0000 then w else w - WRAP
  }

  /** It is the only integer of the signed range that has this word. */
  lemma AsInt64Is(w: nat, x: int)
    requires w < WRAP
    ensures AsInt64(w) == x <==> -0x8000_0000_0000_0000 <= x < 0x8000_0000_0000_0000 && Word64(x) == w
  {
  }

  // ---- Extraction ----

  lemma BoundByBits(x: nat, k: nat)
    requires forall j: nat :: Bit(x, j) ==> j < k
    ensures x < Pow2(k)
  {
    hide *;
    forall j: nat
      ensures Bit(x, j) == Bit(Low(x, k), j)
    {
      BitLow(x, k, j);
    }
    SameBits(x, Low(x, k));
    Split(x, k);
  }

  /** The bits of a word from lsb to msb. */
  function ExtractUnsignedBitfield64(msb: nat, lsb: nat, x: nat): nat
    requires lsb <= msb < 64
  {
    if msb == 63 && lsb == 0 then x
    else
      ShlOfOne(1 + msb - lsb);
      And(Shr(x, lsb), Shl(1, 1 + msb - lsb) - 1)
  }

  lemma Bitfield(msb: nat, lsb: nat, x: nat)
    requires lsb <= msb < 64 && (x < Pow2(64) || msb - lsb < 63)
    ensures ExtractUnsignedBitfield64(msb, lsb, x) == Low(Shr(x, lsb), 1 + msb - lsb)
  {
    hide Pow2, And, Low;
    ShlOfOne(1 + msb - lsb);
    AndMask(Shr(x, lsb), 1 + msb - lsb);
    if msb == 63 && lsb == 0 {
      LowOfSmall(x, 64);
    }
  }

  /** Bit j of the field is bit j + lsb of the word, up to msb. */
  lemma ExtractedBits(msb: nat, lsb: nat, x: nat)
    requires lsb <= msb < 64 && x < Pow2(64)
    ensures forall j: nat ::
              Bit(ExtractUnsignedBitfield64(msb, lsb, x), j) <==> j <= msb - lsb && Bit(x, j + lsb)
  {
    hide *;
    Bitfield(msb, lsb, x);
    forall j: nat
      ensures Bit(ExtractUnsignedBitfield64(msb, lsb, x), j) <==> j <= msb - lsb && Bit(x, j + lsb)
    {
      BitLow(Shr(x, lsb), 1 + msb - lsb, j);
      BitShr(x, lsb, j);
    }
  }

  /** The field read as a signed integer: its top bit counts negatively. */
  method ExtractSignedBitfield64(msb: nat, lsb: nat, x: nat) returns (result: int)
    requires lsb <= msb < 64 && x < Pow2(64)
    ensures var field := Low(Shr(x, lsb), msb - lsb + 1);
            result == if Bit(x, msb) then field - Pow2(msb - lsb + 1) else field
  {
    hide Bit, Pow2, Or, Shr, Low, HighOnes, AsInt64, ExtractUnsignedBitfield64;
    var temp := ExtractUnsignedBitfield64(msb, lsb, x);
    ExtractedBits(msb, lsb, x);
    FieldIsLow(temp, msb, lsb, x);
    TopOfField(temp, msb - lsb);
    if Shr(temp, msb - lsb) == 1 {
      FieldFits(temp, msb - lsb);
      OrHighOnes(temp, msb - lsb);
      temp := Or(temp, HighOnes(msb - lsb));
    }
    result := AsInt64(temp);
    SignedField(Low(Shr(x, lsb), msb - lsb + 1), msb - lsb);
  }

  lemma FieldIsLow(field: nat, msb: nat, lsb: nat, x: nat)
    requires lsb <= msb
    requires forall j: nat :: Bit(field, j) <==> j <= msb - lsb && Bit(x, j + lsb)
    ensures field == Low(Shr(x, lsb), msb - lsb + 1) && field < Pow2(msb - lsb + 1)
    ensures Bit(field, msb - lsb) == Bit(x, msb)
  {
    hide Bit, Pow2, Shr, Low;
    forall j: nat
      ensures Bit(field, j) == Bit(Low(Shr(x, lsb), msb - lsb + 1), j)
    {
      BitLow(Shr(x, lsb), msb - lsb + 1, j);
      BitShr(x, lsb, j);
    }
    SameBits(field, Low(Shr(x, lsb), msb - lsb + 1));
    Split(Shr(x, lsb), msb - lsb + 1);
  }

  lemma TopOfField(field: nat, k: nat)
    requires field < Pow2(k + 1)
    ensures Shr(field, k) == if Bit(field, k) then 1 else 0
    ensures Bit(field, k) <==> field >= Pow2(k)
  {
    hide Bit, Pow2, Shr;
    Pow2Step(k + 1);
    BitOfShr(field, k);
    ShrLowAreDivMod(field, k);
    if field < Pow2(k) {
      DivUnique(field, Pow2(k), 0, field);
    } else {
      DivUnique(field, Pow2(k), 1, field - Pow2(k));
    }
  }

  lemma FieldFits(field: nat, k: nat)
    requires k < 64 && field < Pow2(k + 1)
    ensures field < WRAP
  {
    Pow2Values();
    hide Pow2;
    if k < 63 {
      Pow2Grows(k + 1, 64);
    }
  }

  lemma SignedField(field: nat, k: nat)
    requires k < 64 && field < Pow2(k + 1)
    ensures field < Pow2(k) ==> AsInt64(field) == field
    ensures field >= Pow2(k) ==> AsInt64(HighOnes(k) + field % Pow2(k)) == field - Pow2(k + 1)
  {
    Pow2Values();
    hide Pow2;
    Pow2Step(k + 1);
    if k < 63 {
      Pow2Grows(k, 63);
    }
    if field >= Pow2(k) {
      DivUnique(field, Pow2(k), 1, field - Pow2(k));
    }
  }

  // ---- Setting the upper bits ----

  /** A 64-bit word with all bits from h up. */
  function HighOnes(h: nat): (w: nat)
    requires h < 64
    ensures w + Pow2(h) == WRAP
  {
    Pow2Grows(h, 64);
    Pow2Values();
    WRAP - Pow2(h)
  }

  /** Setting all bits from h up keeps the h bits below. */
  lemma OrHighOnes(y: nat, h: nat)
    requires h < 64 && y < WRAP
    ensures Or(y, HighOnes(h)) == HighOnes(h) + y % Pow2(h)
  {
    Pow2Values();
    hide Pow2, Or, Bit, Low, Shl;
    var ones := Pow2(64 - h) - 1;
    ShlIsMul(ones, h);
    Pow2Add(64 - h, h);
    MulDist(Pow2(64 - h), -1, Pow2(h));
    assert Shl(ones, h) == HighOnes(h);
    ShrLowAreDivMod(y, h);
    Split(y, h);
    OrIsSum(ones, h, Low(y, h));
    forall j: nat
      ensures Bit(Or(y, Shl(ones, h)), j) == Bit(Or(Shl(ones, h), Low(y, h)), j)
    {
      BitOr(y, Shl(ones, h), j);
      BitOr(Shl(ones, h), Low(y, h), j);
      BitShl(ones, h, j);
      BitLow(y, h, j);
      if h <= j {
        BitOfMask(64 - h, j - h);
        if 64 <= j {
          BitHigh(y, 64, j);
        }
      }
    }
    SameBits(Or(y, Shl(ones, h)), Or(Shl(ones, h), Low(y, h)));
  }
}
