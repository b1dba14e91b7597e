/** Where the arguments of a call are passed: a small allocator that hands out
    general registers, vector registers and stack slots, one argument at a time. */
module ArgumentPassing {

  /** A C++ argument type, by what the allocator looks at. Enumerations are integral. */
  datatype ArgType =
    | Floating(bytes: nat)
    | Integral(bytes: nat, alignment: nat)
    | Pointer(hostAlignment: nat)
  {
    predicate IsFloatingPoint() {
      Floating?
    }

    function Alignment(): nat {
      match this
      case Floating(b) => b
      case Integral(_, a) => a
      case Pointer(a) => a
    }

    /** Pointers have the size of the target's, whatever the host's. */
    function Size(): nat {
      if Pointer? then 8 else bytes
    }

    /** A basic type of at most eight bytes; as for every C++ type, its alignment
        divides its size. */
    predicate IsSmall() {
      1 <= Size() <= 8 && Alignment() > 0 && Size() % Alignment() == 0
    }
  }

  datatype Operand =
    | CPURegister(number: nat, bits: nat)
    | VRegister(number: nat, bits: nat)
    | Stacked(offset: nat, bytes: nat)
    | Unimplemented

  const REGISTERS: nat := 8
  const SLOT: nat := 8

  function AlignUp(x: nat, alignment: nat): nat
    requires alignment > 0
  {
    (x + alignment - 1) / alignment * alignment
  }

  function Max(a: nat, b: nat): nat {
    if a < b then b else a
  }

  datatype Counters = Counters(ngrn: nat, nsrn: nat, stackOffset: nat)

  /** What one argument does to the allocator. */
  function Next(s: Counters, t: ArgType): (Counters, Operand) {
    var size := t.Size();
    var operandSize := AlignUp(size, 4);
    if size > 8 then (s, Unimplemented)
    else if t.IsFloatingPoint() && s.nsrn < REGISTERS then
      (s.(nsrn := s.nsrn + 1), VRegister(s.nsrn, size * 8))
    else if t.IsFloatingPoint() then
      (s.(stackOffset := s.stackOffset + SLOT), Stacked(s.stackOffset, operandSize))
    else if s.ngrn < REGISTERS then
      (s.(ngrn := s.ngrn + 1), CPURegister(s.ngrn, operandSize * 8))
    else
      var offset := AlignUp(s.stackOffset, Max(t.Alignment(), SLOT));
      (Counters(REGISTERS, s.nsrn, offset + SLOT), Stacked(offset, operandSize))
  }

  class ABI {
    var ngrn: nat
    var nsrn: nat
    var stackOffset: nat

    function State(): Counters
      reads this
    {
      Counters(ngrn, nsrn, stackOffset)
    }

    constructor ()
      ensures State() == Initial()
    {
      ngrn, nsrn, stackOffset := 0, 0, 0;
    }

    method Reset()
      modifies this
      ensures State() == Initial()
    {
      ngrn, nsrn, stackOffset := 0, 0, 0;
    }

    method GetStackSpaceRequired() returns (bytes: nat)
      ensures bytes == stackOffset
    {
      bytes := stackOffset;
    }

    method GetNextParameterGenericOperand(t: ArgType) returns (operand: Operand)
      modifies this
      ensures State() == Next(old(State()), t).0
      ensures operand == Next(old(State()), t).1
      ensures t.Size() > 8 ==> operand == Unimplemented && State() == old(State())
    {
      var size := t.Size();
      var operandSize := AlignUp(size, 4);
      if size > 8 {
        return Unimplemented;
      }
      if t.IsFloatingPoint() && nsrn < REGISTERS {
        nsrn := nsrn + 1;
        return VRegister(nsrn - 1, size * 8);
      }
      if t.IsFloatingPoint() {
        var offset := stackOffset;
        stackOffset := stackOffset + SLOT;
        return Stacked(offset, operandSize);
      }
      if ngrn < REGISTERS {
        ngrn := ngrn + 1;
        return CPURegister(ngrn - 1, operandSize * 8);
      }
      if t.Alignment() == 16 {
        ngrn := AlignUp(ngrn, 2);
      }
      ngrn := REGISTERS;
      stackOffset := AlignUp(stackOffset, Max(t.Alignment(), SLOT));
      size := Max(size, SLOT);
      var offset := stackOffset;
      stackOffset := stackOffset + size;
      return Stacked(offset, operandSize);
    }

    /** A result is passed as the first argument of a call would be. */
    method GetReturnGenericOperand(t: ArgType) returns (operand: Operand)
      ensures t.Size() <= 8 ==>
                operand ==
                if t.IsFloatingPoint() then VRegister(0, t.Size() * 8)
                else CPURegister(0, AlignUp(t.Size(), 4) * 8)
    {
      var abi := new ABI();
      operand := abi.GetNextParameterGenericOperand(t);
    }
  }

  // ---- Whole argument lists ----

  function Initial(): Counters {
    Counters(0, 0, 0)
  }

  predicate AreSmall(args: seq<ArgType>) {
    forall t <- args :: t.IsSmall()
  }

  /** The allocator after a list of arguments. */
  function After(args: seq<ArgType>): Counters {
    if args == [] then Initial() else Next(After(args[..|args| - 1]), args[|args| - 1]).0
  }

  /** The place of the k-th argument. */
  function Place(args: seq<ArgType>, k: nat): Operand
    requires k < |args|
  {
    Next(After(args[..k]), args[k]).1
  }

  /** How many of the arguments are floating point, or are not. */
  function Count(args: seq<ArgType>, floating: bool): nat {
    if args == [] then 0
    else Count(args[..|args| - 1], floating) + if args[|args| - 1].IsFloatingPoint() == floating then 1 else 0
  }

  function Beyond(count: nat): nat {
    if count > REGISTERS then count - REGISTERS else 0
  }

  function InRegisters(count: nat): nat {
    if count < REGISTERS then count else REGISTERS
  }

  /** How many of the arguments go on the stack: those of each kind after its
      first eight. */
  function StackedCount(args: seq<ArgType>): nat {
    Beyond(Count(args, true)) + Beyond(Count(args, false))
  }

  /** A small type is aligned no more strictly than a slot. */
  lemma SmallAlignment(t: ArgType)
    requires t.IsSmall()
    ensures t.Alignment() <= SLOT
  {
  }

  /** So aligning the next slot for it changes nothing. */
  lemma AlignedSlot(n: nat, t: ArgType)
    requires t.IsSmall()
    ensures AlignUp(SLOT * n, Max(t.Alignment(), SLOT)) == SLOT * n
  {
    SmallAlignment(t);
  }

  /** After any list the counters are the numbers of arguments of each kind, up to
      eight, and the stack holds one slot for each of the others. */
  lemma {:induction false} AfterCounts(args: seq<ArgType>)
    requires AreSmall(args)
    ensures After(args) ==
            Counters(InRegisters(Count(args, false)), InRegisters(Count(args, true)), 8 * StackedCount(args))
  {
    hide AlignUp;
    if args != [] {
      var before, t := args[..|args| - 1], args[|args| - 1];
      assert args == before + [t] && t.IsSmall();
      AfterCounts(before);
      AlignedSlot(StackedCount(before), t);
    }
  }

  /** The stack space required is eight bytes for each stacked argument. */
  lemma StackSpace(args: seq<ArgType>)
    requires AreSmall(args)
    ensures After(args).stackOffset == 8 * StackedCount(args)
  {
    AfterCounts(args);
  }

  /** The place of an argument, whatever the other kind's arguments between: with k
      arguments of its kind before it, register k if k < 8 and else the next slot. */
  lemma PlaceOf(args: seq<ArgType>, k: nat)
    requires AreSmall(args) && k < |args|
    ensures var t := args[k];
            var rank := Count(args[..k], t.Floating?);
            Place(args, k) ==
            if rank >= 8 then Stacked(8 * StackedCount(args[..k]), AlignUp(t.Size(), 4))
            else if t.Floating? then VRegister(rank, t.Size() * 8)
            else CPURegister(rank, AlignUp(t.Size(), 4) * 8)
  {
    hide AlignUp;
    assert args[k].IsSmall();
    AfterCounts(args[..k]);
    AlignedSlot(StackedCount(args[..k]), args[k]);
  }

  lemma {:induction false} CountGrows(args: seq<ArgType>, j: nat, k: nat, floating: bool)
    requires j < k <= |args|
    ensures Count(args[..j], floating) + (if args[j].Floating? == floating then 1 else 0)
            <= Count(args[..k], floating)
    decreases k
  {
    assert args[..k][..k - 1] == args[..k - 1];
    if j < k - 1 {
      CountGrows(args, j, k - 1, floating);
    }
  }

  /** Two places that share a register or a byte of the stack. */
  predicate Overlap(p: Operand, q: Operand) {
    || (p.CPURegister? && q.CPURegister? && p.number == q.number)
    || (p.VRegister? && q.VRegister? && p.number == q.number)
    || (p.Stacked? && q.Stacked? && p.offset < q.offset + q.bytes && q.offset < p.offset + p.bytes)
  }

  lemma SlotHolds(t: ArgType)
    requires t.IsSmall()
    ensures t.Size() <= AlignUp(t.Size(), 4) <= 8
  {
  }

  /** The widths of the places: floating-point registers have the argument's size,
      all others 32 bits up to four bytes and 64 bits above; a pointer takes 64 bits. */
  lemma PlaceWidths(args: seq<ArgType>, k: nat)
    requires AreSmall(args) && k < |args|
    ensures match Place(args, k)
            case VRegister(_, bits) => bits == 8 * args[k].Size()
            case CPURegister(_, bits) => bits == if args[k].Size() <= 4 then 32 else 64
            case Stacked(_, bytes) => bytes == if args[k].Size() <= 4 then 4 else 8
            case Unimplemented => false
    ensures args[k].Pointer? && Place(args, k).CPURegister? ==> Place(args, k).bits == 64
  {
    hide AlignUp, Place;
    assert args[k].IsSmall();
    PlaceOf(args, k);
    RoundedSize(args[k].Size());
  }

  lemma RoundedSize(size: nat)
    requires 1 <= size <= 8
    ensures AlignUp(size, 4) == if size <= 4 then 4 else 8
  {
  }

  /** No two arguments overlap; stack places are aligned to eight bytes, large enough
      for the argument and within the stack space. */
  lemma PlacesAreDisjoint(args: seq<ArgType>, j: nat, k: nat)
    requires AreSmall(args) && j < k < |args|
    ensures !Overlap(Place(args, j), Place(args, k))
  {
    hide AlignUp, Place;
    PlaceOf(args, j);
    PlaceOf(args, k);
    SlotHolds(args[j]);
    CountGrows(args, j, k, true);
    CountGrows(args, j, k, false);
  }

  lemma StackPlacesFit(args: seq<ArgType>, k: nat)
    requires AreSmall(args) && k < |args|
    ensures var p := Place(args, k);
            p.Stacked? ==>
              && p.offset % 8 == 0
              && args[k].Size() <= p.bytes
              && p.offset + p.bytes <= After(args).stackOffset
  {
    hide AlignUp, Place, After;
    PlaceOf(args, k);
    StackSpace(args);
    SlotHolds(args[k]);
    CountGrows(args, k, |args|, true);
    CountGrows(args, k, |args|, false);
    assert args[..|args|] == args;
  }

  /** The k-th argument of a kind is in register k exactly if k < 8. */
  lemma RegisterExactlyIfEarly(args: seq<ArgType>, k: nat)
    requires AreSmall(args) && k < |args|
    ensures var t := args[k];
            var rank := Count(args[..k], t.Floating?);
            rank < 8 <==>
            if t.Floating? then Place(args, k).VRegister? && Place(args, k).number == rank
            else Place(args, k).CPURegister? && Place(args, k).number == rank
  {
    hide AlignUp, Place;
    PlaceOf(args, k);
  }
}
