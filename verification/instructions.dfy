/**
 * The machine-code word of the assembler (`inst_t` and `enum OpCode` in
 * assemble.c). An instruction is a 32-bit unsigned word seen through one of
 * four bit-field views: R (two source registers and a destination), I (two
 * registers and a signed 16-bit offset), J (two registers) and O (opcode
 * only). All views overlay the same word, so the opcode, and for R, I and J
 * the two registers, are read from the same bits whichever view is used.
 *
 * Bit-fields are assumed to be allocated from the least significant bit
 * upward in declaration order, as GCC and Clang do on little-endian targets;
 * the C standard leaves this to the implementation. The plain-`int` member
 * `offset` is assumed signed and `unsigned int` 32 bits wide, both also
 * implementation-defined.
 */
module Instructions {
  import opened BitFields

  /** `unsigned int code`: a 32-bit word. */
  type Word = w: nat | w < 0x1_0000_0000

  datatype OpCode = Add | Nor | Lw | Sw | Beq | Jalr | Halt | Noop

  /** The enumerator values OP_ADD = 0b000 through OP_NOOP = 0b111. */
  function OpValue(op: OpCode): (v: nat)
    ensures v < 8
  {
    match op
    case Add => 0
    case Nor => 1
    case Lw => 2
    case Sw => 3
    case Beq => 4
    case Jalr => 5
    case Halt => 6
    case Noop => 7
  }

  /** Every value of the 3-bit opcode field names an opcode. */
  function OpCodeOf(v: nat): (op: OpCode)
    requires v < 8
    ensures OpValue(op) == v
  {
    if v == 0 then Add
    else if v == 1 then Nor
    else if v == 2 then Lw
    else if v == 3 then Sw
    else if v == 4 then Beq
    else if v == 5 then Jalr
    else if v == 6 then Halt
    else Noop
  }

  /** Distinct opcodes have distinct values, so decoding a value undoes encoding it. */
  lemma OpCodeRoundTrip(op: OpCode, op': OpCode)
    ensures OpCodeOf(OpValue(op)) == op
    ensures OpValue(op) == OpValue(op') <==> op == op'
  {
  }

  datatype FieldName = DestReg | Offset | RegB | RegA | Opcode | Unused
  datatype Slot = Slot(name: FieldName, width: nat)

  /** The four views of the union. */
  datatype Format = R | I | J | O

  /** The members of each view's struct, in declaration order, so from the least significant bit up. */
  function Layout(f: Format): seq<Slot> {
    match f
    case R => [Slot(DestReg, 3), Slot(Unused, 13), Slot(RegB, 3), Slot(RegA, 3), Slot(Opcode, 3), Slot(Unused, 7)]
    case I => [Slot(Offset, 16), Slot(RegB, 3), Slot(RegA, 3), Slot(Opcode, 3), Slot(Unused, 7)]
    case J => [Slot(Unused, 16), Slot(RegB, 3), Slot(RegA, 3), Slot(Opcode, 3), Slot(Unused, 7)]
    case O => [Slot(Unused, 22), Slot(Opcode, 3), Slot(Unused, 7)]
  }

  /** The width of each member of a view, in declaration order. */
  function Widths(f: Format): seq<nat> {
    seq(|Layout(f)|, i requires 0 <= i < |Layout(f)| => Layout(f)[i].width)
  }

  /**
   * The shape every view shares: it fills the 32-bit word, its opcode is the
   * 3 bits from bit 22, its register fields are the 3 bits from bit 19 (regA)
   * and from bit 16 (regB), and its top 7 bits are unused.
   */
  lemma LayoutShape(f: Format)
    ensures Width(Widths(f)) == 32
    ensures var n := |Layout(f)|;
      && Layout(f)[n - 1] == Slot(Unused, 7) && Position(Widths(f), n - 1) == 25
      && Layout(f)[n - 2] == Slot(Opcode, 3) && Position(Widths(f), n - 2) == 22
    ensures f != O ==> var n := |Layout(f)|;
      && Layout(f)[n - 3] == Slot(RegA, 3) && Position(Widths(f), n - 3) == 19
      && Layout(f)[n - 4] == Slot(RegB, 3) && Position(Widths(f), n - 4) == 16
  {
    SlotPositions(f);
  }

  /** Slot `j` of a view starts at bit `Starts(f)[j]`. */
  lemma SlotPositions(f: Format)
    ensures forall j | 0 <= j <= |Widths(f)| :: Position(Widths(f), j) == Starts(f)[j]
  {
    var ws := Widths(f);
    for k := 0 to |ws|
      invariant forall j | 0 <= j <= k :: Position(ws, j) == Starts(f)[j]
    {
      PositionSnoc(ws, k);
    }
  }

  /** The bit position where each slot starts, and finally the width of the view. */
  function Starts(f: Format): (s: seq<nat>)
    ensures |s| == |Widths(f)| + 1
  {
    match f
    case R => [0, 3, 16, 19, 22, 25, 32]
    case I => [0, 16, 19, 22, 25, 32]
    case J => [0, 16, 19, 22, 25, 32]
    case O => [0, 22, 25, 32]
  }

  /**
   * An instruction in one of the views, with the values its named fields are
   * assigned; unused fields are left zero.
   */
  datatype Inst =
    | RInst(destReg: int, regB: int, regA: int, op: OpCode)
    | IInst(offset: int, regB: int, regA: int, op: OpCode)
    | JInst(regB: int, regA: int, op: OpCode)
    | OInst(op: OpCode)
  {
    function Format(): Format {
      match this
      case RInst(_, _, _, _) => R
      case IInst(_, _, _, _) => I
      case JInst(_, _, _) => J
      case OInst(_) => O
    }

    /** The value assigned to the field called `n`; 0 for unused bits. */
    function Value(n: FieldName): int {
      match n
      case DestReg => if this.RInst? then destReg else 0
      case Offset => if this.IInst? then offset else 0
      case RegB => if this.OInst? then 0 else regB
      case RegA => if this.OInst? then 0 else regA
      case Opcode => OpValue(op)
      case Unused => 0
    }

    /** Registers are 0..7 and an offset fits a signed 16-bit field. */
    predicate WellFormed() {
      && (RInst? ==> 0 <= destReg < 8)
      && (IInst? ==> -0x8000 <= offset < 0x8000)
      && (!OInst? ==> 0 <= regA < 8 && 0 <= regB < 8)
    }
  }

  /** The values stored in the slots of the instruction's view. */
  function Stored(inst: Inst): (vals: seq<int>)
    ensures |vals| == |Widths(inst.Format())|
  {
    var l := Layout(inst.Format());
    seq(|l|, i requires 0 <= i < |l| => inst.Value(l[i].name))
  }

  /** The powers of two the layouts use. */
  lemma Pow2Values()
    ensures Pow2(3) == 8 && Pow2(7) == 0x80 && Pow2(13) == 0x2000 && Pow2(16) == 0x1_0000
    ensures Pow2(22) == 0x40_0000 && Pow2(32) == 0x1_0000_0000
  {
    assert Pow2(3) == 8 by {
      assert Pow2(1) == 2;
    }
    assert Pow2(4) == 16;
    Pow2Add(3, 4);
    Pow2Add(4, 4);
    Pow2Add(8, 8);
    Pow2Add(3, 13);
    Pow2Add(16, 16);
    Pow2Add(16, 3);
    Pow2Add(19, 3);
    Pow2Add(8, 5);
  }

  /**
   * Zeroing the word and assigning each field of the instruction's view: each
   * field then holds its value modulo 2^width.
   */
  function Encode(inst: Inst): (w: Word)
  {
    LayoutShape(inst.Format());
    Pow2Values();
    Pack(Widths(inst.Format()), Stored(inst))
  }

  /**
   * Reading a signed 16-bit bit-field: a pattern with the top bit set stands
   * for a negative number.
   */
  function SignExtend16(v: nat): (x: int)
    requires v < 0x1_0000
    ensures -0x8000 <= x < 0x8000
    ensures x % 0x1_0000 == v
  {
    if v < 0x8000 then v else v - 0x1_0000
  }

  /** Storing a value that fits a signed 16-bit field and reading it back gives the value. */
  lemma SignExtendStored(x: int)
    requires -0x8000 <= x < 0x8000
    ensures SignExtend16(x % 0x1_0000) == x
  {
  }

  /** Field `i` of the view `f` of `w`. */
  function Read(f: Format, w: Word, i: nat): (v: nat)
    requires i < |Widths(f)|
    ensures v < Pow2(Widths(f)[i])
  {
    Field(Widths(f), w, i)
  }

  /** The `offset` member of the I view: the low 16 bits of the word read as a signed number. */
  function OffsetOf(w: Word): (x: int)
    ensures -0x8000 <= x < 0x8000
    ensures x % 0x1_0000 == Read(I, w, 0)
  {
    Pow2Values();
    SignExtend16(Read(I, w, 0))
  }

  /** Reading `w` through the view `f`: every named field of the view, the opcode decoded. */
  function Decode(f: Format, w: Word): (inst: Inst)
    ensures inst.Format() == f && inst.WellFormed()
  {
    Pow2Values();
    match f
    case R => RInst(Read(R, w, 0), Read(R, w, 2), Read(R, w, 3), OpCodeOf(Read(R, w, 4)))
    case I => IInst(OffsetOf(w), Read(I, w, 1), Read(I, w, 2), OpCodeOf(Read(I, w, 3)))
    case J => JInst(Read(J, w, 1), Read(J, w, 2), OpCodeOf(Read(J, w, 3)))
    case O => OInst(OpCodeOf(Read(O, w, 1)))
  }

  /** Encoding a well-formed instruction and reading it back through its own view gives the instruction. */
  lemma DecodeEncode(inst: Inst)
    requires inst.WellFormed()
    ensures Decode(inst.Format(), Encode(inst)) == inst
  {
    var f := inst.Format();
    forall i | 0 <= i < |Layout(f)|
      ensures Read(f, Encode(inst), i) == inst.Value(Layout(f)[i].name) % Pow2(Widths(f)[i])
    {
      EncodedSlot(inst, i);
    }
    DecodeSlots(f, Encode(inst), inst);
  }

  /** A word whose slots hold the values of a well-formed instruction decodes to that instruction. */
  lemma DecodeSlots(f: Format, w: Word, inst: Inst)
    requires inst.Format() == f && inst.WellFormed()
    requires SlotsHold(f, w, inst)
    ensures Decode(f, w) == inst
  {
    match f
    case R => DecodeR(w, inst);
    case I => DecodeI(w, inst);
    case J => DecodeJ(w, inst);
    case O => DecodeO(w, inst);
  }

  /** Every slot of the view `f` of `w` holds the value `inst` assigns it, modulo 2^width. */
  predicate SlotsHold(f: Format, w: Word, inst: Inst) {
    forall i | 0 <= i < |Layout(f)| :: Read(f, w, i) == inst.Value(Layout(f)[i].name) % Pow2(Widths(f)[i])
  }

  lemma DecodeR(w: Word, inst: Inst)
    requires inst.RInst? && inst.WellFormed() && SlotsHold(R, w, inst)
    ensures Decode(R, w) == inst
  {
    Pow2Values();
    OpCodeRoundTrip(inst.op, inst.op);
    SmallMod(inst.destReg, 8);
    SmallMod(inst.regB, 8);
    SmallMod(inst.regA, 8);
    SmallMod(OpValue(inst.op), 8);
    assert Read(R, w, 0) == inst.destReg % 8;
    assert Read(R, w, 2) == inst.regB % 8;
    assert Read(R, w, 3) == inst.regA % 8;
    assert Read(R, w, 4) == OpValue(inst.op) % 8;
  }

  lemma DecodeI(w: Word, inst: Inst)
    requires inst.IInst? && inst.WellFormed() && SlotsHold(I, w, inst)
    ensures Decode(I, w) == inst
  {
    Pow2Values();
    OpCodeRoundTrip(inst.op, inst.op);
    SignExtendStored(inst.offset);
    SmallMod(inst.regB, 8);
    SmallMod(inst.regA, 8);
    SmallMod(OpValue(inst.op), 8);
    assert Read(I, w, 0) == inst.offset % 0x1_0000;
    assert Read(I, w, 1) == inst.regB % 8;
    assert Read(I, w, 2) == inst.regA % 8;
    assert Read(I, w, 3) == OpValue(inst.op) % 8;
  }

  lemma DecodeJ(w: Word, inst: Inst)
    requires inst.JInst? && inst.WellFormed() && SlotsHold(J, w, inst)
    ensures Decode(J, w) == inst
  {
    Pow2Values();
    OpCodeRoundTrip(inst.op, inst.op);
    SmallMod(inst.regB, 8);
    SmallMod(inst.regA, 8);
    SmallMod(OpValue(inst.op), 8);
    assert Read(J, w, 1) == inst.regB % 8;
    assert Read(J, w, 2) == inst.regA % 8;
    assert Read(J, w, 3) == OpValue(inst.op) % 8;
  }

  lemma DecodeO(w: Word, inst: Inst)
    requires inst.OInst? && SlotsHold(O, w, inst)
    ensures Decode(O, w) == inst
  {
    Pow2Values();
    OpCodeRoundTrip(inst.op, inst.op);
    SmallMod(OpValue(inst.op), 8);
    assert Read(O, w, 1) == OpValue(inst.op) % 8;
  }

  lemma SmallMod(x: int, m: int)
    requires 0 <= x < m
    ensures x % m == x
  {
    DivModUnique(x, m, 0, x);
  }

  /** Slot `i` of an encoded instruction holds the slot's value modulo 2^width. */
  lemma EncodedSlot(inst: Inst, i: nat)
    requires i < |Layout(inst.Format())|
    ensures Read(inst.Format(), Encode(inst), i) == inst.Value(Layout(inst.Format())[i].name) % Pow2(Widths(inst.Format())[i])
  {
    FieldOfPack(Widths(inst.Format()), Stored(inst), i);
  }

  /** The view `f` of `w` leaves its unused bits zero. */
  predicate UnusedBitsZero(f: Format, w: Word) {
    forall i | 0 <= i < |Layout(f)| && Layout(f)[i].name == Unused :: Read(f, w, i) == 0
  }

  /** Decoding a word and encoding it again gives the word back exactly when its unused bits are zero. */
  lemma EncodeDecode(f: Format, w: Word)
    ensures Encode(Decode(f, w)) == w <==> UnusedBitsZero(f, w)
  {
    var inst := Decode(f, w);
    if UnusedBitsZero(f, w) {
      ReencodeClean(f, w);
    } else {
      var i :| 0 <= i < |Layout(f)| && Layout(f)[i].name == Unused && Read(f, w, i) != 0;
      ReencodeClearsUnused(inst, i);
    }
  }

  /** Encoding leaves every unused slot zero. */
  lemma ReencodeClearsUnused(inst: Inst, i: nat)
    requires i < |Layout(inst.Format())| && Layout(inst.Format())[i].name == Unused
    ensures Read(inst.Format(), Encode(inst), i) == 0
  {
    EncodedSlot(inst, i);
    SmallMod(inst.Value(Unused), Pow2(Widths(inst.Format())[i]));
  }

  lemma ReencodeClean(f: Format, w: Word)
    requires UnusedBitsZero(f, w)
    ensures Encode(Decode(f, w)) == w
  {
    var inst := Decode(f, w);
    var ws := Widths(f);
    var vals := Stored(inst);
    var u := Unpack(ws, w);
    forall i | 0 <= i < |ws|
      ensures vals[i] % Pow2(ws[i]) == u[i] % Pow2(ws[i])
    {
      assert vals[i] == inst.Value(Layout(f)[i].name);
      StoredField(f, w, i);
    }
    PackModulo(ws, vals, u);
    LayoutShape(f);
    Pow2Values();
    PackUnpack(ws, w);
  }

  /** Each slot of a clean word, decoded and stored again, holds the bits it was read from. */
  lemma StoredField(f: Format, w: Word, i: nat)
    requires i < |Layout(f)|
    requires UnusedBitsZero(f, w)
    ensures Decode(f, w).Value(Layout(f)[i].name) % Pow2(Widths(f)[i]) == Read(f, w, i) % Pow2(Widths(f)[i])
  {
    var name := Layout(f)[i].name;
    if name == Unused {
      assert Read(f, w, i) == 0;
    } else if name == Offset {
      StoredOffset(f, w, i);
    } else {
      NamedSlot(f, w, i);
    }
  }

  lemma StoredOffset(f: Format, w: Word, i: nat)
    requires i < |Layout(f)| && Layout(f)[i].name == Offset
    ensures Decode(f, w).Value(Offset) % Pow2(Widths(f)[i]) == Read(f, w, i) % Pow2(Widths(f)[i])
  {
    assert f == I && i == 0;
    Pow2Values();
    SmallMod(Read(I, w, 0), 0x1_0000);
  }

  /** A named slot of a decoded word holds what was read from it, sign-extended for the offset. */
  lemma NamedSlot(f: Format, w: Word, i: nat)
    requires i < |Layout(f)| && Layout(f)[i].name != Unused
    ensures Decode(f, w).Value(Layout(f)[i].name)
         == if Layout(f)[i].name == Offset then OffsetOf(w) else Read(f, w, i)
  {
    match f
    case R =>
      assert i == 0 || i == 2 || i == 3 || i == 4;
    case I =>
      assert i == 0 || i == 1 || i == 2 || i == 3;
    case J =>
      assert i == 1 || i == 2 || i == 3;
    case O =>
      assert i == 1;
  }

  /** Reading slot `i` of a view shifts the word right to the slot's start and masks the slot's width. */
  lemma ReadAt(f: Format, w: Word, i: nat)
    requires i < |Widths(f)|
    ensures Read(f, w, i) == (w / Pow2(Starts(f)[i])) % Pow2(Widths(f)[i])
  {
    SlotPositions(f);
    FieldIsShiftMask(Widths(f), w, i);
  }

  /** All four views read the same opcode from a word: the 3 bits from bit 22. */
  lemma OpcodeShared(w: Word)
    ensures Decode(R, w).op == Decode(O, w).op
    ensures Decode(I, w).op == Decode(O, w).op
    ensures Decode(J, w).op == Decode(O, w).op
    ensures OpValue(Decode(O, w).op) == (w / Pow2(22)) % 8
  {
    Pow2Values();
    ReadAt(R, w, 4);
    ReadAt(I, w, 3);
    ReadAt(J, w, 3);
    ReadAt(O, w, 1);
  }

  /** The R, I and J views read the same regA (the 3 bits from bit 19) and regB (from bit 16). */
  lemma RegistersShared(w: Word)
    ensures Decode(R, w).regA == Decode(I, w).regA == Decode(J, w).regA == (w / Pow2(19)) % 8
    ensures Decode(R, w).regB == Decode(I, w).regB == Decode(J, w).regB == (w / Pow2(16)) % 8
  {
    Pow2Values();
    ReadAt(R, w, 3);
    ReadAt(I, w, 2);
    ReadAt(J, w, 2);
    ReadAt(R, w, 2);
    ReadAt(I, w, 1);
    ReadAt(J, w, 1);
  }
}
