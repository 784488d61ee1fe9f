/** What each opcode byte of DWARF 3 section 7.23 lists, byte by byte, and where a disassembly stops. */
module CfaOpcodes {
  import opened Bits
  import opened Leb128
  import opened CfaInstructions

  /** The offset printed for the byte at `at`. */
  function Here(start: nat, at: nat): nat
    requires start <= at
  {
    (at - start) % TWO_32
  }

  /** One line at `at`, and how many bytes it took behind the opcode. */
  function One(start: nat, at: nat, op: Op, operands: seq<Operand>, taken: nat): Read<Entry>
    requires start <= at
  {
    Ok(Entry([Shown(Here(start, at), Instruction(op, operands))], false), taken + 1)
  }

  // ----- what stands behind an opcode

  function NoOperand(mem: seq<byte>, start: nat, at: nat, op: Op): Read<Entry>
    requires start <= at
  {
    One(start, at, op, [], 0)
  }

  function OneUnsigned(mem: seq<byte>, start: nat, at: nat, op: Op): Read<Entry>
    requires start <= at
  {
    match LocalULeb(mem, at + 1)
    case Undefined => Undefined
    case Ok(u, n) => One(start, at, op, [Unsigned(u)], n)
  }

  function TwoUnsigned(mem: seq<byte>, start: nat, at: nat, op: Op): Read<Entry>
    requires start <= at
  {
    match LocalULeb(mem, at + 1)
    case Undefined => Undefined
    case Ok(u, n) =>
      match LocalULeb(mem, at + 1 + n)
      case Undefined => Undefined
      case Ok(v, m) => One(start, at, op, [Unsigned(u), Unsigned(v)], n + m)
  }

  function OneSigned(mem: seq<byte>, start: nat, at: nat, op: Op): Read<Entry>
    requires start <= at
  {
    match SLeb(mem, at + 1)
    case Undefined => Undefined
    case Ok(s, n) => One(start, at, op, [Signed(s)], n)
  }

  function UnsignedSigned(mem: seq<byte>, start: nat, at: nat, op: Op): Read<Entry>
    requires start <= at
  {
    match LocalULeb(mem, at + 1)
    case Undefined => Undefined
    case Ok(u, n) =>
      match SLeb(mem, at + 1 + n)
      case Undefined => Undefined
      case Ok(s, m) => One(start, at, op, [Unsigned(u), Signed(s)], n + m)
  }

  function OneFixed(mem: seq<byte>, start: nat, at: nat, op: Op, width: nat): Read<Entry>
    requires start <= at
  {
    if at + 1 + width > |mem| then Undefined
    else One(start, at, op, [Fixed(FromBytes(mem[at + 1..at + 1 + width]))], width)
  }

  function OneBlock(mem: seq<byte>, start: nat, at: nat, op: Op): Read<Entry>
    requires start <= at
  {
    match LocalULeb(mem, at + 1)
    case Undefined => Undefined
    case Ok(len, n) =>
      var p := at + 1 + n;
      if p + len > |mem| then Undefined else One(start, at, op, [Block(mem[p..p + len])], n + len)
  }

  function UnsignedBlock(mem: seq<byte>, start: nat, at: nat, op: Op): Read<Entry>
    requires start <= at
  {
    match LocalULeb(mem, at + 1)
    case Undefined => Undefined
    case Ok(u, n) =>
      match LocalULeb(mem, at + 1 + n)
      case Undefined => Undefined
      case Ok(len, m) =>
        var p := at + 1 + n + m;
        if p + len > |mem| then Undefined else One(start, at, op, [Unsigned(u), Block(mem[p..p + len])], n + m + len)
  }

  // ----- byte by byte

  lemma ReadsNone(mem: seq<byte>, pos: nat, low6: nat, addrSize: nat)
    ensures ReadOperands(mem, pos, low6, [], addrSize) == Ok([], 0)
  {
  }

  lemma ReadsOne(mem: seq<byte>, pos: nat, low6: nat, kind: Kind, addrSize: nat)
    ensures ReadOperands(mem, pos, low6, [kind], addrSize)
         == match ReadOperand(mem, pos, low6, kind, addrSize)
            case Undefined => Undefined
            case Ok(operand, n) => Ok([operand], n)
  {
    hide ReadOperand;
    assert [kind][1..] == [];
    var r := ReadOperand(mem, pos, low6, kind, addrSize);
    if r.Ok? {
      assert ReadOperands(mem, pos + r.size, low6, [], addrSize) == Ok([], 0);
      assert [r.value] + [] == [r.value];
    }
  }

  lemma ReadsTwo(mem: seq<byte>, pos: nat, low6: nat, first: Kind, second: Kind, addrSize: nat)
    ensures ReadOperands(mem, pos, low6, [first, second], addrSize)
         == match ReadOperand(mem, pos, low6, first, addrSize)
            case Undefined => Undefined
            case Ok(a, n) =>
              match ReadOperand(mem, pos + n, low6, second, addrSize)
              case Undefined => Undefined
              case Ok(b, m) => Ok([a, b], n + m)
  {
    hide ReadOperand;
    assert [first, second][1..] == [second];
    var r := ReadOperand(mem, pos, low6, first, addrSize);
    if r.Ok? {
      ReadsOne(mem, pos + r.size, low6, second, addrSize);
      var next := ReadOperand(mem, pos + r.size, low6, second, addrSize);
      if next.Ok? { assert [r.value] + [next.value] == [r.value, next.value]; }
    }
  }

  /** An opcode lists its operands, as many and of the kinds it takes. */
  lemma OperandsOf(mem: seq<byte>, start: nat, at: nat, addrSize: nat, op: Op)
    requires start <= at < |mem| && mem[at] != 0x2f && Selects(mem[at], op)
    requires op.SetLoc? ==> addrSize == 4 || addrSize == 8
    ensures ReadEntry(mem, start, at, addrSize)
         == match ReadOperands(mem, at + 1, mem[at] % 64, Kinds(op), addrSize)
            case Undefined => Undefined
            case Ok(operands, n) => One(start, at, op, operands, n)
  {
    SelectsOne(mem[at], op);
    hide ReadOperands, OpOf, Known, Selects, Kinds;
  }

  /** No operands: nop, remember_state, restore_state and GNU_window_save. */
  lemma ListsNoOperand(mem: seq<byte>, start: nat, at: nat, addrSize: nat)
    requires start <= at < |mem|
    ensures mem[at] == 0x00 ==> ReadEntry(mem, start, at, addrSize) == NoOperand(mem, start, at, Nop)
    ensures mem[at] == 0x0a ==> ReadEntry(mem, start, at, addrSize) == NoOperand(mem, start, at, RememberState)
    ensures mem[at] == 0x0b ==> ReadEntry(mem, start, at, addrSize) == NoOperand(mem, start, at, RestoreState)
    ensures mem[at] == 0x2d ==> ReadEntry(mem, start, at, addrSize) == NoOperand(mem, start, at, GnuWindowSave)
  {
    hide ReadOperands, ReadEntry, LocalULeb, SLeb;
    var low6 := mem[at] % 64;
    ReadsNone(mem, at + 1, low6, addrSize);
    if mem[at] == 0x00 { OperandsOf(mem, start, at, addrSize, Nop); }
    if mem[at] == 0x0a { OperandsOf(mem, start, at, addrSize, RememberState); }
    if mem[at] == 0x0b { OperandsOf(mem, start, at, addrSize, RestoreState); }
    if mem[at] == 0x2d { OperandsOf(mem, start, at, addrSize, GnuWindowSave); }
  }

  /** One unsigned operand. */
  lemma ListsUnsigned(mem: seq<byte>, start: nat, at: nat, addrSize: nat)
    requires start <= at < |mem|
    ensures mem[at] == 0x06 ==> ReadEntry(mem, start, at, addrSize) == OneUnsigned(mem, start, at, RestoreExtended)
    ensures mem[at] == 0x07 ==> ReadEntry(mem, start, at, addrSize) == OneUnsigned(mem, start, at, UndefinedRule)
    ensures mem[at] == 0x08 ==> ReadEntry(mem, start, at, addrSize) == OneUnsigned(mem, start, at, SameValue)
    ensures mem[at] == 0x0d ==> ReadEntry(mem, start, at, addrSize) == OneUnsigned(mem, start, at, DefCfaRegister)
    ensures mem[at] == 0x0e ==> ReadEntry(mem, start, at, addrSize) == OneUnsigned(mem, start, at, DefCfaOffset)
    ensures mem[at] == 0x2e ==> ReadEntry(mem, start, at, addrSize) == OneUnsigned(mem, start, at, GnuArgsSize)
  {
    hide ReadOperands, ReadEntry, LocalULeb, SLeb;
    var low6 := mem[at] % 64;
    ReadsOne(mem, at + 1, low6, ULebOperand, addrSize);
    if mem[at] == 0x06 { OperandsOf(mem, start, at, addrSize, RestoreExtended); }
    if mem[at] == 0x07 { OperandsOf(mem, start, at, addrSize, UndefinedRule); }
    if mem[at] == 0x08 { OperandsOf(mem, start, at, addrSize, SameValue); }
    if mem[at] == 0x0d { OperandsOf(mem, start, at, addrSize, DefCfaRegister); }
    if mem[at] == 0x0e { OperandsOf(mem, start, at, addrSize, DefCfaOffset); }
    if mem[at] == 0x2e { OperandsOf(mem, start, at, addrSize, GnuArgsSize); }
  }

  /** Two unsigned operands. */
  lemma ListsTwoUnsigned(mem: seq<byte>, start: nat, at: nat, addrSize: nat)
    requires start <= at < |mem|
    ensures mem[at] == 0x05 ==> ReadEntry(mem, start, at, addrSize) == TwoUnsigned(mem, start, at, OffsetExtended)
    ensures mem[at] == 0x09 ==> ReadEntry(mem, start, at, addrSize) == TwoUnsigned(mem, start, at, Register)
    ensures mem[at] == 0x0c ==> ReadEntry(mem, start, at, addrSize) == TwoUnsigned(mem, start, at, DefCfa)
  {
    hide ReadOperands, ReadEntry, LocalULeb, SLeb;
    var low6 := mem[at] % 64;
    ReadsTwo(mem, at + 1, low6, ULebOperand, ULebOperand, addrSize);
    if mem[at] == 0x05 { OperandsOf(mem, start, at, addrSize, OffsetExtended); }
    if mem[at] == 0x09 { OperandsOf(mem, start, at, addrSize, Register); }
    if mem[at] == 0x0c { OperandsOf(mem, start, at, addrSize, DefCfa); }
  }

  /** An unsigned operand and a signed one; val_offset's second one is signed too. */
  lemma ListsUnsignedSigned(mem: seq<byte>, start: nat, at: nat, addrSize: nat)
    requires start <= at < |mem|
    ensures mem[at] == 0x11 ==> ReadEntry(mem, start, at, addrSize) == UnsignedSigned(mem, start, at, OffsetExtendedSf)
    ensures mem[at] == 0x12 ==> ReadEntry(mem, start, at, addrSize) == UnsignedSigned(mem, start, at, DefCfaSf)
    ensures mem[at] == 0x14 ==> ReadEntry(mem, start, at, addrSize) == UnsignedSigned(mem, start, at, ValOffset)
    ensures mem[at] == 0x15 ==> ReadEntry(mem, start, at, addrSize) == UnsignedSigned(mem, start, at, ValOffsetSf)
  {
    hide ReadOperands, ReadEntry, LocalULeb, SLeb;
    var low6 := mem[at] % 64;
    ReadsTwo(mem, at + 1, low6, ULebOperand, SLebOperand, addrSize);
    if mem[at] == 0x11 { OperandsOf(mem, start, at, addrSize, OffsetExtendedSf); }
    if mem[at] == 0x12 { OperandsOf(mem, start, at, addrSize, DefCfaSf); }
    if mem[at] == 0x14 { OperandsOf(mem, start, at, addrSize, ValOffset); }
    if mem[at] == 0x15 { OperandsOf(mem, start, at, addrSize, ValOffsetSf); }
  }

  /** One signed operand. */
  lemma ListsSigned(mem: seq<byte>, start: nat, at: nat, addrSize: nat)
    requires start <= at < |mem|
    ensures mem[at] == 0x13 ==> ReadEntry(mem, start, at, addrSize) == OneSigned(mem, start, at, DefCfaOffsetSf)
  {
    hide ReadOperands, ReadEntry, LocalULeb, SLeb;
    var low6 := mem[at] % 64;
    ReadsOne(mem, at + 1, low6, SLebOperand, addrSize);
    if mem[at] == 0x13 { OperandsOf(mem, start, at, addrSize, DefCfaOffsetSf); }
  }

  /** Operands of fixed width. */
  lemma ListsFixed(mem: seq<byte>, start: nat, at: nat, addrSize: nat)
    requires start <= at < |mem|
    ensures mem[at] == 0x02 ==> ReadEntry(mem, start, at, addrSize) == OneFixed(mem, start, at, AdvanceLoc1, 1)
    ensures mem[at] == 0x03 ==> ReadEntry(mem, start, at, addrSize) == OneFixed(mem, start, at, AdvanceLoc2, 2)
    ensures mem[at] == 0x04 ==> ReadEntry(mem, start, at, addrSize) == OneFixed(mem, start, at, AdvanceLoc4, 4)
    ensures mem[at] == 0x1d ==> ReadEntry(mem, start, at, addrSize) == OneFixed(mem, start, at, MipsAdvanceLoc8, 8)
  {
    hide ReadOperands, ReadEntry, FromBytes;
    if mem[at] == 0x02 { FixedOf(mem, start, at, addrSize, AdvanceLoc1, 1); }
    if mem[at] == 0x03 { FixedOf(mem, start, at, addrSize, AdvanceLoc2, 2); }
    if mem[at] == 0x04 { FixedOf(mem, start, at, addrSize, AdvanceLoc4, 4); }
    if mem[at] == 0x1d { FixedOf(mem, start, at, addrSize, MipsAdvanceLoc8, 8); }
  }

  lemma FixedOf(mem: seq<byte>, start: nat, at: nat, addrSize: nat, op: Op, width: nat)
    requires start <= at < |mem| && mem[at] != 0x2f && Selects(mem[at], op) && Kinds(op) == [FixedWidth(width)]
    ensures ReadEntry(mem, start, at, addrSize) == OneFixed(mem, start, at, op, width)
  {
    OperandsOf(mem, start, at, addrSize, op);
    ReadsOne(mem, at + 1, mem[at] % 64, FixedWidth(width), addrSize);
    hide ReadOperands, ReadEntry, FromBytes, Selects;
  }

  /** An address of four or eight bytes. Another address size is complained about, and that many bytes are passed. */
  lemma ListsAddress(mem: seq<byte>, start: nat, at: nat, addrSize: nat)
    requires start <= at < |mem| && mem[at] == 0x01
    ensures ReadEntry(mem, start, at, addrSize) ==
            if addrSize == 4 || addrSize == 8 then OneFixed(mem, start, at, SetLoc, addrSize)
            else Ok(Entry([BadAddressSize(addrSize), Shown(Here(start, at), Instruction(SetLoc, [Fixed(0)]))], false),
                    addrSize + 1)
  {
    ReadsOne(mem, at + 1, mem[at] % 64, Address, addrSize);
    hide ReadOperands, FromBytes;
    if addrSize == 4 || addrSize == 8 {
      OperandsOf(mem, start, at, addrSize, SetLoc);
    } else {
      var line := Shown(Here(start, at), Instruction(SetLoc, [Fixed(0)]));
      assert [BadAddressSize(addrSize)] + [line] == [BadAddressSize(addrSize), line];
    }
  }

  /** A counted block. */
  lemma ListsBlock(mem: seq<byte>, start: nat, at: nat, addrSize: nat)
    requires start <= at < |mem|
    ensures mem[at] == 0x0f ==> ReadEntry(mem, start, at, addrSize) == OneBlock(mem, start, at, DefCfaExpression)
  {
    hide ReadOperands, ReadEntry, LocalULeb, SLeb;
    var low6 := mem[at] % 64;
    ReadsOne(mem, at + 1, low6, Counted, addrSize);
    if mem[at] == 0x0f { OperandsOf(mem, start, at, addrSize, DefCfaExpression); }
  }

  /** An unsigned operand and a counted block. */
  lemma ListsUnsignedBlock(mem: seq<byte>, start: nat, at: nat, addrSize: nat)
    requires start <= at < |mem|
    ensures mem[at] == 0x10 ==> ReadEntry(mem, start, at, addrSize) == UnsignedBlock(mem, start, at, Expression)
    ensures mem[at] == 0x16 ==> ReadEntry(mem, start, at, addrSize) == UnsignedBlock(mem, start, at, ValExpression)
  {
    hide ReadOperands, ReadEntry, LocalULeb, SLeb;
    var low6 := mem[at] % 64;
    ReadsTwo(mem, at + 1, low6, ULebOperand, Counted, addrSize);
    if mem[at] == 0x10 { OperandsOf(mem, start, at, addrSize, Expression); }
    if mem[at] == 0x16 { OperandsOf(mem, start, at, addrSize, ValExpression); }
  }

  /** The primary opcodes, whose low six bits are an operand. */
  lemma ListsPrimary(mem: seq<byte>, start: nat, at: nat, addrSize: nat)
    requires start <= at < |mem|
    ensures 0x40 <= mem[at] < 0x80 ==>
              ReadEntry(mem, start, at, addrSize) == One(start, at, AdvanceLoc, [Low6(mem[at] - 0x40)], 0)
    ensures 0xc0 <= mem[at] ==>
              ReadEntry(mem, start, at, addrSize) == One(start, at, Restore, [Low6(mem[at] - 0xc0)], 0)
    ensures 0x80 <= mem[at] < 0xc0 ==>
              ReadEntry(mem, start, at, addrSize)
              == match LocalULeb(mem, at + 1)
                 case Undefined => Undefined
                 case Ok(u, n) => One(start, at, Offset, [Low6(mem[at] - 0x80), Unsigned(u)], n)
  {
    var low6 := mem[at] % 64;
    hide ReadOperands, ReadEntry, LocalULeb;
    ReadsOne(mem, at + 1, low6, InOpcode, addrSize);
    ReadsTwo(mem, at + 1, low6, InOpcode, ULebOperand, addrSize);
    if 0x40 <= mem[at] < 0x80 { OperandsOf(mem, start, at, addrSize, AdvanceLoc); }
    if 0x80 <= mem[at] < 0xc0 { OperandsOf(mem, start, at, addrSize, Offset); }
    if 0xc0 <= mem[at] { OperandsOf(mem, start, at, addrSize, Restore); }
  }

  /** 0x2f prints its own line and then the operand of the next case. */
  lemma ListsFallThrough(mem: seq<byte>, start: nat, at: nat, addrSize: nat)
    requires start <= at < |mem| && mem[at] == 0x2f
    ensures ReadEntry(mem, start, at, addrSize)
         == match LocalULeb(mem, at + 1)
            case Undefined => Undefined
            case Ok(u, n) =>
              Ok(Entry([NegativeOffsetExtended(Here(start, at)),
                        Shown(Here(start, at), Instruction(GnuArgsSize, [Unsigned(u)]))], false), n + 1)
  {
    ReadsOne(mem, at + 1, mem[at] % 64, ULebOperand, addrSize);
    hide ReadOperands, LocalULeb;
  }

  /** Every other byte is unexpected, and ends the listing. */
  lemma ListsUnexpected(mem: seq<byte>, start: nat, at: nat, addrSize: nat)
    requires start <= at < |mem|
    requires 0x17 <= mem[at] <= 0x1c || 0x1e <= mem[at] <= 0x2c || 0x30 <= mem[at] <= 0x3f
    ensures ReadEntry(mem, start, at, addrSize) == Ok(Entry([UnexpectedOp(Here(start, at), mem[at])], true), 1)
  {
  }

  // ----- where a listing ends

  /** For any bytes: an unexpected opcode is the last line and nothing behind it is read; without one, all of the
      given length is disassembled. */
  lemma {:induction false} UnexpectedIsLast(mem: seq<byte>, start: nat, at: nat, len: int, addrSize: nat)
    requires start <= at && Disassembly(mem, start, at, len, addrSize).Ok?
    ensures var (lines, n) := (Disassembly(mem, start, at, len, addrSize).value, Disassembly(mem, start, at, len, addrSize).size);
            && (forall i :: 0 <= i < |lines| - 1 ==> !lines[i].UnexpectedOp?)
            && (lines != [] && lines[|lines| - 1].UnexpectedOp? ==>
                  0 < n && lines[|lines| - 1].off == Here(start, at + n - 1))
            && (lines == [] || !lines[|lines| - 1].UnexpectedOp? ==> n >= len)
    decreases len
  {
    hide ReadEntry;
    if len > 0 {
      var entry := ReadEntry(mem, start, at, addrSize);
      EntryLines(mem, start, at, addrSize);
      if !entry.value.stop {
        UnexpectedIsLast(mem, start, at + entry.size, len - entry.size, addrSize);
      }
    }
  }

  lemma EntryLines(mem: seq<byte>, start: nat, at: nat, addrSize: nat)
    requires start <= at && ReadEntry(mem, start, at, addrSize).Ok?
    ensures var entry := ReadEntry(mem, start, at, addrSize);
            if entry.value.stop
            then |entry.value.lines| == 1 && entry.size == 1 && entry.value.lines[0].UnexpectedOp?
                 && entry.value.lines[0].off == Here(start, at)
            else entry.value.lines != [] && forall line <- entry.value.lines :: !line.UnexpectedOp?
  {
    hide ReadOperands;
  }

  /** An offset rule of 64, encoded as the standard says, is listed as one of -64. */
  lemma ValOffsetMisread()
    ensures Disassembly([0x14, 1, 64], 0, 0, 3, 4)
         == Ok([Shown(0, Instruction(ValOffset, [Unsigned(1), Signed(-64)]))], 3)
  {
    var mem: seq<byte> := [0x14, 1, 64];
    assert EncodeULeb(64) == [64] && EncodeULeb(1) == [1];
    assert mem[1..2] == [1] && mem[2..3] == [64];
    LocalULebRoundTrip(mem, 1, 1);
    ULebReadAsSLeb(mem, 2, 64);
    WeightValues();
    ListsUnsignedSigned(mem, 0, 0, 4);
    var line := Shown(0, Instruction(ValOffset, [Unsigned(1), Signed(-64)]));
    assert ReadEntry(mem, 0, 0, 4) == Ok(Entry([line], false), 3);
    hide ReadEntry, LocalULeb, SLeb, EncodeULeb;
    assert Disassembly(mem, 0, 3, 0, 4) == Ok([], 0);
    assert [line] + [] == [line];
  }
}
