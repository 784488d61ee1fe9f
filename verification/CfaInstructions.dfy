/** Call-frame instructions (DWARF 3 sections 6.4.2 and 7.23): what their bytes mean,
    how they are encoded, and the listing a disassembly of them produces. */
module CfaInstructions {
  import opened Bits
  import opened Leb128

  datatype Op =
    | AdvanceLoc | Offset | Restore
    | Nop | SetLoc | AdvanceLoc1 | AdvanceLoc2 | AdvanceLoc4 | OffsetExtended | RestoreExtended
    | UndefinedRule | SameValue | Register | RememberState | RestoreState | DefCfa | DefCfaRegister
    | DefCfaOffset | DefCfaExpression | Expression | OffsetExtendedSf | DefCfaSf | DefCfaOffsetSf
    | ValOffset | ValOffsetSf | ValExpression | MipsAdvanceLoc8 | GnuWindowSave | GnuArgsSize

  datatype Operand =
    | Low6(n: nat)
    | Unsigned(u: nat)
    | Signed(s: int)
    | Fixed(f: nat)
    | Block(bytes: seq<byte>)

  datatype Instruction = Instruction(op: Op, operands: seq<Operand>)

  /** How an operand is stored. */
  datatype Kind = InOpcode | ULebOperand | SLebOperand | FixedWidth(width: nat) | Address | Counted

  /** One line of output. */
  datatype Line =
    | Shown(off: nat, inst: Instruction)
    | NegativeOffsetExtended(off: nat)
    | BadAddressSize(size: nat)
    | UnexpectedOp(off: nat, bottom: nat)

  // ----- the opcode table

  /** The opcode byte, with the operand bits of a primary opcode zero. */
  function Opcode(op: Op): byte {
    match op
    case AdvanceLoc => 0x40
    case Offset => 0x80
    case Restore => 0xc0
    case Nop => 0x00
    case SetLoc => 0x01
    case AdvanceLoc1 => 0x02
    case AdvanceLoc2 => 0x03
    case AdvanceLoc4 => 0x04
    case OffsetExtended => 0x05
    case RestoreExtended => 0x06
    case UndefinedRule => 0x07
    case SameValue => 0x08
    case Register => 0x09
    case RememberState => 0x0a
    case RestoreState => 0x0b
    case DefCfa => 0x0c
    case DefCfaRegister => 0x0d
    case DefCfaOffset => 0x0e
    case DefCfaExpression => 0x0f
    case Expression => 0x10
    case OffsetExtendedSf => 0x11
    case DefCfaSf => 0x12
    case DefCfaOffsetSf => 0x13
    case ValOffset => 0x14
    case ValOffsetSf => 0x15
    case ValExpression => 0x16
    case MipsAdvanceLoc8 => 0x1d
    case GnuWindowSave => 0x2d
    case GnuArgsSize => 0x2e
  }

  const NEGATIVE_OFFSET_EXTENDED: byte := 0x2f

  /** The operands each opcode takes; val_offset's second one is read as signed. */
  function Kinds(op: Op): seq<Kind> {
    match op
    case AdvanceLoc | Restore => [InOpcode]
    case Offset => [InOpcode, ULebOperand]
    case Nop | RememberState | RestoreState | GnuWindowSave => []
    case SetLoc => [Address]
    case AdvanceLoc1 => [FixedWidth(1)]
    case AdvanceLoc2 => [FixedWidth(2)]
    case AdvanceLoc4 => [FixedWidth(4)]
    case MipsAdvanceLoc8 => [FixedWidth(8)]
    case RestoreExtended | UndefinedRule | SameValue | DefCfaRegister | DefCfaOffset | GnuArgsSize => [ULebOperand]
    case OffsetExtended | Register | DefCfa => [ULebOperand, ULebOperand]
    case DefCfaExpression => [Counted]
    case Expression | ValExpression => [ULebOperand, Counted]
    case OffsetExtendedSf | DefCfaSf | ValOffset | ValOffsetSf => [ULebOperand, SLebOperand]
    case DefCfaOffsetSf => [SLebOperand]
  }

  predicate Primary(op: Op) { op.AdvanceLoc? || op.Offset? || op.Restore? }

  /** The opcode a byte selects: the top two bits if they are set, else the bottom six. */
  predicate Selects(b: byte, op: Op) {
    if Primary(op) then b / 64 * 64 == Opcode(op) else b == Opcode(op)
  }

  // ----- reading

  /** The operand stored at pos; low6 are the opcode's own operand bits. */
  function ReadOperand(mem: seq<byte>, pos: nat, low6: nat, kind: Kind, addrSize: nat): Read<Operand> {
    match kind
    case InOpcode => Ok(Low6(low6), 0)
    case ULebOperand =>
      (match LocalULeb(mem, pos)
       case Ok(v, n) => Ok(Unsigned(v), n)
       case Undefined => Undefined)
    case SLebOperand =>
      (match SLeb(mem, pos)
       case Ok(v, n) => Ok(Signed(v), n)
       case Undefined => Undefined)
    case FixedWidth(w) => ReadFixed(mem, pos, w)
    case Address => if addrSize == 4 || addrSize == 8 then ReadFixed(mem, pos, addrSize) else Ok(Fixed(0), addrSize)
    case Counted =>
      (match LocalULeb(mem, pos)
       case Ok(v, n) =>
         if pos + n + v <= |mem| then Ok(Block(mem[pos + n..pos + n + v]), n + v) else Undefined
       case Undefined => Undefined)
  }

  function ReadFixed(mem: seq<byte>, pos: nat, width: nat): Read<Operand> {
    if pos + width <= |mem| then Ok(Fixed(FromBytes(mem[pos..pos + width])), width) else Undefined
  }

  /** Operands stored one after the other from pos on. */
  function ReadOperands(mem: seq<byte>, pos: nat, low6: nat, kinds: seq<Kind>, addrSize: nat): Read<seq<Operand>>
    decreases |kinds|
  {
    if kinds == [] then Ok([], 0)
    else
      match ReadOperand(mem, pos, low6, kinds[0], addrSize)
      case Undefined => Undefined
      case Ok(first, n) =>
        match ReadOperands(mem, pos + n, low6, kinds[1..], addrSize)
        case Undefined => Undefined
        case Ok(rest, m) => Ok([first] + rest, n + m)
  }

  /** What one instruction prints; `stop` after an opcode that is not known. */
  datatype Entry = Entry(lines: seq<Line>, stop: bool)

  predicate Known(b: byte) { b >= 64 || b <= 0x16 || b == 0x1d || 0x2d <= b <= 0x2e }

  /** The opcode a known byte selects. */
  function OpOf(b: byte): (op: Op)
    requires Known(b)
    ensures Selects(b, op)
  {
    if b >= 0xc0 then Restore else if b >= 0x80 then Offset else if b >= 0x40 then AdvanceLoc
    else if b < 0x08 then
      [Nop, SetLoc, AdvanceLoc1, AdvanceLoc2, AdvanceLoc4, OffsetExtended, RestoreExtended, UndefinedRule][b]
    else if b < 0x10 then
      [SameValue, Register, RememberState, RestoreState, DefCfa, DefCfaRegister, DefCfaOffset, DefCfaExpression][b - 8]
    else if b < 0x17 then
      [Expression, OffsetExtendedSf, DefCfaSf, DefCfaOffsetSf, ValOffset, ValOffsetSf, ValExpression][b - 16]
    else if b == 0x1d then MipsAdvanceLoc8
    else if b == 0x2d then GnuWindowSave
    else GnuArgsSize
  }

  /** A byte selects one opcode only, so the table can be read either way. */
  lemma SelectsOne(b: byte, op: Op)
    ensures Selects(b, op) <==> Known(b) && OpOf(b) == op
  {
  }

  /** Offsets are printed from a 32-bit counter that starts at 0. */
  function Off(start: nat, at: nat): nat
    requires start <= at
  {
    (at - start) % TWO_32
  }

  /** The instruction at `at`: the lines it prints and the bytes it takes. */
  function ReadEntry(mem: seq<byte>, start: nat, at: nat, addrSize: nat): (r: Read<Entry>)
    requires start <= at
    ensures r.Ok? ==> r.size >= 1 && r.value.lines != []
    ensures r.Ok? && r.value.stop ==> r.value.lines[0].UnexpectedOp?
  {
    if at >= |mem| then Undefined
    else
      var b, off := mem[at], Off(start, at);
      if b == NEGATIVE_OFFSET_EXTENDED then
        // falls into the next case: its operand is listed as an argument size
        match ReadOperands(mem, at + 1, b % 64, Kinds(GnuArgsSize), addrSize)
        case Undefined => Undefined
        case Ok(operands, n) =>
          Ok(Entry([NegativeOffsetExtended(off), Shown(off, Instruction(GnuArgsSize, operands))], false), n + 1)
      else if !Known(b) then Ok(Entry([UnexpectedOp(off, b % 64)], true), 1)
      else
        var op := OpOf(b);
        match ReadOperands(mem, at + 1, b % 64, Kinds(op), addrSize)
        case Undefined => Undefined
        case Ok(operands, n) =>
          var shown := [Shown(off, Instruction(op, operands))];
          var bad := op.SetLoc? && addrSize != 4 && addrSize != 8;
          Ok(Entry(if bad then [BadAddressSize(addrSize)] + shown else shown, false), n + 1)
  }

  /** The listing of `len` bytes from `at` on, and how far the disassembly got. */
  function Disassembly(mem: seq<byte>, start: nat, at: nat, len: int, addrSize: nat): Read<seq<Line>>
    requires start <= at
    decreases len
  {
    if len <= 0 then Ok([], 0)
    else
      match ReadEntry(mem, start, at, addrSize)
      case Undefined => Undefined
      case Ok(entry, n) =>
        if entry.stop then Ok(entry.lines, n)
        else
          match Disassembly(mem, start, at + n, len - n, addrSize)
          case Undefined => Undefined
          case Ok(rest, m) => Ok(entry.lines + rest, n + m)
  }

  // ----- writing

  function EncodeOperand(operand: Operand, kind: Kind, addrSize: nat): seq<byte> {
    match operand
    case Low6(_) => []
    case Unsigned(u) => EncodeULeb(u)
    case Signed(s) => EncodeSLeb(s)
    case Fixed(f) => ToBytes(f, if kind.FixedWidth? then kind.width else addrSize)
    case Block(bytes) => EncodeULeb(|bytes|) + bytes
  }

  function EncodeOperands(operands: seq<Operand>, kinds: seq<Kind>, addrSize: nat): seq<byte>
    requires |operands| == |kinds|
  {
    if kinds == [] then []
    else EncodeOperand(operands[0], kinds[0], addrSize) + EncodeOperands(operands[1..], kinds[1..], addrSize)
  }

  /** The operand is of its kind and in the range the decoders recover. */
  predicate Fits(operand: Operand, kind: Kind, addrSize: nat) {
    match kind
    case InOpcode => operand.Low6? && operand.n < 64
    case ULebOperand => operand.Unsigned? && operand.u < TWO_31
    case SLebOperand => operand.Signed? && -TWO_63 <= operand.s < TWO_63
    case FixedWidth(w) => operand.Fixed? && operand.f < Pow2(8 * w)
    case Address => operand.Fixed? && (addrSize == 4 || addrSize == 8) && operand.f < Pow2(8 * addrSize)
    case Counted => operand.Block? && |operand.bytes| < TWO_31
  }

  predicate WellFormed(inst: Instruction, addrSize: nat) {
    |inst.operands| == |Kinds(inst.op)| &&
    forall i :: 0 <= i < |inst.operands| ==> Fits(inst.operands[i], Kinds(inst.op)[i], addrSize)
  }

  function FirstByte(inst: Instruction, addrSize: nat): byte
    requires WellFormed(inst, addrSize)
  {
    if Primary(inst.op) then
      assert Fits(inst.operands[0], Kinds(inst.op)[0], addrSize);
      Opcode(inst.op) + inst.operands[0].n
    else Opcode(inst.op)
  }

  function Encode(inst: Instruction, addrSize: nat): (bs: seq<byte>)
    requires WellFormed(inst, addrSize)
    ensures |bs| >= 1
  {
    [FirstByte(inst, addrSize)] + EncodeOperands(inst.operands, Kinds(inst.op), addrSize)
  }

  predicate AllWellFormed(insts: seq<Instruction>, addrSize: nat) {
    forall i :: 0 <= i < |insts| ==> WellFormed(insts[i], addrSize)
  }

  function EncodeAll(insts: seq<Instruction>, addrSize: nat): seq<byte>
    requires AllWellFormed(insts, addrSize)
  {
    if insts == [] then [] else Encode(insts[0], addrSize) + EncodeAll(insts[1..], addrSize)
  }

  // ----- reading undoes writing

  lemma ReadEncodedOperand(mem: seq<byte>, pos: nat, low6: nat, operand: Operand, kind: Kind, addrSize: nat)
    requires Fits(operand, kind, addrSize)
    requires Holds(mem, pos, EncodeOperand(operand, kind, addrSize))
    requires operand.Low6? ==> operand.n == low6
    ensures ReadOperand(mem, pos, low6, kind, addrSize) == Ok(operand, |EncodeOperand(operand, kind, addrSize)|)
  {
    match kind
    case InOpcode =>
    case ULebOperand => LocalULebRoundTrip(mem, pos, operand.u);
    case SLebOperand => SLebRoundTrip(mem, pos, operand.s);
    case FixedWidth(w) => FromToBytes(operand.f, w);
    case Address => FromToBytes(operand.f, addrSize);
    case Counted =>
      HoldsSplit(mem, pos, EncodeULeb(|operand.bytes|), operand.bytes);
      LocalULebRoundTrip(mem, pos, |operand.bytes|);
  }

  lemma {:induction false} ReadEncodedOperands(mem: seq<byte>, pos: nat, low6: nat,
                                               operands: seq<Operand>, kinds: seq<Kind>, addrSize: nat)
    requires |operands| == |kinds|
    requires forall i :: 0 <= i < |kinds| ==> Fits(operands[i], kinds[i], addrSize)
    requires forall i :: 0 <= i < |kinds| && operands[i].Low6? ==> operands[i].n == low6
    requires Holds(mem, pos, EncodeOperands(operands, kinds, addrSize))
    ensures ReadOperands(mem, pos, low6, kinds, addrSize)
            == Ok(operands, |EncodeOperands(operands, kinds, addrSize)|)
    decreases |kinds|
  {
    hide ReadOperand, EncodeOperand, Fits, Holds, ReadOperands;
    ReadsFirst(mem, pos, low6, kinds, addrSize);
    if kinds != [] {
      var first := EncodeOperand(operands[0], kinds[0], addrSize);
      HoldsSplit(mem, pos, first, EncodeOperands(operands[1..], kinds[1..], addrSize));
      ReadEncodedOperand(mem, pos, low6, operands[0], kinds[0], addrSize);
      ReadEncodedOperands(mem, pos + |first|, low6, operands[1..], kinds[1..], addrSize);
      assert operands == [operands[0]] + operands[1..];
    } else {
      assert operands == [];
    }
  }

  lemma ReadsFirst(mem: seq<byte>, pos: nat, low6: nat, kinds: seq<Kind>, addrSize: nat)
    ensures kinds == [] ==> ReadOperands(mem, pos, low6, kinds, addrSize) == Ok([], 0)
    ensures kinds != [] && ReadOperand(mem, pos, low6, kinds[0], addrSize).Ok? ==>
              var Ok(first, n) := ReadOperand(mem, pos, low6, kinds[0], addrSize);
              var rest := ReadOperands(mem, pos + n, low6, kinds[1..], addrSize);
              rest.Ok? ==> ReadOperands(mem, pos, low6, kinds, addrSize) == Ok([first] + rest.value, n + rest.size)
  {
    hide ReadOperand;
  }

  lemma ReadEncodedEntry(mem: seq<byte>, start: nat, at: nat, inst: Instruction, addrSize: nat)
    requires start <= at && WellFormed(inst, addrSize)
    requires Holds(mem, at, Encode(inst, addrSize))
    ensures ReadEntry(mem, start, at, addrSize)
            == Ok(Entry([Shown(Off(start, at), inst)], false), |Encode(inst, addrSize)|)
  {
    var b := FirstByte(inst, addrSize);
    HoldsSplit(mem, at, [b], EncodeOperands(inst.operands, Kinds(inst.op), addrSize));
    assert mem[at] == mem[at..at + 1][0] == b;
    FirstByteSelects(inst, addrSize);
    SelectsOne(b, inst.op);
    ReadEncodedOperands(mem, at + 1, b % 64, inst.operands, Kinds(inst.op), addrSize);
    if inst.op.SetLoc? {
      assert Fits(inst.operands[0], Kinds(inst.op)[0], addrSize);
    }
    assert Instruction(inst.op, inst.operands) == inst;
  }

  lemma FirstByteSelects(inst: Instruction, addrSize: nat)
    requires WellFormed(inst, addrSize)
    ensures var b := FirstByte(inst, addrSize);
            Selects(b, inst.op) && b != NEGATIVE_OFFSET_EXTENDED &&
            forall i :: 0 <= i < |inst.operands| && inst.operands[i].Low6? ==> inst.operands[i].n == b % 64
  {
    forall i | 0 <= i < |inst.operands| && inst.operands[i].Low6?
      ensures inst.operands[i].n == FirstByte(inst, addrSize) % 64
    {
      assert Fits(inst.operands[i], Kinds(inst.op)[i], addrSize);
      assert Primary(inst.op) && i == 0;
    }
    if Primary(inst.op) {
      assert Fits(inst.operands[0], Kinds(inst.op)[0], addrSize);
    }
  }

  /** What is printed for a list of instructions laid out from `at` on. */
  function Listing(insts: seq<Instruction>, start: nat, at: nat, addrSize: nat): (lines: seq<Line>)
    requires start <= at && AllWellFormed(insts, addrSize)
    ensures |lines| == |insts|
  {
    if insts == [] then []
    else [Shown(Off(start, at), insts[0])] + Listing(insts[1..], start, at + |Encode(insts[0], addrSize)|, addrSize)
  }

  lemma {:induction false} DisassembleEncoded(mem: seq<byte>, start: nat, at: nat, insts: seq<Instruction>, addrSize: nat)
    requires start <= at && AllWellFormed(insts, addrSize)
    requires Holds(mem, at, EncodeAll(insts, addrSize))
    ensures var code := EncodeAll(insts, addrSize);
            Disassembly(mem, start, at, |code|, addrSize) == Ok(Listing(insts, start, at, addrSize), |code|)
    decreases |insts|
  {
    hide ReadEntry, Encode;
    if insts != [] {
      var first := Encode(insts[0], addrSize);
      HoldsSplit(mem, at, first, EncodeAll(insts[1..], addrSize));
      ReadEncodedEntry(mem, start, at, insts[0], addrSize);
      DisassembleEncoded(mem, start, at + |first|, insts[1..], addrSize);
    }
  }

  /** Each line of a listing carries its instruction and the offset where that is encoded. */
  lemma {:induction false} ListingAt(insts: seq<Instruction>, start: nat, at: nat, addrSize: nat, k: nat)
    requires start <= at && AllWellFormed(insts, addrSize) && k < |insts|
    ensures Listing(insts, start, at, addrSize)[k]
            == Shown(Off(start, at + |EncodeAll(insts[..k], addrSize)|), insts[k])
    decreases k
  {
    hide Encode, WellFormed, Off;
    if k > 0 {
      var first := Encode(insts[0], addrSize);
      ListingAt(insts[1..], start, at + |first|, addrSize, k - 1);
      assert insts[..k][0] == insts[0] && insts[..k][1..] == insts[1..][..k - 1];
      assert at + |first| + |EncodeAll(insts[1..][..k - 1], addrSize)| == at + |EncodeAll(insts[..k], addrSize)|;
    } else {
      assert insts[..0] == [];
    }
  }

  /** Disassembling the encoding of any instruction list, wherever it lies in memory, lists
      exactly those instructions, each with its true offset (modulo the counter's 32 bits). */
  lemma RoundTrip(mem: seq<byte>, at: nat, insts: seq<Instruction>, addrSize: nat)
    requires AllWellFormed(insts, addrSize)
    requires Holds(mem, at, EncodeAll(insts, addrSize))
    ensures var code := EncodeAll(insts, addrSize);
            var r := Disassembly(mem, at, at, |code|, addrSize);
            && r.Ok? && r.size == |code| && |r.value| == |insts|
            && forall k :: 0 <= k < |insts| ==>
                 r.value[k] == Shown(|EncodeAll(insts[..k], addrSize)| % TWO_32, insts[k])
  {
    hide Encode, WellFormed, Disassembly, ReadEntry;
    DisassembleEncoded(mem, at, at, insts, addrSize);
    forall k | 0 <= k < |insts|
      ensures Listing(insts, at, at, addrSize)[k] == Shown(|EncodeAll(insts[..k], addrSize)| % TWO_32, insts[k])
    {
      ListingAt(insts, at, at, addrSize, k);
    }
  }

  // ----- concatenation

  predicate Stopped(lines: seq<Line>) {
    exists i :: 0 <= i < |lines| && lines[i].UnexpectedOp?
  }

  /** A disassembly that ends exactly at n bytes continues there as if it had started there. */
  lemma {:induction false} Continue(mem: seq<byte>, start: nat, at: nat, n: nat, more: nat, addrSize: nat)
    requires start <= at
    requires Disassembly(mem, start, at, n, addrSize).Ok? && Disassembly(mem, start, at, n, addrSize).size == n
    requires !Stopped(Disassembly(mem, start, at, n, addrSize).value)
    ensures Disassembly(mem, start, at, n + more, addrSize)
            == match Disassembly(mem, start, at + n, more, addrSize)
               case Undefined => Undefined
               case Ok(rest, m) => Ok(Disassembly(mem, start, at, n, addrSize).value + rest, n + m)
    decreases n
  {
    hide *;
    Unfolded(mem, start, at, n, addrSize);
    Unfolded(mem, start, at, n + more, addrSize);
    if n > 0 {
      var entry := ReadEntry(mem, start, at, addrSize);
      var rest := Disassembly(mem, start, at + entry.size, n - entry.size, addrSize);
      if !entry.value.stop {
        StoppedJoin(entry.value.lines, rest.value);
        Continue(mem, start, at + entry.size, n - entry.size, more, addrSize);
        var after := Disassembly(mem, start, at + n, more, addrSize);
        if after.Ok? { JoinThree(entry.value.lines, rest.value, after.value); }
      }
    } else {
      var rest := Disassembly(mem, start, at, more, addrSize);
      if rest.Ok? { JoinThree([], [], rest.value); }
    }
  }

  /** One turn of the loop. A stop leaves its unexpected opcode as the last line. */
  lemma Unfolded(mem: seq<byte>, start: nat, at: nat, len: int, addrSize: nat)
    requires start <= at
    ensures len <= 0 ==> Disassembly(mem, start, at, len, addrSize) == Ok([], 0)
    ensures len > 0 ==>
              var entry := ReadEntry(mem, start, at, addrSize);
              Disassembly(mem, start, at, len, addrSize)
              == match entry
                 case Undefined => Undefined
                 case Ok(e, n) =>
                   if e.stop then Ok(e.lines, n)
                   else
                     match Disassembly(mem, start, at + n, len - n, addrSize)
                     case Undefined => Undefined
                     case Ok(rest, m) => Ok(e.lines + rest, n + m)
    ensures len > 0 ==>
              var entry := ReadEntry(mem, start, at, addrSize); entry.Ok? && entry.value.stop ==> Stopped(entry.value.lines)
  {
    StopIsStopped(mem, start, at, addrSize);
    hide ReadEntry, Stopped;
  }

  lemma StopIsStopped(mem: seq<byte>, start: nat, at: nat, addrSize: nat)
    requires start <= at
    ensures var entry := ReadEntry(mem, start, at, addrSize); entry.Ok? && entry.value.stop ==> Stopped(entry.value.lines)
  {
    hide ReadOperands, OpOf, Known;
    var entry := ReadEntry(mem, start, at, addrSize);
    if entry.Ok? && entry.value.stop { assert entry.value.lines[0].UnexpectedOp?; }
  }

  lemma StoppedJoin(a: seq<Line>, b: seq<Line>)
    ensures Stopped(b) ==> Stopped(a + b)
  {
    if i :| 0 <= i < |b| && b[i].UnexpectedOp? { assert (a + b)[|a| + i].UnexpectedOp?; }
  }

  lemma JoinThree<T>(a: seq<T>, b: seq<T>, c: seq<T>)
    ensures a + b + c == a + (b + c) && [] + c == c
  {
  }

  function ShiftLine(line: Line, d: nat): Line {
    match line
    case Shown(off, inst) => Shown((off + d) % TWO_32, inst)
    case NegativeOffsetExtended(off) => NegativeOffsetExtended((off + d) % TWO_32)
    case BadAddressSize(size) => line
    case UnexpectedOp(off, bottom) => UnexpectedOp((off + d) % TWO_32, bottom)
  }

  function Shift(lines: seq<Line>, d: nat): (shifted: seq<Line>)
    ensures |shifted| == |lines|
  {
    seq(|lines|, i requires 0 <= i < |lines| => ShiftLine(lines[i], d))
  }

  lemma OffShift(start: nat, d: nat, at: nat)
    requires start + d <= at
    ensures Off(start, at) == (Off(start + d, at) + d) % TWO_32
  {
  }

  lemma RebaseEntry(mem: seq<byte>, start: nat, d: nat, at: nat, addrSize: nat)
    requires start + d <= at
    ensures ReadEntry(mem, start, at, addrSize)
            == match ReadEntry(mem, start + d, at, addrSize)
               case Undefined => Undefined
               case Ok(entry, n) => Ok(Entry(Shift(entry.lines, d), entry.stop), n)
  {
    hide ReadOperands, OpOf, Known;
    OffShift(start, d, at);
    var there := ReadEntry(mem, start + d, at, addrSize);
    if there.Ok? {
      assert ReadEntry(mem, start, at, addrSize).value.lines == Shift(there.value.lines, d);
    }
  }

  /** Starting the offset counter d bytes earlier only shifts the offsets. */
  lemma {:induction false} Rebase(mem: seq<byte>, start: nat, d: nat, at: nat, len: int, addrSize: nat)
    requires start + d <= at
    ensures Disassembly(mem, start, at, len, addrSize)
            == match Disassembly(mem, start + d, at, len, addrSize)
               case Undefined => Undefined
               case Ok(lines, n) => Ok(Shift(lines, d), n)
    decreases len
  {
    hide ReadEntry, ShiftLine;
    if len > 0 {
      RebaseEntry(mem, start, d, at, addrSize);
      var there := ReadEntry(mem, start + d, at, addrSize);
      if there.Ok? && !there.value.stop {
        Rebase(mem, start, d, at + there.size, len - there.size, addrSize);
        var rest := Disassembly(mem, start + d, at + there.size, len - there.size, addrSize);
        if rest.Ok? {
          assert Shift(there.value.lines + rest.value, d)
              == Shift(there.value.lines, d) + Shift(rest.value, d);
        }
      }
    } else {
      assert Shift([], d) == [];
    }
  }

  /** Disassembling a concatenation lists the first part, then the second with its offsets shifted. */
  lemma Concatenation(mem: seq<byte>, at: nat, n: nat, more: nat, addrSize: nat)
    requires Disassembly(mem, at, at, n, addrSize).Ok? && Disassembly(mem, at, at, n, addrSize).size == n
    requires !Stopped(Disassembly(mem, at, at, n, addrSize).value)
    ensures Disassembly(mem, at, at, n + more, addrSize)
            == match Disassembly(mem, at + n, at + n, more, addrSize)
               case Undefined => Undefined
               case Ok(rest, m) => Ok(Disassembly(mem, at, at, n, addrSize).value + Shift(rest, n), n + m)
  {
    Continue(mem, at, at, n, more, addrSize);
    Rebase(mem, at, n, at + n, more, addrSize);
  }
}
