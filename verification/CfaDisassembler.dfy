/** print_frame_inst_bytes: one loop that keeps a cursor, a remaining length and an
    offset counter in step while it lists call-frame instructions. */
module CfaDisassembler {
  import opened Bits
  import opened Leb128
  import opened CfaInstructions

  /** The loop's three counters. Inside an instruction `instp` is one byte behind the next unread byte. */
  class Cursor {
    const mem: seq<byte>
    ghost const start: nat
    ghost const total: int
    var instp: nat
    var len: int
    var off: nat

    /** The cursor is the start plus the offset, and offset plus remaining length is the whole length. */
    ghost predicate InStep()
      reads this
    {
      start <= instp && off == Off(start, instp) && instp - start + len == total
    }

    constructor (mem: seq<byte>, at: nat, len: int)
      ensures InStep()
      ensures this.mem == mem && instp == at == start && this.len == len == total
    {
      this.mem, this.start, this.total := mem, at, len;
      this.instp, this.len, this.off := at, len, 0;
    }

    /** `instp += n; len -= n; off += n;` */
    method Advance(n: nat)
      requires InStep()
      modifies this
      ensures InStep() && instp == old(instp) + n && len == old(len) - n
    {
      AdvanceOff(start, instp, n);
      instp := instp + n;
      len := len - n;
      off := (off + n) % TWO_32;
    }

    /** The operand behind the cursor, which then stands on its last byte. */
    method Take(kind: Kind, low6: nat, addrSize: nat) returns (r: Read<Operand>)
      requires InStep()
      modifies this
      ensures InStep()
      ensures r == ReadOperand(mem, old(instp) + 1, low6, kind, addrSize)
      ensures r.Ok? ==> instp == old(instp) + r.size
    {
      match kind {
        case InOpcode =>
          r := Ok(Low6(low6), 0);
        case ULebOperand =>
          var u := LocalDecodeULeb(mem, instp + 1);
          if u.Undefined? { return Undefined; }
          r := Ok(Unsigned(u.value), u.size);
        case SLebOperand =>
          var s := DecodeSLeb(mem, instp + 1);
          if s.Undefined? { return Undefined; }
          r := Ok(Signed(s.value), s.size);
        case FixedWidth(w) =>
          if instp + 1 + w > |mem| { return Undefined; }
          r := Ok(Fixed(FromBytes(mem[instp + 1..instp + 1 + w])), w);
        case Address =>
          var uval := 0;
          if addrSize == 4 || addrSize == 8 {
            if instp + 1 + addrSize > |mem| { return Undefined; }
            uval := FromBytes(mem[instp + 1..instp + 1 + addrSize]);
          }
          r := Ok(Fixed(uval), addrSize);
        case Counted =>
          var u := LocalDecodeULeb(mem, instp + 1);
          if u.Undefined? { return Undefined; }
          Advance(u.size);
          var blockLen := u.value;
          if instp + 1 + blockLen > |mem| { return Undefined; }
          r := Ok(Block(mem[instp + 1..instp + 1 + blockLen]), u.size + blockLen);
          Advance(blockLen);
          return;
      }
      Advance(r.size);
    }
  }

  lemma AdvanceOff(start: nat, at: nat, n: nat)
    requires start <= at
    ensures Off(start, at + n) == (Off(start, at) + n) % TWO_32
  {
  }

  lemma OneOperand(mem: seq<byte>, pos: nat, low6: nat, kind: Kind, addrSize: nat)
    ensures ReadOperands(mem, pos, low6, [kind], addrSize)
            == match ReadOperand(mem, pos, low6, kind, addrSize)
               case Undefined => Undefined
               case Ok(operand, n) => Ok([operand], n)
  {
    var a := ReadOperand(mem, pos, low6, kind, addrSize);
    assert [kind][1..] == [];
    if a.Ok? {
      assert ReadOperands(mem, pos + a.size, low6, [], addrSize) == Ok([], 0);
      assert [a.value] + [] == [a.value];
    }
  }

  lemma TwoOperands(mem: seq<byte>, pos: nat, low6: nat, first: Kind, second: Kind, addrSize: nat)
    ensures ReadOperands(mem, pos, low6, [first, second], addrSize)
            == match ReadOperand(mem, pos, low6, first, addrSize)
               case Undefined => Undefined
               case Ok(a, n) =>
                 match ReadOperand(mem, pos + n, low6, second, addrSize)
                 case Undefined => Undefined
                 case Ok(b, m) => Ok([a, b], n + m)
  {
    var a := ReadOperand(mem, pos, low6, first, addrSize);
    if a.Ok? {
      OneOperand(mem, pos + a.size, low6, second, addrSize);
      assert [first, second][1..] == [second];
      var b := ReadOperand(mem, pos + a.size, low6, second, addrSize);
      assert b.Ok? ==> [a.value] + [b.value] == [a.value, b.value];
    }
  }

  /** One operand of an instruction. */
  method TakeOne(c: Cursor, low6: nat, kind: Kind, addrSize: nat) returns (r: Read<seq<Operand>>)
    requires c.InStep()
    modifies c
    ensures c.InStep()
    ensures r == ReadOperands(c.mem, old(c.instp) + 1, low6, [kind], addrSize)
    ensures r.Ok? ==> c.instp == old(c.instp) + r.size
  {
    hide ReadOperand;
    OneOperand(c.mem, c.instp + 1, low6, kind, addrSize);
    var a := c.Take(kind, low6, addrSize);
    r := if a.Ok? then Ok([a.value], a.size) else Undefined;
  }

  /** Two operands, the second behind the first. */
  method TakeTwo(c: Cursor, low6: nat, first: Kind, second: Kind, addrSize: nat) returns (r: Read<seq<Operand>>)
    requires c.InStep()
    modifies c
    ensures c.InStep()
    ensures r == ReadOperands(c.mem, old(c.instp) + 1, low6, [first, second], addrSize)
    ensures r.Ok? ==> c.instp == old(c.instp) + r.size
  {
    hide ReadOperand, ReadOperands;
    TwoOperands(c.mem, c.instp + 1, low6, first, second, addrSize);
    var a := c.Take(first, low6, addrSize);
    if a.Undefined? { return Undefined; }
    var b := c.Take(second, low6, addrSize);
    r := if b.Ok? then Ok([a.value, b.value], a.size + b.size) else Undefined;
  }

  /** The operands a known opcode's case reads. */
  method TakeOperands(c: Cursor, op: Op, low6: nat, addrSize: nat) returns (r: Read<seq<Operand>>)
    requires c.InStep()
    modifies c
    ensures c.InStep()
    ensures r == ReadOperands(c.mem, old(c.instp) + 1, low6, Kinds(op), addrSize)
    ensures r.Ok? ==> c.instp == old(c.instp) + r.size
  {
    hide ReadOperand;
    match op {
      case AdvanceLoc | Restore =>
        r := TakeOne(c, low6, InOpcode, addrSize);
      case Offset =>
        r := TakeTwo(c, low6, InOpcode, ULebOperand, addrSize);
      case Nop | RememberState | RestoreState | GnuWindowSave =>
        r := Ok([], 0);
      case SetLoc =>
        r := TakeOne(c, low6, Address, addrSize);
      case AdvanceLoc1 =>
        r := TakeOne(c, low6, FixedWidth(1), addrSize);
      case AdvanceLoc2 =>
        r := TakeOne(c, low6, FixedWidth(2), addrSize);
      case AdvanceLoc4 =>
        r := TakeOne(c, low6, FixedWidth(4), addrSize);
      case MipsAdvanceLoc8 =>
        r := TakeOne(c, low6, FixedWidth(8), addrSize);
      case RestoreExtended | UndefinedRule | SameValue | DefCfaRegister | DefCfaOffset | GnuArgsSize =>
        r := TakeOne(c, low6, ULebOperand, addrSize);
      case OffsetExtended | Register | DefCfa =>
        r := TakeTwo(c, low6, ULebOperand, ULebOperand, addrSize);
      case DefCfaExpression =>
        r := TakeOne(c, low6, Counted, addrSize);
      case Expression | ValExpression =>
        r := TakeTwo(c, low6, ULebOperand, Counted, addrSize);
      case OffsetExtendedSf | DefCfaSf | ValOffset | ValOffsetSf =>
        r := TakeTwo(c, low6, ULebOperand, SLebOperand, addrSize);
      case DefCfaOffsetSf =>
        r := TakeOne(c, low6, SLebOperand, addrSize);
    }
  }

  /** One pass through the switch: what it prints, and whether the opcode was known. */
  method ShowInstruction(c: Cursor, addrSize: nat) returns (r: Read<Entry>)
    requires c.InStep()
    modifies c
    ensures c.InStep()
    ensures r == ReadEntry(c.mem, c.start, old(c.instp), addrSize)
    ensures r.Ok? ==> c.instp == old(c.instp) + r.size - 1
  {
    hide ReadOperands, OpOf, Kinds;
    if c.instp >= |c.mem| {
      return Undefined;
    }
    var ibyte := c.mem[c.instp];
    var bottom, loff := ibyte % 64, c.off;
    if ibyte == NEGATIVE_OFFSET_EXTENDED {
      var args := TakeOperands(c, GnuArgsSize, bottom, addrSize);
      if args.Undefined? { return Undefined; }
      var lines := [NegativeOffsetExtended(loff), Shown(loff, Instruction(GnuArgsSize, args.value))];
      return Ok(Entry(lines, false), args.size + 1);
    }
    if !Known(ibyte) {
      return Ok(Entry([UnexpectedOp(loff, bottom)], true), 1);
    }
    var op := OpOf(ibyte);
    var operands := TakeOperands(c, op, bottom, addrSize);
    if operands.Undefined? { return Undefined; }
    var lines := [Shown(loff, Instruction(op, operands.value))];
    if op.SetLoc? && addrSize != 4 && addrSize != 8 {
      lines := [BadAddressSize(addrSize)] + lines;
    }
    return Ok(Entry(lines, false), operands.size + 1);
  }

  /** print_frame_inst_bytes, for any bytes: it ends, and lists exactly their disassembly. */
  method PrintFrameInstBytes(mem: seq<byte>, at: nat, len: int, addrSize: nat) returns (r: Read<seq<Line>>)
    ensures r == Disassembly(mem, at, at, len, addrSize)
  {
    hide ReadEntry, Disassembly, Prepend;
    var c := new Cursor(mem, at, len);
    var lines: seq<Line> := [];
    PrependNothing(Disassembly(mem, at, at, len, addrSize));
    while c.len > 0
      invariant c.mem == mem && c.start == at && c.total == len && c.InStep()
      invariant Disassembly(mem, at, at, len, addrSize)
                == Prepend(lines, c.instp - at, Disassembly(mem, at, c.instp, c.len, addrSize))
      decreases c.len
    {
      ghost var before, rest := c.instp, c.len;
      var entry := ShowInstruction(c, addrSize);
      PrependMore(lines, before - at, mem, at, before, rest, addrSize);
      if entry.Undefined? { return Undefined; }
      lines := lines + entry.value.lines;
      if entry.value.stop {
        return Ok(lines, c.instp + 1 - at);
      }
      c.Advance(1);
    }
    PrependEnd(lines, c.instp - at, mem, at, c.instp, c.len, addrSize);
    return Ok(lines, c.instp - at);
  }

  /** What has been listed so far, before what a disassembly still lists. */
  ghost function Prepend(lines: seq<Line>, taken: nat, r: Read<seq<Line>>): Read<seq<Line>> {
    match r
    case Undefined => Undefined
    case Ok(rest, n) => Ok(lines + rest, taken + n)
  }

  lemma PrependNothing(r: Read<seq<Line>>)
    ensures Prepend([], 0, r) == r
  {
    if r.Ok? { assert [] + r.value == r.value; }
  }

  lemma PrependEnd(lines: seq<Line>, taken: nat, mem: seq<byte>, start: nat, at: nat, len: int, addrSize: nat)
    requires start <= at && len <= 0
    ensures Prepend(lines, taken, Disassembly(mem, start, at, len, addrSize)) == Ok(lines, taken)
  {
    assert lines + [] == lines;
  }

  lemma PrependMore(lines: seq<Line>, taken: nat, mem: seq<byte>, start: nat, at: nat, len: int, addrSize: nat)
    requires start <= at && len > 0
    ensures var entry := ReadEntry(mem, start, at, addrSize);
            Prepend(lines, taken, Disassembly(mem, start, at, len, addrSize))
            == if entry.Undefined? then Undefined
               else if entry.value.stop then Ok(lines + entry.value.lines, taken + entry.size)
               else Prepend(lines + entry.value.lines, taken + entry.size,
                            Disassembly(mem, start, at + entry.size, len - entry.size, addrSize))
  {
    hide ReadEntry;
    var entry := ReadEntry(mem, start, at, addrSize);
    if entry.Ok? && !entry.value.stop {
      var rest := Disassembly(mem, start, at + entry.size, len - entry.size, addrSize);
      if rest.Ok? {
        assert lines + (entry.value.lines + rest.value) == (lines + entry.value.lines) + rest.value;
      }
    }
  }
}
