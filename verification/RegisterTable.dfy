/** The table of register names that a configuration builds: dwarfdump reallocates an array, dwarfdump2
    resizes a vector, and both print a register as the last name it was given. */
module RegisterTable {

  // ----- the names, and how a register prints

  /** Last write wins. */
  function Written(writes: seq<(nat, string)>): map<nat, string> {
    if writes == [] then map[]
    else
      var (reg, name) := writes[|writes| - 1];
      Written(writes[..|writes| - 1])[reg := name]
  }

  /** A register prints with the name of the last write to it. */
  lemma {:induction false} WrittenIsLast(writes: seq<(nat, string)>, reg: nat)
    ensures reg in Written(writes) <==> exists i :: 0 <= i < |writes| && writes[i].0 == reg
    ensures reg in Written(writes) ==>
              exists i :: 0 <= i < |writes| && writes[i] == (reg, Written(writes)[reg])
                          && forall j :: i < j < |writes| ==> writes[j].0 != reg
  {
    if writes != [] {
      var n := |writes| - 1;
      var before := writes[..n];
      WrittenIsLast(before, reg);
      if writes[n].0 == reg {
        assert writes[n] == (reg, Written(writes)[reg]);
      } else if reg in Written(before) {
        var i :| 0 <= i < |before| && before[i] == (reg, Written(before)[reg])
                 && forall j :: i < j < |before| ==> before[j].0 != reg;
        assert writes[i] == before[i];
        assert forall j :: i < j < |before| ==> writes[j] == before[j];
      } else {
        assert forall i :: 0 <= i < n ==> writes[i] == before[i];
      }
    }
  }

  /** The numbers that print as rules, not as registers. */
  datatype Columns = Columns(cfaReg: int, undefinedVal: int, sameVal: int)

  function Digit(d: nat): char
    requires d < 10
  {
    "0123456789"[d]
  }

  function Decimal(n: nat): (s: string)
    ensures s != "" && forall c <- s :: '0' <= c <= '9'
  {
    if n < 10 then [Digit(n)] else Decimal(n / 10) + [Digit(n % 10)]
  }

  /** `r` and the number, sign included. */
  function Unnamed(reg: int): string { if reg < 0 then "r-" + Decimal(-reg) else "r" + Decimal(reg) }

  function Printed(reg: int, columns: Columns, names: map<nat, string>): string {
    if reg == columns.cfaReg then "cfa"
    else if reg == columns.undefinedVal then "u"
    else if reg == columns.sameVal then "s"
    else if reg >= 0 && reg in names then names[reg]
    else Unnamed(reg)
  }

  /** What a register prints as after some writes: the column of the canonical frame address first, then that of
      undefined and that of unchanged registers, then the last name it was given, and only then its number. */
  lemma PrintsAs(reg: int, columns: Columns, writes: seq<(nat, string)>)
    ensures var text := Printed(reg, columns, Written(writes));
            && (reg == columns.cfaReg ==> text == "cfa")
            && (reg != columns.cfaReg && reg == columns.undefinedVal ==> text == "u")
            && (reg != columns.cfaReg && reg != columns.undefinedVal && reg == columns.sameVal ==> text == "s")
            && (reg != columns.cfaReg && reg != columns.undefinedVal && reg != columns.sameVal ==>
                  && (forall i | 0 <= i < |writes| && writes[i].0 == reg && forall j | i < j < |writes| :: writes[j].0 != reg
                        :: text == writes[i].1)
                  && ((forall i | 0 <= i < |writes| :: writes[i].0 != reg) ==>
                        text == "r" + (if reg < 0 then "-" else "") + Decimal(if reg < 0 then -reg else reg)))
  {
    hide Decimal;
    assert "r" + "-" == "r-" && "r" + "" == "r";
    if reg >= 0 { WrittenIsLast(writes, reg); }
  }

  // ----- dwarfdump's table

  const CONF_TABLE_OVERSIZE := 100

  datatype Pointer = Null | Name(text: string)

  /** cf_regs with its size: an array of names, of which those never given are null. */
  class ReallocTable {
    var regs: array<Pointer>
    var size: nat
    var malloced: bool

    ghost predicate Valid()
      reads this
    {
      regs.Length == size
    }

    ghost function Names(): map<nat, string>
      reads this, regs
      requires Valid()
    {
      map i: nat | i < size && regs[i].Name? :: regs[i].text
    }

    /** The static table of default names. */
    constructor (defaults: seq<string>)
      ensures Valid() && fresh(regs) && !malloced && size == |defaults|
      ensures Names() == map i: nat | i < |defaults| :: defaults[i]
    {
      regs := new Pointer[|defaults|](i requires 0 <= i < |defaults| => Name(defaults[i]));
      size, malloced := |defaults|, false;
    }

    /** realloc and memset: the old entries are kept, the new ones are null. */
    method Grow(newLength: nat)
      requires Valid() && newLength >= size
      modifies this
      ensures Valid() && fresh(regs) && malloced && size == newLength && Names() == old(Names())
    {
      var before := regs;
      regs := new Pointer[newLength](i requires 0 <= i < newLength reads before =>
        if i < before.Length then before[i] else Null);
      size, malloced := newLength, true;
    }

    /** add_to_reg_table: the first name given drops the static table. */
    method Add(name: string, reg: nat)
      requires Valid()
      modifies this, regs
      ensures Valid() && malloced && (regs == old(regs) || fresh(regs))
      ensures Names() == (if old(malloced) then old(Names()) else map[])[reg := name]
    {
      if !malloced {
        regs := new Pointer[0];
        size := 0;
      }
      if reg >= size {
        Grow(reg + CONF_TABLE_OVERSIZE);
      }
      regs[reg] := Name(name);
    }

    /** print_reg_from_config_data */
    method Print(reg: int, columns: Columns) returns (text: string)
      requires Valid()
      ensures text == Printed(reg, columns, Names())
    {
      if reg == columns.cfaReg { return "cfa"; }
      if reg == columns.undefinedVal { return "u"; }
      if reg == columns.sameVal { return "s"; }
      if reg < 0 || reg >= size { return Unnamed(reg); }
      if regs[reg].Null? { return Unnamed(reg); }
      return regs[reg].text;
    }
  }

  // ----- dwarfdump2's table

  /** A vector of strings; a register without a name has the empty one. */
  class VectorTable {
    var regs: seq<string>

    ghost function Names(): map<nat, string>
      reads this
    {
      map i: nat | i < |regs| && regs[i] != "" :: regs[i]
    }

    /** As parse_abi leaves it: cleared, and resized to 100. */
    constructor ()
      ensures Names() == map[]
    {
      regs := seq(100, _ => "");
    }

    method Resize(n: nat)
      requires n >= |regs|
      modifies this
      ensures |regs| == n && Names() == old(Names())
    {
      regs := regs + seq(n - |regs|, _ => "");
    }

    method Add(name: string, reg: nat)
      requires name != ""
      modifies this
      ensures Names() == old(Names())[reg := name]
    {
      if reg >= |regs| {
        Resize(reg + 1);
      }
      regs := regs[reg := name];
    }

    method Print(reg: int, columns: Columns) returns (text: string)
      ensures text == Printed(reg, columns, Names())
    {
      if reg == columns.cfaReg { return "cfa"; }
      if reg == columns.undefinedVal { return "u"; }
      if reg == columns.sameVal { return "s"; }
      if reg < 0 || reg >= |regs| { return Unnamed(reg); }
      if regs[reg] == "" { return Unnamed(reg); }
      return regs[reg];
    }
  }

  /** Both tables after the same writes: every register prints the same through either, as its last name,
      once there is a write; before that the C table still prints the default names. */
  method PrintBoth(defaults: seq<string>, writes: seq<(nat, string)>, reg: int, columns: Columns)
    returns (c: string, cpp: string)
    requires forall w <- writes :: w.1 != ""
    ensures cpp == Printed(reg, columns, Written(writes))
    ensures writes != [] ==> c == cpp
    ensures writes == [] ==> c == Printed(reg, columns, map i: nat | i < |defaults| :: defaults[i])
  {
    var table := new ReallocTable(defaults);
    var vector := new VectorTable();
    var i := 0;
    while i < |writes|
      invariant 0 <= i <= |writes| && fresh(table) && fresh(table.regs) && fresh(vector)
      invariant table.Valid() && vector.Names() == Written(writes[..i])
      invariant table.malloced == (i > 0)
      invariant table.Names() == if i > 0 then Written(writes[..i]) else map j: nat | j < |defaults| :: defaults[j]
    {
      assert writes[..i + 1][..i] == writes[..i];
      assert writes[i] in writes;
      table.Add(writes[i].1, writes[i].0);
      vector.Add(writes[i].1, writes[i].0);
      i := i + 1;
    }
    assert writes[..|writes|] == writes;
    c := table.Print(reg, columns);
    cpp := vector.Print(reg, columns);
  }
}
