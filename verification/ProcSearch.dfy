/** dwarfdump's way to name a function: a search through the entries for every query. */
module ProcSearch {
  import opened DieTree
  import opened DieHandles
  import opened ProcNames

  /** get_proc_name: does this entry name a function at lowPc? Names go through a fixed-size buffer. */
  method GetProcName(info: Info, lowPc: nat) returns (found: bool, nameBuf: string)
    ensures found <==> ProcOf(info).Some? && ProcOf(info).value.pc == lowPc
    ensures found ==> nameBuf == Truncated(ProcOf(info).value.name)
  {
    var atlist := info.attrs;
    var lowPcDie, funcPcFound, funcNameFound := 0, false, false;
    nameBuf := "";
    ghost var name: Option<string>, pc: Option<nat> := None, None;
    var i := 0;
    while i < |atlist|
      invariant i <= |atlist|
      invariant funcNameFound == name.Some? && (name.Some? ==> nameBuf == Truncated(name.value))
      invariant funcPcFound == pc.Some? && (pc.Some? ==> lowPcDie == pc.value)
      invariant ProcOf(info) == ScanAttrs(atlist[i..], name, pc)
    {
      if funcNameFound && funcPcFound {
        break;
      }
      ghost var noted := Note(atlist[i], name, pc);
      name, pc := noted.0, noted.1;
      assert atlist[i..][1..] == atlist[i + 1..];
      match atlist[i] {
        case Origin(resolved) =>
          if !funcNameFound && resolved != [] {
            nameBuf := Truncated(resolved[0]);
            funcNameFound := true;
          }
        case Name(temps) =>
          nameBuf := Truncated(temps);
          funcNameFound := true;
        case LowPc(p) =>
          lowPcDie := p;
          funcPcFound := true;
        case OtherAttr(_) =>
      }
      i := i + 1;
    }
    found := funcNameFound && funcPcFound && lowPc == lowPcDie;
  }

  /** The loop's work on one entry: a subprogram at lowPc, or else the first one among its children. */
  method SearchOneDie(dbg: Debug, curdie: nat, lowPc: nat, ghost rest: seq<Tree>) returns (r: Option<string>)
    requires dbg.Valid() && curdie in dbg.places && ChainAt(dbg.es, dbg.places[curdie], rest) && rest != []
    modifies dbg
    ensures dbg.Valid() && dbg.places == old(dbg.places)
    ensures r == TruncatedOption(FirstNamed(TreeProcs(rest[0]), lowPc))
    decreases SizeAll(rest), 0
  {
    hide *;
    ghost var t, pos, live := rest[0], dbg.places[curdie], dbg.places;
    ChainSizes(dbg.es, pos, rest);
    LaidOutFirstOf(dbg.es, pos, rest);
    TreeCases(t, lowPc);
    TruncatedCases();
    if dbg.es[dbg.places[curdie]].info.tag != DW_TAG_subprogram { return None; }
    var procNameV, name := GetProcName(dbg.es[dbg.places[curdie]].info, lowPc);
    if procNameV { return Some(Truncated(name)); }
    var lchres, newchild := dbg.Child(curdie, rest);
    if !lchres { return None; }
    AddRemove(live, newchild, pos + 1);
    var inner := GetNestedProcName(dbg, newchild, lowPc, t.children);
    dbg.Dealloc(newchild);
    r := TruncatedOption(inner);
  }

  /** get_nested_proc_name: the first function of the chain, in preorder, at lowPc. On every way out,
      the handles it obtained are released and its argument is not. */
  method GetNestedProcName(dbg: Debug, die: nat, lowPc: nat, ghost ts: seq<Tree>) returns (r: Option<string>)
    requires dbg.Valid() && die in dbg.places && die != 0 && ChainAt(dbg.es, dbg.places[die], ts) && ts != []
    modifies dbg
    ensures dbg.Valid() && dbg.places == old(dbg.places)
    ensures r == TruncatedOption(FirstNamed(Procs(ts), lowPc))
    decreases SizeAll(ts), 1
  {
    hide *;
    var curdie, dieLocallyGotten := die, false;
    ghost var rest, before := ts, dbg.places;
    while true
      invariant dbg.Valid() && curdie in dbg.places && curdie != 0
      invariant dieLocallyGotten ==> curdie !in before && dbg.places == before[curdie := dbg.places[curdie]]
      invariant !dieLocallyGotten ==> dbg.places == before
      invariant rest != [] && ChainAt(dbg.es, dbg.places[curdie], rest) && SizeAll(rest) <= SizeAll(ts)
      invariant FirstNamed(Procs(ts), lowPc) == FirstNamed(Procs(rest), lowPc)
      decreases SizeAll(rest)
    {
      ghost var t, pos := rest[0], dbg.places[curdie];
      ChainSizes(dbg.es, pos, rest);
      FirstStep(rest, lowPc);
      TruncatedCases();
      if dieLocallyGotten {
        AddRemove(before, curdie, pos);
      }
      var own := SearchOneDie(dbg, curdie, lowPc, rest);
      if own.Some? {
        if dieLocallyGotten {
          dbg.Dealloc(curdie);
        }
        return own;
      }
      var prevChild := curdie;
      var chres, newsibling := dbg.Sibling(curdie, rest);
      rest := rest[1..];
      if !chres {
        if dieLocallyGotten {
          dbg.Dealloc(prevChild);
        }
        return None;
      }
      curdie := newsibling;
      RemoveEarlier(before, prevChild, pos, newsibling, pos + Size(t));
      if dieLocallyGotten {
        dbg.Dealloc(prevChild);
      }
      dieLocallyGotten := true;
    }
  }

  lemma LaidOutFirstOf(es: seq<Entry>, pos: nat, ts: seq<Tree>)
    requires ChainAt(es, pos, ts) && ts != []
    ensures pos < |es| && es[pos].Die? && es[pos].info == ts[0].info
  {
    LaidOutFirst(es, pos, ts);
  }

  /** The search tries the first sibling, then the rest. */
  lemma FirstStep(ts: seq<Tree>, pc: nat)
    requires ts != []
    ensures FirstNamed(Procs(ts), pc) ==
            if FirstNamed(TreeProcs(ts[0]), pc).Some? then FirstNamed(TreeProcs(ts[0]), pc)
            else FirstNamed(Procs(ts[1..]), pc)
    ensures FirstNamed(Procs([]), pc) == None
  {
    FirstConcat(TreeProcs(ts[0]), Procs(ts[1..]), pc);
  }

  lemma TreeCases(t: Tree, pc: nat)
    ensures FirstNamed(TreeProcs(t), pc)
         == if t.info.tag != DW_TAG_subprogram then None
            else if ProcOf(t.info).Some? && ProcOf(t.info).value.pc == pc then Some(ProcOf(t.info).value.name)
            else FirstNamed(Procs(t.children), pc)
    ensures t.children == [] ==> FirstNamed(Procs(t.children), pc) == None
  {
    if t.info.tag == DW_TAG_subprogram && ProcOf(t.info).Some? {
      FirstConcat([ProcOf(t.info).value], Procs(t.children), pc);
    } else if t.info.tag == DW_TAG_subprogram {
      FirstConcat([], Procs(t.children), pc);
    }
  }

  lemma TruncatedCases()
    ensures TruncatedOption(None) == None
    ensures forall s :: TruncatedOption(Some(s)) == Some(Truncated(s))
    ensures forall name :: TruncatedOption(TruncatedOption(name)) == TruncatedOption(name)
    ensures forall name :: TruncatedOption(name).Some? <==> name.Some?
  {
  }
}
