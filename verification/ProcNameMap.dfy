/** dwarfdump2's way to name a function: a map from low pc to name, filled one unit at a time
    and only as far as queries require. */
module ProcNameMap {
  import opened DieTree
  import opened DieHandles
  import opened ProcNames
  import opened ProcSearch

  /** get_proc_name: the function this entry names, if it names one. */
  method GetProc(info: Info) returns (found: bool, procName: string, lowPc: nat)
    ensures found <==> ProcOf(info).Some?
    ensures found ==> ProcOf(info).value == Proc(lowPc, procName)
  {
    var atlist := info.attrs;
    var funcPcFound, funcNameFound := false, false;
    procName, lowPc := "", 0;
    ghost var name: Option<string>, pc: Option<nat> := None, None;
    var i := 0;
    while i < |atlist|
      invariant i <= |atlist|
      invariant funcNameFound == name.Some? && (name.Some? ==> procName == name.value)
      invariant funcPcFound == pc.Some? && (pc.Some? ==> lowPc == pc.value)
      invariant ProcOf(info) == ScanAttrs(atlist[i..], name, pc)
    {
      if funcNameFound && funcPcFound {
        break;
      }
      ghost var noted := Note(atlist[i], name, pc);
      name, pc := noted.0, noted.1;
      assert atlist[i..][1..] == atlist[i + 1..];
      match atlist[i] {
        case Origin(resolved) =>
          if !funcNameFound && resolved != [] {
            procName := resolved[0];
            funcNameFound := true;
          }
        case Name(temps) =>
          procName := temps;
          funcNameFound := true;
        case LowPc(p) =>
          lowPc := p;
          funcPcFound := true;
        case OtherAttr(_) =>
      }
      i := i + 1;
    }
    found := funcNameFound && funcPcFound;
  }

  /** What the first sibling leaves in the map. */
  function OwnRecord(m: map<nat, string>, t: Tree): map<nat, string> {
    if t.info.tag != DW_TAG_subprogram then m
    else Record(if ProcOf(t.info).Some? then m[ProcOf(t.info).value.pc := ProcOf(t.info).value.name] else m, Procs(t.children))
  }

  /** The loop's work on one entry: a subprogram is recorded, then those among its children. */
  method LoadOneDie(dbg: Debug, curdie: nat, pcMap: map<nat, string>, ghost rest: seq<Tree>)
    returns (filled: map<nat, string>)
    requires dbg.Valid() && curdie in dbg.places && ChainAt(dbg.es, dbg.places[curdie], rest) && rest != []
    modifies dbg
    ensures dbg.Valid() && dbg.places == old(dbg.places)
    ensures filled == OwnRecord(pcMap, rest[0])
    decreases SizeAll(rest), 0
  {
    hide *;
    ghost var t, pos, live := rest[0], dbg.places[curdie], dbg.places;
    filled := pcMap;
    ChainSizes(dbg.es, pos, rest);
    LaidOutFirstOf(dbg.es, pos, rest);
    OwnCases(pcMap, t);
    if dbg.es[dbg.places[curdie]].info.tag == DW_TAG_subprogram {
      var procNameV, procName, procLowPc := GetProc(dbg.es[dbg.places[curdie]].info);
      if procNameV {
        filled := filled[procLowPc := procName];
      }
      RecordNone(filled);
      var lchres, newchild := dbg.Child(curdie, rest);
      if lchres {
        AddRemove(live, newchild, pos + 1);
        filled := LoadNestedProcNames(dbg, newchild, filled, t.children);
        dbg.Dealloc(newchild);
      }
    }
  }

  lemma OwnCases(m: map<nat, string>, t: Tree)
    ensures t.info.tag != DW_TAG_subprogram ==> OwnRecord(m, t) == m
    ensures t.info.tag == DW_TAG_subprogram ==>
              OwnRecord(m, t) == Record(if ProcOf(t.info).Some? then m[ProcOf(t.info).value.pc := ProcOf(t.info).value.name]
                                        else m, Procs(t.children))
  {
    hide Record, Procs, ProcOf;
  }

  /** load_nested_proc_names: every function of the chain is recorded, in preorder, and every handle
      but the argument is released. */
  method LoadNestedProcNames(dbg: Debug, die: nat, pcMap: map<nat, string>, ghost ts: seq<Tree>)
    returns (filled: map<nat, string>)
    requires dbg.Valid() && die in dbg.places && die != 0 && ChainAt(dbg.es, dbg.places[die], ts) && ts != []
    modifies dbg
    ensures dbg.Valid() && dbg.places == old(dbg.places)
    ensures filled == Record(pcMap, Procs(ts))
    decreases SizeAll(ts), 1
  {
    hide *;
    var curdie, dieLocallyGotten := die, false;
    filled := pcMap;
    ghost var rest, before := ts, dbg.places;
    while true
      invariant dbg.Valid() && curdie in dbg.places && curdie != 0
      invariant dieLocallyGotten ==> curdie !in before && dbg.places == before[curdie := dbg.places[curdie]]
      invariant !dieLocallyGotten ==> dbg.places == before
      invariant rest != [] && ChainAt(dbg.es, dbg.places[curdie], rest) && SizeAll(rest) <= SizeAll(ts)
      invariant Record(pcMap, Procs(ts)) == Record(filled, Procs(rest))
      decreases SizeAll(rest)
    {
      ghost var t, pos := rest[0], dbg.places[curdie];
      ChainSizes(dbg.es, pos, rest);
      RecordStep(filled, rest);
      if dieLocallyGotten {
        AddRemove(before, curdie, pos);
      }
      filled := LoadOneDie(dbg, curdie, filled, rest);
      var chres, newsibling := dbg.Sibling(curdie, rest);
      rest := rest[1..];
      if !chres {
        RecordNone(filled);
        break;
      }
      RemoveEarlier(before, curdie, pos, newsibling, pos + Size(t));
      if dieLocallyGotten {
        dbg.Dealloc(curdie);
      }
      curdie := newsibling;
      dieLocallyGotten := true;
    }
    if dieLocallyGotten {
      dbg.Dealloc(curdie);
    }
  }

  lemma RecordStep(m: map<nat, string>, ts: seq<Tree>)
    requires ts != []
    ensures Record(m, Procs(ts)) == Record(OwnRecord(m, ts[0]), Procs(ts[1..]))
  {
    var t := ts[0];
    RecordConcat(m, TreeProcs(t), Procs(ts[1..]));
    if t.info.tag == DW_TAG_subprogram && ProcOf(t.info).Some? {
      var p := ProcOf(t.info).value;
      RecordConcat(m, [p], Procs(t.children));
      assert Record(m, [p]) == m[p.pc := p.name];
    } else if t.info.tag == DW_TAG_subprogram {
      assert TreeProcs(t) == [] + Procs(t.children) == Procs(t.children);
    }
  }

  lemma RecordNone(m: map<nat, string>)
    ensures Record(m, Procs([])) == m
  {
  }

  // ----- search and map on one chain

  /** dwarfdump's search and dwarfdump2's map, each from the same entry. They find a name for the same pcs; and
      the same name, if it fits the search's buffers, whenever the chain's low pcs are distinct. */
  method SearchAndMap(dbg: Debug, die: nat, lowPc: nat, ghost ts: seq<Tree>)
    returns (searched: Option<string>, mapped: Option<string>)
    requires dbg.Valid() && die in dbg.places && die != 0 && ChainAt(dbg.es, dbg.places[die], ts) && ts != []
    modifies dbg
    ensures dbg.Valid() && dbg.places == old(dbg.places)
    ensures searched.Some? <==> mapped.Some?
    ensures DistinctPcs(Procs(ts)) ==> searched == TruncatedOption(mapped)
    ensures DistinctPcs(Procs(ts)) && mapped.Some? && |mapped.value| < BUFSIZ ==> searched == mapped
    ensures searched == mapped <==>
              var first, last := FirstNamed(Procs(ts), lowPc), LastNamed(Procs(ts), lowPc);
              first.None? || last == Some(Truncated(first.value))
  {
    searched := GetNestedProcName(dbg, die, lowPc, ts);
    var pcMap := LoadNestedProcNames(dbg, die, map[], ts);
    mapped := if lowPc in pcMap then Some(pcMap[lowPc]) else None;
    SamePcs(map[], Procs(ts), lowPc);
    MapKeepsLast(map[], Procs(ts), lowPc);
    if DistinctPcs(Procs(ts)) { MapRefinesSearch(map[], Procs(ts), lowPc); }
    hide Procs, FirstNamed, LastNamed, Record;
  }

  // ----- one unit after the other

  /** The functions of one unit: of the children of its unit entry. A unit without an entry has none. */
  function UnitProcs(cu: seq<Tree>): seq<Proc> {
    if cu == [] then [] else Procs(cu[0].children)
  }

  /** The functions of all units, in order. */
  function AllProcs(cus: seq<seq<Tree>>): seq<Proc> {
    if cus == [] then [] else AllProcs(cus[..|cus| - 1]) + UnitProcs(cus[|cus| - 1])
  }

  /** What the map holds once these units have been loaded. */
  function Loaded(cus: seq<seq<Tree>>): map<nat, string> { Record(map[], AllProcs(cus)) }

  lemma LoadOne(cus: seq<seq<Tree>>, k: nat)
    requires k < |cus|
    ensures Loaded(cus[..k + 1]) == Record(Loaded(cus[..k]), UnitProcs(cus[k]))
    ensures AllProcs(cus[..k + 1]) == AllProcs(cus[..k]) + UnitProcs(cus[k])
  {
    assert cus[..k + 1][..k] == cus[..k];
    RecordConcat(map[], AllProcs(cus[..k]), UnitProcs(cus[k]));
  }

  /** What a query does when k units are loaded: it loads on until the pc is known or no unit is left. */
  function Query(cus: seq<seq<Tree>>, k: nat, pc: nat): (r: (Option<string>, nat))
    requires k <= |cus|
    ensures k <= r.1 <= |cus|
    decreases |cus| - k
  {
    if pc in Loaded(cus[..k]) then (Some(Loaded(cus[..k])[pc]), k)
    else if k == |cus| then (None, k)
    else Query(cus, k + 1, pc)
  }

  /** The answer of a map filled with all units at once. */
  function Eager(cus: seq<seq<Tree>>, pc: nat): Option<string> { Lookup(Loaded(cus), pc) }

  /** Whatever was loaded before, a query answers like the eager map if low pcs are distinct. */
  lemma {:induction false} QueryIsEager(cus: seq<seq<Tree>>, k: nat, pc: nat)
    requires k <= |cus| && DistinctPcs(AllProcs(cus))
    ensures Query(cus, k, pc).0 == Eager(cus, pc)
    decreases |cus| - k
  {
    assert cus[..|cus|] == cus;
    if pc in Loaded(cus[..k]) {
      PrefixAnswers(cus, k, |cus|, pc);
    } else if k < |cus| {
      QueryIsEager(cus, k + 1, pc);
    }
  }

  /** With distinct pcs, an answer does not change when more units are loaded. */
  lemma {:induction false} PrefixAnswers(cus: seq<seq<Tree>>, k: nat, n: nat, pc: nat)
    requires k <= n <= |cus| && DistinctPcs(AllProcs(cus[..n])) && pc in Loaded(cus[..k])
    ensures DistinctPcs(AllProcs(cus[..k]))
    ensures Lookup(Loaded(cus[..n]), pc) == Lookup(Loaded(cus[..k]), pc)
    decreases n - k
  {
    hide *;
    if k < n {
      LoadOne(cus, n - 1);
      var earlier, last := AllProcs(cus[..n - 1]), UnitProcs(cus[n - 1]);
      DistinctPrefix(earlier, last);
      PrefixAnswers(cus, k, n - 1, pc);
      LoadedKnows(cus[..n - 1], pc);
      SamePcs(Loaded(cus[..n - 1]), last, pc);
      LookupIn(Loaded(cus[..k]), pc);
      LookupIn(Loaded(cus[..n - 1]), pc);
      if FirstNamed(last, pc).Some? {
        NotTwice(earlier, last, pc);
      }
    }
  }

  lemma DistinctPrefix(a: seq<Proc>, b: seq<Proc>)
    ensures DistinctPcs(a + b) ==> DistinctPcs(a)
  {
    assert forall i :: 0 <= i < |a| ==> (a + b)[i] == a[i];
  }

  lemma LoadedKnows(cus: seq<seq<Tree>>, pc: nat)
    ensures pc in Loaded(cus) <==> FirstNamed(AllProcs(cus), pc).Some?
  {
    SamePcs(map[], AllProcs(cus), pc);
  }

  lemma LookupIn(m: map<nat, string>, pc: nat)
    ensures Lookup(m, pc).Some? <==> pc in m
  {
  }

  lemma NotTwice(a: seq<Proc>, b: seq<Proc>, pc: nat)
    requires FirstNamed(a, pc).Some? && FirstNamed(b, pc).Some?
    ensures !DistinctPcs(a + b)
  {
    var i := IndexOf(a, pc);
    var j := IndexOf(b, pc);
    assert (a + b)[i].pc == (a + b)[|a| + j].pc;
  }

  lemma {:induction false} IndexOf(procs: seq<Proc>, pc: nat) returns (i: nat)
    requires FirstNamed(procs, pc).Some?
    ensures i < |procs| && procs[i].pc == pc
  {
    if procs[0].pc == pc {
      i := 0;
    } else {
      i := IndexOf(procs[1..], pc);
      i := i + 1;
    }
  }

  /** Without distinct pcs the order of the queries shows: the same query, asked before and after
      another one, gets two answers. */
  lemma DuplicatePcsShowOrder(f: Tree, g: Tree, h: Tree, cu: Tree, cu': Tree)
    requires f.info == Info(DW_TAG_subprogram, [Name("early"), LowPc(16)]) && f.children == []
    requires g.info == Info(DW_TAG_subprogram, [Name("other"), LowPc(32)]) && g.children == []
    requires h.info == Info(DW_TAG_subprogram, [Name("late"), LowPc(16)]) && h.children == []
    requires cu.children == [f] && cu'.children == [g, h]
    ensures var cus := [[cu], [cu']];
            && Query(cus, 0, 16) == (Some("early"), 1)
            && Query(cus, 1, 32) == (Some("other"), 2)
            && Query(cus, 2, 16) == (Some("late"), 2)
  {
    var cus := [[cu], [cu']];
    SimpleProc(f, "early", 16);
    SimpleProc(g, "other", 32);
    SimpleProc(h, "late", 16);
    assert [f][1..] == [] && [g, h][1..] == [h] && [h][1..] == [];
    assert Procs([f]) == [Proc(16, "early")] && Procs([h]) == [Proc(16, "late")];
    assert Procs([g, h]) == [Proc(32, "other"), Proc(16, "late")];
    LoadOne(cus, 0);
    LoadOne(cus, 1);
    assert cus[..0] == [] && cus[..2] == cus;
    assert Loaded(cus[..1]) == map[16 := "early"];
    var later := [Proc(32, "other"), Proc(16, "late")];
    assert later[1..] == [Proc(16, "late")];
    assert Record(Loaded(cus[..1]), later) == Record(map[16 := "early", 32 := "other"], [Proc(16, "late")]);
    assert Loaded(cus) == map[16 := "late", 32 := "other"];
  }

  lemma SimpleProc(t: Tree, name: string, pc: nat)
    requires t.info == Info(DW_TAG_subprogram, [Name(name), LowPc(pc)]) && t.children == []
    ensures TreeProcs(t) == [Proc(pc, name)]
  {
    var attrs := t.info.attrs;
    assert attrs[1..] == [LowPc(pc)] && attrs[1..][1..] == [];
    assert ScanAttrs(attrs, None, None) == ScanAttrs([LowPc(pc)], Some(name), None);
    assert ScanAttrs([LowPc(pc)], Some(name), None) == Some(Proc(pc, name));
  }

  /** The state print_frames keeps between queries, on libdwarf's side the position among the units. */
  class NameFinder {
    const units: seq<seq<Entry>>
    ghost const cus: seq<seq<Tree>>
    var nextCu: nat
    var pcMap: map<nat, string>
    var allCusSeen: bool
    ghost var loads: seq<nat>

    /** The map holds the first units, and each of these has been loaded once. */
    ghost predicate Valid()
      reads this
    {
      && UnitsLaidOut(units, cus)
      && |loads| <= |cus| && (forall i :: 0 <= i < |loads| ==> loads[i] == i)
      && pcMap == Loaded(cus[..|loads|])
      && (if allCusSeen then |loads| == |cus| else nextCu == |loads|)
    }

    constructor (units: seq<seq<Entry>>, ghost cus: seq<seq<Tree>>)
      requires UnitsLaidOut(units, cus)
      ensures Valid() && this.units == units && this.cus == cus && loads == []
    {
      this.units, this.cus, nextCu, pcMap, allCusSeen, loads := units, cus, 0, map[], false, [];
      new;
      assert cus[..0] == [];
    }

    /** dwarf_next_cu_header: after the last unit it starts again at the first. */
    method NextCuHeader() returns (found: bool, cu: nat)
      modifies this`nextCu
      ensures found <==> old(nextCu) < |units|
      ensures found ==> cu == old(nextCu) && nextCu == cu + 1
      ensures !found ==> nextCu == 0
    {
      found, cu := nextCu < |units|, nextCu;
      nextCu := if found then nextCu + 1 else 0;
    }

    /** The body of the loop over the units: one unit's functions go into the map. */
    method LoadUnit(cu: nat)
      requires cu < |units| == |cus| && UnitsLaidOut(units, cus)
      modifies this`pcMap, this`loads
      ensures pcMap == Record(old(pcMap), UnitProcs(cus[cu])) && loads == old(loads) + [cu]
    {
      loads := loads + [cu];
      ghost var unit := cus[cu];
      ChainStarts(units[cu], 0, unit);
      if |units[cu]| == 0 || units[cu][0].Null? {
        return;
      }
      LaidOutFirst(units[cu], 0, unit);
      var dbg := new Debug(units[cu]);
      var cuDie := dbg.Alloc(0);
      var chres, child := dbg.Child(cuDie, unit);
      if chres {
        pcMap := LoadNestedProcNames(dbg, child, pcMap, unit[0].children);
        dbg.Dealloc(child);
      }
      dbg.Dealloc(cuDie);
    }

    /** get_fde_proc_name; the empty string when no unit names the pc. */
    method GetFdeProcName(lowPc: nat) returns (name: string)
      requires Valid()
      modifies this
      ensures Valid() && old(loads) <= loads
      ensures var (answer, k) := Query(cus, old(|loads|), lowPc);
              |loads| == k && name == if answer.Some? then answer.value else ""
    {
      hide Loaded, Record, UnitProcs, AllProcs, UnitsLaidOut;
      assert cus[..|cus|] == cus;
      if lowPc in pcMap {
        return pcMap[lowPc];
      }
      if allCusSeen {
        return "";
      }
      while true
        invariant Valid() && !allCusSeen && lowPc !in pcMap
        invariant old(|loads|) <= |loads| && old(loads) <= loads
        invariant Query(cus, old(|loads|), lowPc) == Query(cus, |loads|, lowPc)
        decreases |cus| - |loads|
      {
        SameNumber(units, cus);
        var cures, cu := NextCuHeader();
        if !cures {
          allCusSeen := true;
          break;
        }
        LoadOne(cus, cu);
        LoadUnit(cu);
        if lowPc in pcMap {
          return pcMap[lowPc];
        }
      }
      return "";
    }
  }

  /** Each unit is the layout of at most one entry with its descendants. */
  ghost predicate UnitsLaidOut(units: seq<seq<Entry>>, cus: seq<seq<Tree>>) {
    |units| == |cus| && forall i :: 0 <= i < |units| ==> |cus[i]| <= 1 && ChainAt(units[i], 0, cus[i])
  }

  lemma SameNumber(units: seq<seq<Entry>>, cus: seq<seq<Tree>>)
    requires UnitsLaidOut(units, cus)
    ensures |units| == |cus|
  {
  }

  /** Any sequence of queries is answered like the eager map, in any order, if low pcs are distinct. */
  method AnswerAll(units: seq<seq<Entry>>, queries: seq<nat>, ghost cus: seq<seq<Tree>>) returns (names: seq<string>)
    requires UnitsLaidOut(units, cus) && DistinctPcs(AllProcs(cus))
    ensures |names| == |queries|
    ensures forall i :: 0 <= i < |queries| ==>
              names[i] == match Eager(cus, queries[i]) case Some(name) => name case None => ""
  {
    hide Loaded, UnitsLaidOut, DistinctPcs, AllProcs, Query, Eager;
    var finder := new NameFinder(units, cus);
    names := [];
    while |names| < |queries|
      invariant finder.Valid() && finder.cus == cus && |names| <= |queries|
      invariant forall i :: 0 <= i < |names| ==>
                  names[i] == match Eager(cus, queries[i]) case Some(name) => name case None => ""
    {
      QueryIsEager(cus, |finder.loads|, queries[|names|]);
      var name := finder.GetFdeProcName(queries[|names|]);
      names := names + [name];
    }
  }
}
