/** dwarfdump's get_fde_proc_name: it remembers the unit that answered last and searches on from
    there. What it finds depends on the queries before, unlike the map that replaced it. */
module ProcRestart {
  import opened DieTree
  import opened DieHandles
  import opened ProcNames
  import opened ProcSearch
  import opened ProcNameMap

  /** What a query gets: a name, none, or the end of the program, which a second unit without an entry brings. */
  datatype Reply = Named(name: string) | Missing | Ended

  function Answer(r: Reply): Option<string> { if r.Named? then Some(r.name) else None }

  /** The unit searched last, and libdwarf's position among the units. */
  datatype State = State(current: Option<nat>, nextCu: nat)

  const START := State(None, 0)

  /** The states queries lead to: the position is behind the current unit, or has been reset at the end. */
  predicate Reachable(s: State, cus: seq<seq<Tree>>) {
    match s.current
    case None => s.nextCu == 0
    case Some(i) => i < |cus| && cus[i] != [] && (s.nextCu == i + 1 || (s.nextCu == 0 && i == |cus| - 1))
  }

  function NamedIn(cus: seq<seq<Tree>>, i: nat, pc: nat): Option<string>
    requires i < |cus|
  {
    FirstNamed(UnitProcs(cus[i]), pc)
  }

  /** The loop: the units from k on, until one names the pc. `looping` counts the units without an entry. */
  function SearchOn(cus: seq<seq<Tree>>, k: nat, current: Option<nat>, looping: nat, pc: nat): (Reply, State)
    requires k <= |cus|
    decreases |cus| - k
  {
    if k == |cus| then (Missing, State(current, 0))
    else if cus[k] == [] then
      if looping + 1 > 1 then (Ended, State(None, k + 1)) else SearchOn(cus, k + 1, None, looping + 1, pc)
    else if NamedIn(cus, k, pc).Some? then (Named(NamedIn(cus, k, pc).value), State(Some(k), k + 1))
    else SearchOn(cus, k + 1, Some(k), looping, pc)
  }

  /** A query: the current unit, or the first one when there is none, and then the loop. */
  function Ask(cus: seq<seq<Tree>>, s: State, pc: nat): (Reply, State)
    requires Reachable(s, cus)
  {
    match s.current
    case Some(i) =>
      if NamedIn(cus, i, pc).Some? then (Named(NamedIn(cus, i, pc).value), s)
      else SearchOn(cus, s.nextCu, s.current, 0, pc)
    case None =>
      if |cus| == 0 then (Missing, START)
      else if cus[0] == [] then SearchOn(cus, 1, None, 0, pc)
      else if NamedIn(cus, 0, pc).Some? then (Named(NamedIn(cus, 0, pc).value), State(Some(0), 1))
      else SearchOn(cus, 1, Some(0), 0, pc)
  }

  // ----- what a query finds

  /** Units without an entry from k up to i. */
  function Empties(cus: seq<seq<Tree>>, k: nat, i: nat): nat
    requires i <= |cus|
    decreases i - k
  {
    if k >= i then 0 else (if cus[k] == [] then 1 else 0) + Empties(cus, k + 1, i)
  }

  /** The loop comes to unit i, if it finds nothing before. */
  predicate Comes(cus: seq<seq<Tree>>, k: nat, looping: nat, i: nat)
    requires i < |cus|
  {
    k <= i && looping + Empties(cus, k, i) <= 1
  }

  lemma NoneInEmpty(cus: seq<seq<Tree>>, k: nat, pc: nat)
    requires k < |cus| && cus[k] == []
    ensures NamedIn(cus, k, pc).None?
  {
  }

  lemma {:induction false} SearchOnFinds(cus: seq<seq<Tree>>, k: nat, current: Option<nat>, looping: nat, pc: nat)
    requires k <= |cus| && looping <= 1
    requires current.Some? ==> current.value < |cus| && cus[current.value] != [] && (k == |cus| ==> current.value == k - 1)
    ensures var (reply, after) := SearchOn(cus, k, current, looping, pc);
            && (reply.Named? <==> exists i :: 0 <= i < |cus| && Comes(cus, k, looping, i) && NamedIn(cus, i, pc).Some?)
            && (reply.Named? ==> exists i :: 0 <= i < |cus| && Comes(cus, k, looping, i)
                                             && NamedIn(cus, i, pc) == Some(reply.name))
            && (reply.Ended? <==> !reply.Named? && looping + Empties(cus, k, |cus|) > 1)
            && (!reply.Ended? ==> Reachable(after, cus))
            && (reply.Missing? ==> after.nextCu == 0)
    decreases |cus| - k
  {
    hide NamedIn;
    if k < |cus| {
      assert NamedIn(cus, k, pc).Some? && looping <= 1 ==> Comes(cus, k, looping, k);
      if cus[k] == [] {
        NoneInEmpty(cus, k, pc);
        if looping == 0 {
          SearchOnFinds(cus, k + 1, None, 1, pc);
          assert forall i :: k < i < |cus| ==> (Comes(cus, k, 0, i) <==> Comes(cus, k + 1, 1, i));
        } else {
          assert forall i :: k < i < |cus| ==> Empties(cus, k, i) == 1 + Empties(cus, k + 1, i);
        }
      } else if NamedIn(cus, k, pc).None? {
        SearchOnFinds(cus, k + 1, Some(k), looping, pc);
        assert forall i :: k < i < |cus| ==> (Comes(cus, k, looping, i) <==> Comes(cus, k + 1, looping, i));
      }
    }
  }

  /** A query still looks at unit i: the current one, or one that the loop comes to. */
  predicate Ahead(cus: seq<seq<Tree>>, s: State, i: nat)
    requires i < |cus|
  {
    match s.current
    case Some(c) => i == c || Comes(cus, s.nextCu, 0, i)
    case None => i == 0 || Comes(cus, 1, 0, i)
  }

  /** A query finds a name exactly when a unit it still looks at has one. Functions of units passed before, or
      behind a second unit without an entry, are not found. */
  lemma FoundIffAhead(cus: seq<seq<Tree>>, s: State, pc: nat)
    requires Reachable(s, cus)
    ensures var (reply, after) := Ask(cus, s, pc);
            && (reply.Named? <==> exists i :: 0 <= i < |cus| && Ahead(cus, s, i) && NamedIn(cus, i, pc).Some?)
            && (reply.Named? ==> exists i :: 0 <= i < |cus| && Ahead(cus, s, i)
                                             && NamedIn(cus, i, pc) == Some(reply.name))
            && (reply.Ended? <==> !reply.Named?
                                  && Empties(cus, if s.current.Some? then s.nextCu else 1, |cus|) > 1)
            && (!reply.Ended? ==> Reachable(after, cus))
            && (reply.Missing? ==> after.nextCu == 0)
  {
    hide NamedIn, SearchOn;
    match s.current
    case Some(c) =>
      assert Ahead(cus, s, c);
      SearchOnFinds(cus, s.nextCu, s.current, 0, pc);
    case None =>
      if |cus| > 0 {
        assert Ahead(cus, s, 0);
        if cus[0] == [] {
          NoneInEmpty(cus, 0, pc);
          SearchOnFinds(cus, 1, None, 0, pc);
        } else {
          SearchOnFinds(cus, 1, Some(0), 0, pc);
        }
      }
  }

  /** Unit i answers: the units from k on before it do not name the pc. */
  predicate FirstFrom(cus: seq<seq<Tree>>, k: nat, i: nat, pc: nat)
    requires i < |cus|
  {
    k <= i && NamedIn(cus, i, pc).Some? && forall j :: k <= j < i ==> NamedIn(cus, j, pc).None?
  }

  /** The last unit, if it has an entry. */
  function LastUnit(cus: seq<seq<Tree>>): Option<nat> {
    if cus == [] || cus[|cus| - 1] == [] then None else Some(|cus| - 1)
  }

  lemma {:induction false} SearchOnLeaves(cus: seq<seq<Tree>>, k: nat, current: Option<nat>, looping: nat, pc: nat)
    requires k <= |cus| && (k == |cus| ==> current == LastUnit(cus))
    ensures var (reply, after) := SearchOn(cus, k, current, looping, pc);
            && (reply.Named? ==> && after.current.Some? && after.current.value < |cus|
                                 && FirstFrom(cus, k, after.current.value, pc)
                                 && NamedIn(cus, after.current.value, pc) == Some(reply.name)
                                 && after.nextCu == after.current.value + 1)
            && (reply.Missing? ==> after == State(LastUnit(cus), 0))
    decreases |cus| - k
  {
    hide NamedIn;
    if k < |cus| {
      if cus[k] == [] { NoneInEmpty(cus, k, pc); }
      SearchOnLeaves(cus, k + 1, if cus[k] == [] then None else Some(k), looping + if cus[k] == [] then 1 else 0, pc);
    }
  }

  /** The unit that answers is the current one if that names the pc, and else the first one from the position on; it
      is then the current one, and the position is behind it. A miss leaves the last unit and resets the position. */
  lemma AskLeaves(cus: seq<seq<Tree>>, s: State, pc: nat)
    requires Reachable(s, cus)
    ensures var (reply, after) := Ask(cus, s, pc);
            && (reply.Named? ==>
                  && after.current.Some? && after.current.value < |cus|
                  && NamedIn(cus, after.current.value, pc) == Some(reply.name)
                  && if s.current.Some? && NamedIn(cus, s.current.value, pc).Some? then after == s
                     else FirstFrom(cus, s.nextCu, after.current.value, pc) && after.nextCu == after.current.value + 1)
            && (reply.Missing? ==> after == State(LastUnit(cus), 0))
  {
    hide NamedIn, SearchOn;
    if s.current.Some? {
      SearchOnLeaves(cus, s.nextCu, s.current, 0, pc);
    } else if |cus| > 0 {
      if cus[0] == [] { NoneInEmpty(cus, 0, pc); }
      SearchOnLeaves(cus, 1, if cus[0] == [] then None else Some(0), 0, pc);
    }
  }

  /** A miss resets the position, so asking once more finds the name if any unit has it, unless two units
      without an entry are in the way. */
  lemma AskAgain(cus: seq<seq<Tree>>, s: State, pc: nat)
    requires Reachable(s, cus) && Ask(cus, s, pc).0.Missing? && Empties(cus, 0, |cus|) <= 1
    ensures var again := Ask(cus, s, pc).1;
            Reachable(again, cus) &&
            (Ask(cus, again, pc).0.Named? <==> exists i :: 0 <= i < |cus| && NamedIn(cus, i, pc).Some?)
  {
    hide NamedIn, Ask;
    FoundIffAhead(cus, s, pc);
    var again := Ask(cus, s, pc).1;
    FoundIffAhead(cus, again, pc);
    forall i | 0 <= i < |cus| ensures Ahead(cus, again, i) {
      EmptiesWithin(cus, 0, i);
      if i > 0 { EmptiesWithin(cus, 1, i); }
    }
  }

  lemma {:induction false} EmptiesWithin(cus: seq<seq<Tree>>, k: nat, i: nat)
    requires k <= i <= |cus|
    ensures Empties(cus, k, i) <= Empties(cus, k, |cus|)
    ensures k > 0 ==> Empties(cus, k, i) <= Empties(cus, k - 1, |cus|)
    decreases i - k
  {
    if k < i {
      EmptiesWithin(cus, k + 1, i);
    }
    if k > 0 { assert Empties(cus, k - 1, |cus|) >= Empties(cus, k, |cus|); }
  }

  /** With distinct low pcs, the unit that has a pc names it as the full map does. */
  lemma UnitAnswer(cus: seq<seq<Tree>>, i: nat, pc: nat)
    requires i < |cus| && DistinctPcs(AllProcs(cus)) && NamedIn(cus, i, pc).Some?
    ensures NamedIn(cus, i, pc) == Eager(cus, pc)
  {
    hide UnitProcs, AllProcs, FirstNamed, LastNamed, Record;
    assert cus[..|cus|] == cus;
    LoadOne(cus, i);
    var procs := UnitProcs(cus[i]);
    SamePcs(Loaded(cus[..i]), procs, pc);
    PrefixAnswers(cus, i + 1, |cus|, pc);
    DistinctSuffix(AllProcs(cus[..i]), procs);
    MapRefinesSearch(Loaded(cus[..i]), procs, pc);
  }

  lemma DistinctSuffix(a: seq<Proc>, b: seq<Proc>)
    requires DistinctPcs(a + b)
    ensures DistinctPcs(b)
  {
    assert forall i :: 0 <= i < |b| ==> (a + b)[|a| + i] == b[i];
  }

  lemma {:induction false} NoUnitNoAnswer(cus: seq<seq<Tree>>, k: nat, pc: nat)
    requires k <= |cus| && forall i :: 0 <= i < k ==> NamedIn(cus, i, pc).None?
    ensures pc !in Loaded(cus[..k])
  {
    hide Loaded, Record, UnitProcs, AllProcs, FirstNamed;
    if k > 0 {
      NoUnitNoAnswer(cus, k - 1, pc);
      LoadOne(cus, k - 1);
      assert NamedIn(cus, k - 1, pc).None?;
      SamePcs(Loaded(cus[..k - 1]), UnitProcs(cus[k - 1]), pc);
    } else {
      EmptyMap(cus, pc);
    }
  }

  lemma EmptyMap(cus: seq<seq<Tree>>, pc: nat)
    ensures pc !in Loaded(cus[..0])
  {
    assert cus[..0] == [];
  }

  /** With distinct low pcs, dwarfdump's query answers like dwarfdump2's full map exactly when no unit has the
      pc, or the one that has it is still looked at. */
  lemma AnswersLikeMap(cus: seq<seq<Tree>>, s: State, pc: nat)
    requires Reachable(s, cus) && DistinctPcs(AllProcs(cus))
    ensures Answer(Ask(cus, s, pc).0) == Eager(cus, pc)
            <==> forall i :: 0 <= i < |cus| && NamedIn(cus, i, pc).Some? ==> Ahead(cus, s, i)
  {
    FoundIffAhead(cus, s, pc);
    forall i | 0 <= i < |cus| && NamedIn(cus, i, pc).Some? ensures NamedIn(cus, i, pc) == Eager(cus, pc) {
      UnitAnswer(cus, i, pc);
    }
    if forall i :: 0 <= i < |cus| ==> NamedIn(cus, i, pc).None? {
      NoUnitNoAnswer(cus, |cus|, pc);
      assert cus[..|cus|] == cus;
    }
    OnlyOneUnit(cus, pc);
    hide NamedIn, Ask, Eager, Ahead;
  }

  lemma {:induction false} NamedIsLoaded(cus: seq<seq<Tree>>, i: nat, k: nat, pc: nat)
    requires i < k <= |cus| && NamedIn(cus, i, pc).Some?
    ensures pc in Loaded(cus[..k])
  {
    hide Loaded, Record, UnitProcs, AllProcs, FirstNamed;
    LoadOne(cus, k - 1);
    SamePcs(Loaded(cus[..k - 1]), UnitProcs(cus[k - 1]), pc);
    if i < k - 1 { NamedIsLoaded(cus, i, k - 1, pc); }
  }

  lemma TwoUnits(cus: seq<seq<Tree>>, i: nat, j: nat, pc: nat)
    requires i < j < |cus| && NamedIn(cus, i, pc).Some? && NamedIn(cus, j, pc).Some?
    ensures !DistinctPcs(AllProcs(cus))
  {
    hide Loaded, Record, UnitProcs, AllProcs, FirstNamed, DistinctPcs;
    assert cus[..|cus|] == cus;
    NamedIsLoaded(cus, i, j, pc);
    NamedIsLoaded(cus, j, j + 1, pc);
    LoadedKnows(cus[..j], pc);
    LoadOne(cus, j);
    NotTwice(AllProcs(cus[..j]), UnitProcs(cus[j]), pc);
    if DistinctPcs(AllProcs(cus)) { PrefixAnswers(cus, j + 1, |cus|, pc); }
  }

  lemma OnlyOneUnit(cus: seq<seq<Tree>>, pc: nat)
    requires DistinctPcs(AllProcs(cus))
    ensures forall i, j :: 0 <= i < |cus| && 0 <= j < |cus| && NamedIn(cus, i, pc).Some? && NamedIn(cus, j, pc).Some?
                           ==> i == j
  {
    hide NamedIn, AllProcs, DistinctPcs;
    forall i, j | 0 <= i < |cus| && 0 <= j < |cus| && NamedIn(cus, i, pc).Some? && NamedIn(cus, j, pc).Some?
      ensures i == j
    {
      if i < j { TwoUnits(cus, i, j, pc); }
      if j < i { TwoUnits(cus, j, i, pc); }
    }
  }

  /** The map finds what the search from the start finds; the search misses it once its unit is passed. */
  lemma MissesBehind(f: Tree, g: Tree, cu: Tree, cu': Tree)
    requires f.info == Info(DW_TAG_subprogram, [Name("first"), LowPc(16)]) && f.children == []
    requires g.info == Info(DW_TAG_subprogram, [Name("second"), LowPc(32)]) && g.children == []
    requires cu.children == [f] && cu'.children == [g]
    ensures var cus := [[cu], [cu']];
            && Ask(cus, START, 32) == (Named("second"), State(Some(1), 2))
            && Ask(cus, State(Some(1), 2), 16).0 == Missing
            && Eager(cus, 16) == Some("first")
  {
    var cus := [[cu], [cu']];
    SimpleProc(f, "first", 16);
    SimpleProc(g, "second", 32);
    assert [f][1..] == [] && [g][1..] == [];
    assert Procs([f]) == [Proc(16, "first")] && Procs([g]) == [Proc(32, "second")];
    assert UnitProcs(cus[0]) == [Proc(16, "first")] && UnitProcs(cus[1]) == [Proc(32, "second")];
    assert [Proc(16, "first")][1..] == [] && [Proc(32, "second")][1..] == [];
    assert NamedIn(cus, 0, 32).None? && NamedIn(cus, 1, 32) == Some("second") && NamedIn(cus, 1, 16).None?;
    assert SearchOn(cus, 1, Some(0), 0, 32) == (Named("second"), State(Some(1), 2));
    assert SearchOn(cus, 2, Some(1), 0, 16).0 == Missing;
    LoadOne(cus, 0);
    LoadOne(cus, 1);
    assert cus[..0] == [] && cus[..2] == cus;
    assert Loaded(cus[..1]) == map[16 := "first"];
    assert Loaded(cus) == map[16 := "first", 32 := "second"];
  }

  class Finder {
    const units: seq<seq<Entry>>
    ghost const cus: seq<seq<Tree>>
    var current: Option<nat>
    var nextCu: nat

    ghost predicate Valid()
      reads this
    {
      UnitsLaidOut(units, cus) && Reachable(State(current, nextCu), cus)
    }

    constructor (units: seq<seq<Entry>>, ghost cus: seq<seq<Tree>>)
      requires UnitsLaidOut(units, cus)
      ensures Valid() && this.units == units && this.cus == cus && State(current, nextCu) == START
    {
      this.units, this.cus, current, nextCu := units, cus, None, 0;
    }

    /** dwarf_next_cu_header */
    method NextCuHeader() returns (found: bool, cu: nat)
      modifies this`nextCu
      ensures found <==> old(nextCu) < |units|
      ensures found ==> cu == old(nextCu) && nextCu == cu + 1
      ensures !found ==> nextCu == 0
    {
      found, cu := nextCu < |units|, nextCu;
      nextCu := if found then nextCu + 1 else 0;
    }

    /** The search through one unit. */
    method SearchUnit(cu: nat, lowPc: nat) returns (r: Option<string>)
      requires UnitsLaidOut(units, cus) && cu < |cus| && cus[cu] != []
      ensures r == TruncatedOption(NamedIn(cus, cu, lowPc))
    {
      hide Procs, FirstNamed, Truncated;
      LaidOutFirst(units[cu], 0, cus[cu]);
      var dbg := new Debug(units[cu]);
      var cuDie := dbg.Alloc(0);
      NoneNamed(lowPc);
      var chres, child := dbg.Child(cuDie, cus[cu]);
      r := None;
      if chres {
        r := GetNestedProcName(dbg, child, lowPc, cus[cu][0].children);
        dbg.Dealloc(child);
      }
    }

    /** The unit has an entry: its first place is not empty. */
    method HasEntry(cu: nat) returns (dres: bool)
      requires UnitsLaidOut(units, cus) && cu < |cus|
      ensures dres <==> cus[cu] != []
    {
      ChainStarts(units[cu], 0, cus[cu]);
      if cus[cu] != [] { LaidOutFirst(units[cu], 0, cus[cu]); }
      dres := 0 < |units[cu]| && units[cu][0].Die?;
    }

    /** get_fde_proc_name; the name is cut to the buffer. */
    method GetFdeProcName(lowPc: nat) returns (r: Reply)
      requires Valid()
      modifies this
      ensures var (answer, after) := Ask(cus, old(State(current, nextCu)), lowPc);
              r == Cut(answer) && State(current, nextCu) == after && (!r.Ended? ==> Valid())
    {
      hide NamedIn, Truncated, UnitsLaidOut, Comes, Ahead, Empties, SearchOn;
      SameNumber(units, cus);
      FoundIffAhead(cus, State(current, nextCu), lowPc);
      var looping, dres := 0, true;
      if current.None? {
        var cures, cu := NextCuHeader();
        if !cures {
          return Missing;
        }
        dres := HasEntry(cu);
        current := if dres then Some(cu) else None;
      }
      if dres {
        var name := SearchUnit(current.value, lowPc);
        if name.Some? {
          return Named(name.value);
        }
      }
      while true
        invariant UnitsLaidOut(units, cus) && nextCu <= |cus| && looping <= 1
        invariant Ask(cus, old(State(current, nextCu)), lowPc) == SearchOn(cus, nextCu, current, looping, lowPc)
        decreases |cus| - nextCu
      {
        SearchStep(cus, nextCu, current, looping, lowPc);
        var cures, cu := NextCuHeader();
        if !cures {
          break;
        }
        current := None;
        dres := HasEntry(cu);
        if !dres {
          looping := looping + 1;
          if looping > 1 {
            return Ended;
          }
        } else {
          current := Some(cu);
          var name := SearchUnit(cu, lowPc);
          if name.Some? {
            return Named(name.value);
          }
        }
      }
      return Missing;
    }
  }

  function Cut(r: Reply): Reply { if r.Named? then Named(Truncated(r.name)) else r }

  /** One turn of the loop. */
  lemma SearchStep(cus: seq<seq<Tree>>, k: nat, current: Option<nat>, looping: nat, pc: nat)
    requires k <= |cus|
    ensures SearchOn(cus, k, current, looping, pc) ==
            if k == |cus| then (Missing, State(current, 0))
            else if cus[k] == [] then
              if looping + 1 > 1 then (Ended, State(None, k + 1)) else SearchOn(cus, k + 1, None, looping + 1, pc)
            else if NamedIn(cus, k, pc).Some? then (Named(NamedIn(cus, k, pc).value), State(Some(k), k + 1))
            else SearchOn(cus, k + 1, Some(k), looping, pc)
  {
    hide NamedIn;
  }

  lemma NoneNamed(pc: nat)
    ensures FirstNamed(Procs([]), pc) == None && TruncatedOption(None) == None
  {
  }
}
