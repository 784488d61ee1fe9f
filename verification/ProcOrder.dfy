/** When the lazily filled map's answers depend on the queries before: the numbers of units that can be loaded
    when a query comes, and exactly when one of them makes a difference. */
module ProcOrder {
  import opened DieTree
  import opened ProcNames
  import opened ProcNameMap

  // ----- names by unit

  /** The name the last function of a unit at a pc has. */
  function UnitName(cus: seq<seq<Tree>>, i: nat, pc: nat): Option<string>
    requires i < |cus|
  {
    LastNamed(UnitProcs(cus[i]), pc)
  }

  /** The name the last of the first k units gives a pc, of those that have it. */
  function NameAfter(cus: seq<seq<Tree>>, k: nat, pc: nat): Option<string>
    requires k <= |cus|
  {
    if k == 0 then None
    else if UnitName(cus, k - 1, pc).Some? then UnitName(cus, k - 1, pc)
    else NameAfter(cus, k - 1, pc)
  }

  lemma {:induction false} LoadedName(cus: seq<seq<Tree>>, k: nat, pc: nat)
    requires k <= |cus|
    ensures Lookup(Loaded(cus[..k]), pc) == NameAfter(cus, k, pc)
    ensures pc in Loaded(cus[..k]) <==> NameAfter(cus, k, pc).Some?
  {
    hide Loaded, Record, UnitProcs, AllProcs, LastNamed;
    if k > 0 {
      LoadOne(cus, k - 1);
      LoadedName(cus, k - 1, pc);
      MapKeepsLast(Loaded(cus[..k - 1]), UnitProcs(cus[k - 1]), pc);
    } else {
      NothingLoaded(cus, pc);
    }
  }

  lemma NothingLoaded(cus: seq<seq<Tree>>, pc: nat)
    ensures Lookup(Loaded(cus[..0]), pc) == None
  {
    assert cus[..0] == [];
  }

  /** A query finds what the loaded units say, or else the first unit behind them that has the pc. */
  lemma QueryName(cus: seq<seq<Tree>>, k: nat, pc: nat)
    requires k <= |cus|
    ensures Query(cus, k, pc) ==
            if NameAfter(cus, k, pc).Some? then (NameAfter(cus, k, pc), k)
            else if k == |cus| then (None, k)
            else Query(cus, k + 1, pc)
    ensures Eager(cus, pc) == NameAfter(cus, |cus|, pc)
  {
    LoadedName(cus, k, pc);
    LoadedName(cus, |cus|, pc);
    assert cus[..|cus|] == cus;
    hide Loaded, NameAfter;
  }

  /** No unit from k up to i has the pc. */
  predicate NoneBetween(cus: seq<seq<Tree>>, k: nat, i: nat, pc: nat)
    requires i <= |cus|
  {
    forall j :: k <= j < i ==> UnitName(cus, j, pc).None?
  }

  /** A query answers from the units that are loaded, if one of them has the pc. Otherwise it loads up to the first
      other unit that has it, whose last function at the pc gives the name; if there is none it loads all. */
  lemma {:induction false} QueryAnswer(cus: seq<seq<Tree>>, k: nat, pc: nat)
    requires k <= |cus|
    ensures NameAfter(cus, k, pc).Some? ==> Query(cus, k, pc) == (NameAfter(cus, k, pc), k)
    ensures NameAfter(cus, k, pc).None? ==>
              && (forall i | k <= i < |cus| && NoneBetween(cus, k, i, pc) && UnitName(cus, i, pc).Some?
                    :: Query(cus, k, pc) == (UnitName(cus, i, pc), i + 1))
              && (NoneBetween(cus, k, |cus|, pc) ==> Query(cus, k, pc) == (None, |cus|))
    decreases |cus| - k
  {
    hide UnitName, Query;
    QueryName(cus, k, pc);
    if NameAfter(cus, k, pc).None? && k < |cus| {
      QueryAnswer(cus, k + 1, pc);
    }
  }

  lemma {:induction false} UnitNameKept(cus: seq<seq<Tree>>, i: nat, k: nat, pc: nat)
    requires i < k <= |cus| && UnitName(cus, i, pc).Some?
    ensures NameAfter(cus, k, pc).Some?
    ensures k == i + 1 ==> NameAfter(cus, k, pc) == UnitName(cus, i, pc)
  {
    if i + 1 < k { UnitNameKept(cus, i, k - 1, pc); }
  }

  lemma {:induction false} NameFromUnit(cus: seq<seq<Tree>>, k: nat, pc: nat)
    requires k <= |cus| && NameAfter(cus, k, pc).Some?
    ensures exists i :: 0 <= i < k && UnitName(cus, i, pc) == NameAfter(cus, k, pc)
  {
    if UnitName(cus, k - 1, pc).None? { NameFromUnit(cus, k - 1, pc); }
  }

  /** The units that have the pc give it one name. */
  ghost predicate OneName(cus: seq<seq<Tree>>, pc: nat) {
    forall i, j :: 0 <= i < |cus| && 0 <= j < |cus| && UnitName(cus, i, pc).Some? && UnitName(cus, j, pc).Some? ==>
      UnitName(cus, i, pc) == UnitName(cus, j, pc)
  }

  /** However many units are loaded, a query for the pc answers like the eager map. */
  ghost predicate AlwaysEager(cus: seq<seq<Tree>>, pc: nat) {
    forall k: nat :: k <= |cus| ==> Query(cus, k, pc).0 == Eager(cus, pc)
  }

  /** However many units are loaded, a query answers like the eager map, exactly when all units that have the
      pc end with the same name for it. */
  lemma OrderShows(cus: seq<seq<Tree>>, pc: nat)
    ensures AlwaysEager(cus, pc) <==> OneName(cus, pc)
  {
    hide Query, Eager, UnitName, NameAfter;
    if OneName(cus, pc) {
      forall k: nat | k <= |cus| ensures Query(cus, k, pc).0 == Eager(cus, pc) { OneNameAnswers(cus, k, pc); }
    }
    if AlwaysEager(cus, pc) {
      forall i | 0 <= i < |cus| && UnitName(cus, i, pc).Some? ensures UnitName(cus, i, pc) == Eager(cus, pc) {
        UnitNameKept(cus, i, i + 1, pc);
        QueryName(cus, i + 1, pc);
        assert Query(cus, i + 1, pc).0 == Eager(cus, pc);
      }
    }
  }

  lemma {:induction false} OneNameAnswers(cus: seq<seq<Tree>>, k: nat, pc: nat)
    requires k <= |cus| && OneName(cus, pc)
    ensures Query(cus, k, pc).0 == Eager(cus, pc)
    decreases |cus| - k
  {
    hide Query, Eager, UnitName, NameAfter;
    QueryName(cus, k, pc);
    if NameAfter(cus, k, pc).Some? {
      NameFromUnit(cus, k, pc);
      var i :| 0 <= i < k && UnitName(cus, i, pc) == NameAfter(cus, k, pc);
      UnitNameKept(cus, i, |cus|, pc);
      NameFromUnit(cus, |cus|, pc);
    } else if k < |cus| {
      OneNameAnswers(cus, k + 1, pc);
    }
  }

  // ----- the states that queries lead to

  /** The number of units loaded after some queries. */
  function StateAfter(cus: seq<seq<Tree>>, queries: seq<nat>): (k: nat)
    ensures k <= |cus|
  {
    if queries == [] then 0
    else Query(cus, StateAfter(cus, queries[..|queries| - 1]), queries[|queries| - 1]).1
  }

  /** Loading stops behind a unit that brings a pc the units before it do not have, or behind all units. */
  ghost predicate Stop(cus: seq<seq<Tree>>, k: nat) {
    k <= |cus| && (k == 0 || k == |cus| || exists pc :: New(cus, k, pc))
  }

  predicate New(cus: seq<seq<Tree>>, k: nat, pc: nat)
    requires 0 < k <= |cus|
  {
    NameAfter(cus, k, pc).Some? && NameAfter(cus, k - 1, pc).None?
  }

  lemma {:induction false} QueryStops(cus: seq<seq<Tree>>, k: nat, pc: nat)
    requires k <= |cus| && (Stop(cus, k) || NameAfter(cus, k - 1, pc).None?)
    ensures Stop(cus, Query(cus, k, pc).1)
    decreases |cus| - k
  {
    hide Query, NameAfter;
    QueryName(cus, k, pc);
    assert k > 0 && NameAfter(cus, k, pc).Some? && NameAfter(cus, k - 1, pc).None? ==> New(cus, k, pc);
    if NameAfter(cus, k, pc).None? && k < |cus| {
      QueryStops(cus, k + 1, pc);
    }
  }

  lemma {:induction false} StateStops(cus: seq<seq<Tree>>, queries: seq<nat>)
    ensures Stop(cus, StateAfter(cus, queries))
    decreases |queries|
  {
    if queries != [] {
      StateStops(cus, queries[..|queries| - 1]);
      QueryStops(cus, StateAfter(cus, queries[..|queries| - 1]), queries[|queries| - 1]);
    }
  }

  /** From nothing, a query loads on until the first unit that has its pc. */
  lemma {:induction false} QueryLoads(cus: seq<seq<Tree>>, j: nat, k: nat, pc: nat)
    requires j <= k <= |cus| && (k < |cus| ==> NameAfter(cus, k, pc).Some?)
    requires forall i :: j <= i < k ==> NameAfter(cus, i, pc).None?
    ensures Query(cus, j, pc).1 == k
    decreases k - j
  {
    hide Query, NameAfter;
    QueryName(cus, j, pc);
    if j < k { QueryLoads(cus, j + 1, k, pc); }
  }

  lemma {:induction false} NoneBefore(cus: seq<seq<Tree>>, i: nat, k: nat, pc: nat)
    requires i <= k <= |cus| && NameAfter(cus, k, pc).None?
    ensures NameAfter(cus, i, pc).None?
  {
    if i < k { NoneBefore(cus, i, k - 1, pc); }
  }

  /** A pc that no unit has. */
  lemma UnknownPc(cus: seq<seq<Tree>>) returns (pc: nat)
    ensures NameAfter(cus, |cus|, pc).None?
  {
    pc := Above(Loaded(cus).Keys);
    assert cus[..|cus|] == cus;
    LoadedName(cus, |cus|, pc);
  }

  lemma {:induction false} Above(s: set<nat>) returns (x: nat)
    ensures forall y <- s :: y < x
    decreases s
  {
    if s == {} {
      x := 0;
    } else {
      var y :| y in s;
      x := Above(s - {y});
      assert s == {y} + (s - {y});
      x := if y < x then x else y + 1;
    }
  }

  /** The stops are exactly the states that queries lead to. */
  lemma StopsAreStates(cus: seq<seq<Tree>>, k: nat)
    ensures Stop(cus, k) <==> exists queries :: StateAfter(cus, queries) == k
  {
    forall queries: seq<nat> { StateStops(cus, queries); }
    if Stop(cus, k) {
      var queries: seq<nat> := [];
      if k == |cus| {
        var pc := UnknownPc(cus);
        forall i | 0 <= i < k ensures NameAfter(cus, i, pc).None? { NoneBefore(cus, i, |cus|, pc); }
        QueryLoads(cus, 0, k, pc);
        queries := [pc];
      } else if k > 0 {
        var pc :| New(cus, k, pc);
        forall i | 0 <= i < k ensures NameAfter(cus, i, pc).None? { NoneBefore(cus, i, k - 1, pc); }
        QueryLoads(cus, 0, k, pc);
        queries := [pc];
      }
      OneQuery(cus, queries);
    }
  }

  lemma OneQuery(cus: seq<seq<Tree>>, queries: seq<nat>)
    requires |queries| <= 1
    ensures StateAfter(cus, queries) == if queries == [] then 0 else Query(cus, 0, queries[0]).1
  {
    if queries != [] { assert queries[..0] == []; }
  }

  /** After any queries, one for the pc answers like the eager map. */
  ghost predicate EagerInRuns(cus: seq<seq<Tree>>, pc: nat) {
    forall queries :: Query(cus, StateAfter(cus, queries), pc).0 == Eager(cus, pc)
  }

  ghost predicate StopsAgree(cus: seq<seq<Tree>>, pc: nat) {
    forall k: nat :: k <= |cus| && Stop(cus, k) && NameAfter(cus, k, pc).Some? ==>
      NameAfter(cus, k, pc) == NameAfter(cus, |cus|, pc)
  }

  /** Over all sequences of queries, the answers for a pc are those of the eager map exactly when at every stop
      the last loaded unit that has the pc names it as the last of all units does. */
  lemma OrderShowsInRuns(cus: seq<seq<Tree>>, pc: nat)
    ensures EagerInRuns(cus, pc) <==> StopsAgree(cus, pc)
  {
    hide Query, Eager, NameAfter, StateAfter, Stop;
    if StopsAgree(cus, pc) {
      forall queries: seq<nat> ensures Query(cus, StateAfter(cus, queries), pc).0 == Eager(cus, pc) {
        StateStops(cus, queries);
        StopAnswers(cus, StateAfter(cus, queries), pc);
      }
    }
    if EagerInRuns(cus, pc) {
      forall k: nat | k <= |cus| && Stop(cus, k) && NameAfter(cus, k, pc).Some?
        ensures NameAfter(cus, k, pc) == NameAfter(cus, |cus|, pc)
      {
        StopsAreStates(cus, k);
        var queries :| StateAfter(cus, queries) == k;
        QueryName(cus, k, pc);
        assert Query(cus, StateAfter(cus, queries), pc).0 == Eager(cus, pc);
      }
    }
  }

  /** A query that loads units ends at a stop. */
  lemma {:induction false} StopAnswers(cus: seq<seq<Tree>>, k: nat, pc: nat)
    requires k <= |cus| && (Stop(cus, k) || NameAfter(cus, k - 1, pc).None?)
    requires StopsAgree(cus, pc)
    ensures Query(cus, k, pc).0 == Eager(cus, pc)
    decreases |cus| - k
  {
    hide Query, Eager, NameAfter;
    QueryName(cus, k, pc);
    assert k > 0 && NameAfter(cus, k, pc).Some? && NameAfter(cus, k - 1, pc).None? ==> New(cus, k, pc);
    if NameAfter(cus, k, pc).None? && k < |cus| {
      StopAnswers(cus, k + 1, pc);
    }
  }
}
