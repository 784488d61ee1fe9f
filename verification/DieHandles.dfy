/** Handles onto the entries of a unit: libdwarf gives them out, its callers must give them back. */
module DieHandles {
  import opened DieTree
  import opened DieNavigation

  /** libdwarf's side: handles onto entries. Using or releasing a handle requires that it is live. */
  class Debug {
    const es: seq<Entry>
    var nextHandle: nat
    var places: map<nat, nat>
    ghost var released: seq<nat>

    /** Every handle ever given out is either live or was released once. */
    ghost predicate Valid()
      reads this
    {
      && nextHandle >= 1
      && (forall h :: h in places ==> places[h] < |es| && es[places[h]].Die?)
      && (forall h :: h in released || h in places <==> 1 <= h < nextHandle)
      && (forall h :: !(h in released && h in places))
      && (forall i, j :: 0 <= i < j < |released| ==> released[i] != released[j])
    }

    constructor (es: seq<Entry>)
      ensures Valid() && this.es == es && places == map[] && released == []
    {
      this.es, nextHandle, places, released := es, 1, map[], [];
    }

    /** The handle for a position. */
    method Alloc(pos: nat) returns (h: nat)
      requires Valid() && pos < |es| && es[pos].Die?
      modifies this
      ensures Valid() && released == old(released)
      ensures h !in old(places) && h >= 1 && places == old(places)[h := pos]
    {
      h := nextHandle;
      places := places[h := pos];
      nextHandle := nextHandle + 1;
    }

    /** dwarf_dealloc */
    method Dealloc(h: nat)
      requires Valid() && h in places
      modifies this
      ensures Valid() && places == old(places) - {h} && released == old(released) + [h]
    {
      places := places - {h};
      released := released + [h];
    }

    /** dwarf_child */
    method Child(die: nat, ghost ts: seq<Tree>) returns (found: bool, child: nat)
      requires Valid() && die in places && ChainAt(es, places[die], ts) && ts != []
      modifies this
      ensures Valid() && released == old(released)
      ensures found <==> ts[0].children != []
      ensures !found ==> places == old(places)
      ensures found ==> child !in old(places) && child >= 1 && places == old(places)[child := old(places)[die] + 1]
      ensures found ==> ChainAt(es, old(places)[die] + 1, ts[0].children)
    {
      hide LaidOut, Size, SizeAll, ChildOf;
      ChildOfChain(es, places[die], ts);
      var r := DwarfChild(es, places[die]);
      found, child := r.At?, 0;
      if found {
        LaidOutFirst(es, r.pos, ts[0].children);
        child := Alloc(r.pos);
      }
    }

    /** dwarf_siblingof */
    method Sibling(die: nat, ghost ts: seq<Tree>) returns (found: bool, sibling: nat)
      requires Valid() && die in places && ChainAt(es, places[die], ts) && ts != []
      modifies this
      ensures Valid() && released == old(released)
      ensures found <==> |ts| > 1
      ensures !found ==> places == old(places)
      ensures found ==> sibling !in old(places) && sibling >= 1
                        && places == old(places)[sibling := old(places)[die] + Size(ts[0])]
      ensures found ==> ChainAt(es, old(places)[die] + Size(ts[0]), ts[1..])
    {
      hide LaidOut, Size, SizeAll, SiblingOf;
      SiblingOfChain(es, places[die], ts);
      var r := DwarfSiblingOf(es, places[die]);
      found, sibling := r.At?, 0;
      if found {
        LaidOutFirst(es, r.pos, ts[1..]);
        sibling := Alloc(r.pos);
      }
    }
  }

  /** Every handle given out during a walk that leaves the live handles as they were was
      released during it, exactly once. */
  lemma ReleasedOnce(dbg: Debug, first: nat, h: nat)
    requires dbg.Valid() && forall live :: live in dbg.places ==> live < first
    requires 1 <= first <= h < dbg.nextHandle
    ensures multiset(dbg.released)[h] == 1
  {
    assert h in dbg.released;
    CountOnce(dbg.released, h);
  }

  lemma {:induction false} CountOnce(s: seq<nat>, h: nat)
    requires h in s && forall i, j :: 0 <= i < j < |s| ==> s[i] != s[j]
    ensures multiset(s)[h] == 1
  {
    var last := s[|s| - 1];
    assert s == s[..|s| - 1] + [last];
    if last == h {
      assert h !in s[..|s| - 1];
    } else {
      CountOnce(s[..|s| - 1], h);
    }
  }

  lemma AddRemove(m: map<nat, nat>, k: nat, v: nat)
    requires k !in m
    ensures m[k := v] - {k} == m
  {
  }

  lemma RemoveEarlier(m: map<nat, nat>, k: nat, v: nat, later: nat, w: nat)
    requires k != later
    ensures k !in m ==> m[k := v][later := w] - {k} == m[later := w]
  {
  }

  /** A sibling loop that started at `first` stands at `die`: it holds its argument, which is its
      caller's, and at most one handle of its own. */
  ghost predicate Holding(dbg: Debug, die: nat, first: nat, before: map<nat, nat>)
    reads dbg
  {
    die in dbg.places && die != 0 &&
    if die == first then dbg.places == before
    else die !in before && dbg.places == before[die := dbg.places[die]]
  }

  lemma HoldingIs(dbg: Debug, die: nat, first: nat, before: map<nat, nat>)
    ensures Holding(dbg, die, first, before) <==>
              die in dbg.places && die != 0 &&
              if die == first then dbg.places == before
              else die !in before && dbg.places == before[die := dbg.places[die]]
  {
  }
}
