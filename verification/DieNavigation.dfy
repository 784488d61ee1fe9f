/** dwarf_child and dwarf_siblingof: finding a tree's edges in the flat entry list by counting depth. */
module DieNavigation {
  import opened DieTree

  datatype Found = At(pos: nat) | NoEntry | Malformed

  /** _dwarf_next_die_info_ptr: the place behind an entry, or the one its sibling attribute names. */
  function NextPlace(es: seq<Entry>, ptr: nat, wantSibling: bool): (nat, bool)
    requires ptr < |es| && es[ptr].Die?
  {
    if wantSibling && es[ptr].sibling != [] then (es[ptr].sibling[0], false) else (ptr + 1, es[ptr].hasChild)
  }

  /** One null entry ends each open list of children. */
  function Close(es: seq<Entry>, ptr: nat, depth: nat): (r: (nat, nat))
    requires ptr <= |es|
    ensures ptr <= r.0 <= |es| && r.1 <= depth
    ensures ptr == r.0 ==> depth == r.1
    decreases depth
  {
    if depth > 0 && ptr < |es| && es[ptr].Null? then Close(es, ptr + 1, depth - 1) else (ptr, depth)
  }

  /** The search for a sibling: skip entries until as many lists have ended as have begun. */
  function Skip(es: seq<Entry>, ptr: nat, depth: nat): (r: Found)
    requires ptr <= |es|
    ensures r.At? ==> ptr < r.pos <= |es|
    decreases |es| - ptr, 0
  {
    if ptr == |es| || es[ptr].Null? then Malformed
    else
      var (next, hasChild) := NextPlace(es, ptr, true);
      if next <= ptr || next > |es| then Malformed
      else if !hasChild || next == |es| then AfterEntry(es, next, depth)
      else if es[next].Null? then AfterEntry(es, next + 1, depth)
      else Skip(es, next, depth + 1)
  }

  /** The same search behind a complete entry, or a complete list of children. */
  function AfterEntry(es: seq<Entry>, ptr: nat, depth: nat): (r: Found)
    requires ptr <= |es|
    ensures r.At? ==> ptr <= r.pos <= |es|
    decreases |es| - ptr, 1
  {
    var (p, d) := Close(es, ptr, depth);
    if d == 0 then At(p) else Skip(es, p, d)
  }

  function SiblingOf(es: seq<Entry>, pos: nat): Found
    requires pos < |es|
  {
    if es[pos].Null? then NoEntry
    else
      match Skip(es, pos, 0)
      case At(p) => if p == |es| || es[p].Null? then NoEntry else At(p)
      case other => Malformed
  }

  function ChildOf(es: seq<Entry>, pos: nat): Found
    requires pos < |es|
  {
    if es[pos].Null? || !es[pos].hasChild then NoEntry
    else if pos + 1 == |es| then Malformed
    else if es[pos + 1].Null? then NoEntry
    else At(pos + 1)
  }

  // ----- the searches as libdwarf runs them

  /** dwarf_siblingof on an entry */
  method DwarfSiblingOf(es: seq<Entry>, die: nat) returns (r: Found)
    requires die < |es|
    ensures r == SiblingOf(es, die)
  {
    if es[die].Null? {
      return NoEntry;
    }
    var ptr: nat, childDepth: nat := die, 0;
    while true
      invariant ptr <= |es|
      invariant Skip(es, die, 0) == Skip(es, ptr, childDepth)
      decreases |es| - ptr
    {
      if ptr == |es| || es[ptr].Null? {
        return Malformed;
      }
      var (next, hasChild) := NextPlace(es, ptr, true);
      if next <= ptr || next > |es| {
        return Malformed;
      }
      ptr := next;
      if ptr < |es| && es[ptr].Null? && hasChild {
        ptr := ptr + 1;
        hasChild := false;
      }
      if ptr == |es| || es[ptr].Null? {
        ghost var p, d := ptr, childDepth;
        assert Skip(es, die, 0) == AfterEntry(es, p, d);
        while childDepth > 0 && ptr < |es| && es[ptr].Null?
          invariant ptr <= |es|
          invariant Close(es, p, d) == Close(es, ptr, childDepth)
          decreases childDepth
        {
          ptr, childDepth := ptr + 1, childDepth - 1;
        }
      } else {
        childDepth := if hasChild then childDepth + 1 else childDepth;
      }
      if childDepth == 0 {
        break;
      }
    }
    if ptr == |es| || es[ptr].Null? {
      return NoEntry;
    }
    return At(ptr);
  }

  /** dwarf_child */
  method DwarfChild(es: seq<Entry>, die: nat) returns (r: Found)
    requires die < |es|
    ensures r == ChildOf(es, die)
  {
    if es[die].Null? {
      return NoEntry;
    }
    var (ptr, hasChild) := NextPlace(es, die, false);
    if !hasChild {
      return NoEntry;
    }
    if ptr == |es| {
      return Malformed;
    }
    if es[ptr].Null? {
      return NoEntry;
    }
    return At(ptr);
  }

  // ----- they find the tree's edges

  /** With a list open, the search passes over all the siblings in it and their descendants. */
  lemma {:induction false} SkipList(es: seq<Entry>, pos: nat, ts: seq<Tree>, depth: nat)
    requires LaidOut(es, pos, ts) && ts != [] && depth > 0
    requires pos + SizeAll(ts) < |es| && es[pos + SizeAll(ts)].Null?
    ensures Skip(es, pos, depth) == AfterEntry(es, pos + SizeAll(ts), depth)
    decreases SizeAll(ts), 1
  {
    hide Skip, LaidOut;
    var behind := pos + Size(ts[0]);
    LaidOutRest(es, pos, ts);
    SkipOne(es, pos, ts, depth);
    if ts[1..] != [] {
      LaidOutFirst(es, behind, ts[1..]);
      SkipList(es, behind, ts[1..], depth);
      assert Close(es, behind, depth) == (behind, depth);
    }
  }

  /** Passing the first sibling leads behind it. */
  lemma {:induction false} SkipOne(es: seq<Entry>, pos: nat, ts: seq<Tree>, depth: nat)
    requires LaidOut(es, pos, ts) && ts != []
    ensures pos + Size(ts[0]) <= |es|
    ensures Skip(es, pos, depth) == AfterEntry(es, pos + Size(ts[0]), depth)
    decreases Size(ts[0]), 0
  {
    hide AfterEntry, LaidOut;
    var t, behind := ts[0], pos + Size(ts[0]);
    LaidOutFirst(es, pos, ts);
    if !t.hasSibling && t.children != [] {
      LaidOutFirst(es, pos + 1, t.children);
      SkipList(es, pos + 1, t.children, depth + 1);
      CloseOne(es, behind - 1, depth);
    }
  }

  lemma CloseOne(es: seq<Entry>, ptr: nat, depth: nat)
    requires ptr < |es| && es[ptr].Null?
    ensures AfterEntry(es, ptr, depth + 1) == AfterEntry(es, ptr + 1, depth)
  {
  }

  /** dwarf_siblingof goes to the next sibling, past any depth of descendants, and ends with its chain. */
  lemma SiblingOfChain(es: seq<Entry>, pos: nat, ts: seq<Tree>)
    requires ChainAt(es, pos, ts) && ts != []
    ensures pos < |es|
    ensures SiblingOf(es, pos) == if |ts| > 1 then At(pos + Size(ts[0])) else NoEntry
    ensures ChainAt(es, pos + Size(ts[0]), ts[1..])
  {
    LaidOutRest(es, pos, ts);
    ChainStarts(es, pos + Size(ts[0]), ts[1..]);
    SkipOne(es, pos, ts, 0);
  }

  /** dwarf_child goes to the first child, whatever the child flag says about an empty list. */
  lemma ChildOfChain(es: seq<Entry>, pos: nat, ts: seq<Tree>)
    requires ChainAt(es, pos, ts) && ts != []
    ensures pos < |es|
    ensures ChildOf(es, pos) == if ts[0].children != [] then At(pos + 1) else NoEntry
    ensures ts[0].children != [] ==> ChainAt(es, pos + 1, ts[0].children)
    ensures es[pos].Die? && es[pos].info == ts[0].info
  {
    hide Flatten, FlattenAll;
    LaidOutFirst(es, pos, ts);
    if ts[0].hasChild {
      ChainStarts(es, pos + 1, ts[0].children);
    }
  }
}
