/** dwarfdump2's walk over one unit of .debug_info: a sibling loop that recurses into
    children and keeps its ancestors on a vector of holders. */
module DieWalk {
  import opened DieTree
  import opened DieListing
  import opened DieNavigation
  import opened DieStack

  class Walker {
    const es: seq<Entry>
    const mode: Mode
    const checkTagTree: bool
    var dieVec: seq<Slot>
    var indentLevel: nat
    var output: seq<Line>
    var checks: seq<TagCheck>
    ghost var stacks: seq<seq<nat>>  // the places on the stack whenever an entry is checked and printed

    constructor (es: seq<Entry>, mode: Mode, checkTagTree: bool)
      ensures this.es == es && this.mode == mode && this.checkTagTree == checkTagTree
      ensures dieVec == [] && indentLevel == 0 && output == [] && checks == [] && stacks == []
    {
      this.es, this.mode, this.checkTagTree := es, mode, checkTagTree;
      dieVec, indentLevel, output, checks, stacks := [], 0, [], [], [];
    }

    /** print_one_die: nothing for a marked holder; the line, and the mark, when asked to print;
        otherwise whether an attribute matches the search. */
    method PrintOneDie(holder: Slot, printInformation: bool, level: nat) returns (after: Slot, matched: bool)
      requires holder.pos < |es| && es[holder.pos].Die?
      modifies this`output
      ensures holder.printed ==> output == old(output) && after == holder && !matched
      ensures !holder.printed && printInformation ==>
                output == old(output) + [Line(holder.pos, level)] && after == Mark(holder) && !matched
      ensures !holder.printed && !printInformation ==>
                output == old(output) && after == holder
                && matched == (mode.Search? && mode.m(es[holder.pos].info))
    {
      after, matched := holder, false;
      if holder.printed {
        return;
      }
      if printInformation {
        after := Mark(holder);
        output := output + [Line(holder.pos, level)];
      } else {
        matched := mode.Search? && mode.m(es[holder.pos].info);
      }
    }

    /** print_die_stack */
    method PrintDieStack()
      requires OnEntries(es, dieVec)
      modifies this`output, this`dieVec
      ensures output == old(output) + Unprinted(old(dieVec))
      ensures dieVec == Marked(old(dieVec))
    {
      ghost var before := dieVec;
      var lev := 0;
      while lev < |dieVec|
        invariant lev <= |dieVec| == |before|
        invariant output == old(output) + Unprinted(before[..lev])
        invariant forall i :: 0 <= i < |before| ==> dieVec[i] == if i < lev then Mark(before[i]) else before[i]
      {
        var after, matched := PrintOneDie(dieVec[lev], true, lev);
        dieVec := dieVec[lev := after];
        assert before[..lev + 1][..lev] == before[..lev];
        lev := lev + 1;
      }
      assert before[..lev] == before;
    }

    /** The tag-tree check of one entry, made once it is on the stack. */
    method CheckTags(inDie: nat)
      requires inDie < |es| && es[inDie].Die? && |dieVec| == indentLevel + 1 && OnEntries(es, dieVec)
      modifies this`checks
      ensures checks == if checkTagTree
                        then old(checks) + [TagCheckOf(es[inDie].info.tag, TopTag(es, dieVec[..indentLevel]))]
                        else old(checks)
    {
      if checkTagTree {
        if indentLevel == 0 {
          checks := checks + [RootTag(es[inDie].info.tag)];
        } else {
          checks := checks + [ChildTag(es[dieVec[indentLevel - 1].pos].info.tag, es[inDie].info.tag)];
        }
      }
    }

    /** The sibling loop's work on an entry before it descends: push it, check it, print it. */
    method Announce(inDie: nat, ghost t: Tree)
      requires inDie < |es| && es[inDie].Die? && es[inDie].info == t.info
      requires indentLevel == |dieVec| && OnEntries(es, dieVec)
      modifies this`dieVec, this`output, this`checks, this`stacks
      ensures dieVec == Arrive(t, inDie, old(dieVec), mode).1
      ensures output == old(output) + Arrive(t, inDie, old(dieVec), mode).0
      ensures OnEntries(es, dieVec) && TopTag(es, dieVec) == [t.info.tag]
      ensures Places(dieVec) == Places(old(dieVec)) + [inDie] && stacks == old(stacks) + [Places(dieVec)]
      ensures checks == old(checks) + if checkTagTree then [TagCheckOf(t.info.tag, TopTag(es, old(dieVec)))] else []
    {
      hide *;
      ghost var stack := dieVec;
      ArriveCases(t, inDie, stack, mode);
      PushedPlaces(es, stack, inDie);
      var hinDie := Slot(inDie, false);
      dieVec := dieVec + [hinDie];
      PlacesPushed(stack, hinDie);
      stacks := stacks + [Places(dieVec)];
      assert dieVec[..indentLevel] == stack;
      CheckTags(inDie);
      var after, retryPrintOnMatch := PrintOneDie(hinDie, mode.Full?, indentLevel);
      if !mode.Full? && retryPrintOnMatch {
        PrintDieStack();
      }
      SamePlaces(es, stack + [hinDie], dieVec);
      PlacesKept(stack + [hinDie], dieVec);
    }

    /** The whole of that work: then its children, and it is popped. */
    method VisitDie(inDie: nat, ghost rest: seq<Tree>)
      requires ChainAt(es, inDie, rest) && rest != []
      requires indentLevel == |dieVec| && OnEntries(es, dieVec)
      modifies this
      ensures indentLevel == old(indentLevel)
      ensures dieVec == Leave(rest[0], inDie, old(dieVec), mode)
      ensures var (lines, inner) := Arrive(rest[0], inDie, old(dieVec), mode);
              output == old(output) + lines + Output(rest[0].children, inDie + 1, indentLevel + 1, inner, mode)
      ensures checks == old(checks) + if checkTagTree then TagChecks([rest[0]], TopTag(es, old(dieVec))) else []
      ensures stacks == old(stacks) + Paths([rest[0]], inDie, Places(old(dieVec)))
      decreases SizeAll(rest), 0
    {
      hide *;
      ghost var t, stack := rest[0], dieVec;
      ChildOfChain(es, inDie, rest);
      ChainSizes(es, inDie, rest);
      TagChecksSplit([t], TopTag(es, stack));
      PathsSplit([t], inDie, Places(stack));
      ArriveCases(t, inDie, stack, mode);
      Announce(inDie, t);
      NothingBelow(inDie + 1, indentLevel + 1, dieVec, mode, [t.info.tag]);
      var child := DwarfChild(es, inDie);
      if child.At? {
        indentLevel := indentLevel + 1;
        PrintDieAndChildren(child.pos, t.children);
        indentLevel := indentLevel - 1;
      }
      dieVec := dieVec[..|dieVec| - 1];
    }

    /** print_die_and_children_internal, on any chain of siblings with their descendants. */
    method PrintDieAndChildren(first: nat, ghost ts: seq<Tree>)
      requires ChainAt(es, first, ts) && ts != []
      requires indentLevel == |dieVec| && OnEntries(es, dieVec)
      modifies this
      ensures indentLevel == old(indentLevel)
      ensures dieVec == After(ts, old(dieVec), mode)
      ensures output == old(output) + Output(ts, first, indentLevel, old(dieVec), mode)
      ensures checks == old(checks) + if checkTagTree then TagChecks(ts, TopTag(es, old(dieVec))) else []
      ensures stacks == old(stacks) + Paths(ts, first, Places(old(dieVec)))
      decreases SizeAll(ts), 1
    {
      hide *;
      var inDie: nat := first;
      ghost var rest := ts;
      ghost var parent, path := TopTag(es, dieVec), Places(dieVec);
      while true
        invariant ChainAt(es, inDie, rest) && rest != [] && SizeAll(rest) <= SizeAll(ts)
        invariant indentLevel == |dieVec| == old(|dieVec|) && OnEntries(es, dieVec) && TopTag(es, dieVec) == parent
        invariant output + Output(rest, inDie, indentLevel, dieVec, mode)
                  == old(output) + Output(ts, first, indentLevel, old(dieVec), mode)
        invariant After(rest, dieVec, mode) == After(ts, old(dieVec), mode)
        invariant Places(dieVec) == path
        invariant stacks + Paths(rest, inDie, path) == old(stacks) + Paths(ts, first, path)
        invariant checkTagTree ==> checks + TagChecks(rest, parent) == old(checks) + TagChecks(ts, parent)
        invariant !checkTagTree ==> checks == old(checks)
        decreases SizeAll(rest)
      {
        ghost var stack, out, done := dieVec, output, checks;
        Turn(rest, inDie, stack, mode);
        SiblingOfChain(es, inDie, rest);
        ChainSizes(es, inDie, rest);
        TagChecksSplit(rest, parent);
        PathsSplit(rest, inDie, path);
        VisitDie(inDie, rest);
        SamePlaces(es, stack, dieVec);
        PlacesKept(stack, dieVec);
        NothingBelow(inDie + Size(rest[0]), indentLevel, dieVec, mode, parent);
        var sibling := DwarfSiblingOf(es, inDie);
        rest := rest[1..];
        if sibling.At? {
          inDie := sibling.pos;
        } else {
          break;
        }
      }
    }
  }

  /** print_die_and_children, for the entries of one unit */
  method PrintUnit(es: seq<Entry>, mode: Mode, checkTagTree: bool, ghost unit: Tree)
    returns (output: seq<Line>, checks: seq<TagCheck>, ghost stacks: seq<seq<nat>>)
    requires ChainAt(es, 0, [unit])
    ensures output == UnitListing(unit, mode)
    ensures stacks == Paths([unit], 0, [])
    ensures checks == if checkTagTree then TagChecks([unit], []) else []
  {
    var walker := new Walker(es, mode, checkTagTree);
    walker.PrintDieAndChildren(0, [unit]);
    OutputOfUnit(unit, mode);
    return walker.output, walker.checks, walker.stacks;
  }
}
