/** dwarfdump's walk: the same listing made with a fixed-size ancestor stack and with entry
    handles that must be released by hand. libdwarf's address finder walks the same way. */
module DieWalkC {
  import opened DieTree
  import opened DieListing
  import opened DieNavigation
  import opened DieStack
  import opened DieHandles

  // ----- do_this_die_and_dealloc

  /** The entries of a chain in preorder, by place. */
  function PlacesOf(ts: seq<Tree>, pos: nat): seq<nat> {
    if ts == [] then []
    else [pos] + PlacesOf(ts[0].children, pos + 1) + PlacesOf(ts[1..], pos + Size(ts[0]))
  }

  lemma PlacesStep(ts: seq<Tree>, pos: nat)
    requires ts != []
    ensures PlacesOf(ts, pos)
            == [pos] + PlacesOf(ts[0].children, pos + 1) + PlacesOf(ts[1..], pos + Size(ts[0]))
    ensures ts[0].children == [] ==> PlacesOf(ts[0].children, pos + 1) == []
    ensures ts[1..] == [] ==> PlacesOf(ts[1..], pos + Size(ts[0])) == []
  {
  }

  class AddressFinder {
    const dbg: Debug
    var processed: seq<nat>

    constructor (dbg: Debug)
      ensures this.dbg == dbg && processed == []
    {
      this.dbg, processed := dbg, [];
    }

    /** do_this_die_and_dealloc: the attributes of every entry are processed in preorder, and every
        handle, the argument included, is released. */
    method DoThisDieAndDealloc(die: nat, ghost ts: seq<Tree>)
      requires dbg.Valid() && die in dbg.places && ChainAt(dbg.es, dbg.places[die], ts) && ts != []
      modifies this, dbg
      ensures dbg.Valid() && dbg.places == old(dbg.places) - {die}
      ensures processed == old(processed) + PlacesOf(ts, old(dbg.places)[die])
      decreases SizeAll(ts)
    {
      hide *;
      ghost var live, pos := dbg.places, dbg.places[die];
      var newDie := die;
      ghost var rest := ts;
      while true
        invariant dbg.Valid() && newDie in dbg.places && rest != [] && SizeAll(rest) <= SizeAll(ts)
        invariant ChainAt(dbg.es, dbg.places[newDie], rest)
        invariant dbg.places - {newDie} == live - {die}
        invariant processed + PlacesOf(rest, dbg.places[newDie]) == old(processed) + PlacesOf(ts, pos)
        decreases SizeAll(rest)
      {
        ghost var at, before := dbg.places[newDie], dbg.places;
        ChainSizes(dbg.es, at, rest);
        PlacesStep(rest, at);
        processed := processed + [dbg.places[newDie]];
        var hasChild, child := dbg.Child(newDie, rest);
        if hasChild {
          AddRemove(before, child, at + 1);
          DoThisDieAndDealloc(child, rest[0].children);
        }
        assert dbg.places == before;
        var prevDie := newDie;
        var more, sibling := dbg.Sibling(newDie, rest);
        dbg.Dealloc(prevDie);
        rest := rest[1..];
        if !more {
          break;
        }
        newDie := sibling;
      }
    }
  }

  // ----- print_die_and_children

  const DIE_STACK_SIZE: nat := 300

  /** Handle 0 is the null pointer. */
  datatype StackEntry = StackEntry(die: nat, printed: bool)

  /** How deep a chain of entries goes. */
  function Height(ts: seq<Tree>): nat {
    if ts == [] then 0
    else
      var here, behind := 1 + Height(ts[0].children), Height(ts[1..]);
      if here > behind then here else behind
  }

  predicate Alive(entries: seq<StackEntry>, places: map<nat, nat>) {
    forall i :: 0 <= i < |entries| ==> entries[i].die in places
  }

  function SlotsOf(entries: seq<StackEntry>, places: map<nat, nat>): (slots: seq<Slot>)
    requires Alive(entries, places)
    ensures |slots| == |entries|
    ensures forall i :: 0 <= i < |entries| ==> slots[i] == Slot(places[entries[i].die], entries[i].printed)
  {
    seq(|entries|, i requires 0 <= i < |entries| => Slot(places[entries[i].die], entries[i].printed))
  }

  predicate SameDies(a: seq<StackEntry>, b: seq<StackEntry>) {
    |a| == |b| && forall i :: 0 <= i < |a| ==> a[i].die == b[i].die
  }

  lemma SameDiesAlive(a: seq<StackEntry>, b: seq<StackEntry>, places: map<nat, nat>)
    requires SameDies(a, b) || SameDies(b, a)
    ensures Alive(a, places) == Alive(b, places)
  {
  }

  lemma SlotsPrefix(entries: seq<StackEntry>, places: map<nat, nat>, n: nat)
    requires Alive(entries, places) && n <= |entries|
    ensures Alive(entries[..n], places) && SlotsOf(entries[..n], places) == SlotsOf(entries, places)[..n]
  {
  }

  function MarkFirst(entries: seq<StackEntry>, n: nat): (marked: seq<StackEntry>)
    ensures |marked| == |entries|
  {
    seq(|entries|, i requires 0 <= i < |entries| => if i < n then entries[i].(printed := true) else entries[i])
  }

  lemma MarkedSlots(entries: seq<StackEntry>, places: map<nat, nat>)
    requires Alive(entries, places)
    ensures Alive(MarkFirst(entries, |entries|), places)
    ensures SlotsOf(MarkFirst(entries, |entries|), places) == Marked(SlotsOf(entries, places))
  {
  }

  lemma PushedSlots(entries: seq<StackEntry>, places: map<nat, nat>, die: nat)
    requires Alive(entries, places) && die in places
    ensures Alive(entries + [StackEntry(die, false)], places)
    ensures SlotsOf(entries + [StackEntry(die, false)], places)
            == SlotsOf(entries, places) + [Slot(places[die], false)]
  {
  }

  lemma UnprintedPrefix(slots: seq<Slot>, n: nat)
    ensures Unprinted(slots[..0]) == []
    ensures n < |slots| ==> Unprinted(slots[..n + 1])
                            == Unprinted(slots[..n]) + if slots[n].printed then [] else [Line(slots[n].pos, n)]
  {
    if n < |slots| {
      assert slots[..n + 1] == slots[..n] + [slots[n]];
      UnprintedPushed(slots[..n], slots[n]);
    }
  }

  /** Handles obtained later do not disturb the stack. */
  lemma SlotsFrame(entries: seq<StackEntry>, places: map<nat, nat>, h: nat, pos: nat)
    requires Alive(entries, places) && h !in places
    ensures Alive(entries, places[h := pos]) && SlotsOf(entries, places[h := pos]) == SlotsOf(entries, places)
  {
  }

  class Printer {
    const dbg: Debug
    const mode: Mode
    const checkTagTree: bool
    const dieStack: array<StackEntry>
    var indentLevel: nat
    var output: seq<Line>
    var checks: seq<TagCheck>
    ghost var stacks: seq<seq<nat>>  // the places on the stack whenever an entry is checked and printed

    constructor (dbg: Debug, mode: Mode, checkTagTree: bool)
      ensures this.dbg == dbg && this.mode == mode && this.checkTagTree == checkTagTree
      ensures indentLevel == 0 && output == [] && checks == [] && stacks == []
      ensures dieStack.Length == DIE_STACK_SIZE && fresh(dieStack)
    {
      this.dbg, this.mode, this.checkTagTree := dbg, mode, checkTagTree;
      indentLevel, output, checks, stacks := 0, [], [], [];
      dieStack := new StackEntry[DIE_STACK_SIZE](_ => StackEntry(0, false));
    }

    /** The first n stack entries hold live handles. */
    ghost predicate Live(n: nat)
      reads dbg, dieStack
    {
      dbg.Valid() && dieStack.Length == DIE_STACK_SIZE && n <= DIE_STACK_SIZE && Alive(dieStack[..n], dbg.places)
    }

    /** The first n stack entries, by place. */
    ghost function Slots(n: nat): seq<Slot>
      requires Live(n)
      reads dbg, dieStack
    {
      SlotsOf(dieStack[..n], dbg.places)
    }

    /** print_one_die; its mark is kept in the stack entry of its level. */
    method PrintOneDie(die: nat, printInformation: bool, level: nat) returns (matched: bool)
      requires Live(level + 1) && dieStack[level].die == die
      modifies this`output, dieStack
      ensures var was := old(dieStack[level].printed);
              && dieStack[..] == old(dieStack[..])[level := StackEntry(die, was || printInformation)]
              && output == old(output) + (if printInformation && !was then [Line(dbg.places[die], level)] else [])
              && (matched <==> !printInformation && !was && mode.Search? && mode.m(dbg.es[dbg.places[die]].info))
    {
      matched := false;
      if dieStack[level].printed {
        assert dieStack[..][level] == dieStack[level];
        return;
      }
      if printInformation {
        dieStack[level] := dieStack[level].(printed := true);
        output := output + [Line(dbg.places[die], level)];
      } else {
        matched := mode.Search? && mode.m(dbg.es[dbg.places[die]].info);
      }
    }

    /** print_die_stack */
    method PrintDieStack()
      requires Live(indentLevel + 1)
      modifies this`output, dieStack
      ensures dieStack[..] == MarkFirst(old(dieStack[..]), indentLevel + 1)
      ensures output == old(output) + Unprinted(old(Slots(indentLevel + 1)))
    {
      hide Unprinted;
      ghost var entries, slots := dieStack[..], Slots(indentLevel + 1);
      var lev := 0;
      UnprintedPrefix(slots, 0);
      while lev <= indentLevel
        invariant lev <= indentLevel + 1
        invariant dieStack[..] == MarkFirst(entries, lev)
        invariant output == old(output) + Unprinted(slots[..lev])
      {
        assert dieStack[..][lev] == dieStack[lev];
        assert Alive(dieStack[..lev + 1], dbg.places);
        UnprintedPrefix(slots, lev);
        var matched := PrintOneDie(dieStack[lev].die, true, lev);
        lev := lev + 1;
      }
      assert slots[..lev] == slots;
    }

    lemma LiveIs(n: nat)
      ensures Live(n) <==> dbg.Valid() && dieStack.Length == DIE_STACK_SIZE && n <= DIE_STACK_SIZE
                           && n <= dieStack.Length && Alive(dieStack[..n], dbg.places)
      ensures Live(n) ==> Slots(n) == SlotsOf(dieStack[..n], dbg.places)
    {
    }

    /** SET_DIE_STACK_ENTRY */
    method SetEntry(inDie: nat)
      requires Live(indentLevel) && indentLevel < DIE_STACK_SIZE && inDie in dbg.places
      modifies dieStack
      ensures dieStack[..indentLevel + 1] == old(dieStack[..indentLevel]) + [StackEntry(inDie, false)]
      ensures Live(indentLevel + 1)
      ensures Slots(indentLevel + 1) == old(Slots(indentLevel)) + [Slot(dbg.places[inDie], false)]
    {
      ghost var ancestors := dieStack[..indentLevel];
      dieStack[indentLevel] := StackEntry(inDie, false);
      assert dieStack[..indentLevel + 1] == ancestors + [StackEntry(inDie, false)];
      PushedSlots(ancestors, dbg.places, inDie);
    }

    /** The tag-tree check of one entry: of the root's tag, or of the pair of the entry below it and itself. */
    method CheckTags(inDie: nat)
      requires Live(indentLevel + 1) && inDie in dbg.places
      modifies this`checks
      ensures checks == if checkTagTree
                        then old(checks) + [TagCheckOf(dbg.es[dbg.places[inDie]].info.tag,
                                                       TopTag(dbg.es, Slots(indentLevel + 1)[..indentLevel]))]
                        else old(checks)
    {
      if checkTagTree {
        if indentLevel == 0 {
          checks := checks + [RootTag(dbg.es[dbg.places[inDie]].info.tag)];
        } else {
          assert dieStack[..indentLevel + 1][indentLevel - 1] == dieStack[indentLevel - 1];
          var parent := dbg.places[dieStack[indentLevel - 1].die];
          assert Slots(indentLevel + 1)[..indentLevel][indentLevel - 1].pos == parent;
          checks := checks + [ChildTag(dbg.es[parent].info.tag, dbg.es[dbg.places[inDie]].info.tag)];
        }
      }
    }

    /** The printing done before descending, with the entry on the stack. */
    method PrintArrived(inDie: nat, ghost t: Tree, ghost pos: nat, ghost stack: seq<Slot>)
      requires Live(indentLevel + 1) && dieStack[indentLevel] == StackEntry(inDie, false)
      requires Slots(indentLevel + 1) == stack + [Slot(pos, false)] && |stack| == indentLevel
      requires inDie in dbg.places && dbg.places[inDie] == pos && dbg.es[pos].info == t.info
      modifies this`output, dieStack
      ensures Live(indentLevel + 1)
      ensures SameDies(dieStack[..indentLevel + 1], old(dieStack[..indentLevel + 1]))
      ensures output == old(output) + Arrive(t, pos, stack, mode).0
      ensures mode.Search? ==> Slots(indentLevel + 1) == Arrive(t, pos, stack, mode).1
      ensures mode.Full? ==> Slots(indentLevel + 1)[..indentLevel] == stack
    {
      hide Unprinted, Arrive, Leave;
      ghost var pushed := dieStack[..indentLevel + 1];
      ArriveCases(t, pos, stack, mode);
      assert dieStack[..][indentLevel] == pushed[indentLevel] == StackEntry(inDie, false);
      var retryPrintOnMatch := PrintOneDie(inDie, mode.Full?, indentLevel);
      if !mode.Full? {
        assert dieStack[..indentLevel + 1] == pushed;
        if retryPrintOnMatch {
          PrintDieStack();
          assert dieStack[..indentLevel + 1] == MarkFirst(pushed, indentLevel + 1);
          MarkedSlots(pushed, dbg.places);
        }
      } else {
        assert dieStack[..indentLevel + 1] == pushed[..indentLevel] + [StackEntry(inDie, true)];
      }
    }

    lemma SameDiesSlots(n: nat, entries: seq<StackEntry>)
      requires Live(n) && SameDies(dieStack[..n], entries)
      ensures Alive(entries, dbg.places) && Places(Slots(n)) == Places(SlotsOf(entries, dbg.places))
    {
    }

    /** The sibling loop's work on an entry before it descends: set it, check it, print it. */
    method Announce(inDie: nat, ghost t: Tree, ghost pos: nat)
      requires Live(indentLevel) && indentLevel < DIE_STACK_SIZE
      requires inDie in dbg.places && dbg.places[inDie] == pos && dbg.es[pos].info == t.info
      modifies this`output, this`checks, this`stacks, dieStack
      ensures Live(indentLevel + 1)
      ensures SameDies(dieStack[..indentLevel + 1], old(dieStack[..indentLevel]) + [StackEntry(inDie, false)])
      ensures output == old(output) + Arrive(t, pos, old(Slots(indentLevel)), mode).0
      ensures mode.Search? ==> Slots(indentLevel + 1) == Arrive(t, pos, old(Slots(indentLevel)), mode).1
      ensures mode.Full? ==> Slots(indentLevel + 1)[..indentLevel] == old(Slots(indentLevel))
      ensures checks == old(checks) + if checkTagTree then [TagCheckOf(t.info.tag, TopTag(dbg.es, old(Slots(indentLevel))))]
                                      else []
      ensures Places(Slots(indentLevel + 1)) == Places(old(Slots(indentLevel))) + [pos]
      ensures stacks == old(stacks) + [Places(Slots(indentLevel + 1))]
    {
      hide *;
      ghost var stack := Slots(indentLevel);
      LiveIs(indentLevel);
      SetEntry(inDie);
      ghost var pushed := dieStack[..indentLevel + 1];
      LiveIs(indentLevel + 1);
      assert dieStack[indentLevel] == pushed[indentLevel] && (stack + [Slot(pos, false)])[..indentLevel] == stack;
      CheckTags(inDie);
      stacks := stacks + [Places(stack + [Slot(pos, false)])];
      PlacesPushed(stack, Slot(pos, false));
      PrintArrived(inDie, t, pos, stack);
      SameDiesSlots(indentLevel + 1, pushed);
    }

    /** The descent into an entry's children, with the entry itself on the stack. */
    method Descend(inDie: nat, ghost rest: seq<Tree>)
      requires Live(indentLevel + 1) && inDie in dbg.places && inDie != 0
      requires ChainAt(dbg.es, dbg.places[inDie], rest) && rest != []
      requires indentLevel + Height(rest) <= DIE_STACK_SIZE
      modifies this, dbg, dieStack
      ensures indentLevel == old(indentLevel) && Live(indentLevel + 1)
      ensures dbg.places == old(dbg.places)
      ensures SameDies(dieStack[..indentLevel + 1], old(dieStack[..indentLevel + 1]))
      ensures var below, inner, pos := rest[0].children, old(Slots(indentLevel + 1)), old(dbg.places[inDie]);
              && Slots(indentLevel + 1) == After(below, inner, mode)
              && output == old(output) + Output(below, pos + 1, indentLevel + 1, inner, mode)
              && checks == old(checks) + (if checkTagTree then TagChecks(below, TopTag(dbg.es, inner)) else [])
              && stacks == old(stacks) + Paths(below, pos + 1, Places(inner))
      decreases SizeAll(rest), 0
    {
      hide *;
      LiveIs(indentLevel + 1);
      ghost var t, pos, before := rest[0], dbg.places[inDie], dbg.places;
      ghost var entries, inner := dieStack[..indentLevel + 1], Slots(indentLevel + 1);
      ChildOfChain(dbg.es, pos, rest);
      ChainSizes(dbg.es, pos, rest);
      HeightParts(rest);
      NothingBelow(pos + 1, indentLevel + 1, inner, mode, TopTag(dbg.es, inner));
      NoPaths(pos + 1, Places(inner));
      SameDiesItself(entries);
      var hasChild, child := dbg.Child(inDie, rest);
      if hasChild {
        AddRemove(before, child, pos + 1);
        SlotsFrame(entries, before, child, pos + 1);
        indentLevel := indentLevel + 1;
        LiveIs(indentLevel);
        PrintDieAndChildren(child, t.children);
        SameDiesAlive(entries, dieStack[..indentLevel], before);
        LiveIs(indentLevel);
        SlotsFrame(dieStack[..indentLevel], before, child, pos + 1);
        indentLevel := indentLevel - 1;
        dbg.Dealloc(child);
      }
      LiveIs(indentLevel + 1);
    }

    /** One entry of the sibling loop, up to the search for its sibling. */
    method VisitDie(inDie: nat, ghost rest: seq<Tree>)
      requires Live(indentLevel) && inDie in dbg.places && inDie != 0
      requires ChainAt(dbg.es, dbg.places[inDie], rest) && rest != []
      requires indentLevel + Height(rest) <= DIE_STACK_SIZE
      modifies this, dbg, dieStack
      ensures indentLevel == old(indentLevel) && Live(indentLevel)
      ensures dbg.places == old(dbg.places)
      ensures SameDies(dieStack[..indentLevel], old(dieStack[..indentLevel]))
      ensures Slots(indentLevel) == Leave(rest[0], old(dbg.places[inDie]), old(Slots(indentLevel)), mode)
      ensures var (lines, inner) := Arrive(rest[0], old(dbg.places[inDie]), old(Slots(indentLevel)), mode);
              output == old(output) + lines
                        + Output(rest[0].children, old(dbg.places[inDie]) + 1, indentLevel + 1, inner, mode)
      ensures checks == old(checks) + if checkTagTree then TagChecks([rest[0]], TopTag(dbg.es, old(Slots(indentLevel))))
                                      else []
      ensures stacks == old(stacks) + Paths([rest[0]], old(dbg.places[inDie]), Places(old(Slots(indentLevel))))
      decreases SizeAll(rest), 1
    {
      hide *;
      LiveIs(indentLevel);
      ghost var t, pos, stack := rest[0], dbg.places[inDie], Slots(indentLevel);
      ghost var pushed := dieStack[..indentLevel] + [StackEntry(inDie, false)];
      ChildOfChain(dbg.es, pos, rest);
      HeightParts(rest);
      Announce(inDie, t, pos);
      ghost var inner, announced := Slots(indentLevel + 1), dieStack[..indentLevel + 1];
      TopOfPath(dbg.es, inner, stack, pos, t);
      EqualUpToFullMarks(t, pos, stack, inner, mode);
      TagChecksSplit([t], TopTag(dbg.es, stack));
      PathsSplit([t], pos, Places(stack));
      Descend(inDie, rest);
      LiveIs(indentLevel + 1);
      SlotsPrefix(dieStack[..indentLevel + 1], dbg.places, indentLevel);
      assert dieStack[..indentLevel] == dieStack[..indentLevel + 1][..indentLevel];
      LiveIs(indentLevel);
      SameDiesChain(dieStack[..indentLevel + 1], announced, pushed);
      SameDiesPrefix(dieStack[..indentLevel + 1], pushed, indentLevel);
      assert pushed[..indentLevel] == old(dieStack[..indentLevel]);
    }

    /** The end of the loop's body: the sibling's handle is obtained, the stack entry emptied, and the
        current handle released unless it is the caller's. */
    method MoveOn(inDie: nat, inDieIn: nat, ghost rest: seq<Tree>, ghost before: map<nat, nat>)
      returns (more: bool, sibling: nat)
      requires Live(indentLevel) && indentLevel < DIE_STACK_SIZE
      requires Holding(dbg, inDie, inDieIn, before) && inDieIn in before && Alive(dieStack[..indentLevel], before)
      requires ChainAt(dbg.es, dbg.places[inDie], rest) && rest != []
      modifies dbg, dieStack
      ensures Live(indentLevel) && dieStack[..indentLevel] == old(dieStack[..indentLevel])
      ensures Slots(indentLevel) == old(Slots(indentLevel))
      ensures more <==> |rest| > 1
      ensures !more ==> dbg.places == before
      ensures more ==> Holding(dbg, sibling, inDieIn, before) && sibling != inDieIn && sibling in dbg.places
                       && dbg.places[sibling] == old(dbg.places[inDie]) + Size(rest[0])
                       && ChainAt(dbg.es, dbg.places[sibling], rest[1..])
    {
      hide Size, SizeAll, LaidOut, ChainAt, SlotsOf, Alive;
      ghost var pos, now := dbg.places[inDie], dieStack[..indentLevel];
      if inDie != inDieIn {
        SlotsFrame(now, before, inDie, pos);
        AddRemove(before, inDie, pos);
      }
      more, sibling := dbg.Sibling(inDie, rest);
      if more {
        SlotsFrame(now, before, sibling, pos + Size(rest[0]));
        RemoveEarlier(before, inDie, pos, sibling, pos + Size(rest[0]));
      }
      dieStack[indentLevel] := StackEntry(0, false);
      assert dieStack[..indentLevel] == now;
      if inDie != inDieIn {
        dbg.Dealloc(inDie);
      }
    }

    /** print_die_and_children: it leaves its argument live and releases every handle it obtained. */
    method PrintDieAndChildren(inDieIn: nat, ghost ts: seq<Tree>)
      requires Live(indentLevel) && inDieIn in dbg.places && inDieIn != 0
      requires ChainAt(dbg.es, dbg.places[inDieIn], ts) && ts != []
      requires indentLevel + Height(ts) <= DIE_STACK_SIZE
      modifies this, dbg, dieStack
      ensures indentLevel == old(indentLevel) && Live(indentLevel)
      ensures dbg.places == old(dbg.places)
      ensures SameDies(dieStack[..indentLevel], old(dieStack[..indentLevel]))
      ensures Slots(indentLevel) == After(ts, old(Slots(indentLevel)), mode)
      ensures output == old(output) + Output(ts, old(dbg.places[inDieIn]), indentLevel, old(Slots(indentLevel)), mode)
      ensures checks == old(checks) + if checkTagTree then TagChecks(ts, TopTag(dbg.es, old(Slots(indentLevel)))) else []
      ensures stacks == old(stacks) + Paths(ts, old(dbg.places[inDieIn]), Places(old(Slots(indentLevel))))
      decreases SizeAll(ts), 2
    {
      hide *;
      LiveIs(indentLevel);
      SameDiesItself(dieStack[..indentLevel]);
      HoldingIs(dbg, inDieIn, inDieIn, dbg.places);
      var inDie := inDieIn;
      ghost var rest, before, first := ts, dbg.places, dbg.places[inDieIn];
      ghost var entries := dieStack[..indentLevel];
      ghost var parent, path := TopTag(dbg.es, Slots(indentLevel)), Places(Slots(indentLevel));
      while true
        invariant indentLevel == old(indentLevel) && Live(indentLevel) && Holding(dbg, inDie, inDieIn, before)
        invariant inDie in dbg.places && rest != [] && ChainAt(dbg.es, dbg.places[inDie], rest)
        invariant SizeAll(rest) <= SizeAll(ts) && Height(rest) <= Height(ts)
        invariant SameDies(dieStack[..indentLevel], entries) && Alive(entries, before)
        invariant output + Output(rest, dbg.places[inDie], indentLevel, Slots(indentLevel), mode)
                  == old(output) + Output(ts, first, indentLevel, old(Slots(indentLevel)), mode)
        invariant After(rest, Slots(indentLevel), mode) == After(ts, old(Slots(indentLevel)), mode)
        invariant TopTag(dbg.es, Slots(indentLevel)) == parent && Places(Slots(indentLevel)) == path
        invariant checkTagTree ==> checks + TagChecks(rest, parent) == old(checks) + TagChecks(ts, parent)
        invariant !checkTagTree ==> checks == old(checks)
        invariant stacks + Paths(rest, dbg.places[inDie], path) == old(stacks) + Paths(ts, first, path)
        decreases SizeAll(rest)
      {
        HoldingIs(dbg, inDie, inDieIn, before);
        ghost var pos, stack := dbg.places[inDie], Slots(indentLevel);
        Turn(rest, pos, stack, mode);
        ChainSizes(dbg.es, pos, rest);
        HeightParts(rest);
        TagChecksSplit(rest, parent);
        PathsSplit(rest, pos, path);
        ghost var was := dieStack[..indentLevel];
        VisitDie(inDie, rest);
        HoldingIs(dbg, inDie, inDieIn, before);
        SameDiesChain(dieStack[..indentLevel], was, entries);
        SamePlaces(dbg.es, stack, Slots(indentLevel));
        PlacesKept(stack, Slots(indentLevel));
        SameDiesAlive(entries, dieStack[..indentLevel], before);
        NothingBelow(pos + Size(rest[0]), indentLevel, Slots(indentLevel), mode, parent);
        var more, sibling := MoveOn(inDie, inDieIn, rest, before);
        rest := rest[1..];
        if !more {
          break;
        }
        inDie := sibling;
      }
    }
  }

  lemma NoPaths(pos: nat, path: seq<nat>)
    ensures Paths([], pos, path) == []
  {
  }

  lemma SameDiesItself(entries: seq<StackEntry>)
    ensures SameDies(entries, entries)
  {
  }

  lemma SameDiesPrefix(a: seq<StackEntry>, b: seq<StackEntry>, n: nat)
    requires SameDies(a, b) && n <= |a|
    ensures n <= |b| && SameDies(a[..n], b[..n])
  {
  }

  lemma SameDiesChain(a: seq<StackEntry>, b: seq<StackEntry>, c: seq<StackEntry>)
    requires SameDies(a, b) && SameDies(b, c)
    ensures SameDies(a, c)
  {
  }

  /** The entry on top of a stack that follows its path. */
  lemma TopOfPath(es: seq<Entry>, inner: seq<Slot>, stack: seq<Slot>, pos: nat, t: Tree)
    requires Places(inner) == Places(stack) + [pos] && pos < |es| && es[pos].Die? && es[pos].info == t.info
    ensures TopTag(es, inner) == [t.info.tag] && |inner| == |stack| + 1
  {
    assert Places(inner)[|stack|] == pos;
  }

  lemma HeightParts(ts: seq<Tree>)
    requires ts != []
    ensures Height(ts) >= 1 + Height(ts[0].children) && Height(ts) >= Height(ts[1..])
  {
  }

  /** When everything is printed the marks do not matter. */
  lemma EqualUpToFullMarks(t: Tree, pos: nat, stack: seq<Slot>, inner: seq<Slot>, mode: Mode)
    requires !mode.Full? ==> inner == Arrive(t, pos, stack, mode).1
    requires mode.Full? ==> |inner| == |stack| + 1 && inner[..|stack|] == stack
    ensures Output(t.children, pos + 1, |stack| + 1, inner, mode)
            == Output(t.children, pos + 1, |stack| + 1, Arrive(t, pos, stack, mode).1, mode)
    ensures After(t.children, inner, mode)[..|stack|] == Leave(t, pos, stack, mode)
  {
  }

  /** A whole unit: the same listing, checks and stacks as with holders, and at the end no handle is live and
      each one that was given out has been released exactly once. */
  method PrintUnit(es: seq<Entry>, mode: Mode, checkTagTree: bool, ghost unit: Tree)
    returns (output: seq<Line>, checks: seq<TagCheck>, ghost stacks: seq<seq<nat>>, dbg: Debug)
    requires ChainAt(es, 0, [unit]) && Height([unit]) <= DIE_STACK_SIZE
    ensures output == UnitListing(unit, mode)
    ensures checks == if checkTagTree then TagChecks([unit], []) else []
    ensures stacks == Paths([unit], 0, [])
    ensures dbg.places == map[] && forall h :: 1 <= h < dbg.nextHandle ==> multiset(dbg.released)[h] == 1
  {
    hide Height, Closure, TagChecks, Paths, LaidOut;
    LaidOutFirst(es, 0, [unit]);
    dbg := new Debug(es);
    var cuDie := dbg.Alloc(0);
    var printer := new Printer(dbg, mode, checkTagTree);
    printer.PrintDieAndChildren(cuDie, [unit]);
    OutputOfUnit(unit, mode);
    output, checks, stacks := printer.output, printer.checks, printer.stacks;
    dbg.Dealloc(cuDie);
    forall h | 1 <= h < dbg.nextHandle
      ensures multiset(dbg.released)[h] == 1
    {
      ReleasedOnce(dbg, 1, h);
    }
  }
}
