/** The ancestor stack of a walk, with its already-printed marks, and what the walk over a
    chain of siblings prints and leaves on the stack, given the stack it starts with. */
module DieStack {
  import opened DieTree
  import opened DieListing

  /** A stack slot: an entry, and whether its line is out already. */
  datatype Slot = Slot(pos: nat, printed: bool)

  function Mark(s: Slot): Slot { s.(printed := true) }

  function Marked(stack: seq<Slot>): (marked: seq<Slot>)
    ensures |marked| == |stack|
    ensures forall i :: 0 <= i < |stack| ==> marked[i] == Mark(stack[i])
  {
    seq(|stack|, i requires 0 <= i < |stack| => Mark(stack[i]))
  }

  /** The lines the stack still owes, outermost first. */
  function Unprinted(stack: seq<Slot>): seq<Line> {
    if stack == [] then []
    else
      var top := stack[|stack| - 1];
      Unprinted(stack[..|stack| - 1]) + if top.printed then [] else [Line(top.pos, |stack| - 1)]
  }

  /** Printing everything, or searching with a match test. */
  datatype Mode = Full | Search(m: Info -> bool)

  /** A match brings out the ancestors that are not out yet, then itself. */
  function Output(ts: seq<Tree>, pos: nat, level: nat, stack: seq<Slot>, mode: Mode): seq<Line> {
    match mode
    case Full => Closure(ts, pos, level, EVERYTHING)
    case Search(m) => if AnyMatch(ts, m) then Unprinted(stack) + Closure(ts, pos, level, m) else []
  }

  function After(ts: seq<Tree>, stack: seq<Slot>, mode: Mode): (after: seq<Slot>)
    ensures |after| == |stack| && forall i :: 0 <= i < |stack| ==> after[i].pos == stack[i].pos
  {
    if mode.Search? && AnyMatch(ts, mode.m) then Marked(stack) else stack
  }

  /** What the walk prints for an entry before it descends, and the stack it descends with. */
  function Arrive(t: Tree, pos: nat, stack: seq<Slot>, mode: Mode): (seq<Line>, seq<Slot>) {
    var pushed := stack + [Slot(pos, false)];
    match mode
    case Full => ([Line(pos, |stack|)], pushed)
    case Search(m) => if m(t.info) then (Unprinted(pushed), Marked(pushed)) else ([], pushed)
  }

  /** The stack once the entry's descendants are done and it is popped. */
  function Leave(t: Tree, pos: nat, stack: seq<Slot>, mode: Mode): seq<Slot> {
    After(t.children, Arrive(t, pos, stack, mode).1, mode)[..|stack|]
  }

  lemma {:induction false} MarkedOwesNothing(stack: seq<Slot>)
    ensures Unprinted(Marked(stack)) == []
  {
    if stack != [] {
      MarkedOwesNothing(stack[..|stack| - 1]);
      assert Marked(stack)[..|stack| - 1] == Marked(stack[..|stack| - 1]);
    }
  }

  lemma UnprintedPushed(stack: seq<Slot>, s: Slot)
    ensures Unprinted(stack + [s]) == Unprinted(stack) + if s.printed then [] else [Line(s.pos, |stack|)]
  {
    assert (stack + [s])[..|stack|] == stack;
  }

  /** A match outside a list of unmatched children: nothing below, so nothing printed. */
  lemma {:induction false} NoMatchNoClosure(ts: seq<Tree>, pos: nat, level: nat, m: Info -> bool)
    requires !AnyMatch(ts, m)
    ensures Closure(ts, pos, level, m) == []
    decreases ts
  {
    if ts != [] {
      NoMatchNoClosure(ts[1..], pos + Size(ts[0]), level, m);
    }
  }

  /** One turn of the sibling loop: the entry, its descendants, then the siblings behind it. */
  lemma Turn(ts: seq<Tree>, pos: nat, stack: seq<Slot>, mode: Mode)
    requires ts != []
    ensures var t, level := ts[0], |stack|;
            var (lines, inner) := Arrive(t, pos, stack, mode);
            var left := Leave(t, pos, stack, mode);
            && Output(ts, pos, level, stack, mode)
               == lines + Output(t.children, pos + 1, level + 1, inner, mode)
                  + Output(ts[1..], pos + Size(t), level, left, mode)
            && After(ts, stack, mode) == After(ts[1..], left, mode)
            && |left| == |stack| && forall i :: 0 <= i < |stack| ==> left[i].pos == stack[i].pos
  {
    var t, level := ts[0], |stack|;
    var pushed := stack + [Slot(pos, false)];
    assert pushed[..|stack|] == stack && Marked(pushed)[..|stack|] == Marked(stack);
    if mode.Search? {
      TurnOfSearch(ts, pos, stack, mode.m);
    }
  }

  /** The stack left behind by an entry is marked exactly when something in its subtree matches. */
  lemma LeftBySearch(t: Tree, pos: nat, stack: seq<Slot>, m: Info -> bool)
    ensures Leave(t, pos, stack, Search(m)) == if TreeMatches(t, m) then Marked(stack) else stack
  {
    var pushed := stack + [Slot(pos, false)];
    assert pushed[..|stack|] == stack && Marked(pushed)[..|stack|] == Marked(stack);
    assert Marked(Marked(pushed)) == Marked(pushed);
  }

  /** An entry and its descendants bring out what the stack owes, themselves, and the closure below. */
  lemma SubtreeOutput(t: Tree, pos: nat, stack: seq<Slot>, m: Info -> bool)
    ensures var (lines, inner) := Arrive(t, pos, stack, Search(m));
            var below := Closure(t.children, pos + 1, |stack| + 1, m);
            lines + Output(t.children, pos + 1, |stack| + 1, inner, Search(m))
            == if TreeMatches(t, m) then Unprinted(stack) + [Line(pos, |stack|)] + below else []
  {
    var pushed, line := stack + [Slot(pos, false)], [Line(pos, |stack|)];
    var below := Closure(t.children, pos + 1, |stack| + 1, m);
    MarkedOwesNothing(pushed);
    UnprintedPushed(stack, Slot(pos, false));
    if !AnyMatch(t.children, m) { NoMatchNoClosure(t.children, pos + 1, |stack| + 1, m); }
    hide Closure, Unprinted, Marked;
    assert [] + below == below;
    assert [] + (Unprinted(stack) + line + below) == Unprinted(stack) + line + below;
    assert Unprinted(stack) + line + [] == Unprinted(stack) + line;
  }

  lemma TurnOfSearch(ts: seq<Tree>, pos: nat, stack: seq<Slot>, m: Info -> bool)
    requires ts != []
    ensures var t, level, mode := ts[0], |stack|, Search(m);
            var (lines, inner) := Arrive(t, pos, stack, mode);
            var left := Leave(t, pos, stack, mode);
            && Output(ts, pos, level, stack, mode)
               == lines + Output(t.children, pos + 1, level + 1, inner, mode)
                  + Output(ts[1..], pos + Size(t), level, left, mode)
            && left == (if TreeMatches(t, m) then Marked(stack) else stack)
            && After(ts, stack, mode) == After(ts[1..], left, mode)
  {
    hide *;
    var t, level, mode := ts[0], |stack|, Search(m);
    var left := Leave(t, pos, stack, mode);
    LeftBySearch(t, pos, stack, m);
    SubtreeOutput(t, pos, stack, m);
    SearchOutput(ts, pos, stack, m);
    SearchOutput(ts[1..], pos + Size(t), left, m);
    MarkedOwesNothing(stack);
    ClosureStep(ts, pos, level, m);
    MatchParts(ts, m);
    if TreeMatches(t, m) {
      var below, behind := Closure(t.children, pos + 1, level + 1, m), Closure(ts[1..], pos + Size(t), level, m);
      assert Unprinted(stack) + ([Line(pos, level)] + below + behind)
          == (Unprinted(stack) + [Line(pos, level)] + below) + behind;
    } else {
      assert Output(ts, pos, level, stack, mode) == [] + Output(ts[1..], pos + Size(t), level, left, mode);
    }
  }

  lemma SearchOutput(ts: seq<Tree>, pos: nat, stack: seq<Slot>, m: Info -> bool)
    ensures Output(ts, pos, |stack|, stack, Search(m))
            == if AnyMatch(ts, m) then Unprinted(stack) + Closure(ts, pos, |stack|, m) else []
    ensures After(ts, stack, Search(m)) == if AnyMatch(ts, m) then Marked(stack) else stack
    ensures Unprinted(stack) == [] ==> Output(ts, pos, |stack|, stack, Search(m)) == Closure(ts, pos, |stack|, m)
    ensures Marked(Marked(stack)) == Marked(stack)
  {
    if !AnyMatch(ts, m) { NoMatchNoClosure(ts, pos, |stack|, m); }
    assert [] + Closure(ts, pos, |stack|, m) == Closure(ts, pos, |stack|, m);
  }

  lemma MatchParts(ts: seq<Tree>, m: Info -> bool)
    requires ts != []
    ensures TreeMatches(ts[0], m) <==> m(ts[0].info) || AnyMatch(ts[0].children, m)
    ensures AnyMatch(ts, m) <==> TreeMatches(ts[0], m) || AnyMatch(ts[1..], m)
  {
  }

  // ----- the tag checks made along the way

  datatype TagCheck = RootTag(tag: nat) | ChildTag(parent: nat, child: nat)

  /** One check per entry, in preorder: of the root's tag, or of the pair parent and child. */
  function TagChecks(ts: seq<Tree>, parent: seq<nat>): seq<TagCheck> {
    if ts == [] then []
    else
      [TagCheckOf(ts[0].info.tag, parent)] + TagChecks(ts[0].children, [ts[0].info.tag]) + TagChecks(ts[1..], parent)
  }

  function TagCheckOf(tag: nat, parent: seq<nat>): TagCheck {
    if parent == [] then RootTag(tag) else ChildTag(parent[0], tag)
  }

  /** The tag on top of the stack: the parent's, unless the stack is empty. */
  function TopTag(es: seq<Entry>, stack: seq<Slot>): seq<nat> {
    if stack == [] then []
    else
      var pos := stack[|stack| - 1].pos;
      if pos < |es| && es[pos].Die? then [es[pos].info.tag] else []
  }

  /** Every slot names an entry of the section. */
  predicate OnEntries(es: seq<Entry>, stack: seq<Slot>) {
    forall i :: 0 <= i < |stack| ==> stack[i].pos < |es| && es[stack[i].pos].Die?
  }

  lemma TagChecksSplit(ts: seq<Tree>, parent: seq<nat>)
    requires ts != []
    ensures TagChecks(ts, parent) == TagChecks([ts[0]], parent) + TagChecks(ts[1..], parent)
    ensures TagChecks([ts[0]], parent)
            == [TagCheckOf(ts[0].info.tag, parent)] + TagChecks(ts[0].children, [ts[0].info.tag])
  {
    var below := TagChecks(ts[0].children, [ts[0].info.tag]);
    assert [ts[0]][1..] == [] && TagChecks([], parent) == [];
    assert [TagCheckOf(ts[0].info.tag, parent)] + below + [] == [TagCheckOf(ts[0].info.tag, parent)] + below;
  }

  // ----- the stack as the chain of ancestors

  function Places(stack: seq<Slot>): (places: seq<nat>)
    ensures |places| == |stack| && forall i :: 0 <= i < |stack| ==> places[i] == stack[i].pos
  {
    seq(|stack|, i requires 0 <= i < |stack| => stack[i].pos)
  }

  lemma PlacesPushed(stack: seq<Slot>, s: Slot)
    ensures Places(stack + [s]) == Places(stack) + [s.pos]
  {
  }

  lemma PlacesKept(a: seq<Slot>, b: seq<Slot>)
    requires |a| == |b| && forall i :: 0 <= i < |a| ==> a[i].pos == b[i].pos
    ensures Places(a) == Places(b)
  {
  }

  lemma PathsSplit(ts: seq<Tree>, pos: nat, path: seq<nat>)
    requires ts != []
    ensures Paths(ts, pos, path) == Paths([ts[0]], pos, path) + Paths(ts[1..], pos + Size(ts[0]), path)
    ensures Paths([ts[0]], pos, path) == [path + [pos]] + Paths(ts[0].children, pos + 1, path + [pos])
    ensures Paths([], pos + 1, path + [pos]) == [] && Paths([], pos + Size(ts[0]), path) == []
  {
    var below := Paths(ts[0].children, pos + 1, path + [pos]);
    assert [ts[0]][1..] == [] && Paths([], pos + Size(ts[0]), path) == [];
    assert [path + [pos]] + below + [] == [path + [pos]] + below;
  }

  lemma NothingBelow(pos: nat, level: nat, stack: seq<Slot>, mode: Mode, parent: seq<nat>)
    ensures Output([], pos, level, stack, mode) == [] && After([], stack, mode) == stack && TagChecks([], parent) == []
  {
  }

  /** Marks do not change which entries a stack names. */
  lemma SamePlaces(es: seq<Entry>, a: seq<Slot>, b: seq<Slot>)
    requires |a| == |b| && forall i :: 0 <= i < |a| ==> a[i].pos == b[i].pos
    ensures OnEntries(es, a) == OnEntries(es, b) && TopTag(es, a) == TopTag(es, b)
  {
  }

  lemma PushedPlaces(es: seq<Entry>, stack: seq<Slot>, pos: nat)
    requires OnEntries(es, stack) && pos < |es| && es[pos].Die?
    ensures OnEntries(es, stack + [Slot(pos, false)]) && TopTag(es, stack + [Slot(pos, false)]) == [es[pos].info.tag]
  {
  }

  lemma ArriveCases(t: Tree, pos: nat, stack: seq<Slot>, mode: Mode)
    ensures var pushed := stack + [Slot(pos, false)];
            Arrive(t, pos, stack, mode)
            == if mode.Full? then ([Line(pos, |stack|)], pushed)
               else if mode.m(t.info) then (Unprinted(pushed), Marked(pushed)) else ([], pushed)
    ensures var pushed, inner := stack + [Slot(pos, false)], Arrive(t, pos, stack, mode).1;
            |inner| == |pushed| && forall i :: 0 <= i < |pushed| ==> inner[i].pos == pushed[i].pos
    ensures Leave(t, pos, stack, mode) == After(t.children, Arrive(t, pos, stack, mode).1, mode)[..|stack|]
  {
  }

  /** The entries a listing is about: all of them, or the ones a search matches. */
  function Wanted(mode: Mode): Info -> bool {
    match mode
    case Full => EVERYTHING
    case Search(m) => m
  }

  /** What a walk prints for a whole unit. */
  function UnitListing(unit: Tree, mode: Mode): seq<Line> {
    Closure([unit], 0, 0, Wanted(mode))
  }

  lemma OutputOfUnit(unit: Tree, mode: Mode)
    ensures Output([unit], 0, 0, [], mode) == UnitListing(unit, mode)
  {
    if mode.Search? {
      SearchOutput([unit], 0, [], mode.m);
    }
  }

  /** For every unit and every match test, a search lists exactly the entries that match or have a
      match among their descendants, each once, in preorder, at its depth; a full listing lists all. */
  lemma UnitListingIsExact(unit: Tree, mode: Mode)
    requires unit.WellFormed()
    ensures Increasing(UnitListing(unit, mode))
    ensures forall line :: line in UnitListing(unit, mode) <==>
              exists a, d :: a in Preorder([unit], 0, 0) && d in Preorder([unit], 0, 0)
                             && line == Line(a.pos, a.level) && Within(d, a) && Wanted(mode)(d.tree.info)
  {
    ClosureIsAncestorClosure([unit], 0, 0, Wanted(mode));
  }
}
