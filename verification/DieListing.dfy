/** What a walk over .debug_info should print: every entry in preorder, or, when searching,
    the matching entries with all their ancestors. */
module DieListing {
  import opened DieTree

  datatype Line = Line(pos: nat, level: nat)

  /** An entry of the tree with its place in the section and its depth. */
  datatype Node = Node(pos: nat, level: nat, tree: Tree)

  /** All entries of a chain in preorder. */
  function Preorder(ts: seq<Tree>, pos: nat, level: nat): seq<Node> {
    if ts == [] then []
    else
      [Node(pos, level, ts[0])] + Preorder(ts[0].children, pos + 1, level + 1)
      + Preorder(ts[1..], pos + Size(ts[0]), level)
  }

  /** Some entry of the chain matches. */
  predicate AnyMatch(ts: seq<Tree>, m: Info -> bool) {
    ts != [] && (TreeMatches(ts[0], m) || AnyMatch(ts[1..], m))
  }

  predicate TreeMatches(t: Tree, m: Info -> bool) {
    m(t.info) || AnyMatch(t.children, m)
  }

  /** The test every entry passes: listing with it lists the whole tree. */
  const EVERYTHING: Info -> bool := info => true

  /** The entries that match or have a matching descendant. */
  function Closure(ts: seq<Tree>, pos: nat, level: nat, m: Info -> bool): seq<Line> {
    if ts == [] then []
    else
      var behind := Closure(ts[1..], pos + Size(ts[0]), level, m);
      if TreeMatches(ts[0], m) then [Line(pos, level)] + Closure(ts[0].children, pos + 1, level + 1, m) + behind
      else behind
  }

  // ----- the closure, said without recursion

  /** d is a or one of its descendants: it lies in the stretch of the section that a takes. */
  predicate Within(d: Node, a: Node) { a.pos <= d.pos < a.pos + Size(a.tree) }

  predicate Increasing(lines: seq<Line>) {
    forall i, j :: 0 <= i < j < |lines| ==> lines[i].pos < lines[j].pos
  }

  ghost predicate Inside(lines: seq<Line>, from: nat, to: nat) {
    forall i :: 0 <= i < |lines| ==> from <= lines[i].pos < to
  }

  lemma JoinIncreasing(a: seq<Line>, b: seq<Line>, from: nat, mid: nat, to: nat)
    requires from <= mid <= to
    requires Increasing(a) && Inside(a, from, mid) && Increasing(b) && Inside(b, mid, to)
    ensures Increasing(a + b) && Inside(a + b, from, to)
  {
  }

  /** An entry, its descendants and what follows it, in this order. */
  lemma JoinSubtree(pos: nat, level: nat, below: seq<Line>, behind: seq<Line>, inner: nat, size: nat, to: nat)
    requires inner < size && pos + size <= to
    requires Increasing(below) && Inside(below, pos + 1, pos + 1 + inner)
    requires Increasing(behind) && Inside(behind, pos + size, to)
    ensures Increasing([Line(pos, level)] + below + behind) && Inside([Line(pos, level)] + below + behind, pos, to)
  {
    assert Inside(below, pos + 1, pos + size);
    JoinIncreasing([Line(pos, level)], below, pos, pos + 1, pos + size);
    JoinIncreasing([Line(pos, level)] + below, behind, pos, pos + size, to);
  }

  lemma {:induction false} ClosureIncreasing(ts: seq<Tree>, pos: nat, level: nat, m: Info -> bool)
    requires AllWellFormed(ts)
    ensures Increasing(Closure(ts, pos, level, m))
    ensures Inside(Closure(ts, pos, level, m), pos, pos + SizeAll(ts))
    decreases SizeAll(ts)
  {
    hide *;
    if ts == [] {
      NoLines(pos, level, m);
    } else {
      var t, to := ts[0], pos + SizeAll(ts);
      FirstAndRest(ts);
      ClosureIncreasing(t.children, pos + 1, level + 1, m);
      ClosureIncreasing(ts[1..], pos + Size(t), level, m);
      var below, behind := Closure(t.children, pos + 1, level + 1, m), Closure(ts[1..], pos + Size(t), level, m);
      ClosureStep(ts, pos, level, m);
      JoinSubtree(pos, level, below, behind, SizeAll(t.children), Size(t), to);
      Widen(behind, pos + Size(t), pos, to);
    }
  }

  lemma NoLines(pos: nat, level: nat, m: Info -> bool)
    ensures Increasing(Closure([], pos, level, m)) && Inside(Closure([], pos, level, m), pos, pos + SizeAll([]))
  {
  }

  lemma ClosureStep(ts: seq<Tree>, pos: nat, level: nat, m: Info -> bool)
    requires ts != []
    ensures var behind := Closure(ts[1..], pos + Size(ts[0]), level, m);
            Closure(ts, pos, level, m)
            == if TreeMatches(ts[0], m)
               then [Line(pos, level)] + Closure(ts[0].children, pos + 1, level + 1, m) + behind
               else behind
  {
  }

  lemma Widen(lines: seq<Line>, from: nat, wider: nat, to: nat)
    requires wider <= from && Inside(lines, from, to)
    ensures Inside(lines, wider, to)
  {
  }

  lemma InPreorder(ts: seq<Tree>, pos: nat, level: nat, d: Node)
    requires ts != []
    ensures d in Preorder(ts, pos, level) <==>
            || d == Node(pos, level, ts[0])
            || d in Preorder(ts[0].children, pos + 1, level + 1)
            || d in Preorder(ts[1..], pos + Size(ts[0]), level)
  {
  }

  /** A chain has a match exactly when one of its entries matches. */
  lemma {:induction false} AnyMatchNode(ts: seq<Tree>, pos: nat, level: nat, m: Info -> bool)
    ensures AnyMatch(ts, m) <==> exists d :: d in Preorder(ts, pos, level) && m(d.tree.info)
  {
    if ts != [] {
      AnyMatchNode(ts[0].children, pos + 1, level + 1, m);
      AnyMatchNode(ts[1..], pos + Size(ts[0]), level, m);
      hide Preorder;
      forall d { InPreorder(ts, pos, level, d); }
      if m(ts[0].info) {
        assert Node(pos, level, ts[0]) in Preorder(ts, pos, level);
      }
    }
  }

  /** Every node's subtree holds exactly the nodes within its stretch of the section. */
  lemma {:induction false} NodesWithin(ts: seq<Tree>, pos: nat, level: nat, a: Node, d: Node)
    requires AllWellFormed(ts)
    requires a in Preorder(ts, pos, level) && d in Preorder(ts, pos, level)
    ensures Within(d, a) <==> d == a || d in Preorder(a.tree.children, a.pos + 1, a.level + 1)
    decreases SizeAll(ts)
  {
    hide Preorder;
    if ts == [] {
      NoNodes(pos, level, a);
    } else {
      var t := ts[0];
      FirstAndRest(ts);
      InPreorder(ts, pos, level, a);
      InPreorder(ts, pos, level, d);
      PlaceOf(t.children, pos + 1, level + 1, d);
      PlaceOf(ts[1..], pos + Size(t), level, d);
      PlaceOf(a.tree.children, a.pos + 1, a.level + 1, d);
      if a in Preorder(t.children, pos + 1, level + 1) {
        SubtreeInside(t.children, pos + 1, level + 1, a);
        if d in Preorder(t.children, pos + 1, level + 1) {
          NodesWithin(t.children, pos + 1, level + 1, a, d);
        }
      } else if a in Preorder(ts[1..], pos + Size(t), level) {
        SubtreeInside(ts[1..], pos + Size(t), level, a);
        if d in Preorder(ts[1..], pos + Size(t), level) {
          NodesWithin(ts[1..], pos + Size(t), level, a, d);
        }
      }
    }
  }

  lemma NoNodes(pos: nat, level: nat, a: Node)
    ensures a !in Preorder([], pos, level)
  {
  }

  /** Nodes of a chain lie in its stretch. */
  lemma PlaceOf(ts: seq<Tree>, pos: nat, level: nat, d: Node)
    ensures AllWellFormed(ts) && d in Preorder(ts, pos, level) ==> pos <= d.pos < pos + SizeAll(ts)
  {
    if AllWellFormed(ts) && d in Preorder(ts, pos, level) {
      SubtreeInside(ts, pos, level, d);
    }
  }

  /** ... and so do their subtrees. */
  lemma {:induction false} SubtreeInside(ts: seq<Tree>, pos: nat, level: nat, a: Node)
    requires AllWellFormed(ts) && a in Preorder(ts, pos, level)
    ensures a.tree.WellFormed() && AllWellFormed(a.tree.children)
    ensures pos <= a.pos && a.pos + Size(a.tree) <= pos + SizeAll(ts)
    ensures a.tree.children != [] ==> Size(a.tree) == SizeAll(a.tree.children) + 2
  {
    var t := ts[0];
    FirstAndRest(ts);
    if a in Preorder(t.children, pos + 1, level + 1) {
      SubtreeInside(t.children, pos + 1, level + 1, a);
    } else if a in Preorder(ts[1..], pos + Size(t), level) {
      SubtreeInside(ts[1..], pos + Size(t), level, a);
    }
  }

  /** The line is that of an entry with a match in its subtree. */
  ghost predicate Covers(ts: seq<Tree>, pos: nat, level: nat, m: Info -> bool, line: Line) {
    exists a :: a in Preorder(ts, pos, level) && line == Line(a.pos, a.level) && TreeMatches(a.tree, m)
  }

  lemma CoversStep(ts: seq<Tree>, pos: nat, level: nat, m: Info -> bool, line: Line)
    requires ts != []
    ensures Covers(ts, pos, level, m, line) <==>
            || (line == Line(pos, level) && TreeMatches(ts[0], m))
            || Covers(ts[0].children, pos + 1, level + 1, m, line)
            || Covers(ts[1..], pos + Size(ts[0]), level, m, line)
  {
    hide Preorder, TreeMatches;
    forall d { InPreorder(ts, pos, level, d); }
    if line == Line(pos, level) && TreeMatches(ts[0], m) {
      assert Node(pos, level, ts[0]) in Preorder(ts, pos, level);
    }
  }

  lemma CoveredMatches(t: Tree, pos: nat, level: nat, m: Info -> bool, line: Line)
    requires Covers(t.children, pos, level, m, line)
    ensures TreeMatches(t, m)
  {
    hide Preorder;
    var a :| a in Preorder(t.children, pos, level) && line == Line(a.pos, a.level) && TreeMatches(a.tree, m);
    MatchBelow(t.children, pos, level, a, m);
  }

  lemma InClosure(ts: seq<Tree>, pos: nat, level: nat, m: Info -> bool, line: Line)
    requires ts != []
    ensures line in Closure(ts, pos, level, m) <==>
            || (TreeMatches(ts[0], m) && (line == Line(pos, level)
                                          || line in Closure(ts[0].children, pos + 1, level + 1, m)))
            || line in Closure(ts[1..], pos + Size(ts[0]), level, m)
  {
    hide TreeMatches;
  }

  lemma NothingCovered(pos: nat, level: nat, m: Info -> bool, line: Line)
    ensures !Covers([], pos, level, m, line) && line !in Closure([], pos, level, m)
  {
  }

  /** A line is in the closure exactly when it is an entry with a match in its subtree. */
  lemma {:induction false} ClosureMembers(ts: seq<Tree>, pos: nat, level: nat, m: Info -> bool, line: Line)
    ensures line in Closure(ts, pos, level, m) <==> Covers(ts, pos, level, m, line)
  {
    NothingCovered(pos, level, m, line);
    if ts != [] {
      hide *;
      var t := ts[0];
      ClosureMembers(t.children, pos + 1, level + 1, m, line);
      ClosureMembers(ts[1..], pos + Size(t), level, m, line);
      CoversStep(ts, pos, level, m, line);
      InClosure(ts, pos, level, m, line);
      if Covers(t.children, pos + 1, level + 1, m, line) {
        CoveredMatches(t, pos + 1, level + 1, m, line);
      }
    }
  }

  lemma {:induction false} MatchBelow(ts: seq<Tree>, pos: nat, level: nat, a: Node, m: Info -> bool)
    requires a in Preorder(ts, pos, level) && TreeMatches(a.tree, m)
    ensures AnyMatch(ts, m)
  {
    if a in Preorder(ts[0].children, pos + 1, level + 1) {
      MatchBelow(ts[0].children, pos + 1, level + 1, a, m);
    } else if a in Preorder(ts[1..], pos + Size(ts[0]), level) {
      MatchBelow(ts[1..], pos + Size(ts[0]), level, a, m);
    }
  }

  /** The search listing, for every tree and every match test: exactly the entries that match or
      have a matching entry within them, in the order of the section, each once, at its depth. */
  lemma ClosureIsAncestorClosure(ts: seq<Tree>, pos: nat, level: nat, m: Info -> bool)
    requires AllWellFormed(ts)
    ensures Increasing(Closure(ts, pos, level, m))
    ensures forall line :: line in Closure(ts, pos, level, m) <==>
              exists a, d :: a in Preorder(ts, pos, level) && d in Preorder(ts, pos, level)
                             && line == Line(a.pos, a.level) && Within(d, a) && m(d.tree.info)
  {
    ClosureIncreasing(ts, pos, level, m);
    var all := Preorder(ts, pos, level);
    forall line
      ensures line in Closure(ts, pos, level, m) <==>
              exists a, d :: a in all && d in all && line == Line(a.pos, a.level) && Within(d, a) && m(d.tree.info)
    {
      ClosureMembers(ts, pos, level, m, line);
      forall a | a in all && line == Line(a.pos, a.level)
        ensures TreeMatches(a.tree, m) <==> exists d :: d in all && Within(d, a) && m(d.tree.info)
      {
        MatchWithin(ts, pos, level, m, a);
      }
    }
  }

  lemma MatchWithin(ts: seq<Tree>, pos: nat, level: nat, m: Info -> bool, a: Node)
    requires AllWellFormed(ts) && a in Preorder(ts, pos, level)
    ensures TreeMatches(a.tree, m) <==> exists d :: d in Preorder(ts, pos, level) && Within(d, a) && m(d.tree.info)
  {
    var all, mine := Preorder(ts, pos, level), Preorder(a.tree.children, a.pos + 1, a.level + 1);
    AnyMatchNode(a.tree.children, a.pos + 1, a.level + 1, m);
    hide Preorder;
    NodesWithin(ts, pos, level, a, a);
    forall d | d in mine
      ensures d in all && Within(d, a)
    {
      SubtreeNodes(ts, pos, level, a, d);
      NodesWithin(ts, pos, level, a, d);
    }
    forall d | d in all && Within(d, a)
      ensures d == a || d in mine
    {
      NodesWithin(ts, pos, level, a, d);
    }
  }

  lemma {:induction false} SubtreeNodes(ts: seq<Tree>, pos: nat, level: nat, a: Node, d: Node)
    requires a in Preorder(ts, pos, level) && d in Preorder(a.tree.children, a.pos + 1, a.level + 1)
    ensures d in Preorder(ts, pos, level)
  {
    if a in Preorder(ts[0].children, pos + 1, level + 1) {
      SubtreeNodes(ts[0].children, pos + 1, level + 1, a, d);
    } else if a in Preorder(ts[1..], pos + Size(ts[0]), level) {
      SubtreeNodes(ts[1..], pos + Size(ts[0]), level, a, d);
    }
  }

  /** Listing everything lists every entry of the tree once, in preorder, at its depth. */
  lemma EverythingIsPreorder(ts: seq<Tree>, pos: nat, level: nat)
    requires AllWellFormed(ts)
    ensures Increasing(Closure(ts, pos, level, EVERYTHING))
    ensures forall line :: line in Closure(ts, pos, level, EVERYTHING) <==>
              exists a :: a in Preorder(ts, pos, level) && line == Line(a.pos, a.level)
  {
    ClosureIncreasing(ts, pos, level, EVERYTHING);
    forall line { ClosureMembers(ts, pos, level, EVERYTHING, line); }
  }

  // ----- paths

  /** For each entry, in preorder, the places on the way down to it. */
  function Paths(ts: seq<Tree>, pos: nat, path: seq<nat>): seq<seq<nat>> {
    if ts == [] then []
    else
      [path + [pos]] + Paths(ts[0].children, pos + 1, path + [pos]) + Paths(ts[1..], pos + Size(ts[0]), path)
  }

  /** The path of an entry in a chain whose own path is given: it begins with that, ends at the entry, and in
      between names the entries above it, one for each level. */
  ghost predicate LeadsTo(path: seq<nat>, ts: seq<Tree>, pos: nat, level: nat, above: seq<nat>, d: Node) {
    && above <= path && |above| == level && |path| == d.level + 1 > level && path[d.level] == d.pos
    && forall i :: level <= i <= d.level ==> OnTheWay(ts, pos, level, path[i], i, d)
  }

  ghost predicate OnTheWay(ts: seq<Tree>, pos: nat, level: nat, place: nat, i: nat, d: Node) {
    exists a :: a in Preorder(ts, pos, level) && a.pos == place && a.level == i && Within(d, a)
  }

  lemma AtOfThree<T>(first: T, below: seq<T>, behind: seq<T>, k: nat)
    requires k < |[first] + below + behind|
    ensures ([first] + below + behind)[k]
         == if k == 0 then first else if k < 1 + |below| then below[k - 1] else behind[k - 1 - |below|]
  {
  }

  lemma RootLeads(ts: seq<Tree>, pos: nat, level: nat, above: seq<nat>)
    requires ts != [] && |above| == level
    ensures LeadsTo(above + [pos], ts, pos, level, above, Node(pos, level, ts[0]))
  {
    var root := Node(pos, level, ts[0]);
    assert Preorder(ts, pos, level)[0] == root;
    assert OnTheWay(ts, pos, level, pos, level, root);
  }

  lemma {:induction false} SameNumber(ts: seq<Tree>, pos: nat, level: nat, above: seq<nat>)
    ensures |Paths(ts, pos, above)| == |Preorder(ts, pos, level)|
  {
    if ts != [] {
      SameNumber(ts[0].children, pos + 1, level + 1, above + [pos]);
      SameNumber(ts[1..], pos + Size(ts[0]), level, above);
    }
  }

  lemma SomeEntry(ts: seq<Tree>, pos: nat, level: nat)
    requires |Preorder(ts, pos, level)| > 0
    ensures ts != []
  {
  }

  lemma BothUnfold(ts: seq<Tree>, pos: nat, level: nat, above: seq<nat>)
    requires ts != []
    ensures Paths(ts, pos, above) == [above + [pos]] + Paths(ts[0].children, pos + 1, above + [pos])
                                     + Paths(ts[1..], pos + Size(ts[0]), above)
    ensures Preorder(ts, pos, level) == [Node(pos, level, ts[0])] + Preorder(ts[0].children, pos + 1, level + 1)
                                        + Preorder(ts[1..], pos + Size(ts[0]), level)
  {
  }

  /** The k-th path belongs to the k-th entry: from the root its places are exactly the entry's ancestors and
      the entry, outermost first. */
  lemma {:induction false} PathsAreAncestors(ts: seq<Tree>, pos: nat, level: nat, above: seq<nat>, k: nat)
    requires AllWellFormed(ts) && |above| == level && k < |Preorder(ts, pos, level)|
    ensures k < |Paths(ts, pos, above)|
    ensures LeadsTo(Paths(ts, pos, above)[k], ts, pos, level, above, Preorder(ts, pos, level)[k])
    decreases SizeAll(ts)
  {
    hide *;
    SameNumber(ts, pos, level, above);
    SomeEntry(ts, pos, level);
    FirstAndRest(ts);
    RootLeads(ts, pos, level, above);
    BothUnfold(ts, pos, level, above);
    SameNumber(ts[0].children, pos + 1, level + 1, above + [pos]);
    var t := ts[0];
    var paths, behindPaths := Paths(t.children, pos + 1, above + [pos]), Paths(ts[1..], pos + Size(t), above);
    var below, behind := Preorder(t.children, pos + 1, level + 1), Preorder(ts[1..], pos + Size(t), level);
    AtOfThree(above + [pos], paths, behindPaths, k);
    AtOfThree(Node(pos, level, t), below, behind, k);
    if k == 0 {
    } else if k < 1 + |below| {
      PathsAreAncestors(t.children, pos + 1, level + 1, above + [pos], k - 1);
      BelowLeads(ts, pos, level, above, paths[k - 1], below[k - 1]);
    } else {
      PathsAreAncestors(ts[1..], pos + Size(t), level, above, k - 1 - |below|);
      BehindLeads(ts, pos, level, above, behindPaths[k - 1 - |below|], behind[k - 1 - |below|]);
    }
  }

  lemma BelowLeads(ts: seq<Tree>, pos: nat, level: nat, above: seq<nat>, path: seq<nat>, d: Node)
    requires ts != [] && AllWellFormed(ts) && |above| == level && d in Preorder(ts[0].children, pos + 1, level + 1)
    requires LeadsTo(path, ts[0].children, pos + 1, level + 1, above + [pos], d)
    ensures LeadsTo(path, ts, pos, level, above, d)
  {
    var t := ts[0];
    FirstAndRest(ts);
    SubtreeInside(t.children, pos + 1, level + 1, d);
    var root := Node(pos, level, t);
    assert Preorder(ts, pos, level)[0] == root && Within(d, root);
    assert path[..level + 1] == above + [pos] && above == path[..level];
    hide Preorder;
    forall a { InPreorder(ts, pos, level, a); }
    forall i | level <= i <= d.level ensures OnTheWay(ts, pos, level, path[i], i, d) {
      if i > level {
        assert OnTheWay(t.children, pos + 1, level + 1, path[i], i, d);
      } else {
        assert root in Preorder(ts, pos, level);
      }
    }
  }

  lemma BehindLeads(ts: seq<Tree>, pos: nat, level: nat, above: seq<nat>, path: seq<nat>, d: Node)
    requires ts != [] && LeadsTo(path, ts[1..], pos + Size(ts[0]), level, above, d)
    ensures LeadsTo(path, ts, pos, level, above, d)
  {
    hide Preorder;
    forall a { InPreorder(ts, pos, level, a); }
    forall i | level <= i <= d.level ensures OnTheWay(ts, pos, level, path[i], i, d) {
      assert OnTheWay(ts[1..], pos + Size(ts[0]), level, path[i], i, d);
    }
  }
}
