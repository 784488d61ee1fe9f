/** What the walks' specifications say of the entries in .debug_info themselves: where each entry of a tree
    stands, which entries a walk checks against which, and which ones the address finder comes to. */
module DieFacts {
  import opened DieTree
  import opened DieListing
  import opened DieStack
  import opened DieWalkC

  // ----- entries and their places

  /** Two entries at one place are one. */
  lemma {:induction false} OneNodePerPlace(ts: seq<Tree>, pos: nat, level: nat, a: Node, b: Node)
    requires AllWellFormed(ts) && a in Preorder(ts, pos, level) && b in Preorder(ts, pos, level) && a.pos == b.pos
    ensures a == b
    decreases SizeAll(ts)
  {
    hide *;
    SomeNode(ts, pos, level, a);
    FirstAndRest(ts);
    Region(ts, pos, level, a);
    Region(ts, pos, level, b);
    var t := ts[0];
    if a != Node(pos, level, t) {
      if a in Preorder(t.children, pos + 1, level + 1) {
        OneNodePerPlace(t.children, pos + 1, level + 1, a, b);
      } else {
        OneNodePerPlace(ts[1..], pos + Size(t), level, a, b);
      }
    }
  }

  lemma SomeNode(ts: seq<Tree>, pos: nat, level: nat, a: Node)
    requires a in Preorder(ts, pos, level)
    ensures ts != []
  {
  }

  /** An entry is the first one, below it, or behind it, and its place tells which. */
  lemma Region(ts: seq<Tree>, pos: nat, level: nat, a: Node)
    requires ts != [] && AllWellFormed(ts) && a in Preorder(ts, pos, level)
    ensures a == Node(pos, level, ts[0]) || a in Preorder(ts[0].children, pos + 1, level + 1)
            || a in Preorder(ts[1..], pos + Size(ts[0]), level)
    ensures a.pos == pos ==> a == Node(pos, level, ts[0])
    ensures a != Node(pos, level, ts[0]) && pos < a.pos < pos + Size(ts[0]) ==>
              a in Preorder(ts[0].children, pos + 1, level + 1)
    ensures a.pos >= pos + Size(ts[0]) ==> a in Preorder(ts[1..], pos + Size(ts[0]), level)
    ensures a in Preorder(ts[0].children, pos + 1, level + 1) ==> pos < a.pos < pos + Size(ts[0])
    ensures a in Preorder(ts[1..], pos + Size(ts[0]), level) ==> a.pos >= pos + Size(ts[0])
  {
    hide *;
    FirstAndRest(ts);
    InPreorder(ts, pos, level, a);
    PlaceOf(ts[0].children, pos + 1, level + 1, a);
    PlaceOf(ts[1..], pos + Size(ts[0]), level, a);
  }

  // ----- the tag checks

  /** What a check should say: of an entry at the top of a chain, with the tag of the chain's parent, if it has
      one; of any other entry, with the tag of the entry one level up on its path. */
  ghost predicate ChecksParent(c: TagCheck, ts: seq<Tree>, pos: nat, level: nat, parent: seq<nat>, path: seq<nat>, d: Node) {
    if d.level == level then
      if parent == [] then c == RootTag(d.tree.info.tag)
      else c.ChildTag? && c.parent == parent[0] && c.child == d.tree.info.tag
    else
      exists p :: p in Preorder(ts, pos, level) && IsParent(p, path, d)
                  && c.ChildTag? && c.parent == p.tree.info.tag && c.child == d.tree.info.tag
  }

  /** The entry that stands on a path just before its end. */
  ghost predicate IsParent(p: Node, path: seq<nat>, d: Node) {
    0 < d.level < |path| && p.level == d.level - 1 && p.pos == path[d.level - 1] && Within(d, p)
  }

  lemma {:induction false} AsManyChecks(ts: seq<Tree>, pos: nat, level: nat, parent: seq<nat>)
    ensures |TagChecks(ts, parent)| == |Preorder(ts, pos, level)|
  {
    if ts != [] {
      AsManyChecks(ts[0].children, pos + 1, level + 1, [ts[0].info.tag]);
      AsManyChecks(ts[1..], pos + Size(ts[0]), level, parent);
    }
  }

  lemma ChecksUnfold(ts: seq<Tree>, parent: seq<nat>)
    requires ts != []
    ensures TagChecks(ts, parent) == [TagCheckOf(ts[0].info.tag, parent)]
                                     + TagChecks(ts[0].children, [ts[0].info.tag]) + TagChecks(ts[1..], parent)
  {
  }

  lemma {:induction false} ChecksAre(ts: seq<Tree>, pos: nat, level: nat, above: seq<nat>, parent: seq<nat>, k: nat)
    requires AllWellFormed(ts) && |above| == level && k < |Preorder(ts, pos, level)|
    ensures k < |TagChecks(ts, parent)| && k < |Paths(ts, pos, above)|
    ensures ChecksParent(TagChecks(ts, parent)[k], ts, pos, level, parent, Paths(ts, pos, above)[k],
                         Preorder(ts, pos, level)[k])
    decreases SizeAll(ts)
  {
    hide *;
    SomeEntry(ts, pos, level);
    FirstAndRest(ts);
    SameNumber(ts, pos, level, above);
    AsManyChecks(ts, pos, level, parent);
    BothUnfold(ts, pos, level, above);
    ChecksUnfold(ts, parent);
    var t := ts[0];
    var paths, behindPaths := Paths(t.children, pos + 1, above + [pos]), Paths(ts[1..], pos + Size(t), above);
    var below, behind := Preorder(t.children, pos + 1, level + 1), Preorder(ts[1..], pos + Size(t), level);
    var checks, behindChecks := TagChecks(t.children, [t.info.tag]), TagChecks(ts[1..], parent);
    SameNumber(t.children, pos + 1, level + 1, above + [pos]);
    AsManyChecks(t.children, pos + 1, level + 1, [t.info.tag]);
    AtOfThree(above + [pos], paths, behindPaths, k);
    AtOfThree(Node(pos, level, t), below, behind, k);
    AtOfThree(TagCheckOf(t.info.tag, parent), checks, behindChecks, k);
    if k == 0 {
      FirstCheck(ts, pos, level, parent, above + [pos]);
    } else if k < 1 + |below| {
      ChecksAre(t.children, pos + 1, level + 1, above + [pos], [t.info.tag], k - 1);
      PathsAreAncestors(t.children, pos + 1, level + 1, above + [pos], k - 1);
      CheckBelow(checks[k - 1], ts, pos, level, above, parent, paths[k - 1], below[k - 1]);
    } else {
      ChecksAre(ts[1..], pos + Size(t), level, above, parent, k - 1 - |below|);
      CheckBehind(behindChecks[k - 1 - |below|], ts, pos, level, parent, behindPaths[k - 1 - |below|],
                  behind[k - 1 - |below|]);
    }
  }

  lemma FirstCheck(ts: seq<Tree>, pos: nat, level: nat, parent: seq<nat>, path: seq<nat>)
    requires ts != []
    ensures ChecksParent(TagCheckOf(ts[0].info.tag, parent), ts, pos, level, parent, path, Node(pos, level, ts[0]))
  {
  }

  lemma CheckBelow(c: TagCheck, ts: seq<Tree>, pos: nat, level: nat, above: seq<nat>, parent: seq<nat>, path: seq<nat>, d: Node)
    requires ts != [] && AllWellFormed(ts) && d in Preorder(ts[0].children, pos + 1, level + 1) && |above| == level
    requires ChecksParent(c, ts[0].children, pos + 1, level + 1, [ts[0].info.tag], path, d)
    requires LeadsTo(path, ts[0].children, pos + 1, level + 1, above + [pos], d)
    ensures ChecksParent(c, ts, pos, level, parent, path, d)
  {
    var root := Node(pos, level, ts[0]);
    Region(ts, pos, level, d) by { InPreorder(ts, pos, level, d); }
    hide Preorder;
    assert path[level] == pos by { assert (above + [pos])[level] == pos; }
    InPreorder(ts, pos, level, root);
    if d.level == level + 1 {
      assert IsParent(root, path, d);
    } else {
      var p :| p in Preorder(ts[0].children, pos + 1, level + 1) && IsParent(p, path, d)
               && c.ChildTag? && c.parent == p.tree.info.tag && c.child == d.tree.info.tag;
      InPreorder(ts, pos, level, p);
    }
  }

  lemma CheckBehind(c: TagCheck, ts: seq<Tree>, pos: nat, level: nat, parent: seq<nat>, path: seq<nat>, d: Node)
    requires ts != [] && ChecksParent(c, ts[1..], pos + Size(ts[0]), level, parent, path, d)
    ensures ChecksParent(c, ts, pos, level, parent, path, d)
  {
    hide Preorder;
    if d.level != level {
      var p :| p in Preorder(ts[1..], pos + Size(ts[0]), level) && IsParent(p, path, d)
               && c.ChildTag? && c.parent == p.tree.info.tag && c.child == d.tree.info.tag;
      InPreorder(ts, pos, level, p);
    }
  }

  /** The checks of a unit: one for each entry, in preorder. The first is of the unit entry's own tag. Each other
      one is of the tags of the entry one level up on the entry's path, as the parent, and of the entry itself,
      as the child. */
  lemma {:induction false} UnitChecks(unit: Tree, k: nat)
    requires unit.WellFormed() && k < |Preorder([unit], 0, 0)|
    ensures |TagChecks([unit], [])| == |Preorder([unit], 0, 0)| == |Paths([unit], 0, [])|
    ensures k == 0 ==> Preorder([unit], 0, 0)[0] == Node(0, 0, unit) && TagChecks([unit], [])[0] == RootTag(unit.info.tag)
    ensures k > 0 ==>
              ChecksEntryAbove(TagChecks([unit], [])[k], Preorder([unit], 0, 0), Paths([unit], 0, [])[k],
                               Preorder([unit], 0, 0)[k])
  {
    hide *;
    AsManyChecks([unit], 0, 0, []);
    SameNumber([unit], 0, 0, []);
    UnitWellFormed(unit);
    ChecksAre([unit], 0, 0, [], [], k);
    if k == 0 {
      UnitFirst(unit);
    } else {
      BelowUnit(unit, k);
      ParentIsAbove(TagChecks([unit], [])[k], unit, Paths([unit], 0, [])[k], Preorder([unit], 0, 0)[k]);
    }
  }

  /** The check is of the entry's tag and of the tag of the one entry that stands on its path just before it. */
  ghost predicate ChecksEntryAbove(c: TagCheck, all: seq<Node>, path: seq<nat>, d: Node) {
    && 0 < d.level < |path| && c.ChildTag? && c.child == d.tree.info.tag
    && (exists p :: p in all && p.pos == path[d.level - 1])
    && (forall p :: p in all && p.pos == path[d.level - 1] ==> c.parent == p.tree.info.tag)
  }

  lemma {:induction false} UnitWellFormed(unit: Tree)
    requires unit.WellFormed()
    ensures AllWellFormed([unit])
  {
  }

  lemma {:induction false} UnitFirst(unit: Tree)
    ensures |Preorder([unit], 0, 0)| > 0 && Preorder([unit], 0, 0)[0] == Node(0, 0, unit)
    ensures |TagChecks([unit], [])| > 0 && TagChecks([unit], [])[0] == RootTag(unit.info.tag)
  {
  }

  lemma {:induction false} ParentIsAbove(c: TagCheck, unit: Tree, path: seq<nat>, d: Node)
    requires unit.WellFormed() && ChecksParent(c, [unit], 0, 0, [], path, d) && d.level > 0
    ensures ChecksEntryAbove(c, Preorder([unit], 0, 0), path, d)
  {
    hide Preorder, Within, Tree.WellFormed;
    UnitWellFormed(unit);
    var all := Preorder([unit], 0, 0);
    var p :| p in all && IsParent(p, path, d) && c.ChildTag? && c.parent == p.tree.info.tag && c.child == d.tree.info.tag;
    forall q | q in all && q.pos == path[d.level - 1] ensures q == p { OneNodePerPlace([unit], 0, 0, p, q); }
  }

  lemma {:induction false} BelowUnit(unit: Tree, k: nat)
    requires unit.WellFormed() && 0 < k < |Preorder([unit], 0, 0)|
    ensures Preorder([unit], 0, 0)[k].level > 0
  {
    FirstAndRest([unit]);
    NoEntries(Size(unit), 0, []);
    BothUnfold([unit], 0, 0, []);
    hide *;
    assert [unit][1..] == [];
    var below := Preorder(unit.children, 1, 1);
    AtOfThree(Node(0, 0, unit), below, [], k);
    PathsAreAncestors(unit.children, 1, 1, [0], k - 1);
    PathLevel(Paths(unit.children, 1, [0])[k - 1], unit.children, 1, 1, [0], below[k - 1]);
  }

  lemma NoEntries(pos: nat, level: nat, above: seq<nat>)
    ensures Preorder([], pos, level) == []
  {
  }

  lemma PathLevel(path: seq<nat>, ts: seq<Tree>, pos: nat, level: nat, above: seq<nat>, d: Node)
    requires LeadsTo(path, ts, pos, level, above, d)
    ensures d.level >= level
  {
  }

  // ----- the entries a walk comes to

  /** The address finder's places are those of all entries, in preorder. */
  lemma {:induction false} PlacesArePreorder(ts: seq<Tree>, pos: nat, level: nat)
    ensures |PlacesOf(ts, pos)| == |Preorder(ts, pos, level)|
    ensures forall k :: 0 <= k < |PlacesOf(ts, pos)| ==> PlacesOf(ts, pos)[k] == Preorder(ts, pos, level)[k].pos
  {
    if ts != [] {
      PlacesArePreorder(ts[0].children, pos + 1, level + 1);
      PlacesArePreorder(ts[1..], pos + Size(ts[0]), level);
    }
  }

  /** Every entry of a tree stands at its place in the section. */
  lemma {:induction false} NodesAreEntries(es: seq<Entry>, pos: nat, ts: seq<Tree>, level: nat, d: Node)
    requires LaidOut(es, pos, ts) && d in Preorder(ts, pos, level)
    ensures d.pos < |es| && es[d.pos].Die? && es[d.pos].info == d.tree.info && es[d.pos].hasChild == d.tree.hasChild
    decreases SizeAll(ts)
  {
    hide Preorder, LaidOut;
    SomeNode(ts, pos, level, d);
    LaidOutFirst(es, pos, ts);
    LaidOutRest(es, pos, ts);
    InPreorder(ts, pos, level, d);
    WellFormedOnes(es, pos, ts);
    FirstAndRest(ts);
    if d in Preorder(ts[0].children, pos + 1, level + 1) {
      SomeNode(ts[0].children, pos + 1, level + 1, d);
      NodesAreEntries(es, pos + 1, ts[0].children, level + 1, d);
    } else if d in Preorder(ts[1..], pos + Size(ts[0]), level) {
      NodesAreEntries(es, pos + Size(ts[0]), ts[1..], level, d);
    }
  }

  lemma WellFormedOnes(es: seq<Entry>, pos: nat, ts: seq<Tree>)
    requires LaidOut(es, pos, ts)
    ensures AllWellFormed(ts)
  {
  }
}
