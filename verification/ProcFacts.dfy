/** What the naming of functions finds, by the places of attributes in an entry and of entries in a tree. */
module ProcFacts {
  import opened DieTree
  import opened DieListing
  import opened ProcNames
  import opened ProcNameMap

  // ----- one entry

  /** The attribute is a name, or leads to one. */
  predicate NamesIt(a: Attr) { a.Name? || (a.Origin? && a.resolved != []) }

  /** A name and a low pc stand among the first n attributes. */
  ghost predicate Complete(attrs: seq<Attr>, n: nat)
    requires n <= |attrs|
  {
    (exists i :: 0 <= i < n && NamesIt(attrs[i])) && (exists i :: 0 <= i < n && attrs[i].LowPc?)
  }

  /** The fewest attributes that have both. */
  ghost predicate StopsAt(attrs: seq<Attr>, n: nat) {
    n <= |attrs| && Complete(attrs, n) && forall m: nat :: m < n ==> !Complete(attrs, m)
  }

  /** The last low pc before n. */
  ghost predicate PcBefore(attrs: seq<Attr>, n: nat, pc: nat)
    requires n <= |attrs|
  {
    exists i :: 0 <= i < n && attrs[i] == LowPc(pc) && forall j :: i < j < n ==> !attrs[j].LowPc?
  }

  /** The last DW_AT_name before n; if there is none, the first origin that leads to a name. */
  ghost predicate NameBefore(attrs: seq<Attr>, n: nat, name: string)
    requires n <= |attrs|
  {
    if exists i :: 0 <= i < n && attrs[i].Name? then
      exists i :: 0 <= i < n && attrs[i] == Name(name) && forall j :: i < j < n ==> !attrs[j].Name?
    else
      exists i :: 0 <= i < n && NamesIt(attrs[i]) && attrs[i].resolved[0] == name
                  && forall j :: 0 <= j < i ==> !NamesIt(attrs[j])
  }

  /** What is known of an entry after its first n attributes. */
  function Known(attrs: seq<Attr>, n: nat): (Option<string>, Option<nat>)
    requires n <= |attrs|
  {
    if n == 0 then (None, None) else var (name, pc) := Known(attrs, n - 1); Note(attrs[n - 1], name, pc)
  }

  lemma {:induction false} PcKnown(attrs: seq<Attr>, n: nat)
    requires n <= |attrs|
    ensures var pc := Known(attrs, n).1;
            && (pc.Some? <==> exists i :: 0 <= i < n && attrs[i].LowPc?)
            && (pc.Some? ==> PcBefore(attrs, n, pc.value))
  {
    if n > 0 {
      PcKnown(attrs, n - 1);
      if attrs[n - 1].LowPc? {
        assert attrs[n - 1] == LowPc(Known(attrs, n).1.value);
      }
    }
  }

  lemma {:induction false} NameKnown(attrs: seq<Attr>, n: nat)
    requires n <= |attrs|
    ensures var name := Known(attrs, n).0;
            && (name.Some? <==> exists i :: 0 <= i < n && NamesIt(attrs[i]))
            && (name.Some? ==> NameBefore(attrs, n, name.value))
  {
    if n > 0 {
      NameKnown(attrs, n - 1);
      var before, name := Known(attrs, n - 1).0, Known(attrs, n).0;
      assert before.Some? || (forall i :: 0 <= i < n - 1 ==> !NamesIt(attrs[i]));
      if attrs[n - 1].Name? {
        assert attrs[n - 1] == Name(name.value);
      } else if before.None? && NamesIt(attrs[n - 1]) {
        assert forall i :: 0 <= i < n ==> !attrs[i].Name?;
      }
    }
  }

  lemma {:induction false} ScanFrom(attrs: seq<Attr>, n: nat)
    requires n <= |attrs| && forall m: nat :: m < n ==> !Complete(attrs, m)
    ensures ScanAttrs(attrs, None, None) == ScanAttrs(attrs[n..], Known(attrs, n).0, Known(attrs, n).1)
  {
    if n == 0 {
      assert attrs[0..] == attrs;
    } else {
      ScanFrom(attrs, n - 1);
      PcKnown(attrs, n - 1);
      NameKnown(attrs, n - 1);
      assert !Complete(attrs, n - 1);
      assert attrs[n - 1..][1..] == attrs[n..];
    }
  }

  lemma {:induction false} FirstStop(attrs: seq<Attr>, n: nat) returns (m: nat)
    requires n <= |attrs| && Complete(attrs, n)
    ensures StopsAt(attrs, m)
  {
    if k: nat :| k < n && Complete(attrs, k) {
      m := FirstStop(attrs, k);
    } else {
      m := n;
    }
  }

  /** An entry names a function exactly when it has a low pc and a name, its own or one that an origin leads to.
      Of the fewest attributes that have both, the function gets the last low pc, and the last DW_AT_name or, when
      there is none, the name of the first origin that leads to one. */
  lemma ProcIs(info: Info)
    ensures ProcOf(info).Some? <==> Complete(info.attrs, |info.attrs|)
    ensures forall n: nat :: StopsAt(info.attrs, n) ==>
              && ProcOf(info).Some?
              && PcBefore(info.attrs, n, ProcOf(info).value.pc) && NameBefore(info.attrs, n, ProcOf(info).value.name)
    ensures ProcOf(info).Some? ==> exists n: nat :: StopsAt(info.attrs, n)
  {
    hide Complete;
    var attrs := info.attrs;
    forall n: nat | StopsAt(attrs, n)
      ensures ProcOf(info).Some?
      ensures PcBefore(attrs, n, ProcOf(info).value.pc) && NameBefore(attrs, n, ProcOf(info).value.name)
    {
      StopGives(attrs, n);
    }
    if Complete(attrs, |attrs|) {
      var n := FirstStop(attrs, |attrs|);
    } else {
      ScanIncomplete(attrs);
    }
  }

  lemma ScanIncomplete(attrs: seq<Attr>)
    requires !Complete(attrs, |attrs|)
    ensures ScanAttrs(attrs, None, None).None?
  {
    ScanFrom(attrs, |attrs|);
    PcKnown(attrs, |attrs|);
    NameKnown(attrs, |attrs|);
  }

  lemma StopGives(attrs: seq<Attr>, n: nat)
    requires StopsAt(attrs, n)
    ensures var r := ScanAttrs(attrs, None, None);
            r.Some? && PcBefore(attrs, n, r.value.pc) && NameBefore(attrs, n, r.value.name)
  {
    hide PcBefore, NameBefore;
    ScanFrom(attrs, n);
    PcKnown(attrs, n);
    NameKnown(attrs, n);
  }

  // ----- the entries that are looked at

  /** The entry and all entries above it are subprograms. */
  predicate AllSubprograms(all: seq<Node>, d: Node) {
    forall a <- all :: Within(d, a) ==> a.tree.info.tag == DW_TAG_subprogram
  }

  /** The functions that such entries name, in the order of the entries. */
  function Collect(nodes: seq<Node>, all: seq<Node>): seq<Proc> {
    if nodes == [] then []
    else
      (if AllSubprograms(all, nodes[0]) && ProcOf(nodes[0].tree.info).Some? then [ProcOf(nodes[0].tree.info).value] else [])
      + Collect(nodes[1..], all)
  }

  lemma {:induction false} CollectConcat(a: seq<Node>, b: seq<Node>, all: seq<Node>)
    ensures Collect(a + b, all) == Collect(a, all) + Collect(b, all)
  {
    hide AllSubprograms, ProcOf;
    if a == [] {
      assert a + b == b;
    } else {
      assert (a + b)[1..] == a[1..] + b;
      CollectConcat(a[1..], b, all);
    }
  }

  lemma {:induction false} CollectSame(nodes: seq<Node>, all: seq<Node>, other: seq<Node>)
    requires forall d <- nodes :: AllSubprograms(all, d) <==> AllSubprograms(other, d)
    ensures Collect(nodes, all) == Collect(nodes, other)
  {
    hide AllSubprograms, ProcOf;
    if nodes != [] {
      CollectSame(nodes[1..], all, other);
    }
  }

  lemma {:induction false} CollectNone(nodes: seq<Node>, all: seq<Node>)
    requires forall d <- nodes :: !AllSubprograms(all, d)
    ensures Collect(nodes, all) == []
  {
    hide AllSubprograms;
    if nodes != [] {
      CollectNone(nodes[1..], all);
    }
  }

  lemma SubprogramsSplit(all: seq<Node>, root: Node, below: seq<Node>, behind: seq<Node>, d: Node)
    requires forall a :: a in all <==> a == root || a in below || a in behind
    ensures AllSubprograms(all, d)
       <==> && (Within(d, root) ==> root.tree.info.tag == DW_TAG_subprogram)
            && AllSubprograms(below, d) && AllSubprograms(behind, d)
  {
    hide Within;
  }

  lemma NotWithin(nodes: seq<Node>, d: Node)
    requires forall a <- nodes :: !Within(d, a)
    ensures AllSubprograms(nodes, d)
  {
    hide Within;
  }

  /** Which entries lie within which, for the first entry of a chain, those below it and those behind it. */
  lemma WithinParts(ts: seq<Tree>, pos: nat, level: nat, d: Node)
    requires ts != [] && AllWellFormed(ts) && d in Preorder(ts, pos, level)
    ensures var root, all := Node(pos, level, ts[0]), Preorder(ts, pos, level);
            var below, behind := Preorder(ts[0].children, pos + 1, level + 1), Preorder(ts[1..], pos + Size(ts[0]), level);
            var isSub := ts[0].info.tag == DW_TAG_subprogram;
            && (d == root ==> AllSubprograms(all, d) == isSub)
            && (d in below ==> AllSubprograms(all, d) == (isSub && AllSubprograms(below, d)))
            && (d in behind ==> AllSubprograms(all, d) == AllSubprograms(behind, d))
  {
    hide *;
    var root, all := Node(pos, level, ts[0]), Preorder(ts, pos, level);
    var below, behind := Preorder(ts[0].children, pos + 1, level + 1), Preorder(ts[1..], pos + Size(ts[0]), level);
    Members(ts, pos, level);
    PartPlaces(ts, pos, level);
    SubprogramsSplit(all, root, below, behind, d);
    PlaceWithin(d, root);
    if d == root || d in behind {
      forall a | a in below ensures !Within(d, a) { PlaceWithin(d, a); }
      NotWithin(below, d);
    }
    if d == root || d in below {
      forall a | a in behind ensures !Within(d, a) { PlaceWithin(d, a); }
      NotWithin(behind, d);
    }
  }

  lemma PlaceWithin(d: Node, a: Node)
    ensures Within(d, a) <==> a.pos <= d.pos < a.pos + Size(a.tree)
  {
  }

  lemma Members(ts: seq<Tree>, pos: nat, level: nat)
    requires ts != []
    ensures forall a :: a in Preorder(ts, pos, level)
                   <==> || a == Node(pos, level, ts[0]) || a in Preorder(ts[0].children, pos + 1, level + 1)
                        || a in Preorder(ts[1..], pos + Size(ts[0]), level)
  {
    hide Preorder;
    forall a { InPreorder(ts, pos, level, a); }
  }

  lemma PartPlaces(ts: seq<Tree>, pos: nat, level: nat)
    requires ts != [] && AllWellFormed(ts)
    ensures forall a | a in Preorder(ts[0].children, pos + 1, level + 1)
              :: pos < a.pos && a.pos + Size(a.tree) <= pos + Size(ts[0])
    ensures forall a | a in Preorder(ts[1..], pos + Size(ts[0]), level) :: pos + Size(ts[0]) <= a.pos
  {
    hide *;
    FirstAndRest(ts);
    forall a | a in Preorder(ts[0].children, pos + 1, level + 1)
      ensures pos < a.pos && a.pos + Size(a.tree) <= pos + Size(ts[0])
    {
      SubtreeInside(ts[0].children, pos + 1, level + 1, a);
    }
    forall a | a in Preorder(ts[1..], pos + Size(ts[0]), level) ensures pos + Size(ts[0]) <= a.pos {
      SubtreeInside(ts[1..], pos + Size(ts[0]), level, a);
    }
  }

  /** The functions of a chain are those that an entry names, in preorder, whose own tag and the tags of all
      entries above it in the chain are DW_TAG_subprogram. */
  lemma {:induction false} ProcsAreCollected(ts: seq<Tree>, pos: nat, level: nat)
    requires AllWellFormed(ts)
    ensures Procs(ts) == Collect(Preorder(ts, pos, level), Preorder(ts, pos, level))
    decreases SizeAll(ts)
  {
    hide *;
    if ts == [] {
      NoProcs(pos, level);
    } else {
      var t := ts[0];
      var root, all := Node(pos, level, t), Preorder(ts, pos, level);
      var below, behind := Preorder(t.children, pos + 1, level + 1), Preorder(ts[1..], pos + Size(t), level);
      FirstAndRest(ts);
      ProcsAreCollected(t.children, pos + 1, level + 1);
      ProcsAreCollected(ts[1..], pos + Size(t), level);
      Unfolded(ts, pos, level);
      CollectConcat([root] + below, behind, all);
      CollectConcat([root], below, all);
      forall d | d in all
        ensures d == root ==> AllSubprograms(all, d) == (t.info.tag == DW_TAG_subprogram)
        ensures d in below ==> AllSubprograms(all, d) == (t.info.tag == DW_TAG_subprogram && AllSubprograms(below, d))
        ensures d in behind ==> AllSubprograms(all, d) == AllSubprograms(behind, d)
      {
        WithinParts(ts, pos, level, d);
      }
      CollectSame(behind, all, behind);
      CollectOne(root, all);
      if t.info.tag == DW_TAG_subprogram {
        CollectSame(below, all, below);
      } else {
        CollectNone(below, all);
      }
    }
  }

  lemma NoProcs(pos: nat, level: nat)
    ensures Procs([]) == Collect(Preorder([], pos, level), Preorder([], pos, level))
  {
  }

  lemma CollectOne(d: Node, all: seq<Node>)
    ensures Collect([d], all)
         == if AllSubprograms(all, d) && ProcOf(d.tree.info).Some? then [ProcOf(d.tree.info).value] else []
  {
    hide AllSubprograms, ProcOf;
  }

  lemma Unfolded(ts: seq<Tree>, pos: nat, level: nat)
    requires ts != []
    ensures Preorder(ts, pos, level) == [Node(pos, level, ts[0])] + Preorder(ts[0].children, pos + 1, level + 1)
                                        + Preorder(ts[1..], pos + Size(ts[0]), level)
    ensures var own := if ProcOf(ts[0].info).Some? then [ProcOf(ts[0].info).value] else [];
            Procs(ts) == (if ts[0].info.tag == DW_TAG_subprogram then own + Procs(ts[0].children) else []) + Procs(ts[1..])
  {
    hide ProcOf;
  }

  /** The functions of a unit are those below its entry, which itself need not be a subprogram. */
  lemma UnitProcsAre(cu: seq<Tree>)
    requires AllWellFormed(cu)
    ensures cu == [] ==> UnitProcs(cu) == []
    ensures cu != [] ==>
              var below := Preorder(cu[0].children, 1, 1); UnitProcs(cu) == Collect(below, below)
  {
    if cu != [] {
      FirstAndRest(cu);
      ProcsAreCollected(cu[0].children, 1, 1);
    }
  }
}
