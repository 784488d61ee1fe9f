/** Debugging information entries: the tree they form, and its flat form in .debug_info
    (DWARF 3 section 2.3): a preorder listing in which a null entry ends each list of children. */
module DieTree {

  /** The attributes of an entry that dwarfdump looks at when it names functions. */
  datatype Attr =
    | Name(name: string)
    | LowPc(pc: nat)
    | Origin(resolved: seq<string>)  // abstract origin or specification: the name it leads to, if any
    | OtherAttr(at: nat)

  datatype Info = Info(tag: nat, attrs: seq<Attr>)

  /** An entry with its children. It may be flagged as having children and own none,
      and it may carry a DW_AT_sibling attribute. */
  datatype Tree = Tree(info: Info, hasChild: bool, hasSibling: bool, children: seq<Tree>) {
    predicate WellFormed() {
      (children != [] ==> hasChild) && forall t <- children :: t.WellFormed()
    }
  }

  predicate AllWellFormed(ts: seq<Tree>) {
    forall t <- ts :: t.WellFormed()
  }

  /** Places an entry and its descendants take, null entry included. */
  function Size(t: Tree): (n: nat)
    ensures n >= 1
    decreases t, 1
  {
    1 + if t.hasChild then SizeAll(t.children) + 1 else 0
  }

  function SizeAll(ts: seq<Tree>): (n: nat)
    ensures ts != [] <==> n >= 1
    ensures n >= |ts|
    decreases ts, 0
  {
    if ts == [] then 0 else Size(ts[0]) + SizeAll(ts[1..])
  }

  lemma FirstAndRest(ts: seq<Tree>)
    requires AllWellFormed(ts) && ts != []
    ensures ts[0].WellFormed() && AllWellFormed(ts[0].children) && AllWellFormed(ts[1..])
    ensures ts[0].children != [] ==> Size(ts[0]) == SizeAll(ts[0].children) + 2
    ensures SizeAll(ts[0].children) < Size(ts[0]) && SizeAll(ts[1..]) == SizeAll(ts) - Size(ts[0])
  {
    assert ts[0] in ts && forall u <- ts[1..] :: u in ts;
  }

  datatype Entry = Null | Die(info: Info, hasChild: bool, sibling: seq<nat>)

  /** The entries of a tree placed at pos; a sibling attribute names the place just behind the tree. */
  function Flatten(t: Tree, pos: nat): (es: seq<Entry>)
    ensures |es| == Size(t)
    decreases t, 1
  {
    [Die(t.info, t.hasChild, if t.hasSibling then [pos + Size(t)] else [])]
    + if t.hasChild then FlattenAll(t.children, pos + 1) + [Null] else []
  }

  function FlattenAll(ts: seq<Tree>, pos: nat): (es: seq<Entry>)
    ensures |es| == SizeAll(ts)
    decreases ts, 0
  {
    if ts == [] then [] else Flatten(ts[0], pos) + FlattenAll(ts[1..], pos + Size(ts[0]))
  }

  /** The entries from pos on are exactly these siblings with their descendants. */
  ghost predicate LaidOut(es: seq<Entry>, pos: nat, ts: seq<Tree>) {
    pos + SizeAll(ts) <= |es| && es[pos..pos + SizeAll(ts)] == FlattenAll(ts, pos) && AllWellFormed(ts)
  }

  /** ... and that is the end of their chain. */
  ghost predicate ChainAt(es: seq<Entry>, pos: nat, ts: seq<Tree>) {
    LaidOut(es, pos, ts) && (pos + SizeAll(ts) == |es| || es[pos + SizeAll(ts)].Null?)
  }

  /** The layout of the first sibling and its children ... */
  lemma LaidOutFirst(es: seq<Entry>, pos: nat, ts: seq<Tree>)
    requires LaidOut(es, pos, ts) && ts != []
    ensures pos + Size(ts[0]) <= |es|
    ensures es[pos] == Die(ts[0].info, ts[0].hasChild, if ts[0].hasSibling then [pos + Size(ts[0])] else [])
    ensures ts[0].hasChild ==> LaidOut(es, pos + 1, ts[0].children) && es[pos + Size(ts[0]) - 1] == Null
    ensures ts[0].children != [] ==> ts[0].hasChild
  {
    var t := ts[0];
    assert t in ts && t.WellFormed();
    assert FlattenAll(ts, pos)[..Size(t)] == Flatten(t, pos);
    assert es[pos..pos + Size(t)] == es[pos..pos + SizeAll(ts)][..Size(t)];
    TreeParts(es, pos, t);
  }

  lemma TreeParts(es: seq<Entry>, pos: nat, t: Tree)
    requires pos + Size(t) <= |es| && es[pos..pos + Size(t)] == Flatten(t, pos) && t.WellFormed()
    ensures es[pos] == Die(t.info, t.hasChild, if t.hasSibling then [pos + Size(t)] else [])
    ensures t.hasChild ==> LaidOut(es, pos + 1, t.children) && es[pos + Size(t) - 1] == Null
  {
    var mine := es[pos..pos + Size(t)];
    assert es[pos] == mine[0];
    if t.hasChild {
      var below := FlattenAll(t.children, pos + 1);
      assert mine == [mine[0]] + (below + [Null]);
      assert |below| == SizeAll(t.children);
      hide Flatten, FlattenAll;
      Middle(mine[0], below, Null, mine);
      SliceOfSlice(es, pos, pos + Size(t), 1, |below| + 1);
      assert es[pos + 1 + |below|] == mine[|below| + 1];
    }
  }

  lemma SliceOfSlice<T>(s: seq<T>, from: nat, to: nat, i: nat, j: nat)
    requires i <= j && from + j <= to <= |s|
    ensures s[from..to][i..j] == s[from + i..from + j]
  {
    var part := s[from..to];
    assert forall k :: i <= k < j ==> part[k] == s[from + k];
  }

  lemma Middle<T>(first: T, middle: seq<T>, last: T, whole: seq<T>)
    requires whole == [first] + (middle + [last])
    ensures whole[1..|middle| + 1] == middle && whole[|middle| + 1] == last
  {
  }

  /** ... and of the siblings behind it. */
  lemma LaidOutRest(es: seq<Entry>, pos: nat, ts: seq<Tree>)
    requires LaidOut(es, pos, ts) && ts != []
    ensures LaidOut(es, pos + Size(ts[0]), ts[1..])
  {
    var n, all := Size(ts[0]), pos + SizeAll(ts);
    assert forall t <- ts[1..] :: t in ts;
    assert es[pos + n..all] == es[pos..all][n..];
  }

  /** A chain of siblings starts with an entry, never with a null one. */
  lemma ChainStarts(es: seq<Entry>, pos: nat, ts: seq<Tree>)
    requires ChainAt(es, pos, ts)
    ensures ts == [] <==> pos == |es| || es[pos].Null?
  {
    if ts != [] {
      LaidOutFirst(es, pos, ts);
    }
  }

  lemma ChainSizes(es: seq<Entry>, pos: nat, ts: seq<Tree>)
    requires ChainAt(es, pos, ts) && ts != []
    ensures SizeAll(ts) == Size(ts[0]) + SizeAll(ts[1..]) && SizeAll(ts[0].children) < SizeAll(ts)
  {
    FirstAndRest(ts);
  }
}
