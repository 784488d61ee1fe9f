/** Naming functions by their low pc: what a subprogram entry says, which entries count, and the
    two answers one can give, the first match of a search and the last write of a map. */
module ProcNames {
  import opened DieTree

  const DW_TAG_subprogram: nat := 0x2e
  const BUFSIZ: nat := 8192

  datatype Option<+T> = None | Some(value: T)

  /** A function: its low pc and its name. */
  datatype Proc = Proc(pc: nat, name: string)

  // ----- one entry's attributes

  /** What reading an attribute does to the name and pc found so far: DW_AT_name always wins,
      an abstract origin or specification only counts while there is no name. */
  function Note(attr: Attr, name: Option<string>, pc: Option<nat>): (Option<string>, Option<nat>) {
    match attr
    case Name(n) => (Some(n), pc)
    case Origin(resolved) => (if name.None? && resolved != [] then Some(resolved[0]) else name, pc)
    case LowPc(p) => (name, Some(p))
    case OtherAttr(_) => (name, pc)
  }

  /** Attributes are read in order until both are found. */
  function ScanAttrs(attrs: seq<Attr>, name: Option<string>, pc: Option<nat>): Option<Proc> {
    if name.Some? && pc.Some? then Some(Proc(pc.value, name.value))
    else if attrs == [] then None
    else
      var (name', pc') := Note(attrs[0], name, pc);
      ScanAttrs(attrs[1..], name', pc')
  }

  function ProcOf(info: Info): Option<Proc> { ScanAttrs(info.attrs, None, None) }

  /** An entry names a function exactly when it has a low pc and some name: a DW_AT_name, or an origin
      that leads to one. */
  lemma {:induction false} ScanFinds(attrs: seq<Attr>, name: Option<string>, pc: Option<nat>)
    ensures ScanAttrs(attrs, name, pc).Some? <==>
            && (name.Some? || exists a <- attrs :: a.Name? || (a.Origin? && a.resolved != []))
            && (pc.Some? || exists a <- attrs :: a.LowPc?)
    decreases attrs
  {
    if attrs != [] {
      var (name', pc') := Note(attrs[0], name, pc);
      ScanFinds(attrs[1..], name', pc');
      assert attrs == [attrs[0]] + attrs[1..];
    }
  }

  // ----- the functions of a sibling chain

  /** The functions of a chain in preorder. Only the children of subprograms are looked at. */
  function Procs(ts: seq<Tree>): seq<Proc> {
    if ts == [] then [] else TreeProcs(ts[0]) + Procs(ts[1..])
  }

  function TreeProcs(t: Tree): seq<Proc> {
    if t.info.tag != DW_TAG_subprogram then []
    else (if ProcOf(t.info).Some? then [ProcOf(t.info).value] else []) + Procs(t.children)
  }

  /** The search's answer: the first function with this pc. */
  function FirstNamed(procs: seq<Proc>, pc: nat): Option<string> {
    if procs == [] then None
    else if procs[0].pc == pc then Some(procs[0].name)
    else FirstNamed(procs[1..], pc)
  }

  /** The map's answer: later functions overwrite earlier ones. */
  function Record(m: map<nat, string>, procs: seq<Proc>): map<nat, string>
    decreases procs
  {
    if procs == [] then m else Record(m[procs[0].pc := procs[0].name], procs[1..])
  }

  function Lookup(m: map<nat, string>, pc: nat): Option<string> {
    if pc in m then Some(m[pc]) else None
  }

  predicate DistinctPcs(procs: seq<Proc>) {
    forall i, j :: 0 <= i < j < |procs| ==> procs[i].pc != procs[j].pc
  }

  lemma {:induction false} RecordConcat(m: map<nat, string>, a: seq<Proc>, b: seq<Proc>)
    ensures Record(m, a + b) == Record(Record(m, a), b)
    decreases a
  {
    if a == [] {
      assert a + b == b;
    } else {
      assert (a + b)[1..] == a[1..] + b;
      RecordConcat(m[a[0].pc := a[0].name], a[1..], b);
    }
  }

  lemma {:induction false} FirstConcat(a: seq<Proc>, b: seq<Proc>, pc: nat)
    ensures FirstNamed(a + b, pc) == if FirstNamed(a, pc).Some? then FirstNamed(a, pc) else FirstNamed(b, pc)
    decreases a
  {
    if a == [] {
      assert a + b == b;
    } else {
      assert (a + b)[1..] == a[1..] + b;
      FirstConcat(a[1..], b, pc);
    }
  }

  /** Map and search know the same pcs, whatever the functions. */
  lemma {:induction false} SamePcs(m: map<nat, string>, procs: seq<Proc>, pc: nat)
    ensures pc in Record(m, procs) <==> pc in m || FirstNamed(procs, pc).Some?
    ensures FirstNamed(procs, pc).None? ==> Lookup(Record(m, procs), pc) == Lookup(m, pc)
    decreases procs
  {
    if procs != [] {
      SamePcs(m[procs[0].pc := procs[0].name], procs[1..], pc);
    }
  }

  /** With distinct pcs they also agree on the names. */
  lemma {:induction false} MapRefinesSearch(m: map<nat, string>, procs: seq<Proc>, pc: nat)
    requires DistinctPcs(procs)
    ensures FirstNamed(procs, pc).Some? ==> Lookup(Record(m, procs), pc) == FirstNamed(procs, pc)
    decreases procs
  {
    if procs != [] {
      var m' := m[procs[0].pc := procs[0].name];
      MapRefinesSearch(m', procs[1..], pc);
      SamePcs(m', procs[1..], pc);
      if procs[0].pc == pc {
        NotLater(procs[1..], pc);
      }
    }
  }

  lemma {:induction false} NotLater(procs: seq<Proc>, pc: nat)
    requires forall p <- procs :: p.pc != pc
    ensures FirstNamed(procs, pc).None?
  {
    if procs != [] {
      NotLater(procs[1..], pc);
    }
  }

  /** The map's answer: the last function with this pc. */
  function LastNamed(procs: seq<Proc>, pc: nat): Option<string> {
    if procs == [] then None
    else if procs[|procs| - 1].pc == pc then Some(procs[|procs| - 1].name)
    else LastNamed(procs[..|procs| - 1], pc)
  }

  lemma {:induction false} MapKeepsLast(m: map<nat, string>, procs: seq<Proc>, pc: nat)
    ensures Lookup(Record(m, procs), pc)
            == if LastNamed(procs, pc).Some? then LastNamed(procs, pc) else Lookup(m, pc)
    decreases procs
  {
    if procs != [] {
      var rest, last := procs[..|procs| - 1], procs[|procs| - 1];
      assert procs == rest + [last];
      RecordConcat(m, rest, [last]);
      MapKeepsLast(m, rest, pc);
      assert Record(Record(m, rest), [last]) == Record(m, rest)[last.pc := last.name];
    }
  }

  /** The function at i is the first one listed at the pc, the one at j the last. */
  ghost predicate FirstAt(procs: seq<Proc>, pc: nat, i: nat) {
    i < |procs| && procs[i].pc == pc && forall k :: 0 <= k < i ==> procs[k].pc != pc
  }

  ghost predicate LastAt(procs: seq<Proc>, pc: nat, j: nat) {
    j < |procs| && procs[j].pc == pc && forall k :: j < k < |procs| ==> procs[k].pc != pc
  }

  lemma {:induction false} FirstNamedAt(procs: seq<Proc>, pc: nat, i: nat)
    requires FirstAt(procs, pc, i)
    ensures FirstNamed(procs, pc) == Some(procs[i].name)
  {
    if i > 0 {
      assert procs[0].pc != pc;
      FirstNamedAt(procs[1..], pc, i - 1);
    }
  }

  lemma {:induction false} LastNamedAt(procs: seq<Proc>, pc: nat, j: nat)
    requires LastAt(procs, pc, j)
    ensures LastNamed(procs, pc) == Some(procs[j].name)
    decreases |procs|
  {
    if j < |procs| - 1 {
      assert procs[|procs| - 1].pc != pc;
      LastNamedAt(procs[..|procs| - 1], pc, j);
    }
  }

  lemma {:induction false} LastIndex(procs: seq<Proc>, pc: nat) returns (j: nat)
    requires exists p <- procs :: p.pc == pc
    ensures LastAt(procs, pc, j)
    decreases |procs|
  {
    var n := |procs| - 1;
    if procs[n].pc == pc {
      j := n;
    } else {
      assert procs == procs[..n] + [procs[n]];
      j := LastIndex(procs[..n], pc);
    }
  }

  lemma {:induction false} FirstIndex(procs: seq<Proc>, pc: nat) returns (i: nat)
    requires exists p <- procs :: p.pc == pc
    ensures FirstAt(procs, pc, i)
  {
    if procs[0].pc == pc {
      i := 0;
    } else {
      assert procs == [procs[0]] + procs[1..];
      i := FirstIndex(procs[1..], pc);
      i := i + 1;
    }
  }

  /** Search and map agree on a pc exactly when the first and the last function listed at it have one name. */
  lemma SearchIsMap(procs: seq<Proc>, pc: nat)
    ensures FirstNamed(procs, pc) == Lookup(Record(map[], procs), pc)
            <==> forall i: nat, j: nat :: FirstAt(procs, pc, i) && LastAt(procs, pc, j) ==> procs[i].name == procs[j].name
  {
    MapKeepsLast(map[], procs, pc);
    if exists p <- procs :: p.pc == pc {
      var i := FirstIndex(procs, pc);
      var j := LastIndex(procs, pc);
      FirstNamedAt(procs, pc, i);
      LastNamedAt(procs, pc, j);
    } else {
      NotLater(procs, pc);
      SamePcs(map[], procs, pc);
      assert forall i: nat :: i < |procs| ==> procs[i] in procs;
    }
  }

  /** Two functions at one pc: the search and the map give different names. */
  lemma DuplicatePcsDiffer()
    ensures var procs := [Proc(16, "first"), Proc(16, "second")];
            FirstNamed(procs, 16) == Some("first") && Lookup(Record(map[], procs), 16) == Some("second")
  {
    var procs := [Proc(16, "first"), Proc(16, "second")];
    MapKeepsLast(map[], procs, 16);
    assert LastNamed(procs, 16) == Some("second");
  }

  // ----- fixed-size name buffers

  /** safe_strcpy into a buffer of BUFSIZ characters. */
  function Truncated(s: string): (t: string)
    ensures |t| < BUFSIZ && t <= s
    ensures |s| < BUFSIZ ==> t == s
    ensures |s| >= BUFSIZ ==> |t| == BUFSIZ - 1
  {
    if |s| >= BUFSIZ - 1 then s[..BUFSIZ - 1] else s
  }

  function TruncatedOption(name: Option<string>): Option<string> {
    match name
    case None => None
    case Some(s) => Some(Truncated(s))
  }
}
