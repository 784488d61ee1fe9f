/** The holders' counters as the classes keep them, step by step, and why they do what HolderRuns says:
    a counter that comes to zero had no other holder of its payload. */
module HolderCounts {
  import opened HolderRuns

  /** A holder's members. */
  datatype Record<C, P> = Record(payload: Option<P>, refcount: C, printed: bool)

  /** A counter's value, and what its holders hold. */
  datatype Count<P> = Count(value: int, payload: Option<P>)

  /** The holders, the counters that are not deleted, the counter each payload was given, and the frees. */
  datatype State<H, C, P> = State(records: map<H, Record<C, P>>, counts: map<C, Count<P>>,
                                  owner: map<P, C>, freed: seq<P>)

  ghost function WorldOf<H, C, P>(s: State<H, C, P>): World<H, P> {
    World(map h | h in s.records :: SlotOf(s.records[h]), s.owner.Keys, s.freed)
  }

  function SlotOf<C, P>(r: Record<C, P>): Slot<P> { Slot(r.payload, r.printed) }

  ghost function Sharers<H, C, P>(s: State<H, C, P>, c: C): set<H> {
    set h | h in s.records && s.records[h].refcount == c
  }

  /** A holder's counter is not deleted, and is the one its payload has. */
  predicate Linked<C, P>(r: Record<C, P>, counts: map<C, Count<P>>, owner: map<P, C>) {
    && r.refcount in counts && counts[r.refcount].payload == r.payload
    && (r.payload.Some? ==> r.payload.value in owner && owner[r.payload.value] == r.refcount)
  }

  predicate AllLinked<H, C, P>(s: State<H, C, P>) {
    forall h <- s.records :: Linked(s.records[h], s.counts, s.owner)
  }

  /** A counter counts the holders that use it. */
  ghost predicate Counts<H, C, P>(s: State<H, C, P>, c: C) {
    c in s.counts ==> s.counts[c].value == |Sharers(s, c)| > 0
  }

  ghost predicate Consistent<H, C, P>(s: State<H, C, P>) {
    AllLinked(s) && forall c <- s.counts :: Counts(s, c)
  }

  // ----- the steps the classes make

  /** A constructor with its own counter. */
  function Construct<H, C, P>(s: State<H, C, P>, h: H, c: C, payload: Option<P>): State<H, C, P> {
    State(s.records[h := Record(payload, c, false)], s.counts[c := Count(1, payload)],
          (if payload.Some? then s.owner[payload.value := c] else s.owner), s.freed)
  }

  function Add<C, P>(counts: map<C, Count<P>>, c: C, n: int): map<C, Count<P>>
    requires c in counts
  {
    counts[c := counts[c].(value := counts[c].value + n)]
  }

  /** The copy constructor. */
  function CopyOf<H, C, P>(s: State<H, C, P>, h: H, d: H): State<H, C, P>
    requires d in s.records && s.records[d].refcount in s.counts
  {
    s.(records := s.records[h := s.records[d]], counts := Add(s.counts, s.records[d].refcount, 1))
  }

  function Frees<P>(payload: Option<P>): seq<P> { if payload.Some? then [payload.value] else [] }

  /** `(*refcount_)--`, and the counter and the payload are freed when it comes to zero. */
  function Decrement<H, C, P>(s: State<H, C, P>, r: Record<C, P>): State<H, C, P>
    requires r.refcount in s.counts
  {
    if s.counts[r.refcount].value == 1 then
      s.(counts := s.counts - {r.refcount}, freed := s.freed + Frees(r.payload))
    else s.(counts := Add(s.counts, r.refcount, -1))
  }

  /** The destructor. */
  function Destruct<H, C, P>(s: State<H, C, P>, h: H): State<H, C, P>
    requires h in s.records && s.records[h].refcount in s.counts
  {
    var after := Decrement(s, s.records[h]);
    after.(records := after.records - {h})
  }

  /** The assignment operator: the source's counter goes up before the target's own goes down. */
  function AssignTo<H, C, P>(s: State<H, C, P>, h: H, d: H): State<H, C, P>
    requires h in s.records && d in s.records && s.records[h].refcount in s.counts && s.records[d].refcount in s.counts
  {
    if h == d then s
    else
      var after := Decrement(s.(counts := Add(s.counts, s.records[d].refcount, 1)), s.records[h]);
      after.(records := after.records[h := s.records[d]])
  }

  function MarkPrinted<H, C, P>(s: State<H, C, P>, h: H): State<H, C, P>
    requires h in s.records
  {
    s.(records := s.records[h := s.records[h].(printed := true)])
  }

  // ----- the counters do what the specification says

  lemma CardinalityMonotone<T>(a: set<T>, b: set<T>)
    requires a <= b
    ensures |a| <= |b|
  {
    assert b == a + (b - a);
  }

  /** A holder that is alone with its counter. */
  lemma CountOne<H, C, P>(s: State<H, C, P>, h: H)
    requires h in s.records && s.records[h].refcount in s.counts && Counts(s, s.records[h].refcount)
    ensures s.counts[s.records[h].refcount].value == 1 <==> Sharers(s, s.records[h].refcount) == {h}
  {
    var sharers := Sharers(s, s.records[h].refcount);
    if other :| other in sharers && other != h {
      CardinalityMonotone({h, other}, sharers);
    } else {
      assert sharers == {h};
    }
  }

  /** What the counter says about letting go. */
  lemma CounterTells<H, C, P>(s: State<H, C, P>, h: H)
    requires Consistent(s) && h in s.records
    ensures var r := s.records[h];
            LetGo(WorldOf(s), h) == if s.counts[r.refcount].value == 1 then Frees(r.payload) else []
  {
    var r, w := s.records[h], WorldOf(s);
    CountOne(s, h);
    var sharers := Sharers(s, r.refcount);
    if r.payload.Some? {
      var p := r.payload.value;
      assert forall other :: HeldBy(w, other, p) <==> other in sharers by {
        assert forall other :: other in s.records ==> Linked(s.records[other], s.counts, s.owner);
      }
      if other :| other in w.held && other != h && HeldBy(w, other, p) {
        assert other in sharers;
      } else {
        assert sharers == {h};
      }
    }
  }

  // Construct

  lemma ConstructLinked<H, C, P>(s: State<H, C, P>, h: H, c: C, payload: Option<P>)
    requires AllLinked(s) && h !in s.records && c !in s.counts && (payload.Some? ==> payload.value !in s.owner)
    ensures AllLinked(Construct(s, h, c, payload))
  {
  }

  lemma ConstructCounted<H, C, P>(s: State<H, C, P>, h: H, c: C, payload: Option<P>)
    requires AllLinked(s) && (forall d <- s.counts :: Counts(s, d)) && h !in s.records && c !in s.counts
    ensures var after := Construct(s, h, c, payload); forall d <- after.counts :: Counts(after, d)
  {
    var after := Construct(s, h, c, payload);
    assert Sharers(after, c) == {h};
    forall d | d in s.counts ensures Counts(after, d) {
      assert Counts(s, d) && Sharers(after, d) == Sharers(s, d);
    }
  }

  lemma NewWorld<H, C, P>(s: State<H, C, P>, h: H, c: C)
    requires h !in s.records
    ensures WorldOf(Construct(s, h, c, None)) == Step(WorldOf(s), New(h))
  {
    hide LetGo;
  }

  lemma WrapWorld<H, C, P>(s: State<H, C, P>, h: H, c: C, p: P)
    requires h !in s.records && p !in s.owner
    ensures WorldOf(Construct(s, h, c, Some(p))) == Step(WorldOf(s), Wrap(h, p))
  {
    hide LetGo;
  }

  lemma ConstructIsNew<H, C, P>(s: State<H, C, P>, h: H, c: C)
    requires Consistent(s) && h !in s.records && c !in s.counts
    ensures Consistent(Construct(s, h, c, None))
    ensures WorldOf(Construct(s, h, c, None)) == Step(WorldOf(s), New(h))
  {
    ConstructLinked(s, h, c, None);
    ConstructCounted(s, h, c, None);
    NewWorld(s, h, c);
    hide AllLinked, Counts, LetGo, Step, WorldOf;
  }

  lemma ConstructIsWrap<H, C, P>(s: State<H, C, P>, h: H, c: C, p: P)
    requires Consistent(s) && h !in s.records && c !in s.counts && p !in s.owner
    ensures Consistent(Construct(s, h, c, Some(p)))
    ensures WorldOf(Construct(s, h, c, Some(p))) == Step(WorldOf(s), Wrap(h, p))
  {
    ConstructLinked(s, h, c, Some(p));
    ConstructCounted(s, h, c, Some(p));
    WrapWorld(s, h, c, p);
    hide AllLinked, Counts, LetGo, Step, WorldOf;
  }

  // CopyOf

  lemma CopyLinked<H, C, P>(s: State<H, C, P>, h: H, d: H)
    requires AllLinked(s) && h !in s.records && d in s.records
    ensures AllLinked(CopyOf(s, h, d))
  {
    assert Linked(s.records[d], s.counts, s.owner);
  }

  lemma CopyCounted<H, C, P>(s: State<H, C, P>, h: H, d: H)
    requires s.records.Keys >= {d} && s.records[d].refcount in s.counts
    requires (forall c <- s.counts :: Counts(s, c)) && h !in s.records
    ensures var after := CopyOf(s, h, d); forall c <- after.counts :: Counts(after, c)
  {
    var after, own := CopyOf(s, h, d), s.records[d].refcount;
    assert Sharers(after, own) == Sharers(s, own) + {h};
    forall c | c in s.counts ensures Counts(after, c) {
      assert Counts(s, c) && (c != own ==> Sharers(after, c) == Sharers(s, c));
    }
  }

  lemma CopyIsCopy<H, C, P>(s: State<H, C, P>, h: H, d: H)
    requires Consistent(s) && h !in s.records && d in s.records
    ensures Linked(s.records[d], s.counts, s.owner)
    ensures Consistent(CopyOf(s, h, d)) && WorldOf(CopyOf(s, h, d)) == Step(WorldOf(s), Copy(h, d))
  {
    assert Linked(s.records[d], s.counts, s.owner);
    CopyLinked(s, h, d);
    CopyCounted(s, h, d);
    hide AllLinked, Counts, LetGo;
  }

  // Destruct

  lemma DestructLinked<H, C, P>(s: State<H, C, P>, h: H)
    requires Consistent(s) && h in s.records
    ensures Linked(s.records[h], s.counts, s.owner)
    ensures AllLinked(Destruct(s, h))
  {
    CountOne(s, h);
    var after, own := Destruct(s, h), s.records[h].refcount;
    forall g | g in after.records ensures Linked(after.records[g], after.counts, after.owner) {
      assert Linked(s.records[g], s.counts, s.owner);
      assert s.records[g].refcount == own ==> g in Sharers(s, own);
    }
  }

  lemma DestructCounted<H, C, P>(s: State<H, C, P>, h: H)
    requires h in s.records && s.records[h].refcount in s.counts
    requires forall c <- s.counts :: Counts(s, c)
    ensures var after := Destruct(s, h); forall c <- after.counts :: Counts(after, c)
  {
    var after, own := Destruct(s, h), s.records[h].refcount;
    assert Sharers(after, own) == Sharers(s, own) - {h};
    assert h in Sharers(s, own);
    forall c | c in after.counts ensures Counts(after, c) {
      assert Counts(s, c) && (c != own ==> Sharers(after, c) == Sharers(s, c));
    }
  }

  lemma DestructIsDestroy<H, C, P>(s: State<H, C, P>, h: H)
    requires Consistent(s) && h in s.records
    ensures Linked(s.records[h], s.counts, s.owner)
    ensures Consistent(Destruct(s, h)) && WorldOf(Destruct(s, h)) == Step(WorldOf(s), Destroy(h))
  {
    DestructLinked(s, h);
    DestructCounted(s, h);
    CounterTells(s, h);
    hide AllLinked, Counts, LetGo;
    assert s.freed + [] == s.freed;
  }

  // AssignTo

  lemma AssignLinked<H, C, P>(s: State<H, C, P>, h: H, d: H)
    requires Consistent(s) && h in s.records && d in s.records
    ensures Linked(s.records[h], s.counts, s.owner) && Linked(s.records[d], s.counts, s.owner)
    ensures AllLinked(AssignTo(s, h, d))
  {
    CountOne(s, h);
    var after, own := AssignTo(s, h, d), s.records[h].refcount;
    assert Linked(s.records[d], s.counts, s.owner);
    assert h != d && s.records[d].refcount == own ==> d in Sharers(s, own) && s.counts[own].value > 1 by {
      assert Counts(s, own);
    }
    forall g | g in after.records ensures Linked(after.records[g], after.counts, after.owner) {
      assert Linked(s.records[g], s.counts, s.owner);
      assert s.records[g].refcount == own ==> g in Sharers(s, own);
    }
  }

  lemma AssignCounted<H, C, P>(s: State<H, C, P>, h: H, d: H)
    requires h in s.records && d in s.records && s.records[h].refcount in s.counts && s.records[d].refcount in s.counts
    requires forall c <- s.counts :: Counts(s, c)
    ensures var after := AssignTo(s, h, d); forall c <- after.counts :: Counts(after, c)
  {
    var after, own, theirs := AssignTo(s, h, d), s.records[h].refcount, s.records[d].refcount;
    assert h in Sharers(s, own) && d in Sharers(s, theirs);
    if own == theirs {
      assert forall c :: Sharers(after, c) == Sharers(s, c);
    } else {
      assert Sharers(after, own) == Sharers(s, own) - {h};
      assert Sharers(after, theirs) == Sharers(s, theirs) + {h};
    }
    forall c | c in after.counts ensures Counts(after, c) {
      assert Counts(s, c) && (c != own && c != theirs ==> Sharers(after, c) == Sharers(s, c));
    }
  }

  lemma AssignWorld<H, C, P>(s: State<H, C, P>, h: H, d: H, gone: seq<P>)
    requires h in s.records && d in s.records && s.records[h].refcount in s.counts && s.records[d].refcount in s.counts
    requires LetGo(WorldOf(s), h) == gone && AssignTo(s, h, d).freed == if h == d then s.freed else s.freed + gone
    ensures WorldOf(AssignTo(s, h, d)) == Step(WorldOf(s), Assign(h, d))
  {
    hide LetGo;
  }

  lemma AssignIsAssign<H, C, P>(s: State<H, C, P>, h: H, d: H)
    requires Consistent(s) && h in s.records && d in s.records
    ensures Linked(s.records[h], s.counts, s.owner) && Linked(s.records[d], s.counts, s.owner)
    ensures Consistent(AssignTo(s, h, d)) && WorldOf(AssignTo(s, h, d)) == Step(WorldOf(s), Assign(h, d))
  {
    AssignLinked(s, h, d);
    AssignCounted(s, h, d);
    CounterTells(s, h);
    assert h != d && s.records[d].refcount == s.records[h].refcount ==> s.counts[s.records[h].refcount].value > 1 by {
      CountOne(s, h);
      assert s.records[d].refcount == s.records[h].refcount ==> d in Sharers(s, s.records[h].refcount);
    }
    assert s.freed + [] == s.freed;
    AssignWorld(s, h, d, LetGo(WorldOf(s), h));
    hide AllLinked, Counts, LetGo, Step, WorldOf;
  }

  // MarkPrinted

  lemma MarkIsMark<H, C, P>(s: State<H, C, P>, h: H)
    requires Consistent(s) && h in s.records
    ensures Consistent(MarkPrinted(s, h)) && WorldOf(MarkPrinted(s, h)) == Step(WorldOf(s), Mark(h))
  {
    MarkLinked(s, h);
    MarkCounted(s, h);
    MarkWorld(s, h);
    hide AllLinked, Counts, LetGo, Step, WorldOf;
  }

  lemma MarkWorld<H, C, P>(s: State<H, C, P>, h: H)
    requires h in s.records
    ensures WorldOf(MarkPrinted(s, h)) == Step(WorldOf(s), Mark(h))
  {
    hide LetGo;
  }

  lemma MarkLinked<H, C, P>(s: State<H, C, P>, h: H)
    requires AllLinked(s) && h in s.records
    ensures AllLinked(MarkPrinted(s, h))
  {
  }

  lemma MarkCounted<H, C, P>(s: State<H, C, P>, h: H)
    requires h in s.records && forall c <- s.counts :: Counts(s, c)
    ensures var after := MarkPrinted(s, h); forall c <- after.counts :: Counts(after, c)
  {
    assert forall c :: Sharers(MarkPrinted(s, h), c) == Sharers(s, c);
  }

  // ----- whole runs

  /** An operation, and the counter the allocator gives it if it asks for one. */
  datatype Action<H, C, P> = Action(op: Op<H, P>, counter: C)

  predicate Ready<H, C, P>(s: State<H, C, P>, op: Op<H, P>, c: C) {
    match op
    case New(id) => id !in s.records && c !in s.counts
    case Wrap(id, p) => id !in s.records && c !in s.counts && p !in s.owner
    case Copy(id, d) => id !in s.records && d in s.records
    case Assign(id, d) => id in s.records && d in s.records
    case Destroy(id) => id in s.records
    case Mark(id) => id in s.records
  }

  ghost function Exec<H, C, P>(s: State<H, C, P>, op: Op<H, P>, c: C): State<H, C, P>
    requires Consistent(s) && Ready(s, op, c)
  {
    match op
    case New(id) => Construct(s, id, c, None)
    case Wrap(id, p) => Construct(s, id, c, Some(p))
    case Copy(id, d) => assert Linked(s.records[d], s.counts, s.owner); CopyOf(s, id, d)
    case Assign(id, d) =>
      assert Linked(s.records[id], s.counts, s.owner) && Linked(s.records[d], s.counts, s.owner);
      AssignTo(s, id, d)
    case Destroy(id) => assert Linked(s.records[id], s.counts, s.owner); Destruct(s, id)
    case Mark(id) => MarkPrinted(s, id)
  }

  lemma ExecIsStep<H, C, P>(s: State<H, C, P>, op: Op<H, P>, c: C)
    requires Consistent(s) && Ready(s, op, c)
    ensures Allowed(WorldOf(s), op)
    ensures Consistent(Exec(s, op, c)) && WorldOf(Exec(s, op, c)) == Step(WorldOf(s), op)
  {
    match op
    case New(id) => ConstructIsNew(s, id, c);
    case Wrap(id, p) => ConstructIsWrap(s, id, c, p);
    case Copy(id, d) => CopyIsCopy(s, id, d);
    case Assign(id, d) => AssignIsAssign(s, id, d);
    case Destroy(id) => DestructIsDestroy(s, id);
    case Mark(id) => MarkIsMark(s, id);
  }

  /** The run can be made, and what it leads to. */
  ghost predicate LeadsTo<H, C, P>(s: State<H, C, P>, actions: seq<Action<H, C, P>>, end: State<H, C, P>)
    requires Consistent(s)
    decreases |actions|
  {
    if actions == [] then s == end
    else
      var Action(op, c) := actions[0];
      && Ready(s, op, c)
      && (ExecIsStep(s, op, c); LeadsTo(Exec(s, op, c), actions[1..], end))
  }

  /** Over every run: a counter is the number of its holders, no live holder's payload has been freed, and a
      payload that no holder has any more has been freed exactly once. */
  lemma {:induction false} EveryRun<H, C, P>(s: State<H, C, P>, actions: seq<Action<H, C, P>>, end: State<H, C, P>)
    requires Consistent(s) && Sound(WorldOf(s)) && LeadsTo(s, actions, end)
    ensures forall c <- end.counts :: end.counts[c].value == |Sharers(end, c)| > 0
    ensures forall h <- end.records :: end.records[h].payload.Some? ==> end.records[h].payload.value !in end.freed
    ensures forall p <- end.owner :: (forall h <- end.records :: end.records[h].payload != Some(p))
                                     ==> multiset(end.freed)[p] == 1
    decreases |actions|
  {
    if actions == [] {
      assert forall c <- s.counts :: Counts(s, c);
      SoundHere(s);
    } else {
      var Action(op, c) := actions[0];
      ExecIsStep(s, op, c);
      StepKeepsSound(WorldOf(s), op);
      EveryRun(Exec(s, op, c), actions[1..], end);
    }
  }

  lemma SoundHere<H, C, P>(s: State<H, C, P>)
    requires Consistent(s) && Sound(WorldOf(s))
    ensures forall h <- s.records :: s.records[h].payload.Some? ==> s.records[h].payload.value !in s.freed
    ensures forall p <- s.owner :: (forall h <- s.records :: s.records[h].payload != Some(p)) ==> multiset(s.freed)[p] == 1
  {
    var w := WorldOf(s);
    forall h | h in s.records && s.records[h].payload.Some? ensures s.records[h].payload.value !in s.freed {
      assert HeldBy(w, h, s.records[h].payload.value);
    }
  }
}
