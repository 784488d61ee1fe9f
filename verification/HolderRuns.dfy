/** Shared ownership as DieHolder and SrcfilesHolder promise it: what a holder shows, and which payloads
    have been freed, over any run of constructions, copies, assignments and destructions. */
module HolderRuns {

  datatype Option<+T> = None | Some(value: T)

  /** What a holder shows: the payload, if any, and the holder's own printed mark. */
  datatype Slot<P> = Slot(payload: Option<P>, printed: bool)

  /** The live holders, the payloads wrapped so far, and the payloads freed, in order. */
  datatype World<Id, P> = World(held: map<Id, Slot<P>>, wrapped: set<P>, freed: seq<P>)

  datatype Op<Id, P> =
    | New(id: Id)
    | Wrap(id: Id, payload: P)
    | Copy(id: Id, source: Id)
    | Assign(id: Id, source: Id)
    | Destroy(id: Id)
    | Mark(id: Id)

  /** Holders are used while they live, and a raw payload is wrapped once. */
  predicate Allowed<Id, P>(w: World<Id, P>, op: Op<Id, P>) {
    match op
    case New(id) => id !in w.held
    case Wrap(id, payload) => id !in w.held && payload !in w.wrapped
    case Copy(id, source) => id !in w.held && source in w.held
    case Assign(id, source) => id in w.held && source in w.held
    case Destroy(id) => id in w.held
    case Mark(id) => id in w.held
  }

  ghost predicate HeldBy<Id, P>(w: World<Id, P>, id: Id, payload: P) {
    id in w.held && w.held[id].payload == Some(payload)
  }

  ghost predicate Held<Id, P>(w: World<Id, P>, payload: P) {
    exists id <- w.held :: HeldBy(w, id, payload)
  }

  /** What goes when a holder lets go: its payload, if no other holder has it. */
  ghost function LetGo<Id, P>(w: World<Id, P>, id: Id): (gone: seq<P>)
    requires id in w.held
  {
    match w.held[id].payload
    case None => []
    case Some(p) => if exists other <- w.held :: other != id && HeldBy(w, other, p) then [] else [p]
  }

  ghost function Step<Id, P>(w: World<Id, P>, op: Op<Id, P>): World<Id, P>
    requires Allowed(w, op)
  {
    match op
    case New(id) => w.(held := w.held[id := Slot(None, false)])
    case Wrap(id, payload) => w.(held := w.held[id := Slot(Some(payload), false)], wrapped := w.wrapped + {payload})
    case Copy(id, source) => w.(held := w.held[id := w.held[source]])
    case Assign(id, source) =>
      if id == source then w
      else World(w.held[id := w.held[source]], w.wrapped, w.freed + LetGo(w, id))
    case Destroy(id) => World(w.held - {id}, w.wrapped, w.freed + LetGo(w, id))
    case Mark(id) => w.(held := w.held[id := w.held[id].(printed := true)])
  }

  function Start<Id, P>(): World<Id, P> { World(map[], {}, []) }

  ghost predicate Runs<Id, P>(w: World<Id, P>, ops: seq<Op<Id, P>>)
    decreases |ops|
  {
    ops == [] || (Allowed(w, ops[0]) && Runs(Step(w, ops[0]), ops[1..]))
  }

  ghost function Run<Id, P>(w: World<Id, P>, ops: seq<Op<Id, P>>): World<Id, P>
    requires Runs(w, ops)
    decreases |ops|
  {
    if ops == [] then w else Run(Step(w, ops[0]), ops[1..])
  }

  // ----- what every run keeps

  /** Each wrapped payload is held and not freed, or freed once and not held; no other is either. */
  ghost predicate Sound<Id, P>(w: World<Id, P>) {
    && (forall p <- w.wrapped :: multiset(w.freed)[p] == if Held(w, p) then 0 else 1)
    && (forall p <- w.freed :: p in w.wrapped)
    && (forall id <- w.held :: w.held[id].payload.Some? ==> w.held[id].payload.value in w.wrapped)
  }

  /** Letting go frees the payload exactly when it is then held no more. */
  lemma LetGoFrees<Id, P>(w: World<Id, P>, id: Id, after: World<Id, P>)
    requires Sound(w) && id in w.held && after.wrapped == w.wrapped && after.freed == w.freed + LetGo(w, id)
    requires forall other, p :: other != id ==> (HeldBy(after, other, p) <==> HeldBy(w, other, p))
    requires forall p :: HeldBy(after, id, p) ==> exists other :: other != id && HeldBy(w, other, p)
    ensures Sound(after)
  {
    forall p | p in after.wrapped ensures multiset(after.freed)[p] == if Held(after, p) then 0 else 1 {
      if HeldBy(w, id, p) {
        assert Held(w, p);
        if other :| other in w.held && other != id && HeldBy(w, other, p) {
          assert HeldBy(after, other, p);
        }
      } else if other :| other in w.held && HeldBy(w, other, p) {
        assert HeldBy(after, other, p) && Held(w, p);
      }
    }
    forall other | other in after.held && after.held[other].payload.Some?
      ensures after.held[other].payload.value in after.wrapped
    {
      assert HeldBy(after, other, after.held[other].payload.value);
    }
  }

  lemma StepKeepsSound<Id, P>(w: World<Id, P>, op: Op<Id, P>)
    requires Sound(w) && Allowed(w, op)
    ensures Sound(Step(w, op))
  {
    hide Sound, LetGo;
    var after := Step(w, op);
    match op
    case New(id) => SameHeld(w, after);
    case Copy(id, source) =>
      forall p | HeldBy(after, id, p) ensures Held(w, p) { assert HeldBy(w, source, p); }
      forall p | Held(w, p) ensures Held(after, p) {
        var other :| other in w.held && HeldBy(w, other, p);
        assert HeldBy(after, other, p);
      }
      SameHeld(w, after);
    case Mark(id) =>
      assert forall other, p :: HeldBy(after, other, p) <==> HeldBy(w, other, p);
      SameHeld(w, after);
    case Wrap(id, payload) => WrapKeepsSound(w, id, payload);
    case Assign(id, source) =>
      if id != source {
        assert forall p :: HeldBy(after, id, p) ==> HeldBy(w, source, p);
        LetGoFrees(w, id, after);
      }
    case Destroy(id) => LetGoFrees(w, id, after);
  }

  /** Nothing is wrapped or freed, and the same payloads are held. */
  lemma SameHeld<Id, P>(w: World<Id, P>, after: World<Id, P>)
    requires Sound(w) && after.wrapped == w.wrapped && after.freed == w.freed
    requires (forall id, p :: HeldBy(after, id, p) ==> HeldBy(w, id, p) || Held(w, p))
    requires (forall id, p :: HeldBy(w, id, p) ==> HeldBy(after, id, p) || Held(after, p))
    ensures Sound(after)
  {
    forall id | id in after.held && after.held[id].payload.Some? ensures after.held[id].payload.value in after.wrapped {
      assert HeldBy(after, id, after.held[id].payload.value);
    }
  }

  lemma WrapKeepsSound<Id, P>(w: World<Id, P>, id: Id, payload: P)
    requires Sound(w) && id !in w.held && payload !in w.wrapped
    ensures Sound(Step(w, Wrap(id, payload)))
  {
    var after := Step(w, Wrap(id, payload));
    assert HeldBy(after, id, payload);
    assert multiset(w.freed)[payload] == 0;
    assert forall other, p :: p != payload ==> (HeldBy(after, other, p) <==> HeldBy(w, other, p));
    forall p | p in after.wrapped ensures multiset(after.freed)[p] == if Held(after, p) then 0 else 1 {
      if p != payload && Held(w, p) {
        var other :| other in w.held && HeldBy(w, other, p);
        assert HeldBy(after, other, p);
      }
    }
  }

  /** Over every run from nothing: while a holder of a payload lives the payload is not freed, and once the
      last one is gone it has been freed exactly once. */
  lemma {:induction false} RunsAreSound<Id, P>(w: World<Id, P>, ops: seq<Op<Id, P>>)
    requires Sound(w) && Runs(w, ops)
    ensures Sound(Run(w, ops))
    decreases |ops|
  {
    if ops != [] {
      StepKeepsSound(w, ops[0]);
      RunsAreSound(Step(w, ops[0]), ops[1..]);
    }
  }

  /** When no holder is left every wrapped payload has been freed once, and nothing else has. */
  lemma NothingLeaks<Id, P>(ops: seq<Op<Id, P>>)
    requires Runs(Start<Id, P>(), ops)
    ensures var end := Run(Start<Id, P>(), ops);
            end.held == map[] ==> multiset(end.freed) == multiset(end.wrapped)
  {
    var start := Start<Id, P>();
    RunsAreSound(start, ops);
    var end := Run(start, ops);
    if end.held == map[] {
      assert forall p :: !Held(end, p);
      assert forall p :: p in end.freed ==> p in end.wrapped;
      forall p ensures multiset(end.freed)[p] == multiset(end.wrapped)[p] {
        if p in end.wrapped {} else { assert p !in end.freed; }
      }
    }
  }

  // ----- what one holder shows

  /** An operation leaves all holders but its own as they are. A copied or assigned holder shows what the other one
      shows, its mark included; marking changes only the mark; and a wrapped payload starts unmarked. */
  lemma StepShows<Id, P>(w: World<Id, P>, op: Op<Id, P>)
    requires Allowed(w, op)
    ensures forall id | id != op.id :: id in w.held <==> id in Step(w, op).held
    ensures forall id <- w.held | id != op.id :: Step(w, op).held[id] == w.held[id]
    ensures op.Destroy? <==> op.id !in Step(w, op).held
    ensures op.Copy? || op.Assign? ==> Step(w, op).held[op.id] == w.held[op.source]
    ensures op.Mark? ==> Step(w, op).held[op.id] == Slot(w.held[op.id].payload, true)
    ensures op.Wrap? ==> Step(w, op).held[op.id] == Slot(Some(op.payload), false)
    ensures op.New? ==> Step(w, op).held[op.id] == Slot(None, false)
  {
    hide LetGo;
  }

  /** What a holder shows at the end of a run, if it lives: followed back through the copies it was made by. */
  function Shown<Id(==), P>(ops: seq<Op<Id, P>>, id: Id): Option<Slot<P>>
    decreases |ops|
  {
    if ops == [] then None
    else
      var op, before := ops[|ops| - 1], ops[..|ops| - 1];
      if op.id != id then Shown(before, id)
      else
        match op
        case New(_) => Some(Slot(None, false))
        case Wrap(_, payload) => Some(Slot(Some(payload), false))
        case Copy(_, source) => Shown(before, source)
        case Assign(_, source) => Shown(before, source)
        case Destroy(_) => None
        case Mark(_) => if Shown(before, id).Some? then Some(Slot(Shown(before, id).value.payload, true)) else None
  }

  lemma {:induction false} RunSplit<Id, P>(w: World<Id, P>, a: seq<Op<Id, P>>, b: seq<Op<Id, P>>)
    requires Runs(w, a + b)
    ensures Runs(w, a) && Runs(Run(w, a), b) && Run(w, a + b) == Run(Run(w, a), b)
    decreases |a|
  {
    hide Step, Allowed;
    if a == [] {
      assert a + b == b;
    } else {
      assert (a + b)[1..] == a[1..] + b && (a + b)[0] == a[0];
      RunSplit(Step(w, a[0]), a[1..], b);
    }
  }

  lemma {:induction false} RunShows<Id, P>(ops: seq<Op<Id, P>>, id: Id)
    requires Runs(Start<Id, P>(), ops)
    ensures var held := Run(Start<Id, P>(), ops).held;
            Shown(ops, id) == if id in held then Some(held[id]) else None
    decreases |ops|
  {
    hide Step, Allowed;
    if ops != [] {
      var op, before := ops[|ops| - 1], ops[..|ops| - 1];
      assert ops == before + [op];
      RunSplit(Start<Id, P>(), before, [op]);
      var w := Run(Start<Id, P>(), before);
      OneStep(w, op);
      StepShows(w, op);
      RunShows(before, id);
      if op.Copy? || op.Assign? { RunShows(before, op.source); SourceLives(w, op); }
      if op.Mark? { SourceLives(w, op); }
    }
  }

  lemma OneStep<Id, P>(w: World<Id, P>, op: Op<Id, P>)
    requires Runs(w, [op])
    ensures Allowed(w, op) && Run(w, [op]) == Step(w, op)
  {
    hide Step, Allowed;
    assert [op][1..] == [];
  }

  lemma SourceLives<Id, P>(w: World<Id, P>, op: Op<Id, P>)
    requires Allowed(w, op)
    ensures op.Copy? || op.Assign? ==> op.source in w.held
    ensures op.Mark? ==> op.id in w.held
  {
  }
}
