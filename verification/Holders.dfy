/** DieHolder and SrcfilesHolder: values that share a counter of how many of them there are, and free what
    they hold when the counter comes to zero. One class covers both; its payload says what is to be freed. */
module Holders {
  import opened HolderRuns
  import opened HolderCounts

  /** A DIE handle, or the names of a unit's source files with the list that held them. */
  datatype Payload = Die(die: nat) | Srcfiles(names: seq<nat>, list: nat)

  /** The dwarf_dealloc calls that free a payload. */
  function Deallocs(p: Payload): seq<nat> {
    match p
    case Die(die) => [die]
    case Srcfiles(names, list) => names + [list]
  }

  function AllDeallocs(freed: seq<Payload>): seq<nat> {
    if freed == [] then [] else AllDeallocs(freed[..|freed| - 1]) + Deallocs(freed[|freed| - 1])
  }

  lemma {:induction false} DeallocsJoin(a: seq<Payload>, b: seq<Payload>)
    ensures AllDeallocs(a + b) == AllDeallocs(a) + AllDeallocs(b)
    decreases |b|
  {
    hide Deallocs;
    if b == [] {
      assert a + b == a;
    } else {
      var n := |b| - 1;
      assert (a + b)[..|a| + n] == a + b[..n];
      DeallocsJoin(a, b[..n]);
    }
  }

  lemma DeallocsThree(a: seq<Payload>, p: Payload, b: seq<Payload>)
    ensures AllDeallocs(a + [p]) == AllDeallocs(a) + Deallocs(p)
    ensures AllDeallocs(a + [p] + b) == AllDeallocs(a) + Deallocs(p) + AllDeallocs(b)
  {
    hide *;
    OneMore(a, p);
    DeallocsJoin(a + [p], b);
  }

  lemma Parts<T>(s: seq<T>, k: nat)
    requires k < |s|
    ensures s[..k + 1] == s[..k] + [s[k]] && s == s[..k] + [s[k]] + s[k + 1..]
  {
  }

  lemma DeallocsSplit(freed: seq<Payload>, k: nat)
    requires k < |freed|
    ensures AllDeallocs(freed[..k + 1]) == AllDeallocs(freed[..k]) + Deallocs(freed[k])
    ensures AllDeallocs(freed) == AllDeallocs(freed[..k]) + Deallocs(freed[k]) + AllDeallocs(freed[k + 1..])
  {
    hide *;
    Parts(freed, k);
    DeallocsThree(freed[..k], freed[k], freed[k + 1..]);
  }

  lemma Inside(a: seq<nat>, part: seq<nat>, b: seq<nat>)
    ensures |a + part| == |a| + |part| <= |a + part + b|
    ensures forall i :: 0 <= i < |part| ==> (a + part + b)[|a| + i] == part[i]
  {
  }

  /** The calls for the k-th payload freed stand behind those for the payloads before it. For a unit's source files
      they release each name, in order, and the list behind all of them; for a DIE there is one. */
  lemma DeallocsOf(freed: seq<Payload>, k: nat)
    requires k < |freed|
    ensures var all, at := AllDeallocs(freed), |AllDeallocs(freed[..k])|;
            match freed[k]
            case Die(die) => at < |all| && all[at] == die && |AllDeallocs(freed[..k + 1])| == at + 1
            case Srcfiles(names, list) =>
              && at + |names| < |all| && |AllDeallocs(freed[..k + 1])| == at + |names| + 1
              && (forall i :: 0 <= i < |names| ==> all[at + i] == names[i])
              && all[at + |names|] == list
  {
    hide AllDeallocs;
    var before, part, behind := AllDeallocs(freed[..k]), Deallocs(freed[k]), AllDeallocs(freed[k + 1..]);
    DeallocsSplit(freed, k);
    Inside(before, part, behind);
    if freed[k].Srcfiles? {
      assert part[|freed[k].names|] == freed[k].list;
      assert forall i :: 0 <= i < |freed[k].names| ==> part[i] == freed[k].names[i];
    } else {
      assert part[0] == freed[k].die;
      assert (before + part + behind)[|before| + 0] == part[0];
    }
  }

  class Counter {
    var value: int

    constructor ()
      ensures value == 1
    {
      value := 1;
    }
  }

  class Holder {
    var payload: Option<Payload>
    var refcount: Counter
    var printed: bool

    constructor (payload: Option<Payload>)
      ensures this.payload == payload && !printed && fresh(refcount) && refcount.value == 1
    {
      this.payload, this.printed := payload, false;
      refcount := new Counter();
    }

    /** The members of another holder; its counter is shared. */
    constructor Sharing(d: Holder)
      ensures payload == d.payload && refcount == d.refcount && printed == d.printed
    {
      payload, refcount, printed := d.payload, d.refcount, d.printed;
    }
  }

  /** A program's holders and the frees it has made. */
  class Program {
    ghost var state: State<Holder, Counter, Payload>
    var deallocs: seq<nat>

    /** The members of the holders and counters that live are those of the state. */
    ghost predicate Mirrored()
      reads this, state.records.Keys, state.counts.Keys
    {
      && (forall h <- state.records ::
            && h.payload == state.records[h].payload && h.refcount == state.records[h].refcount
            && h.printed == state.records[h].printed)
      && (forall c <- state.counts :: c.value == state.counts[c].value)
      && deallocs == AllDeallocs(state.freed)
    }

    constructor ()
      ensures Mirrored() && Consistent(state) && WorldOf(state) == Start()
    {
      state, deallocs := State(map[], map[], map[], []), [];
    }

    // ----- the members, and the counters, as the code changes them

    method MakeNew() returns (h: Holder)
      requires Mirrored()
      modifies this
      ensures Mirrored() && fresh(h) && fresh(h.refcount)
      ensures state == Construct(old(state), h, h.refcount, None)
    {
      hide AllDeallocs;
      h := new Holder(None);
      state := Construct(state, h, h.refcount, None);
    }

    method MakeWrap(p: Payload) returns (h: Holder)
      requires Mirrored()
      modifies this
      ensures Mirrored() && fresh(h) && fresh(h.refcount)
      ensures state == Construct(old(state), h, h.refcount, Some(p))
    {
      hide AllDeallocs;
      h := new Holder(Some(p));
      state := Construct(state, h, h.refcount, Some(p));
    }

    method MakeCopy(d: Holder) returns (h: Holder)
      requires Mirrored() && d in state.records && d.refcount in state.counts
      modifies this, d.refcount
      ensures Mirrored() && fresh(h) && state == CopyOf(old(state), h, d)
    {
      hide AllDeallocs;
      h := new Holder.Sharing(d);
      h.refcount.value := h.refcount.value + 1;
      state := CopyOf(state, h, d);
    }

    method SetMark(h: Holder)
      requires Mirrored() && h in state.records
      modifies this`state, h`printed
      ensures Mirrored() && state == MarkPrinted(old(state), h)
    {
      hide AllDeallocs;
      h.printed := true;
      state := MarkPrinted(state, h);
    }

    /** Freeing a payload: a DIE, or each name and then the list. */
    method Free(payload: Option<Payload>, ghost freed: seq<Payload>)
      requires deallocs == AllDeallocs(freed)
      modifies this`deallocs
      ensures deallocs == AllDeallocs(freed + Frees(payload))
    {
      hide AllDeallocs;
      if payload.None? {
        assert freed + [] == freed;
        return;
      }
      OneMore(freed, payload.value);
      match payload.value
      case Die(die) => deallocs := deallocs + [die];
      case Srcfiles(names, list) =>
        var si := 0;
        while si < |names|
          invariant si <= |names| && deallocs == AllDeallocs(freed) + names[..si]
        {
          deallocs := deallocs + [names[si]];
          si := si + 1;
        }
        deallocs := deallocs + [list];
    }

    /** `(*refcount_)--`, and the test for zero, in the destructor and in operator=. */
    method Release(h: Holder)
      requires Mirrored() && h in state.records && h.refcount in state.counts
      modifies this, h.refcount
      ensures Mirrored() && state == Decrement(old(state), old(state).records[h])
    {
      hide AllDeallocs;
      h.refcount.value := h.refcount.value - 1;
      if h.refcount.value == 0 {
        Free(h.payload, state.freed);
      }
      state := Decrement(state, state.records[h]);
    }

    method Remove(h: Holder)
      requires Mirrored() && h in state.records && h.refcount in state.counts
      modifies this, h.refcount
      ensures Mirrored() && state == Destruct(old(state), h)
    {
      hide AllDeallocs;
      Release(h);
      state := state.(records := state.records - {h});
    }

    method Overwrite(h: Holder, d: Holder)
      requires Mirrored() && h in state.records && d in state.records
      requires h.refcount in state.counts && d.refcount in state.counts
      modifies this, h, h.refcount, d.refcount
      ensures Mirrored() && state == AssignTo(old(state), h, d)
    {
      hide AllDeallocs;
      if h == d { return; }
      Increment(d);
      Release(h);
      TakeOver(h, d);
    }

    /** `(*d.refcount_)++` */
    method Increment(d: Holder)
      requires Mirrored() && d in state.records && d.refcount in state.counts
      modifies this, d.refcount
      ensures Mirrored() && deallocs == old(deallocs)
      ensures state == old(state).(counts := Add(old(state).counts, d.refcount, 1))
    {
      hide AllDeallocs;
      d.refcount.value := d.refcount.value + 1;
      state := state.(counts := Add(state.counts, d.refcount, 1));
    }

    /** The last lines of operator=. */
    method TakeOver(h: Holder, d: Holder)
      requires Mirrored() && h in state.records && d in state.records
      modifies this, h
      ensures Mirrored() && state == old(state).(records := old(state).records[h := old(state).records[d]])
    {
      hide AllDeallocs;
      h.refcount := d.refcount;
      h.payload := d.payload;
      h.printed := d.printed;
      state := state.(records := state.records[h := state.records[d]]);
    }

    // ----- the classes' operations, and what they promise

    /** Counters count their holders; holders share a counter exactly when they share a payload. */
    ghost predicate Valid()
      reads this, state.records.Keys, state.counts.Keys
    {
      Mirrored() && Consistent(state)
    }

    /** DieHolder() */
    method New() returns (h: Holder)
      requires Valid()
      modifies this
      ensures Valid() && fresh(h) && WorldOf(state) == Step(old(WorldOf(state)), Op.New(h))
    {
      Parts();
      hide *;
      ghost var before := state;
      h := MakeNew();
      ConstructIsNew(before, h, h.refcount);
      Whole();
    }

    /** DieHolder(dbg, die), for a payload that no holder was given before */
    method Wrap(p: Payload) returns (h: Holder)
      requires Valid() && p !in WorldOf(state).wrapped
      modifies this
      ensures Valid() && fresh(h) && WorldOf(state) == Step(old(WorldOf(state)), Op.Wrap(h, p))
    {
      Parts();
      WorldParts(state);
      hide *;
      ghost var before := state;
      h := MakeWrap(p);
      ConstructIsWrap(before, h, h.refcount, p);
      Whole();
    }

    /** DieHolder(const DieHolder &) */
    method Copy(d: Holder) returns (h: Holder)
      requires Valid() && d in WorldOf(state).held
      modifies this, d.refcount
      ensures Valid() && fresh(h) && WorldOf(state) == Step(old(WorldOf(state)), Op.Copy(h, d))
    {
      Parts();
      WorldParts(state);
      hide *;
      ghost var before := state;
      CounterLives(d);
      h := MakeCopy(d);
      CopyIsCopy(before, h, d);
      Whole();
    }

    method MarkDiePrinted(h: Holder)
      requires Valid() && h in WorldOf(state).held
      modifies this`state, h`printed
      ensures Valid() && WorldOf(state) == Step(old(WorldOf(state)), Op.Mark(h))
    {
      Parts();
      WorldParts(state);
      hide *;
      MarkIsMark(state, h);
      SetMark(h);
      Whole();
    }

    /** ~DieHolder() */
    method Destroy(h: Holder)
      requires Valid() && h in WorldOf(state).held
      modifies this, h.refcount
      ensures Valid() && WorldOf(state) == Step(old(WorldOf(state)), Op.Destroy(h))
    {
      Parts();
      WorldParts(state);
      hide *;
      CounterLives(h);
      DestructIsDestroy(state, h);
      Remove(h);
      Whole();
    }

    /** operator= */
    method Assign(h: Holder, d: Holder)
      requires Valid() && h in WorldOf(state).held && d in WorldOf(state).held
      modifies this, h, h.refcount, d.refcount
      ensures Valid() && WorldOf(state) == Step(old(WorldOf(state)), Op.Assign(h, d))
    {
      Parts();
      WorldParts(state);
      hide *;
      CounterLives(h);
      CounterLives(d);
      AssignIsAssign(state, h, d);
      Overwrite(h, d);
      Whole();
    }

    lemma CounterLives(h: Holder)
      requires Mirrored() && Consistent(state) && h in state.records
      ensures h.refcount in state.counts
    {
      assert Linked(state.records[h], state.counts, state.owner);
    }

    lemma Parts()
      requires Valid()
      ensures Mirrored() && Consistent(state)
    {
    }

    lemma Whole()
      requires Mirrored() && Consistent(state)
      ensures Valid()
    {
    }
  }

  lemma WorldParts(s: State<Holder, Counter, Payload>)
    ensures WorldOf(s).held.Keys == s.records.Keys && WorldOf(s).wrapped == s.owner.Keys
  {
  }

  lemma OneMore(freed: seq<Payload>, p: Payload)
    ensures AllDeallocs(freed + [p]) == AllDeallocs(freed) + Deallocs(p)
  {
    assert (freed + [p])[..|freed|] == freed;
  }
}
