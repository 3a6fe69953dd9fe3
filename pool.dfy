/** The pool manager of pool.go as the object it is: a `Pool` whose fields
    `index` and `destroyed` change in place, a `SafeMap` store from ids to
    `Resource` objects, and resources whose fields are updated through the
    references held in the store (and in snapshots of it).

    Every operation is proved to perform the transition of its counterpart in
    `PoolSpec` on the abstract state `State()`, and to keep `Valid()`, so the
    lemmas proved there hold of the objects. */
module GenericPool {
  import opened Wrappers
  import opened MapRange
  import opened PoolSpec
  import opened SafeMaps

  /** One pooled resource (Go: `Resource`); `payload` is Go's `Resource`
      field, the caller's value. */
  class Resource<P> {
    var idle: bool
    var lastUseAt: int
    var useCount: int
    const payload: P
    const id: Id

    constructor (id: Id, payload: P, now: int)
      ensures this.id == id && View() == Rec(false, now, 0, payload)
    {
      this.id := id;
      this.payload := payload;
      idle := false;
      lastUseAt := now;
      useCount := 0;
    }

    function View(): Rec<P>
      reads this
    {
      Rec(idle, lastUseAt, useCount, payload)
    }
  }

  /** What a successful `Get` returns: a newly created payload, or the
      `*Resource` wrapper of a reused record (null when there was none). */
  datatype Handout<P> = Payload(payload: P) | Wrapper(record: Resource?<P>)

  /** `r` is the value `Get` returns for the abstract answer `got`, given the
      store `bm` before the call. */
  ghost predicate Hands<P>(r: Result<Handout<P>, Error>, got: Got<P>, bm: map<Id, Resource<P>>) {
    match got
    case GotPayload(p) => r == Success(Payload(p))
    case GotWrapper(None) => r == Success(Wrapper(null))
    case GotWrapper(Some(id)) => id in bm && r == Success(Wrapper(bm[id]))
    case GotError(e) => r == Failure(e)
  }

  /** Every key of `bm` holds the resource carrying that key, whose fields
      are the record `recs` keeps under it. */
  ghost predicate Mirrors<P>(bm: map<Id, Resource<P>>, recs: map<Id, Rec<P>>)
    reads bm.Values
  {
    && bm.Keys == recs.Keys
    && forall id | id in bm :: bm[id].id == id && bm[id].View() == recs[id]
  }

  /** Dropping a key from both sides. */
  lemma MirrorsRemove<P>(bm: map<Id, Resource<P>>, recs: map<Id, Rec<P>>, id: Id)
    requires Mirrors(bm, recs)
    ensures Mirrors(bm - {id}, recs - {id})
  {
  }

  /** The search of `Get` at capacity: walks `keys`, keeps the first resource
      visited, and stops at the first later one strictly older than it; `recs`
      gives the times the resources hold. */
  method PickReuse<P>(items: map<Id, Resource<P>>, keys: seq<Id>, ghost recs: map<Id, Rec<P>>)
    returns (chosen: Resource?<P>, ghost k: nat)
    requires forall j | 0 <= j < |keys| :: keys[j] in items && keys[j] in recs && items[keys[j]].lastUseAt == recs[keys[j]].lastUseAt
    ensures keys == [] ==> chosen == null
    ensures keys != [] ==> k == FirstOlderFrom(keys, recs, 0) && chosen == items[keys[k]]
  {
    var oldest: Option<int> := None;
    chosen := null;
    k := 0;
    var i := 0;
    while i < |keys|
      invariant 0 <= i <= |keys| && k == 0
      invariant (i == 0) == oldest.None? && (i == 0) == (chosen == null)
      invariant i > 0 ==> chosen == items[keys[0]] && oldest.value == items[keys[0]].lastUseAt
      invariant keys != [] ==> FirstOlderFrom(keys, recs, 0) == FirstOlderFrom(keys, recs, i)
    {
      var res := items[keys[i]];
      if oldest.None? {
        oldest := Some(res.lastUseAt);
        chosen := res;
      }
      if res.lastUseAt < oldest.value {
        oldest := Some(res.lastUseAt);
        chosen := res;
        k := i;
        break;
      }
      i := i + 1;
    }
  }

  class Pool<P> {
    const options: Options
    const store: SafeMap<Id, Resource<P>>
    var destroyed: bool
    var index: Id

    /** The abstract view of the store: each record's fields by id. */
    ghost var records: map<Id, Rec<P>>

    ghost function State(): PoolState<P>
      reads this
    {
      PoolState(options, records, index, destroyed)
    }

    /** The abstract invariant; the store holds exactly the viewed records,
        and each stored resource carries its own key (so distinct keys hold
        distinct objects). */
    ghost predicate Valid()
      reads this, store, store.bm.Values
    {
      && Inv(State())
      && Mirrors(store.bm, records)
    }

    constructor (options: Options)
      requires WellFormed(options)
      ensures fresh(store)
      ensures Valid() && State() == Initial(options)
    {
      this.options := options;
      store := new SafeMap();
      destroyed := false;
      index := 0;
      records := map[];
    }

    /** Get: a new resource while under Max, otherwise an existing one. */
    method Get(creator: Id -> Result<P, Error>, now: int) returns (r: Result<Handout<P>, Error>, ghost order: seq<Id>)
      requires Valid()
      modifies this, store, store.bm.Values
      ensures Valid()
      ensures AtCapacity(old(State())) ==> Enumerates(order, old(store.bm).Keys)
      ensures State() == GetStep(old(State()), order, creator, now).0
      ensures Hands(r, GetStep(old(State()), order, creator, now).1, old(store.bm))
      ensures r.Success? && r.value.Wrapper? && r.value.record != null ==>
                r.value.record.id in store.bm && store.bm[r.value.record.id] == r.value.record
      ensures forall x | x in store.bm && x in old(store.bm) :: store.bm[x] == old(store.bm)[x]
    {
      order := [];
      if destroyed {
        r := Failure(PoolDestroyed);
      } else if store.Count() < options.max {
        r := Create(creator, now);
      } else {
        var chosen;
        chosen, order := Reuse(now);
        r := Success(Wrapper(chosen));
      }
    }

    /** The path of `Get` below Max: the creator is called with the next id,
        and a payload it returns is stored under that id. */
    method Create(creator: Id -> Result<P, Error>, now: int) returns (r: Result<Handout<P>, Error>)
      requires Valid() && !destroyed && |records| < options.max
      modifies this, store
      ensures Valid()
      ensures State() == CreateStep(old(State()), creator(old(index) + 1), now).0
      ensures Hands(r, CreateStep(old(State()), creator(old(index) + 1), now).1, old(store.bm))
      ensures forall x | x in store.bm && x in old(store.bm) :: store.bm[x] == old(store.bm)[x]
    {
      ghost var s0 := State();
      var id := index + 1;
      var created := creator(id);
      if created.Failure? {
        r := Failure(created.error);
        return;
      }
      index := id;
      var res := new Resource(id, created.value, now);
      var _ := store.Set(id, res);
      records := records[id := res.View()];
      r := Success(Payload(created.value));
      forall x | x in store.bm
        ensures store.bm[x].id == x && store.bm[x].View() == records[x]
      {
        if x != id {
          assert old(store.bm)[x] in old(store.bm).Values;
        }
      }
      assert Inv(State()) by {
        assert State() == GetStep(s0, [], creator, now).0;
        GetPreservesInv(s0, [], creator, now);
      }
    }

    /** The path of `Get` at Max: the search picks a stored resource, which
        is marked used now and handed out (nothing when the store is empty). */
    method Reuse(now: int) returns (chosen: Resource?<P>, ghost order: seq<Id>)
      requires Valid() && AtCapacity(State())
      modifies this, store.bm.Values
      ensures Valid()
      ensures Enumerates(order, old(store.bm).Keys)
      ensures State() == ReuseStep(old(State()), order, now).0
      ensures Hands(Success(Wrapper(chosen)), ReuseStep(old(State()), order, now).1, old(store.bm))
    {
      ghost var s0 := State();
      var items := store.Items();
      var keys := RangeOrder(items);
      order := keys;
      forall j | 0 <= j < |keys|
        ensures keys[j] in s0.records && items[keys[j]].lastUseAt == s0.records[keys[j]].lastUseAt
      {
        var id := keys[j];
        assert id in items && items[id].View() == s0.records[id];
      }
      ghost var k;
      chosen, k := PickReuse(items, keys, s0.records);
      if chosen != null {
        var id := keys[k];
        assert chosen == store.bm[id] && chosen.id == id && chosen.View() == s0.records[id];
        assert chosen in store.bm.Values;
        assert ReuseStep(s0, order, now).0 == s0.(records := s0.records[id := Rec(false, now, chosen.useCount + 1, chosen.payload)]);
        MarkUsed(chosen, now);
      } else {
        assert ReuseStep(s0, order, now) == (s0, GotWrapper(None));
      }
    }

    /** The writes of `Get` to the resource it hands out: used now, not idle,
        one more use. */
    method MarkUsed(res: Resource<P>, now: int)
      requires Valid() && res.id in store.bm && store.bm[res.id] == res
      modifies this, res
      ensures Valid() && index == old(index) && destroyed == old(destroyed)
      ensures records == old(records)[res.id := Rec(false, now, old(res.useCount) + 1, res.payload)]
    {
      res.lastUseAt, res.idle, res.useCount := now, false, res.useCount + 1;
      records := records[res.id := res.View()];
      forall x | x in store.bm
        ensures store.bm[x].id == x && store.bm[x].View() == records[x]
      {
        if x != res.id {
          assert store.bm[x] in old(store.bm.Values);
        }
      }
    }

    /** The write of `checkIdle` to a timed-out resource it keeps: flagged
        idle. */
    method MarkIdle(res: Resource<P>)
      requires Valid() && res.id in store.bm && store.bm[res.id] == res
      modifies this, res
      ensures Valid() && index == old(index) && destroyed == old(destroyed)
      ensures records == old(records)[res.id := old(records[res.id]).(idle := true)]
    {
      res.idle := true;
      records := records[res.id := res.View()];
      forall x | x in store.bm
        ensures store.bm[x].id == x && store.bm[x].View() == records[x]
      {
        if x != res.id {
          assert store.bm[x] in old(store.bm.Values);
        }
      }
    }

    /** Release: destroys and removes the record `id`; `outcome` is what the
        destroyer returns if it is called. */
    method Release(id: Id, outcome: Outcome) returns (err: Option<Error>)
      requires Valid()
      modifies this, store
      ensures Valid()
      ensures (State(), err) == ReleaseStep(old(State()), id, outcome)
      ensures store.bm == old(store.bm) || store.bm == old(store.bm) - {id}
    {
      ghost var s0 := State();
      err := None;
      var items := store.Items();
      var keys := RangeOrder(items);
      ghost var seen := false;
      ghost var at := 0;
      for i := 0 to |keys|
        invariant index == s0.index && destroyed == s0.destroyed
        invariant store.bm == if seen && outcome.Pass? then items - {id} else items
        invariant seen ==> id in s0.records && at < i && keys[at] == id
        invariant !seen ==> forall j | 0 <= j < i :: keys[j] != id
        invariant records == if seen && outcome.Pass? then s0.records - {id} else s0.records
        invariant err == if seen && outcome.Fail? then Some(outcome.error) else None
      {
        if keys[i] == id {
          assert seen ==> At(keys, at) == At(keys, i);
          assert !seen && id in records;
          err := if outcome.Pass? then None else Some(outcome.error);
          if err.None? {
            if store.Check(id) {
              store.Delete(id);
            }
            records := records - {id};
          }
          seen, at := true, i;
        }
      }
      assert !seen ==> id !in items;
      assert Inv(State()) by { ReleaseEffect(s0, id, outcome); }
    }

    /** Destroy: releases every record in visit order, stops at the first
        destroyer error, and sets `destroyed` only when all succeeded. */
    method Destroy(destroyer: Id -> Outcome) returns (err: Option<Error>, ghost order: seq<Id>)
      requires Valid()
      modifies this, store
      ensures Valid()
      ensures Enumerates(order, old(store.bm).Keys)
      ensures (State(), err) == DestroyRun(old(State()), order, destroyer)
      ensures forall x | x in store.bm && x in old(store.bm) :: store.bm[x] == old(store.bm)[x]
    {
      ghost var s0 := State();
      err := None;
      var items := store.Items();
      var keys := RangeOrder(items);
      order := keys;
      for i := 0 to |keys|
        invariant Valid() && err.None?
        invariant forall x | x in store.bm :: x in old(store.bm) && store.bm[x] == old(store.bm)[x]
        invariant DestroyRun(State(), keys[i..], destroyer) == DestroyRun(s0, keys, destroyer)
      {
        assert keys[i..][1..] == keys[i + 1..];
        err := Release(keys[i], destroyer(keys[i]));
        if err.Some? {
          return;
        }
      }
      assert keys[|keys|..] == [];
      destroyed := true;
      DestroyOutcome(s0, order, destroyer);
    }

    /** checkIdle: one tick of the reaper at time `now` (nanoseconds); the
        destroyer's outcome for each record it visits is `destroyer(id)`. */
    method CheckIdle(now: int, destroyer: Id -> Outcome) returns (ghost order: seq<Id>)
      requires Valid()
      modifies this, store, store.bm.Values
      ensures Valid()
      ensures Enumerates(order, old(store.bm).Keys) || |old(store.bm)| <= options.min
      ensures State() == CheckIdleStep(old(State()), order, now, destroyer)
      ensures forall x | x in store.bm && x in old(store.bm) :: store.bm[x] == old(store.bm)[x]
    {
      ghost var s0 := State();
      order := [];
      if store.Count() > 0 && store.Count() > options.min {
        var items := store.Items();
        var keys := RangeOrder(items);
        order := keys;
        for i := 0 to |keys|
          invariant Valid()
          invariant forall id | id in store.bm :: id in items && store.bm[id] == items[id]
          invariant forall j | i <= j < |keys| :: keys[j] in store.bm
          invariant ReapRun(State(), keys[i..], now, destroyer) == ReapRun(s0, keys, now, destroyer)
        {
          assert keys[i..][1..] == keys[i + 1..];
          var id := keys[i];
          var res := items[id];
          assert res in old(store.bm).Values;
          Reap(id, res, now, destroyer);
          forall j | i < j < |keys|
            ensures keys[j] in store.bm
          {
            assert At(keys, i) != At(keys, j);
          }
        }
        assert keys[|keys|..] == [];
      }
    }

    /** The body of the `checkIdle` loop for the record `id`, whose resource
        is `res`: a timed-out record is destroyed and removed above Min, and
        flagged idle at or below it. */
    method Reap(id: Id, res: Resource<P>, now: int, destroyer: Id -> Outcome)
      requires Valid() && id in store.bm && store.bm[id] == res
      modifies this, store, res
      ensures Valid()
      ensures store.bm == old(store.bm) || store.bm == old(store.bm) - {id}
      ensures State() == ReapOne(old(State()), id, now, destroyer)
    {
      ghost var s1 := State();
      var idleAt := Wrap64(res.lastUseAt / NanosPerSecond + options.idle);
      var nowSec := now / NanosPerSecond;
      if nowSec > idleAt {
        if store.Count() > options.min {
          if destroyer(id).Pass? {
            assert ReapOne(s1, id, now, destroyer) == s1.(records := s1.records - {id});
            if store.Check(id) {
              store.Delete(id);
            }
            records := records - {id};
            MirrorsRemove(old(store.bm), s1.records, id);
          }
        } else {
          MarkIdle(res);
        }
      }
    }
  }

  /** New: validates and normalises the options and returns an empty pool.
      The ticker that calls `CheckIdle` every second is not modelled. */
  method New<P, C, D>(c: Config<C, D>, o: Options) returns (r: Result<Pool<P>, Error>)
    ensures r.Failure? <==> Validate(c, o).Failure?
    ensures r.Failure? ==> r.error == Validate(c, o).error
    ensures r.Success? ==> && fresh(r.value) && fresh(r.value.store) && r.value.Valid()
                           && r.value.State() == Initial(Validate(c, o).value)
  {
    var v := Validate(c, o);
    if v.Failure? {
      return Failure(v.error);
    }
    var p := new Pool<P>(v.value);
    r := Success(p);
  }
}
