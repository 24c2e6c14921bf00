/** Component identity (ECS/Component.h): a process-wide counter that hands
    out 0, 1, 2, ... and, per component type, the first value it received. The
    function-local statics of the original are made explicit as one registry
    object, ComponentIds; Registry and Query are its state and transition as
    values, about which the guarantees are proved. */
module Component {
  import opened NatRange

  /** The lifecycle marker every store registers as a component. */
  datatype EntityState = Unknown | Active | Destroyed

  /** A type token: the reserved EntityState type, or a user component type
      known by name (int, float, std::vector<int>, ... in the tests). */
  datatype ComponentType = EntityStateType | UserType(name: string)

  /** The counter `compID` and the per-type cached ids. */
  datatype Registry = Registry(next: nat, ids: map<ComponentType, nat>)

  ghost predicate Injective(ids: map<ComponentType, nat>) {
    forall a, b | a in ids && b in ids && a != b :: ids[a] != ids[b]
  }

  /** The registry invariant: distinct types have distinct ids, every id is
      a value the counter has passed, and the counter has passed exactly one
      value per known type (so the ids in use are 0 .. next-1, IdsInUse). */
  ghost predicate WellFormed(r: Registry) {
    && Injective(r.ids)
    && (forall t | t in r.ids :: r.ids[t] < r.next)
    && |r.ids.Keys| == r.next
  }

  /** One call of GetComponentID<T>() for the type t: the cached id when t was
      queried before, otherwise a fresh value drawn from the counter. */
  function Query(r: Registry, t: ComponentType): (res: (Registry, nat))
    ensures t in res.0.ids && res.0.ids[t] == res.1
    ensures forall u | u in r.ids :: u in res.0.ids && res.0.ids[u] == r.ids[u]
    ensures t in r.ids ==> res == (r, r.ids[t])
    ensures t !in r.ids ==> res.1 == r.next && res.0.next == r.next + 1
    ensures res.0.ids.Keys == r.ids.Keys + {t}
  {
    if t in r.ids then (r, r.ids[t])
    else (Registry(r.next + 1, r.ids[t := r.next]), r.next)
  }

  /** Querying the types of ts in order. */
  function QueryAll(r: Registry, ts: seq<ComponentType>): (q: Registry)
    ensures forall t | t in ts :: t in q.ids
    ensures forall u | u in r.ids :: u in q.ids && q.ids[u] == r.ids[u]
    ensures r.next <= q.next
    decreases |ts|
  {
    if ts == [] then r else Query(QueryAll(r, ts[..|ts| - 1]), ts[|ts| - 1]).0
  }

  /** The id of a type never changes once it is handed out. */
  lemma QueryIdempotent(r: Registry, t: ComponentType)
    ensures Query(Query(r, t).0, t) == Query(r, t)
  {
  }

  /** An injective map has as many distinct values as keys. */
  lemma {:induction false} InjectiveValuesCard(m: map<ComponentType, nat>)
    requires Injective(m)
    ensures |m.Values| == |m.Keys|
    decreases |m.Keys|
  {
    if m != map[] {
      var k :| k in m;
      var m' := m - {k};
      assert m'.Keys == m.Keys - {k};
      assert Injective(m');
      InjectiveValuesCard(m');
      forall x | x in m.Values
        ensures x in m'.Values + {m[k]}
      {
        var u :| u in m && m[u] == x;
        if u != k {
          assert m'[u] == x;
        }
      }
      forall x | x in m'.Values + {m[k]}
        ensures x in m.Values
      {
        if x != m[k] {
          var u :| u in m' && m'[u] == x;
          assert m[u] == x;
        }
      }
      assert m.Values == m'.Values + {m[k]};
    }
  }

  /** In a well-formed registry the ids in use are exactly 0 .. next-1. */
  lemma IdsInUse(r: Registry)
    requires WellFormed(r)
    ensures r.ids.Values == Range(r.next)
  {
    InjectiveValuesCard(r.ids);
    RangeCard(r.next);
    var v := r.ids.Values;
    assert v <= Range(r.next);
    assert Range(r.next) == (Range(r.next) - v) + v;
    assert (Range(r.next) - v) * v == {};
    assert |Range(r.next) - v| == 0;
  }

  /** A query keeps the registry invariant. */
  lemma QueryPreservesWellFormed(r: Registry, t: ComponentType)
    requires WellFormed(r)
    ensures WellFormed(Query(r, t).0)
  {
  }

  /** Distinct types receive distinct ids, whatever order they are first
      queried in. */
  lemma DistinctTypesDistinctIds(r: Registry, a: ComponentType, b: ComponentType)
    requires WellFormed(r)
    requires a != b
    ensures Query(r, a).1 != Query(Query(r, a).0, b).1
  {
    var r1 := Query(r, a).0;
    QueryPreservesWellFormed(r, a);
    QueryPreservesWellFormed(r1, b);
  }

  /** Querying a sequence of types keeps the invariant. */
  lemma {:induction false} QueryAllWellFormed(r: Registry, ts: seq<ComponentType>)
    requires WellFormed(r)
    ensures WellFormed(QueryAll(r, ts))
  {
    if ts != [] {
      QueryAllWellFormed(r, ts[..|ts| - 1]);
      QueryPreservesWellFormed(QueryAll(r, ts[..|ts| - 1]), ts[|ts| - 1]);
    }
  }

  /** After querying ts, the known types are those of before plus those of ts,
      and no type known before has changed its id. */
  lemma {:induction false} QueryAllStable(r: Registry, ts: seq<ComponentType>)
    ensures QueryAll(r, ts).ids.Keys == r.ids.Keys + (set t | t in ts)
    ensures forall u | u in r.ids :: QueryAll(r, ts).ids[u] == r.ids[u]
  {
    if ts != [] {
      var init := ts[..|ts| - 1];
      QueryAllStable(r, init);
      assert (set t | t in ts) == (set t | t in init) + {ts[|ts| - 1]} by {
        assert ts == init + [ts[|ts| - 1]];
      }
    }
  }

  /** From a fresh counter: after the queries of ts, the counter equals the
      number of distinct types queried and the ids in use are exactly
      0 .. counter-1. */
  lemma QueryAllFromStart(ts: seq<ComponentType>)
    ensures var r := QueryAll(Registry(0, map[]), ts);
      && r.ids.Keys == (set t | t in ts)
      && r.next == |set t | t in ts|
      && r.ids.Values == Range(r.next)
      && Injective(r.ids)
  {
    assert WellFormed(Registry(0, map[]));
    QueryAllWellFormed(Registry(0, map[]), ts);
    QueryAllStable(Registry(0, map[]), ts);
    IdsInUse(QueryAll(Registry(0, map[]), ts));
  }

  /** Querying the first i + 1 types of ts is querying the first i, then
      the next one. */
  lemma QueryAllPrefix(r: Registry, ts: seq<ComponentType>, i: nat)
    requires i < |ts|
    ensures QueryAll(r, ts[..i + 1]) == Query(QueryAll(r, ts[..i]), ts[i]).0
  {
    assert ts[..i + 1][..i] == ts[..i];
  }

  /** Each query draws at most one counter value. */
  lemma {:induction false} QueryAllCounter(r: Registry, ts: seq<ComponentType>)
    ensures r.next <= QueryAll(r, ts).next <= r.next + |ts|
  {
    if ts != [] {
      QueryAllCounter(r, ts[..|ts| - 1]);
    }
  }

  /** Every type of ts has, after the queries of ts, an id below the old
      counter plus the number of queries. */
  lemma QueryAllIdsBelow(r: Registry, ts: seq<ComponentType>)
    requires WellFormed(r)
    ensures forall t | t in ts ::
      t in QueryAll(r, ts).ids && QueryAll(r, ts).ids[t] < r.next + |ts|
  {
    QueryAllWellFormed(r, ts);
    QueryAllStable(r, ts);
    QueryAllCounter(r, ts);
    var q := QueryAll(r, ts);
  }

  /** The identity registry: GetNextComponentID's static counter and the
      static id of each GetComponentID<T> instantiation. */
  class ComponentIds {
    var next: nat
    var ids: map<ComponentType, nat>

    function Snapshot(): Registry
      reads this
    {
      Registry(next, ids)
    }

    ghost predicate Valid()
      reads this
    {
      WellFormed(Snapshot())
    }

    /** Static initialisation: the counter starts at 0 and no type has an id. */
    constructor ()
      ensures Valid() && next == 0 && ids == map[]
    {
      next := 0;
      ids := map[];
    }

    /** GetNextComponentID: returns the counter, then increments it. */
    method NextId() returns (id: nat)
      modifies this
      ensures id == old(next) && next == old(next) + 1
      ensures ids == old(ids)
    {
      id := next;
      next := next + 1;
    }

    /** GetComponentID<T>: the first call for t draws NextId(), later calls
        return the cached value. */
    method IdOf(t: ComponentType) returns (id: nat)
      requires Valid()
      modifies this
      ensures Valid()
      ensures (Snapshot(), id) == Query(old(Snapshot()), t)
    {
      QueryPreservesWellFormed(Snapshot(), t);
      if t in ids {
        id := ids[t];
      } else {
        id := NextId();
        ids := ids[t := id];
      }
    }
  }
}
