/** The entity/component store (ECS/ECS.h): entity indices allocated from a
    frontier or reused from a LIFO stack of freed indices, one component
    signature per index, and one dense container per declared component type,
    all kept index-parallel. */
module ECS {
  import opened NatRange
  import opened Component

  /** Width of a signature, and size of the container table. */
  const MAX_COMPONENT_COUNT: nat := 32

  type ComponentId = i: nat | i < MAX_COMPONENT_COUNT
  type EntityIndex = nat

  /** std::bitset<MAX_COMPONENT_COUNT>, as the set of its set bits. */
  type Signature = set<ComponentId>

  datatype Option<T> = None | Some(value: T)

  /** A component value, tagged with its type. The payload of a user type is
      opaque to the store. */
  datatype Value = State(state: EntityState) | User(name: string, payload: seq<int>)

  function TypeOf(v: Value): (t: ComponentType)
    ensures v.State? <==> t == EntityStateType
  {
    match v
    case State(_) => EntityStateType
    case User(n, _) => UserType(n)
  }

  /** The value-initialised T{} a container appends for a new entity; for the
      EntityState enum that is its first enumerator, Unknown. */
  function Default(t: ComponentType): (v: Value)
    ensures TypeOf(v) == t
    ensures t == EntityStateType ==> v == State(Unknown)
  {
    match t
    case EntityStateType => State(Unknown)
    case UserType(n) => User(n, [])
  }

  /** `(sig & filter) == filter`: the entity has every component of the filter. */
  predicate Matches(sig: Signature, filter: Signature): (b: bool)
    ensures b <==> filter <= sig
  {
    sig * filter == filter
  }

  /** ComponentContainer<T>: one slot per entity index ever allocated, every
      slot holding a value of type `kind`. */
  datatype Container = Container(kind: ComponentType, slots: seq<Value>) {

    ghost predicate WellTyped() {
      forall i | 0 <= i < |slots| :: TypeOf(slots[i]) == kind
    }

    /** AddNew: one more slot, holding the default value. */
    function AddNew(): (c: Container)
      ensures c.kind == kind && |c.slots| == |slots| + 1
      ensures forall i | 0 <= i < |slots| :: c.slots[i] == slots[i]
      ensures c.slots[|slots|] == Default(kind)
      ensures WellTyped() ==> c.WellTyped()
    {
      Container(kind, slots + [Default(kind)])
    }

    /** Set: overwrite one slot; a value of the container's type keeps it
        well typed. */
    function Set(index: nat, v: Value): (c: Container)
      requires index < |slots|
      ensures c.kind == kind && |c.slots| == |slots| && c.slots[index] == v
      ensures forall i | 0 <= i < |slots| && i != index :: c.slots[i] == slots[i]
      ensures WellTyped() && TypeOf(v) == kind ==> c.WellTyped()
    {
      Container(kind, slots[index := v])
    }
  }

  /** The value of the last of `values` whose type is t, if any. */
  function LastOfType(values: seq<Value>, t: ComponentType): (r: Option<Value>)
    ensures r.Some? ==> r.value in values && TypeOf(r.value) == t
    ensures r.None? ==> forall v | v in values :: TypeOf(v) != t
  {
    if values == [] then None
    else if TypeOf(values[|values| - 1]) == t then Some(values[|values| - 1])
    else LastOfType(values[..|values| - 1], t)
  }

  /** The ids of the types of some values. */
  function IdsOf(ids: map<ComponentType, ComponentId>, values: seq<Value>): (r: set<ComponentId>)
    requires forall v | v in values :: TypeOf(v) in ids
    ensures forall v | v in values :: ids[TypeOf(v)] in r
    ensures forall c | c in r :: exists v | v in values :: ids[TypeOf(v)] == c
    decreases |values|
  {
    if values == [] then {}
    else IdsOf(ids, values[..|values| - 1]) + {ids[TypeOf(values[|values| - 1])]}
  }

  /** The state of an EntityManager as a value: the id of each declared
      component type, the frontier _firstUsableEntityIndex, the free stack
      _freeEntityIndices (top last), the container table _containers (None
      for nullptr) and the signature table _componentsByEntityIndex. */
  datatype Store = Store(
    ids: map<ComponentType, ComponentId>,
    firstUsable: nat,
    freeIndices: seq<EntityIndex>,
    containers: seq<Option<Container>>,
    signatures: seq<Signature>)
  {
    /** The storage invariant: parallel lengths, one well-typed container per
        declared type at its id, signatures naming declared types only, and a
        free stack of distinct allocated indices. */
    ghost predicate Consistent() {
      && EntityStateType in ids
      && |containers| == MAX_COMPONENT_COUNT
      && |signatures| == firstUsable
      && (forall a, b | a in ids && b in ids && a != b :: ids[a] != ids[b])
      && (forall t | t in ids ::
            containers[ids[t]].Some? && containers[ids[t]].value.kind == t
            && containers[ids[t]].value.WellTyped())
      && (forall k | 0 <= k < |containers| && containers[k].Some? ::
            |containers[k].value.slots| == firstUsable)
      && (forall e | 0 <= e < |signatures| :: signatures[e] <= ids.Values)
      && (forall i | 0 <= i < |freeIndices| :: freeIndices[i] < firstUsable)
      && Distinct(freeIndices)
    }

    /** Consistent storage, and every allocated index (live or freed) carries
        the EntityState bit. */
    ghost predicate Valid() {
      Consistent() && forall e | 0 <= e < |signatures| :: StateId() in signatures[e]
    }

    function StateId(): ComponentId
      requires EntityStateType in ids
    {
      ids[EntityStateType]
    }

    /** The allocated indices not on the free stack. */
    ghost function LiveIndices(): set<EntityIndex> {
      Range(firstUsable) - Elements(freeIndices)
    }

    /** Every freed index holds the signature DestroyEntity leaves: the
        EntityState bit alone. CreateEntity, DestroyEntity and SetComponent on
        a live index keep it; SetComponent on a freed index may break it. */
    ghost predicate FreedClean()
      requires Consistent()
    {
      forall i | 0 <= i < |freeIndices| :: signatures[freeIndices[i]] == {StateId()}
    }

    /** EntityCount: the frontier minus the size of the free stack, which is
        the number of live indices. */
    function EntityCount(): (n: int)
      ensures Consistent() ==> n == |LiveIndices()|
    {
      EntityCountIsLive(this);
      firstUsable - |freeIndices|
    }

    /** HasComponent<T>: the bit of T in the signature of e. A type the store
        was not built with has no bit in any signature: the original draws a
        fresh id for it, which no signature holds. */
    function HasComponent(e: EntityIndex, t: ComponentType): (b: bool)
      requires e < |signatures|
      ensures t !in ids ==> !b
    {
      t in ids && ids[t] in signatures[e]
    }

    /** GetComponent<T>: the slot of e in T's container, whatever the
        signature says; the cast of the original is safe, as the value read is
        always of type T. */
    function GetComponent(e: EntityIndex, t: ComponentType): (v: Value)
      requires Consistent() && e < firstUsable && t in ids
      ensures TypeOf(v) == t
    {
      containers[ids[t]].value.slots[e]
    }

    /** SetComponent<T>: sets T's bit in the signature of e and stores the
        value in e's slot of T's container; nothing else changes. */
    function SetComponent(e: EntityIndex, v: Value): (r: Store)
      requires Consistent() && e < firstUsable && TypeOf(v) in ids
      ensures r.Consistent() && (Valid() ==> r.Valid())
      ensures r.ids == ids && r.firstUsable == firstUsable && r.freeIndices == freeIndices
      ensures r.HasComponent(e, TypeOf(v)) && r.GetComponent(e, TypeOf(v)) == v
      ensures r.signatures[e] == signatures[e] + {ids[TypeOf(v)]}
      ensures forall j | 0 <= j < firstUsable && j != e :: r.signatures[j] == signatures[j]
      ensures forall t, j | t in ids && 0 <= j < firstUsable && (t != TypeOf(v) || j != e) ::
        r.GetComponent(j, t) == GetComponent(j, t)
    {
      var id := ids[TypeOf(v)];
      this.(signatures := signatures[e := signatures[e] + {id}],
            containers := containers[id := Some(containers[id].value.Set(e, v))])
    }

    /** CreateContainersForNewEntity: AddNew on every non-null container, and
        one more all-zero signature. */
    function AddEntitySlot(): (r: Store)
      ensures r.ids == ids && r.firstUsable == firstUsable && r.freeIndices == freeIndices
      ensures r.signatures == signatures + [{}]
      ensures |r.containers| == |containers|
      ensures forall k | 0 <= k < |containers| ::
        && (r.containers[k].Some? <==> containers[k].Some?)
        && (containers[k].Some? ==> r.containers[k].value == containers[k].value.AddNew())
    {
      this.(containers := seq(|containers|, k requires 0 <= k < |containers| =>
                              if containers[k].Some? then Some(containers[k].value.AddNew()) else None),
            signatures := signatures + [{}])
    }

    /** TryReuseEntityIndex, when the stack is not empty: its top, popped. */
    function PopFree(): (r: (Store, EntityIndex))
      requires freeIndices != []
      ensures r.1 == freeIndices[|freeIndices| - 1]
      ensures r.0.freeIndices + [r.1] == freeIndices
      ensures r.0 == this.(freeIndices := r.0.freeIndices)
      ensures Valid() ==> r.0.Valid()
    {
      var rest := freeIndices[..|freeIndices| - 1];
      assert freeIndices == rest + [freeIndices[|freeIndices| - 1]];
      (this.(freeIndices := rest), freeIndices[|freeIndices| - 1])
    }

    /** CreateEntity: the most recently freed index if there is one, else the
        frontier, after growing every container and the signature table by
        one; either way the index gets EntityState Active. A reused index
        keeps the signature its destruction left. */
    function CreateEntity(): (r: (Store, EntityIndex))
      requires Valid()
      ensures r.0.Valid() && r.0.ids == ids && r.1 < r.0.firstUsable
    {
      if freeIndices != [] then
        var (popped, e) := PopFree();
        (popped.SetComponent(e, State(Active)), e)
      else
        var grown := AddEntitySlot().(firstUsable := firstUsable + 1);
        GrownConsistent(this);
        var r := grown.SetComponent(firstUsable, State(Active));
        assert r.Valid() by {
          assert forall j | 0 <= j < firstUsable :: r.signatures[j] == signatures[j];
        }
        (r, firstUsable)
    }

    /** DestroyEntity: clears the signature of e, then sets EntityState
        Destroyed (which sets the EntityState bit again), and pushes e on the
        free stack. The other slots of e keep their stale values. */
    function DestroyEntity(e: EntityIndex): (r: Store)
      requires Valid() && e < firstUsable && e !in freeIndices
      ensures r.Valid() && r.ids == ids && r.firstUsable == firstUsable
    {
      var cleared := this.(signatures := signatures[e := {}]);
      var r := cleared.SetComponent(e, State(Destroyed)).(freeIndices := freeIndices + [e]);
      assert r.Valid() by {
        assert forall j | 0 <= j < firstUsable && j != e :: r.signatures[j] == signatures[j];
      }
      r
    }

    /** The expansion of the pack in CreateEntityWithComponents: SetComponent
        of each value on e, in order. */
    function SetEach(e: EntityIndex, values: seq<Value>): (r: Store)
      requires Consistent() && e < firstUsable && forall v | v in values :: TypeOf(v) in ids
      ensures r.Consistent() && (Valid() ==> r.Valid())
      ensures r.ids == ids && r.firstUsable == firstUsable && r.freeIndices == freeIndices
      decreases |values|
    {
      if values == [] then this
      else SetEach(e, values[..|values| - 1]).SetComponent(e, values[|values| - 1])
    }

    /** CreateEntityWithComponents: CreateEntity, then SetComponent for each
        value in order, without rollback. */
    function CreateEntityWithComponents(values: seq<Value>): (r: (Store, EntityIndex))
      requires Valid() && forall v | v in values :: TypeOf(v) in ids
      ensures r.0.Valid() && r.0.ids == ids
    {
      var (created, e) := CreateEntity();
      (created.SetEach(e, values), e)
    }
  }

  /** Growing a valid store by one index keeps it consistent: the new index
      has the default value of every declared type and an empty signature,
      and nothing already allocated changes. */
  lemma GrownConsistent(s: Store)
    requires s.Valid()
    ensures var g := s.AddEntitySlot().(firstUsable := s.firstUsable + 1);
      && g.Consistent()
      && g.signatures == s.signatures + [{}]
      && (forall t | t in s.ids :: g.GetComponent(s.firstUsable, t) == Default(t))
      && (forall t, j | t in s.ids && 0 <= j < s.firstUsable :: g.GetComponent(j, t) == s.GetComponent(j, t))
  {
    var g := s.AddEntitySlot().(firstUsable := s.firstUsable + 1);
    forall k | 0 <= k < |g.containers|
      ensures g.containers[k] == if s.containers[k].Some? then Some(s.containers[k].value.AddNew()) else None
    {
    }
    assert forall e | 0 <= e < |s.signatures| :: g.signatures[e] == s.signatures[e];
  }

  /** The frontier minus the size of the free stack is the number of live
      indices. */
  lemma EntityCountIsLive(s: Store)
    ensures s.Consistent() ==> s.firstUsable - |s.freeIndices| == |s.LiveIndices()|
  {
    if s.Consistent() {
      LiveCount(s.firstUsable, s.freeIndices);
    }
  }

  /** CreateEntity hands out an index that was not live and makes it live:
      the count goes up by one. */
  lemma CreateEntityLive(s: Store)
    requires s.Valid()
    ensures var (r, e) := s.CreateEntity();
      && e !in s.LiveIndices()
      && r.LiveIndices() == s.LiveIndices() + {e}
      && r.EntityCount() == s.EntityCount() + 1
  {
    if s.freeIndices != [] {
      LivePop(s.firstUsable, s.freeIndices);
    } else {
      LiveGrow(s.firstUsable, s.freeIndices);
    }
  }

  /** The new entity is Active and has the EntityState bit. A reused index is
      the top of the free stack and keeps its other bits and values; a new
      index is the frontier, with only the EntityState bit and default
      values. */
  lemma CreateEntityState(s: Store)
    requires s.Valid()
    ensures var (r, e) := s.CreateEntity();
      && r.HasComponent(e, EntityStateType)
      && r.GetComponent(e, EntityStateType) == State(Active)
      && (s.freeIndices != [] ==>
            && e == s.freeIndices[|s.freeIndices| - 1]
            && r.freeIndices == s.freeIndices[..|s.freeIndices| - 1]
            && r.firstUsable == s.firstUsable
            && r.signatures[e] == s.signatures[e] + {s.StateId()}
            && forall t | t in s.ids && t != EntityStateType :: r.GetComponent(e, t) == s.GetComponent(e, t))
      && (s.freeIndices == [] ==>
            && e == s.firstUsable
            && r.freeIndices == []
            && r.firstUsable == s.firstUsable + 1
            && r.signatures[e] == {s.StateId()}
            && forall t | t in s.ids && t != EntityStateType :: r.GetComponent(e, t) == Default(t))
  {
    if s.freeIndices == [] {
      GrownConsistent(s);
    }
  }

  /** CreateEntity leaves every other allocated index as it was. */
  lemma CreateEntityFrame(s: Store)
    requires s.Valid()
    ensures var (r, e) := s.CreateEntity();
      forall j | 0 <= j < s.firstUsable && j != e ::
        && r.signatures[j] == s.signatures[j]
        && forall t | t in s.ids :: r.GetComponent(j, t) == s.GetComponent(j, t)
  {
    if s.freeIndices == [] {
      GrownConsistent(s);
    } else {
      var (popped, e) := s.PopFree();
      assert popped.Valid() by {
        assert popped.freeIndices == s.freeIndices[..|s.freeIndices| - 1];
      }
      forall t, j | t in s.ids && 0 <= j < s.firstUsable
        ensures popped.GetComponent(j, t) == s.GetComponent(j, t)
      {
      }
    }
  }

  /** DestroyEntity makes a live index free: the count goes down by one. */
  lemma DestroyEntityLive(s: Store, e: EntityIndex)
    requires s.Valid() && e < s.firstUsable && e !in s.freeIndices
    ensures e in s.LiveIndices()
    ensures s.DestroyEntity(e).LiveIndices() == s.LiveIndices() - {e}
    ensures s.DestroyEntity(e).EntityCount() == s.EntityCount() - 1
  {
    LivePush(s.firstUsable, s.freeIndices, e);
  }

  /** After DestroyEntity the index is Destroyed, its signature holds the
      EntityState bit only, its other slots keep their stale values, it is
      the top of the free stack, and no other index changes. */
  lemma DestroyEntityState(s: Store, e: EntityIndex)
    requires s.Valid() && e < s.firstUsable && e !in s.freeIndices
    ensures var r := s.DestroyEntity(e);
      && r.freeIndices == s.freeIndices + [e]
      && r.signatures[e] == {s.StateId()}
      && r.GetComponent(e, EntityStateType) == State(Destroyed)
      && (forall t | t in s.ids && t != EntityStateType ::
            !r.HasComponent(e, t) && r.GetComponent(e, t) == s.GetComponent(e, t))
      && forall j | 0 <= j < s.firstUsable && j != e ::
           && r.signatures[j] == s.signatures[j]
           && forall t | t in s.ids :: r.GetComponent(j, t) == s.GetComponent(j, t)
  {
    var cleared := s.(signatures := s.signatures[e := {}]);
    forall t, j | t in s.ids && 0 <= j < s.firstUsable
      ensures cleared.GetComponent(j, t) == s.GetComponent(j, t)
    {
    }
    var marked := cleared.SetComponent(e, State(Destroyed));
    assert s.DestroyEntity(e) == marked.(freeIndices := s.freeIndices + [e]);
    assert marked.signatures[e] == {s.StateId()};
    forall t | t in s.ids && t != EntityStateType
      ensures !marked.HasComponent(e, t)
    {
      assert s.ids[t] != s.StateId();
    }
    forall j | 0 <= j < s.firstUsable && j != e
      ensures marked.signatures[j] == s.signatures[j]
      ensures forall t | t in s.ids :: marked.GetComponent(j, t) == s.GetComponent(j, t)
    {
      assert cleared.signatures[j] == s.signatures[j];
    }
  }

  /** The free stack is LIFO: creating right after destroying e gives e back,
      Active and with no component but EntityState. */
  lemma DestroyThenCreate(s: Store, e: EntityIndex)
    requires s.Valid() && e < s.firstUsable && e !in s.freeIndices
    ensures var (r, e') := s.DestroyEntity(e).CreateEntity();
      && e' == e
      && r.LiveIndices() == s.LiveIndices()
      && r.signatures[e] == {s.StateId()}
      && r.GetComponent(e, EntityStateType) == State(Active)
      && forall t | t in s.ids && t != EntityStateType :: !r.HasComponent(e, t)
  {
    var d := s.DestroyEntity(e);
    DestroyEntityState(s, e);
    DestroyEntityLive(s, e);
    CreateEntityState(d);
    CreateEntityLive(d);
    assert d.freeIndices[..|d.freeIndices| - 1] == s.freeIndices;
  }

  /** DestroyEntity keeps every freed index clean, the new one included. */
  lemma DestroyEntityFreedClean(s: Store, e: EntityIndex)
    requires s.Valid() && s.FreedClean() && e < s.firstUsable && e !in s.freeIndices
    ensures s.DestroyEntity(e).FreedClean()
  {
    DestroyEntityState(s, e);
    var r := s.DestroyEntity(e);
    forall i | 0 <= i < |r.freeIndices|
      ensures r.signatures[r.freeIndices[i]] == {r.StateId()}
    {
      if i < |s.freeIndices| {
        assert r.freeIndices[i] == s.freeIndices[i] != e;
      }
    }
  }

  /** While freed indices are clean, CreateEntity hands out an index whose
      signature is the EntityState bit alone, whether reused or new, and the
      remaining freed indices stay clean. */
  lemma CreateEntityFreedClean(s: Store)
    requires s.Valid() && s.FreedClean()
    ensures var (r, e) := s.CreateEntity();
      r.FreedClean() && r.signatures[e] == {s.StateId()}
  {
    CreateEntityState(s);
    CreateEntityFrame(s);
    var (r, e) := s.CreateEntity();
    if s.freeIndices != [] {
      assert s.signatures[e] == {s.StateId()};
      forall i | 0 <= i < |r.freeIndices|
        ensures r.signatures[r.freeIndices[i]] == {r.StateId()}
      {
        assert r.freeIndices[i] == s.freeIndices[i] != e;
      }
    }
  }

  /** SetComponent on a live index keeps every freed index clean. */
  lemma SetComponentLiveFreedClean(s: Store, e: EntityIndex, v: Value)
    requires s.Valid() && s.FreedClean() && e < s.firstUsable && e !in s.freeIndices
    requires TypeOf(v) in s.ids
    ensures s.SetComponent(e, v).FreedClean()
  {
    var r := s.SetComponent(e, v);
    forall i | 0 <= i < |r.freeIndices|
      ensures r.signatures[r.freeIndices[i]] == {r.StateId()}
    {
      assert r.freeIndices[i] in s.freeIndices;
    }
  }

  /** Setting the first i + 1 values is setting the first i, then the next. */
  lemma SetEachPrefix(s: Store, e: EntityIndex, values: seq<Value>, i: nat)
    requires s.Consistent() && e < s.firstUsable && forall v | v in values :: TypeOf(v) in s.ids
    requires i < |values|
    ensures s.SetEach(e, values[..i + 1]) == s.SetEach(e, values[..i]).SetComponent(e, values[i])
  {
    assert values[..i + 1][..i] == values[..i];
  }

  /** SetEach sets the bits of the types of the values in the signature of e
      and leaves every other signature alone. */
  lemma {:induction false} SetEachSignature(s: Store, e: EntityIndex, values: seq<Value>)
    requires s.Consistent() && e < s.firstUsable && forall v | v in values :: TypeOf(v) in s.ids
    ensures s.SetEach(e, values).signatures == s.signatures[e := s.signatures[e] + IdsOf(s.ids, values)]
    decreases |values|
  {
    if values == [] {
      assert s.signatures[e] + {} == s.signatures[e];
    } else {
      var init := values[..|values| - 1];
      SetEachSignature(s, e, init);
      UpdateTwice(s.signatures, e, IdsOf(s.ids, init), {s.ids[TypeOf(values[|values| - 1])]});
    }
  }

  lemma UpdateTwice(sigs: seq<Signature>, e: nat, a: Signature, b: Signature)
    requires e < |sigs|
    ensures sigs[e := sigs[e] + a][e := sigs[e] + a + b] == sigs[e := sigs[e] + (a + b)]
  {
    assert sigs[e] + a + b == sigs[e] + (a + b);
  }

  /** After SetEach, each slot of e holds the last value of its type, or the
      old value when no value has that type; other indices are unchanged. */
  lemma {:induction false} SetEachValues(s: Store, e: EntityIndex, values: seq<Value>)
    requires s.Consistent() && e < s.firstUsable && forall v | v in values :: TypeOf(v) in s.ids
    ensures var r := s.SetEach(e, values);
      && (forall t | t in s.ids ::
            r.GetComponent(e, t) == match LastOfType(values, t)
                                    case Some(v) => v
                                    case None => s.GetComponent(e, t))
      && forall t, j | t in s.ids && 0 <= j < s.firstUsable && j != e ::
           r.GetComponent(j, t) == s.GetComponent(j, t)
    decreases |values|
  {
    if values != [] {
      SetEachValues(s, e, values[..|values| - 1]);
    }
  }

  /** CreateEntityWithComponents makes one more index live, the one
      CreateEntity hands out. */
  lemma CreateEntityWithComponentsLive(s: Store, values: seq<Value>)
    requires s.Valid() && forall v | v in values :: TypeOf(v) in s.ids
    ensures var (r, e) := s.CreateEntityWithComponents(values);
      && e == s.CreateEntity().1
      && e !in s.LiveIndices()
      && r.LiveIndices() == s.LiveIndices() + {e}
      && r.EntityCount() == s.EntityCount() + 1
  {
    CreateEntityLive(s);
  }

  /** The new entity's signature gains the bit of every given value's type,
      and no other signature changes. */
  lemma CreateEntityWithComponentsSignature(s: Store, values: seq<Value>)
    requires s.Valid() && forall v | v in values :: TypeOf(v) in s.ids
    ensures var (c, e) := s.CreateEntity();
      var r := s.CreateEntityWithComponents(values).0;
      && r.signatures == c.signatures[e := c.signatures[e] + IdsOf(s.ids, values)]
      && forall v | v in values :: r.HasComponent(e, TypeOf(v))
  {
    var (c, e) := s.CreateEntity();
    SetEachSignature(c, e, values);
    forall v | v in values
      ensures c.SetEach(e, values).HasComponent(e, TypeOf(v))
    {
      assert s.ids[TypeOf(v)] in IdsOf(c.ids, values);
    }
  }

  /** Each slot of the new entity holds the last given value of its type, or
      what CreateEntity left there; no other allocated index changes. */
  lemma CreateEntityWithComponentsValues(s: Store, values: seq<Value>)
    requires s.Valid() && forall v | v in values :: TypeOf(v) in s.ids
    ensures var (c, e) := s.CreateEntity();
      var r := s.CreateEntityWithComponents(values).0;
      && (forall t | t in s.ids ::
            r.GetComponent(e, t) == match LastOfType(values, t)
                                    case Some(v) => v
                                    case None => c.GetComponent(e, t))
      && forall t, j | t in s.ids && 0 <= j < s.firstUsable && j != e ::
           r.GetComponent(j, t) == s.GetComponent(j, t)
  {
    var (c, e) := s.CreateEntity();
    CreateEntityFrame(s);
    SetEachValues(c, e, values);
  }

  /** While freed indices are clean, the signature of the entity
      CreateEntityWithComponents returns is exactly the EntityState bit plus
      the bits of the given values' types: a reused index carries no bit of
      its previous occupant. */
  lemma CreateEntityWithComponentsExact(s: Store, values: seq<Value>)
    requires s.Valid() && s.FreedClean() && forall v | v in values :: TypeOf(v) in s.ids
    ensures var (r, e) := s.CreateEntityWithComponents(values);
      r.signatures[e] == {s.StateId()} + IdsOf(s.ids, values) && r.FreedClean()
  {
    var (c, e) := s.CreateEntity();
    CreateEntityFreedClean(s);
    CreateEntityWithComponentsSignature(s, values);
    var r := c.SetEach(e, values);
    CreateEntityFrame(s);
    forall i | 0 <= i < |r.freeIndices|
      ensures r.signatures[r.freeIndices[i]] == {r.StateId()}
    {
      assert r.freeIndices[i] in c.freeIndices;
      assert r.freeIndices[i] != e;
    }
  }

  /** The filtering scenario of the tests: when exactly the even indices
      below 2n match the filter, GetEntities reports n of them. */
  lemma EvenIndicesMatch(sigs: seq<Signature>, filter: Signature, found: seq<EntityIndex>, n: nat)
    requires |sigs| == 2 * n
    requires forall x | 0 <= x < 2 * n :: Matches(sigs[x], filter) <==> x % 2 == 0
    requires forall i, j | 0 <= i < j < |found| :: found[i] < found[j]
    requires forall x: nat :: x in found <==> x < 2 * n && Matches(sigs[x], filter)
    ensures |found| == n
  {
    IncreasingDistinct(found);
    DistinctCard(found);
    EvensBelowMembers(n);
    EvensCard(n);
    assert Elements(found) == EvensBelow(n);
  }

  /** The component types of the filtering test besides EntityState. */
  const IntType := UserType("int")
  const TestType := UserType("TestComponent")

  /** The pack of step i of the filtering test's creation loop: an int and a
      TestComponent at even steps, an int alone at odd ones. */
  function TestPack(i: nat): (vs: seq<Value>)
    ensures forall v | v in vs :: TypeOf(v) == IntType || TypeOf(v) == TestType
    ensures |vs| == (if i % 2 == 0 then 2 else 1)
    ensures TypeOf(vs[0]) == IntType && (|vs| == 2 ==> TypeOf(vs[1]) == TestType)
  {
    if i % 2 == 0 then [User("int", [i]), User("TestComponent", [])] else [User("int", [i])]
  }

  /** The ids the pack of step i sets: int's, and TestComponent's at even
      steps. */
  lemma TestPackIds(ids: map<ComponentType, ComponentId>, i: nat)
    requires IntType in ids && TestType in ids
    ensures IdsOf(ids, TestPack(i)) == {ids[IntType]} + (if i % 2 == 0 then {ids[TestType]} else {})
  {
    var vs := TestPack(i);
    assert vs[0] in vs;
    if i % 2 == 0 {
      assert vs[1] in vs;
    }
  }

  /** With no freed index, CreateEntity appends the frontier with the
      EntityState bit alone. */
  lemma CreateEntityGrows(s: Store)
    requires s.Valid() && s.freeIndices == []
    ensures var (r, e) := s.CreateEntity();
      && e == s.firstUsable && r.firstUsable == s.firstUsable + 1 && r.freeIndices == []
      && r.signatures == s.signatures + [{s.StateId()}]
  {
    CreateEntityState(s);
    CreateEntityFrame(s);
    var (r, e) := s.CreateEntity();
    assert r.signatures == s.signatures + [{s.StateId()}] by {
      assert forall j | 0 <= j < s.firstUsable :: r.signatures[j] == s.signatures[j];
    }
  }

  /** With no freed index, CreateEntityWithComponents appends the frontier
      with the EntityState bit and the bits of the values' types. */
  lemma CreateEntityWithComponentsGrows(s: Store, values: seq<Value>)
    requires s.Valid() && s.freeIndices == [] && forall v | v in values :: TypeOf(v) in s.ids
    ensures var (r, e) := s.CreateEntityWithComponents(values);
      && e == s.firstUsable && r.firstUsable == s.firstUsable + 1 && r.freeIndices == []
      && r.signatures == s.signatures + [{s.StateId()} + IdsOf(s.ids, values)]
  {
    var (c, e) := s.CreateEntity();
    CreateEntityGrows(s);
    SetEachSignature(c, e, values);
    assert (s.signatures + [{s.StateId()}])[e := {s.StateId()} + IdsOf(s.ids, values)]
      == s.signatures + [{s.StateId()} + IdsOf(s.ids, values)];
  }

  /** The signature the filtering test expects at index i: EntityState and
      int, plus TestComponent when i is even. */
  function TestSignature(ids: map<ComponentType, ComponentId>, i: nat): (sig: Signature)
    requires EntityStateType in ids && IntType in ids && TestType in ids
    ensures ids[EntityStateType] in sig && ids[IntType] in sig
    ensures ids[TestType] != ids[IntType] && ids[TestType] != ids[EntityStateType] ==>
      (ids[TestType] in sig <==> i % 2 == 0)
  {
    {ids[EntityStateType], ids[IntType]} + (if i % 2 == 0 then {ids[TestType]} else {})
  }

  /** One step of the creation loop keeps the expected signatures. */
  lemma PopulateTestStep(p: Store, i: nat)
    requires p.Valid() && IntType in p.ids && TestType in p.ids
    requires p.firstUsable == i && p.freeIndices == []
    requires forall j | 0 <= j < i :: p.signatures[j] == TestSignature(p.ids, j)
    ensures var r := p.CreateEntityWithComponents(TestPack(i)).0;
      && r.firstUsable == i + 1 && r.freeIndices == []
      && forall j | 0 <= j <= i :: r.signatures[j] == TestSignature(p.ids, j)
  {
    var vs := TestPack(i);
    CreateEntityWithComponentsGrows(p, vs);
    TestPackIds(p.ids, i);
  }

  /** The count of the filtering test: when index i below 2n has the
      expected signature, the ascending, exact answer of GetEntities for the
      filter {int, TestComponent} has the n even indices. */
  lemma FilterTestCount(ids: map<ComponentType, ComponentId>, sigs: seq<Signature>, n: nat, found: seq<EntityIndex>)
    requires EntityStateType in ids && IntType in ids && TestType in ids
    requires ids[TestType] != ids[IntType] && ids[TestType] != ids[EntityStateType]
    requires |sigs| == 2 * n && forall i | 0 <= i < 2 * n :: sigs[i] == TestSignature(ids, i)
    requires forall i, j | 0 <= i < j < |found| :: found[i] < found[j]
    requires forall x: nat :: x in found <==> x < 2 * n && Matches(sigs[x], {ids[IntType], ids[TestType]})
    ensures |found| == n
  {
    var filter := {ids[IntType], ids[TestType]};
    forall x | 0 <= x < 2 * n
      ensures Matches(sigs[x], filter) <==> x % 2 == 0
    {
      assert ids[IntType] in sigs[x];
    }
    EvenIndicesMatch(sigs, filter, found, n);
  }

  /** EntityManager: the store, updated in place. Its const members
      (EntityCount, HasComponent, GetComponent) are the functions of the same
      names on Snapshot(). */
  class EntityManager {
    /** _firstUsableEntityIndex: one past the highest index ever allocated. */
    var firstUsable: nat
    /** _freeEntityIndices: the top of the stack is the last element. */
    var freeIndices: seq<EntityIndex>
    /** _containers: None where the original holds nullptr. */
    var containers: seq<Option<Container>>
    /** _componentsByEntityIndex. */
    var signatures: seq<Signature>
    /** GetComponentID<T>() of each declared component type. */
    const ids: map<ComponentType, ComponentId>

    function Snapshot(): Store
      reads this
    {
      Store(ids, firstUsable, freeIndices, containers, signatures)
    }

    ghost predicate Valid()
      reads this
    {
      Snapshot().Valid()
    }

    /** EntityManager(UsedComponents<Ts...>): registers each declared type with
        the identity registry and gives it an empty container at its id; the
        rest of the table stays empty. The declared types must include
        EntityState, and their ids must fit the table. */
    constructor (registry: ComponentIds, used: seq<ComponentType>)
      requires registry.Valid()
      requires EntityStateType in used
      requires forall t | t in used ::
        t in QueryAll(registry.Snapshot(), used).ids
        && QueryAll(registry.Snapshot(), used).ids[t] < MAX_COMPONENT_COUNT
      modifies registry
      ensures registry.Valid() && registry.Snapshot() == QueryAll(old(registry.Snapshot()), used)
      ensures Valid()
      ensures firstUsable == 0 && freeIndices == [] && signatures == []
      ensures forall t :: t in ids <==> t in used
      ensures forall t | t in ids :: ids[t] == registry.ids[t]
      ensures forall t | t in ids :: containers[ids[t]] == Some(Container(t, []))
      ensures forall k | 0 <= k < MAX_COMPONENT_COUNT && (forall t | t in ids :: ids[t] != k) ::
        containers[k].None?
    {
      RegisterAll(registry, used);
      assert Injective(registry.ids);
      var m: map<ComponentType, ComponentId> := map t | t in used :: registry.ids[t];
      var table := EmptyContainers(m, used);
      ids := m;
      firstUsable := 0;
      freeIndices := [];
      containers := table;
      signatures := [];
    }

    /** The expansion of the pack Ts...: GetComponentID<T>() for each declared
        type in order. */
    static method RegisterAll(registry: ComponentIds, used: seq<ComponentType>)
      requires registry.Valid()
      modifies registry
      ensures registry.Valid() && registry.Snapshot() == QueryAll(old(registry.Snapshot()), used)
    {
      ghost var r0 := registry.Snapshot();
      for i := 0 to |used|
        invariant registry.Snapshot() == QueryAll(r0, used[..i])
      {
        QueryAllWellFormed(r0, used[..i]);
        var id := registry.IdOf(used[i]);
        QueryAllPrefix(r0, used, i);
      }
      assert used[..|used|] == used;
      QueryAllWellFormed(r0, used);
    }

    /** SetupContainer for each declared type: an empty container at the id of
        that type; the other entries of the table stay null. */
    static method EmptyContainers(m: map<ComponentType, ComponentId>, used: seq<ComponentType>)
      returns (table: seq<Option<Container>>)
      requires forall t | t in used :: t in m
      requires Injective(m)
      ensures |table| == MAX_COMPONENT_COUNT
      ensures forall j | 0 <= j < |used| :: table[m[used[j]]] == Some(Container(used[j], []))
      ensures forall k | 0 <= k < |table| && table[k].Some? :: table[k].value.slots == []
      ensures forall k | 0 <= k < |table| && (forall t | t in used :: m[t] != k) :: table[k].None?
    {
      table := seq(MAX_COMPONENT_COUNT, _ => None);
      for i := 0 to |used|
        invariant |table| == MAX_COMPONENT_COUNT
        invariant forall j | 0 <= j < i :: table[m[used[j]]] == Some(Container(used[j], []))
        invariant forall k | 0 <= k < |table| && table[k].Some? :: table[k].value.slots == []
        invariant forall k | 0 <= k < |table| && (forall j | 0 <= j < i :: m[used[j]] != k) ::
          table[k].None?
      {
        table := table[m[used[i]] := Some(Container(used[i], []))];
      }
    }

    /** SetComponent<T>, in place: Store.SetComponent. */
    method SetComponent(e: EntityIndex, v: Value)
      requires Snapshot().Consistent() && e < firstUsable && TypeOf(v) in ids
      modifies this
      ensures Snapshot() == old(Snapshot()).SetComponent(e, v)
    {
      var id := ids[TypeOf(v)];
      signatures := signatures[e := signatures[e] + {id}];
      containers := containers[id := Some(containers[id].value.Set(e, v))];
    }

    /** CreateContainersForNewEntity, in place: a loop over the container
        table, then a push on the signature table. */
    method CreateContainersForNewEntity()
      modifies this
      ensures Snapshot() == old(Snapshot()).AddEntitySlot()
    {
      var table := containers;
      for k := 0 to |table|
        invariant |table| == |containers|
        invariant forall j | 0 <= j < k ::
          table[j] == if containers[j].Some? then Some(containers[j].value.AddNew()) else None
        invariant forall j | k <= j < |table| :: table[j] == containers[j]
      {
        if table[k].Some? {
          table := table[k := Some(table[k].value.AddNew())];
        }
      }
      containers := table;
      signatures := signatures + [{}];
    }

    /** TryReuseEntityIndex: pops the top of the free stack, if any. */
    method TryReuseEntityIndex() returns (reused: bool, e: EntityIndex)
      modifies this
      ensures reused <==> old(freeIndices) != []
      ensures reused ==> (Snapshot(), e) == old(Snapshot()).PopFree()
      ensures !reused ==> Snapshot() == old(Snapshot())
    {
      reused := |freeIndices| > 0;
      e := 0;
      if reused {
        e := freeIndices[|freeIndices| - 1];
        freeIndices := freeIndices[..|freeIndices| - 1];
      }
    }

    /** CreateEntity, in place: Store.CreateEntity. */
    method CreateEntity() returns (e: EntityIndex)
      requires Valid()
      modifies this
      ensures (Snapshot(), e) == old(Snapshot()).CreateEntity()
      ensures Valid()
    {
      var reused: bool;
      reused, e := TryReuseEntityIndex();
      if reused {
        assert Snapshot().Valid() by {
          assert freeIndices == old(freeIndices)[..|old(freeIndices)| - 1];
        }
        SetComponent(e, State(Active));
        return;
      }
      e := firstUsable;
      GrownConsistent(Snapshot());
      CreateContainersForNewEntity();
      // The original sets EntityState before advancing the frontier; nothing
      // observes the state in between.
      firstUsable := firstUsable + 1;
      SetComponent(e, State(Active));
    }

    /** DestroyEntity, in place: Store.DestroyEntity. */
    method DestroyEntity(e: EntityIndex)
      requires Valid() && e < firstUsable && e !in freeIndices
      modifies this
      ensures Snapshot() == old(Snapshot()).DestroyEntity(e)
      ensures Valid()
    {
      signatures := signatures[e := {}];
      SetComponent(e, State(Destroyed));
      freeIndices := freeIndices + [e];
    }

    /** CreateEntityWithComponents, in place: CreateEntity, then SetComponent
        for each value in order. */
    method CreateEntityWithComponents(values: seq<Value>) returns (e: EntityIndex)
      requires Valid() && forall v | v in values :: TypeOf(v) in ids
      modifies this
      ensures (Snapshot(), e) == old(Snapshot()).CreateEntityWithComponents(values)
      ensures Valid()
    {
      e := CreateEntity();
      ghost var created := Snapshot();
      for i := 0 to |values|
        invariant e < firstUsable
        invariant Snapshot() == created.SetEach(e, values[..i])
      {
        SetEachPrefix(created, e, values, i);
        SetComponent(e, values[i]);
      }
      assert values[..|values|] == values;
    }

    /** GetEntities: appends to `entities`, in ascending order, every
        allocated index whose signature includes the filter; freed indices
        included, as they keep the EntityState bit. */
    method GetEntities(filter: Signature, entities: seq<EntityIndex>) returns (result: seq<EntityIndex>)
      requires |signatures| == firstUsable
      ensures |result| >= |entities| && result[..|entities|] == entities
      ensures forall i, j | |entities| <= i < j < |result| :: result[i] < result[j]
      ensures forall x: nat :: x in result[|entities|..] <==> x < firstUsable && Matches(signatures[x], filter)
    {
      result := entities;
      for i := 0 to firstUsable
        invariant |result| >= |entities| && result[..|entities|] == entities
        invariant forall a, b | |entities| <= a < b < |result| :: result[a] < result[b]
        invariant forall a | |entities| <= a < |result| :: result[a] < i
        invariant forall x: nat :: x in result[|entities|..] <==> x < i && Matches(signatures[x], filter)
      {
        if signatures[i] * filter == filter {
          assert (result + [i])[|entities|..] == result[|entities|..] + [i];
          result := result + [i];
        }
      }
    }
  }
}
