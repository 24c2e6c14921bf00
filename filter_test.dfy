/** The filtering scenario of the unit tests (GetEntitiesForComponents in
    ECSTest/UnitTests_01.cpp): a store built for EntityState, int and
    TestComponent, 1000 entities created with int and, at even steps,
    TestComponent, then one GetEntities for the filter {int, TestComponent}. */
module FilterTest {
  import opened Component
  import opened ECS

  /** The test run on a registry with room for three more ids: the store ends
      up with 1000 live entities, and the filter matches 500 of them, the
      even indices, in ascending order. */
  method GetEntitiesForComponents(registry: ComponentIds) returns (count: int, entities: seq<EntityIndex>)
    requires registry.Valid() && registry.next + 3 <= MAX_COMPONENT_COUNT
    modifies registry
    ensures count == 1000 && |entities| == 500
    ensures forall x: nat :: x in entities <==> x < 1000 && x % 2 == 0
    ensures forall i, j | 0 <= i < j < |entities| :: entities[i] < entities[j]
  {
    var used := [EntityStateType, IntType, TestType];
    QueryAllIdsBelow(registry.Snapshot(), used);
    var manager := new EntityManager(registry, used);
    assert manager.ids[TestType] != manager.ids[IntType]
      && manager.ids[TestType] != manager.ids[EntityStateType];
    CreateTestEntities(manager, used);
    count := manager.Snapshot().EntityCount();
    // GetComponentID<int>() and GetComponentID<TestComponent>() return the
    // ids cached when the store was built, which the store holds.
    entities := manager.GetEntities({manager.ids[IntType], manager.ids[TestType]}, []);
    assert entities[0..] == entities;
    FilterTestCount(manager.ids, manager.signatures, 500, entities);
    forall x: nat
      ensures x in entities <==> x < 1000 && x % 2 == 0
    {
      if x < 1000 {
        assert manager.ids[TestType] in manager.signatures[x] <==> x % 2 == 0;
      }
    }
  }

  /** The creation loop of the test: at step i, CreateEntityWithComponents of
      an int and, when i is even, a TestComponent. */
  method CreateTestEntities(manager: EntityManager, used: seq<ComponentType>)
    requires manager.Valid() && forall t :: t in manager.ids <==> t in used
    requires IntType in used && TestType in used
    requires manager.firstUsable == 0 && manager.freeIndices == []
    modifies manager
    ensures manager.Valid()
    ensures manager.firstUsable == 1000 && manager.freeIndices == []
    ensures forall j | 0 <= j < 1000 :: manager.signatures[j] == TestSignature(manager.ids, j)
  {
    for i := 0 to 1000
      invariant manager.Valid() && IntType in manager.ids && TestType in manager.ids
      invariant manager.firstUsable == i && manager.freeIndices == []
      invariant forall j | 0 <= j < i :: manager.signatures[j] == TestSignature(manager.ids, j)
    {
      CreateTestEntity(manager, i);
    }
  }

  /** Step i of the creation loop: the new entity is index i, with the
      expected signature. */
  method CreateTestEntity(manager: EntityManager, i: nat)
    requires manager.Valid() && IntType in manager.ids && TestType in manager.ids
    requires manager.firstUsable == i && manager.freeIndices == []
    requires forall j | 0 <= j < i :: manager.signatures[j] == TestSignature(manager.ids, j)
    modifies manager
    ensures manager.Valid()
    ensures manager.firstUsable == i + 1 && manager.freeIndices == []
    ensures forall j | 0 <= j <= i :: manager.signatures[j] == TestSignature(manager.ids, j)
  {
    ghost var before := manager.Snapshot();
    PopulateTestStep(before, i);
    var e := manager.CreateEntityWithComponents(TestPack(i));
  }
}
