/** The entity-component-system runtime: entity handles, per-type component
    storage, the type-erased registry inside World, and the typed World API.

    A component type is identified by a `TypeTag` (Rust's `TypeId`). The
    payload type `V` stands for the component values; every storage of one
    World holds payloads of that one type, and the tag says which Rust type
    they belong to. */
module Ecs {
  import opened Optional
  import Seqs

  // ---------------------------------------------------------------------------
  // Entity
  // ---------------------------------------------------------------------------

  /** An entity is a bare numeric handle; it carries no data of its own.
      Validity is not a property of the value but of a World's roster. */
  datatype Entity = Entity(id: nat)

  // ---------------------------------------------------------------------------
  // ComponentStorage<T>
  // ---------------------------------------------------------------------------

  /** All components of one type, at most one per entity. */
  datatype ComponentStorage<V> = ComponentStorage(components: map<Entity, V>)

  /** The stored component of `e`, if any (`get` / `get_mut`). */
  function Get<V>(s: ComponentStorage<V>, e: Entity): (r: Option<V>)
    ensures r.Some? <==> e in s.components
    ensures r.Some? ==> r.value == s.components[e]
  {
    if e in s.components then Some(s.components[e]) else None
  }

  /** `contains`. */
  function Contains<V>(s: ComponentStorage<V>, e: Entity): (b: bool)
    ensures b <==> Get(s, e).Some?
  {
    e in s.components
  }

  /** `len`. */
  function Len<V>(s: ComponentStorage<V>): (n: nat)
    ensures n == 0 <==> s.components == map[]
  {
    |s.components|
  }

  /** `is_empty`. */
  function IsEmpty<V>(s: ComponentStorage<V>): (b: bool)
    ensures b <==> Len(s) == 0
  {
    |s.components| == 0
  }

  /** `ComponentStorage::new`: a storage holding nothing. */
  function NewStorage<V>(): (s: ComponentStorage<V>)
    ensures Len(s) == 0
    ensures forall e :: Get(s, e) == None
  {
    ComponentStorage(map[])
  }

  /** `insert`: attaches `v` to `e`, replacing and returning the previous value. */
  function Insert<V>(s: ComponentStorage<V>, e: Entity, v: V): (r: (ComponentStorage<V>, Option<V>))
    ensures Get(r.0, e) == Some(v)
    ensures r.1 == Get(s, e)
    ensures forall x | x != e :: Get(r.0, x) == Get(s, x)
    ensures Len(r.0) == if Contains(s, e) then Len(s) else Len(s) + 1
  {
    (ComponentStorage(s.components[e := v]), Get(s, e))
  }

  /** `remove`: detaches and returns the component of `e`; an absent entity changes nothing. */
  function Remove<V>(s: ComponentStorage<V>, e: Entity): (r: (ComponentStorage<V>, Option<V>))
    ensures r.1 == Get(s, e)
    ensures !Contains(r.0, e)
    ensures forall x | x != e :: Get(r.0, x) == Get(s, x)
    ensures r.1.None? ==> r.0 == s
    ensures Len(r.0) == if r.1.Some? then Len(s) - 1 else Len(s)
  {
    var m := s.components - {e};
    assert m.Keys == s.components.Keys - {e};
    assert e !in s.components ==> m == s.components;
    (ComponentStorage(m), Get(s, e))
  }

  /** The (entity, component) pairs of a map. */
  function Pairs<V(==)>(m: map<Entity, V>): set<(Entity, V)> {
    set e | e in m :: (e, m[e])
  }

  /** A map holds exactly as many pairs as keys: no pair is produced twice. */
  lemma {:induction false} PairsCard<V>(m: map<Entity, V>)
    ensures |Pairs(m)| == |m|
    decreases |m|
  {
    if |m| == 0 {
      assert m == map[];
      assert Pairs(m) == {};
    } else {
      var k :| k in m;
      var m' := m - {k};
      assert m'.Keys == m.Keys - {k};
      PairsCard(m');
      forall p | p in Pairs(m)
        ensures p in Pairs(m') + {(k, m[k])}
      {
        var e :| e in m && p == (e, m[e]);
        if e != k { assert e in m'; }
      }
      forall p | p in Pairs(m') + {(k, m[k])}
        ensures p in Pairs(m)
      {
        if p in Pairs(m') {
          var e :| e in m' && p == (e, m'[e]);
          assert e in m;
        }
      }
      assert Pairs(m) == Pairs(m') + {(k, m[k])};
      assert (k, m[k]) !in Pairs(m');
    }
  }

  /** `iter`: every stored (entity, component) pair, each exactly once. The Rust
      iteration order is HashMap order and unspecified, so the result is a set. */
  function Iter<V(==)>(s: ComponentStorage<V>): (r: set<(Entity, V)>)
    ensures forall p | p in r :: Get(s, p.0) == Some(p.1)
    ensures forall e | Contains(s, e) :: (e, s.components[e]) in r
    ensures |r| == Len(s)
  {
    PairsCard(s.components);
    Pairs(s.components)
  }

  /** `is_empty` agrees with `len` and with iteration. */
  lemma IsEmptyIffNothingStored<V>(s: ComponentStorage<V>)
    ensures IsEmpty(s) <==> Len(s) == 0
    ensures IsEmpty(s) <==> Iter(s) == {}
    ensures IsEmpty(s) <==> forall e :: !Contains(s, e)
  {
    if !IsEmpty(s) {
      var k :| k in s.components;
      assert (k, s.components[k]) in Iter(s);
      assert Contains(s, k);
    }
  }

  // ---------------------------------------------------------------------------
  // Type-erased registry
  // ---------------------------------------------------------------------------

  /** A stable per-type identifier (Rust's `TypeId`). */
  type TypeTag = nat

  /** A boxed storage (`Box<dyn Any>`): it remembers the concrete type it was created for. */
  datatype ErasedStorage<V> = ErasedStorage(concrete: TypeTag, components: map<Entity, V>)

  /** `downcast_ref` / `downcast_mut`: succeeds only at the box's own concrete type. */
  function Downcast<V>(b: ErasedStorage<V>, t: TypeTag): Option<ComponentStorage<V>> {
    if b.concrete == t then Some(ComponentStorage(b.components)) else None
  }

  /** `Box::new(storage)` for a storage of type `t`: downcasting back at `t` returns the
      storage unchanged, and downcasting at any other type fails. */
  function Erase<V>(s: ComponentStorage<V>, t: TypeTag): (b: ErasedStorage<V>)
    ensures Downcast(b, t) == Some(s)
    ensures forall u | u != t :: Downcast(b, u) == None
  {
    ErasedStorage(t, s.components)
  }

  // ---------------------------------------------------------------------------
  // World
  // ---------------------------------------------------------------------------

  /** The next id to issue, the live roster, and the registry from type to boxed storage. */
  datatype World<V> = World(nextEntityId: nat, entities: seq<Entity>, storages: map<TypeTag, ErasedStorage<V>>)

  /** Every boxed storage sits under the tag of its own concrete type. */
  predicate WellTyped<V>(w: World<V>) {
    forall t | t in w.storages :: w.storages[t].concrete == t
  }

  /** Every live entity was issued (ids 1 .. nextEntityId - 1), in strictly increasing order. */
  predicate RosterOrdered(entities: seq<Entity>, nextEntityId: nat) {
    && (forall i | 0 <= i < |entities| :: 1 <= entities[i].id < nextEntityId)
    && (forall i, j | 0 <= i < j < |entities| :: entities[i].id < entities[j].id)
  }

  /** The invariant every World keeps: id 0 is never issued, the roster is ordered, the registry well typed. */
  predicate Valid<V>(w: World<V>) {
    && w.nextEntityId >= 1
    && WellTyped(w)
    && RosterOrdered(w.entities, w.nextEntityId)
  }

  /** `entities`. */
  function Entities<V>(w: World<V>): (r: seq<Entity>)
    ensures |r| == EntityCount(w)
    ensures Valid(w) ==> Seqs.NoDuplicates(r)
    ensures Valid(w) ==> forall x | x in r :: 1 <= x.id < w.nextEntityId
  {
    if Valid(w) then
      RosterOrderedNoDuplicates(w.entities, w.nextEntityId);
      w.entities
    else w.entities
  }

  /** `entity_count`. */
  function EntityCount<V>(w: World<V>): (n: nat)
    ensures n == |w.entities|
    ensures Valid(w) ==> n < w.nextEntityId
  {
    if Valid(w) then
      RosterOrderedBound(w.entities, w.nextEntityId);
      |w.entities|
    else |w.entities|
  }

  /** An ordered roster of ids below `next` has fewer than `next` entities. */
  lemma {:induction false} RosterOrderedBound(entities: seq<Entity>, next: nat)
    requires RosterOrdered(entities, next)
    ensures forall i | 0 <= i < |entities| :: entities[i].id >= i + 1
    ensures |entities| < next || (|entities| == 0 && next == 0)
    decreases |entities|
  {
    if |entities| > 0 {
      var init := entities[..|entities| - 1];
      assert RosterOrdered(init, next) by {
        assert forall i | 0 <= i < |init| :: init[i] == entities[i];
      }
      RosterOrderedBound(init, next);
      var last := |entities| - 1;
      if last > 0 {
        assert entities[last - 1].id >= last;
        assert entities[last - 1].id < entities[last].id;
      }
    }
  }

  /** `World::new`: ids start at 1, no entities, no storages. */
  function NewWorld<V>(): (w: World<V>)
    ensures Valid(w)
    ensures EntityCount(w) == 0
    ensures w.nextEntityId == 1
    ensures forall t :: GetStorage(w, t) == None
  {
    World(1, [], map[])
  }

  /** `create_entity`: issues the next id, appends it to the roster and never fails. */
  function CreateEntity<V>(w: World<V>): (r: (World<V>, Entity))
    requires Valid(w)
    ensures Valid(r.0)
    ensures r.1.id == w.nextEntityId && r.1.id >= 1
    ensures forall x | x in w.entities :: x.id < r.1.id
    ensures r.0.entities == w.entities + [r.1]
    ensures EntityCount(r.0) == EntityCount(w) + 1
    ensures r.0.nextEntityId == w.nextEntityId + 1
    ensures r.0.storages == w.storages
  {
    var e := Entity(w.nextEntityId);
    (World(w.nextEntityId + 1, w.entities + [e], w.storages), e)
  }

  /** An ordered roster holds no entity twice. */
  lemma RosterOrderedNoDuplicates(entities: seq<Entity>, next: nat)
    requires RosterOrdered(entities, next)
    ensures Seqs.NoDuplicates(entities)
  {
  }

  /** Dropping one position of an ordered roster keeps it ordered. */
  lemma RemoveAtKeepsOrder(entities: seq<Entity>, next: nat, i: nat)
    requires RosterOrdered(entities, next)
    requires i < |entities|
    ensures RosterOrdered(Seqs.RemoveAt(entities, i), next)
  {
    var r := Seqs.RemoveAt(entities, i);
    forall a, b | 0 <= a < b < |r|
      ensures r[a].id < r[b].id
    {
      var a' := if a < i then a else a + 1;
      var b' := if b < i then b else b + 1;
      assert r[a] == entities[a'] && r[b] == entities[b'];
    }
    forall a | 0 <= a < |r|
      ensures 1 <= r[a].id < next
    {
      var a' := if a < i then a else a + 1;
      assert r[a] == entities[a'];
    }
  }

  /** `remove_entity`: drops `e` from the roster and reports whether it was live.
      It does NOT touch any component storage: the components of a removed entity
      stay stored and stay visible to `Query`. */
  function RemoveEntity<V>(w: World<V>, e: Entity): (r: (World<V>, bool))
    requires Valid(w)
    ensures Valid(r.0)
    ensures r.1 <==> e in w.entities
    ensures forall x :: x in r.0.entities <==> x in w.entities && x != e
    ensures EntityCount(r.0) == if r.1 then EntityCount(w) - 1 else EntityCount(w)
    ensures !r.1 ==> r.0 == w
    ensures r.0.storages == w.storages
    ensures r.0.nextEntityId == w.nextEntityId
  {
    RosterOrderedNoDuplicates(w.entities, w.nextEntityId);
    Seqs.RemoveFirstNoDuplicates(w.entities, e);
    match Seqs.IndexOf(w.entities, e)
    case None => (w, false)
    case Some(i) =>
      RemoveAtKeepsOrder(w.entities, w.nextEntityId, i);
      (w.(entities := Seqs.RemoveAt(w.entities, i)), true)
  }

  /** `get_storage` / `get_storage_mut`: the storage of type `t`, if one was ever created.
      In a valid World the downcast never fails. */
  function GetStorage<V>(w: World<V>, t: TypeTag): (r: Option<ComponentStorage<V>>)
    ensures Valid(w) ==> (r.Some? <==> t in w.storages)
  {
    if t in w.storages then Downcast(w.storages[t], t) else None
  }

  /** `get_or_create_storage_mut`: the storage of type `t`, or a fresh empty one. The
      `expect` on the downcast is unreachable in a valid World. */
  function GetOrCreateStorage<V>(w: World<V>, t: TypeTag): (s: ComponentStorage<V>)
    requires Valid(w)
    ensures t in w.storages ==> GetStorage(w, t) == Some(s)
    ensures t !in w.storages ==> Len(s) == 0
  {
    var boxed := if t in w.storages then w.storages[t] else Erase(NewStorage(), t);
    match Downcast(boxed, t)
    case Some(s) => s
    case None => assert false; NewStorage()
  }

  /** Writes storage `s` back as the (boxed) storage of type `t`. */
  function PutStorage<V>(w: World<V>, t: TypeTag, s: ComponentStorage<V>): (r: World<V>)
    requires Valid(w)
    ensures Valid(r)
    ensures GetStorage(r, t) == Some(s)
    ensures r.storages.Keys == w.storages.Keys + {t}
    ensures OtherTypesUnchanged(w, r, t)
    ensures r.entities == w.entities && r.nextEntityId == w.nextEntityId
  {
    w.(storages := w.storages[t := Erase(s, t)])
  }

  /** No storage other than the one of type `t` differs between `w` and `r`. */
  ghost predicate OtherTypesUnchanged<V>(w: World<V>, r: World<V>, t: TypeTag) {
    forall u | u != t :: GetStorage(r, u) == GetStorage(w, u)
  }

  /** `get_component`: absent storage reads as absent component. */
  function GetComponent<V>(w: World<V>, e: Entity, t: TypeTag): (r: Option<V>)
    ensures Valid(w) ==> (r.Some? <==> t in w.storages && e in w.storages[t].components)
    ensures Valid(w) && r.Some? ==> r.value == w.storages[t].components[e]
  {
    match GetStorage(w, t)
    case None => None
    case Some(s) => Get(s, e)
  }

  /** `has_component`. */
  function HasComponent<V>(w: World<V>, e: Entity, t: TypeTag): (b: bool)
    ensures b <==> GetComponent(w, e, t).Some?
  {
    match GetStorage(w, t)
    case None => false
    case Some(s) => Contains(s, e)
  }

  /** `add_component`: creates the storage of type `t` on first use, then inserts,
      returning the value it replaced. Nothing else in the World changes. */
  function AddComponent<V>(w: World<V>, e: Entity, t: TypeTag, v: V): (r: (World<V>, Option<V>))
    requires Valid(w)
    ensures Valid(r.0)
    ensures r.1 == GetComponent(w, e, t)
    ensures GetComponent(r.0, e, t) == Some(v)
    ensures forall x | x != e :: GetComponent(r.0, x, t) == GetComponent(w, x, t)
    ensures r.0.storages.Keys == w.storages.Keys + {t}
    ensures OtherTypesUnchanged(w, r.0, t)
    ensures r.0.entities == w.entities && r.0.nextEntityId == w.nextEntityId
  {
    var (s, previous) := Insert(GetOrCreateStorage(w, t), e, v);
    (PutStorage(w, t, s), previous)
  }

  /** `get_component_mut` followed by an in-place rewrite `*c = f(*c)`: only an existing
      component changes, and no storage is ever created. */
  function ModifyComponent<V>(w: World<V>, e: Entity, t: TypeTag, f: V -> V): (r: (World<V>, bool))
    requires Valid(w)
    ensures Valid(r.0)
    ensures r.1 <==> HasComponent(w, e, t)
    ensures r.1 ==> GetComponent(r.0, e, t) == Some(f(GetComponent(w, e, t).value))
    ensures !r.1 ==> r.0 == w
    ensures forall x | x != e :: GetComponent(r.0, x, t) == GetComponent(w, x, t)
    ensures r.0.storages.Keys == w.storages.Keys
    ensures OtherTypesUnchanged(w, r.0, t)
    ensures r.0.entities == w.entities && r.0.nextEntityId == w.nextEntityId
  {
    match GetStorage(w, t)
    case None => (w, false)
    case Some(s) =>
      match Get(s, e)
      case None => (w, false)
      case Some(c) => (PutStorage(w, t, Insert(s, e, f(c)).0), true)
  }

  /** `remove_component`: returns exactly the stored value and leaves the pair absent.
      The storage itself stays, even when emptied; an absent pair changes nothing. */
  function RemoveComponent<V>(w: World<V>, e: Entity, t: TypeTag): (r: (World<V>, Option<V>))
    requires Valid(w)
    ensures Valid(r.0)
    ensures r.1 == GetComponent(w, e, t)
    ensures !HasComponent(r.0, e, t)
    ensures r.1.None? ==> r.0 == w
    ensures forall x | x != e :: GetComponent(r.0, x, t) == GetComponent(w, x, t)
    ensures r.0.storages.Keys == w.storages.Keys
    ensures OtherTypesUnchanged(w, r.0, t)
    ensures r.0.entities == w.entities && r.0.nextEntityId == w.nextEntityId
  {
    match GetStorage(w, t)
    case None => (w, None)
    case Some(s) =>
      var (s', removed) := Remove(s, e);
      if removed.None? then (w, None) else (PutStorage(w, t, s'), removed)
  }

  /** `query`: every (entity, component) pair of type `t`, each exactly once; an absent
      storage reads as an empty one. */
  function Query<V(==)>(w: World<V>, t: TypeTag): (r: set<(Entity, V)>)
    ensures forall p | p in r :: GetComponent(w, p.0, t) == Some(p.1)
    ensures forall e | HasComponent(w, e, t) :: (e, GetComponent(w, e, t).value) in r
    ensures GetStorage(w, t).Some? ==> |r| == Len(GetStorage(w, t).value)
    ensures GetStorage(w, t).None? ==> r == {}
  {
    match GetStorage(w, t)
    case None => {}
    case Some(s) => Iter(s)
  }

  /** `query_mut` with every yielded pair `(e, c)` rewritten to `f(e, c)`: the same entities
      keep a component of type `t`, each rewritten once, and nothing else changes. */
  function QueryMut<V>(w: World<V>, t: TypeTag, f: (Entity, V) -> V): (r: World<V>)
    requires Valid(w)
    ensures Valid(r)
    ensures forall e | HasComponent(w, e, t) :: GetComponent(r, e, t) == Some(f(e, GetComponent(w, e, t).value))
    ensures forall e | !HasComponent(w, e, t) :: GetComponent(r, e, t) == None
    ensures r.storages.Keys == w.storages.Keys
    ensures OtherTypesUnchanged(w, r, t)
    ensures r.entities == w.entities && r.nextEntityId == w.nextEntityId
  {
    match GetStorage(w, t)
    case None => w
    case Some(s) =>
      PutStorage(w, t, ComponentStorage(map e | e in s.components :: f(e, s.components[e])))
  }

  /** A type that was never inserted reads as absent everywhere: no component, no `has`,
      an empty query. */
  lemma AbsentTypeReadsEmpty<V>(w: World<V>, t: TypeTag)
    requires Valid(w)
    requires t !in w.storages
    ensures forall e :: GetComponent(w, e, t).None? && !HasComponent(w, e, t)
    ensures Query(w, t) == {}
  {
  }

  /** The soft delete of `remove_entity`: a removed entity's components are still stored
      and are still yielded by `query`. */
  lemma RemovedEntityKeepsComponents<V>(w: World<V>, e: Entity, t: TypeTag, v: V)
    requires Valid(w)
    requires e in w.entities && GetComponent(w, e, t) == Some(v)
    ensures var r := RemoveEntity(w, e).0;
      e !in Entities(r) && GetComponent(r, e, t) == Some(v) && (e, v) in Query(r, t)
  {
  }

  // ---------------------------------------------------------------------------
  // Sequences of World operations
  // ---------------------------------------------------------------------------

  /** One call of the World's mutating API. The in-place writes through `get_component_mut`
      and `query_mut` carry the rewrite they perform. */
  datatype WorldOp<!V> =
    | CreateEntityOp
    | RemoveEntityOp(target: Entity)
    | AddComponentOp(target: Entity, tag: TypeTag, value: V)
    | RemoveComponentOp(target: Entity, tag: TypeTag)
    | ModifyComponentOp(target: Entity, tag: TypeTag, update: V -> V)
    | QueryMutOp(tag: TypeTag, updateEach: (Entity, V) -> V)

  /** The World after a run, the entities `create_entity` returned in order, and the
      number of `remove_entity` calls that returned true. */
  datatype Replayed<V> = Replayed(world: World<V>, issued: seq<Entity>, removed: nat)

  /** Performs one operation. */
  function Step<V>(w: World<V>, op: WorldOp<V>): (r: Replayed<V>)
    requires Valid(w)
    ensures Valid(r.world)
    ensures w.storages.Keys <= r.world.storages.Keys
    ensures r.world.storages.Keys <= w.storages.Keys + (if op.AddComponentOp? then {op.tag} else {})
    ensures r.world.nextEntityId == w.nextEntityId + |r.issued|
    ensures |r.issued| <= 1 && r.removed <= 1
    ensures forall i | 0 <= i < |r.issued| :: r.issued[i].id == w.nextEntityId
    ensures EntityCount(r.world) + r.removed == EntityCount(w) + |r.issued|
  {
    match op
    case CreateEntityOp =>
      var (w', e) := CreateEntity(w);
      Replayed(w', [e], 0)
    case RemoveEntityOp(e) =>
      var (w', found) := RemoveEntity(w, e);
      Replayed(w', [], if found then 1 else 0)
    case AddComponentOp(e, t, v) =>
      Replayed(AddComponent(w, e, t, v).0, [], 0)
    case RemoveComponentOp(e, t) =>
      Replayed(RemoveComponent(w, e, t).0, [], 0)
    case ModifyComponentOp(e, t, f) =>
      Replayed(ModifyComponent(w, e, t, f).0, [], 0)
    case QueryMutOp(t, g) =>
      Replayed(QueryMut(w, t, g), [], 0)
  }

  /** Performs the operations in order. Ids come out strictly increasing, above every id
      live before the run, and the roster size is creations minus successful removals. */
  function Replay<V>(w: World<V>, ops: seq<WorldOp<V>>): (r: Replayed<V>)
    requires Valid(w)
    ensures Valid(r.world)
    ensures EntityCount(r.world) + r.removed == EntityCount(w) + |r.issued|
    ensures forall i, j | 0 <= i < j < |r.issued| :: r.issued[i].id < r.issued[j].id
    ensures forall i | 0 <= i < |r.issued| :: w.nextEntityId <= r.issued[i].id < r.world.nextEntityId
    ensures forall i, x | 0 <= i < |r.issued| && x in w.entities :: x.id < r.issued[i].id
    ensures r.world.nextEntityId == w.nextEntityId + |r.issued|
    decreases |ops|
  {
    if |ops| == 0 then Replayed(w, [], 0)
    else
      var prev := Replay(w, ops[..|ops| - 1]);
      var last := Step(prev.world, ops[|ops| - 1]);
      Replayed(last.world, prev.issued + last.issued, prev.removed + last.removed)
  }

  /** From a fresh World, the n-th `create_entity` returns id n. */
  lemma {:induction false} FreshWorldIssuesOneTwoThree<V>(n: nat)
    ensures var r := Replay(NewWorld<V>(), seq(n, _ => CreateEntityOp));
      && |r.issued| == n
      && (forall i | 0 <= i < n :: r.issued[i].id == i + 1)
      && EntityCount(r.world) == n
      && r.world.nextEntityId == n + 1
  {
    var ops: seq<WorldOp<V>> := seq(n, _ => CreateEntityOp);
    if n > 0 {
      var ops': seq<WorldOp<V>> := seq(n - 1, _ => CreateEntityOp);
      assert ops[..n - 1] == ops';
      FreshWorldIssuesOneTwoThree<V>(n - 1);
      assert ops[n - 1] == CreateEntityOp;
      ReplaySnoc(NewWorld<V>(), ops);
      StepCreate(Replay(NewWorld<V>(), ops').world);
    }
  }

  /** Replaying a non-empty run is one more step after replaying all but its last operation. */
  lemma ReplaySnoc<V>(w: World<V>, ops: seq<WorldOp<V>>)
    requires Valid(w) && |ops| > 0
    ensures Replay(w, ops).world == Step(Replay(w, ops[..|ops| - 1]).world, ops[|ops| - 1]).world
    ensures Replay(w, ops).issued == Replay(w, ops[..|ops| - 1]).issued + Step(Replay(w, ops[..|ops| - 1]).world, ops[|ops| - 1]).issued
  {
    assert |ops| != 0;
  }

  /** A creation step issues exactly the entity `create_entity` returns. */
  lemma StepCreate<V>(w: World<V>)
    requires Valid(w)
    ensures Step(w, CreateEntityOp) == Replayed(CreateEntity(w).0, [CreateEntity(w).1], 0)
  {
  }

  /** Some operation of the run adds a component of type `t`. */
  ghost predicate EverAdded<V>(ops: seq<WorldOp<V>>, t: TypeTag) {
    exists i | 0 <= i < |ops| :: ops[i].AddComponentOp? && ops[i].tag == t
  }

  /** A storage exists after a run exactly when it existed before or the run inserted a
      component of that type: storages are created lazily and never dropped. */
  lemma {:induction false} StorageExistsIffEverAdded<V>(w: World<V>, ops: seq<WorldOp<V>>, t: TypeTag)
    requires Valid(w)
    ensures t in Replay(w, ops).world.storages <==> t in w.storages || EverAdded(ops, t)
    decreases |ops|
  {
    if |ops| > 0 {
      var init := ops[..|ops| - 1];
      var op := ops[|ops| - 1];
      StorageExistsIffEverAdded(w, init, t);
      var prev := Replay(w, init).world;
      assert Replay(w, ops).world == Step(prev, op).world;
      StepStorageExists(prev, op, t);
      EverAddedSnoc(ops, t);
    }
  }

  /** One step creates the storage of `t` exactly when it adds a component of type `t`. */
  lemma StepStorageExists<V>(w: World<V>, op: WorldOp<V>, t: TypeTag)
    requires Valid(w)
    ensures t in Step(w, op).world.storages <==> t in w.storages || (op.AddComponentOp? && op.tag == t)
  {
    if op.AddComponentOp? && op.tag == t {
      assert t in AddComponent(w, op.target, t, op.value).0.storages;
    }
  }

  /** An addition of type `t` occurs in a run exactly when it occurs before the last
      operation or is the last operation. */
  lemma EverAddedSnoc<V>(ops: seq<WorldOp<V>>, t: TypeTag)
    requires |ops| > 0
    ensures EverAdded(ops, t) <==>
      EverAdded(ops[..|ops| - 1], t) || (ops[|ops| - 1].AddComponentOp? && ops[|ops| - 1].tag == t)
  {
    var init := ops[..|ops| - 1];
    if EverAdded(init, t) {
      var i :| 0 <= i < |init| && init[i].AddComponentOp? && init[i].tag == t;
      assert ops[i] == init[i];
    }
    if EverAdded(ops, t) && !(ops[|ops| - 1].AddComponentOp? && ops[|ops| - 1].tag == t) {
      var i :| 0 <= i < |ops| && ops[i].AddComponentOp? && ops[i].tag == t;
      assert i < |init| && init[i] == ops[i];
    }
  }

  /** The last add or remove of the pair (e, t) in a run: Some(Some(v)) for an add of v,
      Some(None) for a removal, None when the run never adds or removes it. In-place writes
      are not counted: they never create or delete a component. */
  function LastWrite<V>(ops: seq<WorldOp<V>>, e: Entity, t: TypeTag): Option<Option<V>>
    decreases |ops|
  {
    if |ops| == 0 then None
    else
      var op := ops[|ops| - 1];
      if op.AddComponentOp? && op.target == e && op.tag == t then Some(Some(op.value))
      else if op.RemoveComponentOp? && op.target == e && op.tag == t then Some(None)
      else LastWrite(ops[..|ops| - 1], e, t)
  }

  /** The component of (e, t) after one operation, tracked on that pair alone: an add sets
      it, a removal clears it, an in-place write rewrites a present value, and every other
      operation leaves it. */
  function PairStep<V>(c: Option<V>, op: WorldOp<V>, e: Entity, t: TypeTag): Option<V> {
    match op
    case AddComponentOp(x, u, v) => if x == e && u == t then Some(v) else c
    case RemoveComponentOp(x, u) => if x == e && u == t then None else c
    case ModifyComponentOp(x, u, f) => if x == e && u == t && c.Some? then Some(f(c.value)) else c
    case QueryMutOp(u, g) => if u == t && c.Some? then Some(g(e, c.value)) else c
    case _ => c
  }

  /** `PairStep` over a run, starting from `before`. */
  function PairAfter<V>(before: Option<V>, ops: seq<WorldOp<V>>, e: Entity, t: TypeTag): Option<V>
    decreases |ops|
  {
    if |ops| == 0 then before
    else PairStep(PairAfter(before, ops[..|ops| - 1], e, t), ops[|ops| - 1], e, t)
  }

  /** No operation of the run is an in-place write. */
  ghost predicate NoInPlaceWrites<V>(ops: seq<WorldOp<V>>) {
    forall i | 0 <= i < |ops| :: !ops[i].ModifyComponentOp? && !ops[i].QueryMutOp?
  }

  /** One World operation changes the component of (e, t) as `PairStep` says. */
  lemma StepComponent<V>(w: World<V>, op: WorldOp<V>, e: Entity, t: TypeTag)
    requires Valid(w)
    ensures GetComponent(Step(w, op).world, e, t) == PairStep(GetComponent(w, e, t), op, e, t)
  {
    match op
    case CreateEntityOp =>
      assert Step(w, op).world.storages == w.storages;
    case RemoveEntityOp(x) =>
      assert Step(w, op).world.storages == w.storages;
    case AddComponentOp(x, u, v) =>
      AddComponentPair(w, x, u, v, e, t);
    case RemoveComponentOp(x, u) =>
      RemoveComponentPair(w, x, u, e, t);
    case ModifyComponentOp(x, u, f) =>
      ModifyComponentPair(w, x, u, f, e, t);
    case QueryMutOp(u, g) =>
      QueryMutPair(w, u, g, e, t);
  }

  /** `add_component` on one pair, seen from another pair (e, t). */
  lemma AddComponentPair<V>(w: World<V>, x: Entity, u: TypeTag, v: V, e: Entity, t: TypeTag)
    requires Valid(w)
    ensures GetComponent(AddComponent(w, x, u, v).0, e, t) ==
      if x == e && u == t then Some(v) else GetComponent(w, e, t)
  {
    if u != t {
      assert GetStorage(AddComponent(w, x, u, v).0, t) == GetStorage(w, t);
    }
  }

  /** `remove_component` on one pair, seen from another pair (e, t). */
  lemma RemoveComponentPair<V>(w: World<V>, x: Entity, u: TypeTag, e: Entity, t: TypeTag)
    requires Valid(w)
    ensures GetComponent(RemoveComponent(w, x, u).0, e, t) ==
      if x == e && u == t then None else GetComponent(w, e, t)
  {
    if u != t {
      assert GetStorage(RemoveComponent(w, x, u).0, t) == GetStorage(w, t);
    }
  }

  /** `get_component_mut` on one pair, seen from another pair (e, t). */
  lemma ModifyComponentPair<V>(w: World<V>, x: Entity, u: TypeTag, f: V -> V, e: Entity, t: TypeTag)
    requires Valid(w)
    ensures GetComponent(ModifyComponent(w, x, u, f).0, e, t) ==
      if x == e && u == t && GetComponent(w, e, t).Some? then Some(f(GetComponent(w, e, t).value))
      else GetComponent(w, e, t)
  {
    if u != t {
      assert GetStorage(ModifyComponent(w, x, u, f).0, t) == GetStorage(w, t);
    }
  }

  /** `query_mut` over type `u`, seen from the pair (e, t). */
  lemma QueryMutPair<V>(w: World<V>, u: TypeTag, g: (Entity, V) -> V, e: Entity, t: TypeTag)
    requires Valid(w)
    ensures GetComponent(QueryMut(w, u, g), e, t) ==
      if u == t && GetComponent(w, e, t).Some? then Some(g(e, GetComponent(w, e, t).value))
      else GetComponent(w, e, t)
  {
    if u != t {
      assert GetStorage(QueryMut(w, u, g), t) == GetStorage(w, t);
    }
  }

  /** After any run, the component of (e, t) is what the one-pair fold `PairAfter` computes
      from its value before the run. */
  lemma {:induction false} ReplayComponentIsPairAfter<V>(w: World<V>, ops: seq<WorldOp<V>>, e: Entity, t: TypeTag)
    requires Valid(w)
    ensures GetComponent(Replay(w, ops).world, e, t) == PairAfter(GetComponent(w, e, t), ops, e, t)
    decreases |ops|
  {
    if |ops| > 0 {
      var init := ops[..|ops| - 1];
      ReplayComponentIsPairAfter(w, init, e, t);
      var prev := Replay(w, init).world;
      assert Replay(w, ops).world == Step(prev, ops[|ops| - 1]).world;
      StepComponent(prev, ops[|ops| - 1], e, t);
    }
  }

  /** The fold keeps a component exactly when the last add or remove was an add (or, with
      neither, when one was there before); without in-place writes its value is that of the
      last add. */
  lemma {:induction false} PairAfterLastWrite<V>(before: Option<V>, ops: seq<WorldOp<V>>, e: Entity, t: TypeTag)
    ensures PairAfter(before, ops, e, t).Some? <==>
      match LastWrite(ops, e, t)
      case Some(c) => c.Some?
      case None => before.Some?
    ensures NoInPlaceWrites(ops) ==>
      PairAfter(before, ops, e, t) == (match LastWrite(ops, e, t)
                                       case Some(c) => c
                                       case None => before)
    decreases |ops|
  {
    if |ops| > 0 {
      var init := ops[..|ops| - 1];
      PairAfterLastWrite(before, init, e, t);
      if NoInPlaceWrites(ops) {
        assert NoInPlaceWrites(init) by {
          forall i | 0 <= i < |init|
            ensures !init[i].ModifyComponentOp? && !init[i].QueryMutOp?
          {
            assert init[i] == ops[i];
          }
        }
        assert !ops[|ops| - 1].ModifyComponentOp? && !ops[|ops| - 1].QueryMutOp?;
      }
    }
  }

  /** After any run, the component of (e, t) exists exactly when the last add or remove of
      the pair was an add (or, with neither, when it existed before). Its value is the one
      last added, rewritten by every later in-place write; in a run without in-place writes
      it is just the value last added. Removing an entity from the roster is not a write. */
  lemma ReplayComponentIsLastWrite<V>(w: World<V>, ops: seq<WorldOp<V>>, e: Entity, t: TypeTag)
    requires Valid(w)
    ensures GetComponent(Replay(w, ops).world, e, t) == PairAfter(GetComponent(w, e, t), ops, e, t)
    ensures HasComponent(Replay(w, ops).world, e, t) <==>
      match LastWrite(ops, e, t)
      case Some(c) => c.Some?
      case None => HasComponent(w, e, t)
    ensures NoInPlaceWrites(ops) ==>
      GetComponent(Replay(w, ops).world, e, t) == (match LastWrite(ops, e, t)
                                                   case Some(c) => c
                                                   case None => GetComponent(w, e, t))
  {
    ReplayComponentIsPairAfter(w, ops, e, t);
    PairAfterLastWrite(GetComponent(w, e, t), ops, e, t);
  }

  /** `has_component` is true exactly when the last write to the pair was an insert. */
  lemma HasComponentIffLastWriteInserted<V>(w: World<V>, ops: seq<WorldOp<V>>, e: Entity, t: TypeTag)
    requires Valid(w)
    requires LastWrite(ops, e, t).Some?
    ensures HasComponent(Replay(w, ops).world, e, t) <==> LastWrite(ops, e, t).value.Some?
  {
    ReplayComponentIsLastWrite(w, ops, e, t);
  }
}
