/** The bookkeeping of the network object pool: each registered prefab has a FIFO queue of
    pooled instances. Registering a prefab prewarms its queue, getting an instance dequeues
    one or creates a new one, and returning an instance deactivates it and enqueues it.
    Prefabs and instances are opaque ids; instantiating a prefab mints a fresh instance id. */
module ObjectPool {
  import opened Wrappers

  type PrefabId = nat
  type ObjectId = nat

  /** The pool. The registered prefabs are the keys of `queues`: `NetworkObjectPool` keeps a
      separate prefab set, but it adds to both in the same place and never removes from
      either. `active` records the active flag of every instance the pool has set one on.
      `nextId` is the id the next instantiation mints; every instance in existence has a
      smaller one. */
  datatype Pool = Pool(queues: map<PrefabId, seq<ObjectId>>, active: map<ObjectId, bool>, nextId: nat) {

    predicate Registered(prefab: PrefabId) {
      prefab in queues
    }

    /** Every instance the pool knows of was minted before `nextId`. */
    predicate Valid() {
      && (forall p, o :: p in queues && o in queues[p] ==> o < nextId)
      && (forall o :: o in active ==> o < nextId)
    }
  }

  /** The empty pool a scene starts with. */
  function EmptyPool(): (pool: Pool)
    ensures pool.Valid() && forall p :: !pool.Registered(p)
  {
    Pool(map[], map[], 0)
  }

  /** A missing dictionary key: the prefab was never registered. */
  datatype PoolError = NotRegistered(prefab: PrefabId)

  /** A pool together with the instance an operation produced. */
  datatype Instance = Instance(pool: Pool, obj: ObjectId)

  /** `Instantiate(prefab)`: a new instance with a fresh id, which no queue holds and no
      active flag has been set on. */
  function CreateInstance(pool: Pool): (r: Instance)
    ensures r.obj == pool.nextId && r.pool == pool.(nextId := pool.nextId + 1)
    ensures pool.Valid() ==>
      && r.pool.Valid()
      && r.obj !in pool.active
      && forall p :: p in pool.queues ==> r.obj !in pool.queues[p]
  {
    Instance(pool.(nextId := pool.nextId + 1), pool.nextId)
  }

  /** `ReturnNetworkObject`: the instance is deactivated and put at the back of its prefab's
      queue. The prefab must be registered. */
  function Return(pool: Pool, obj: ObjectId, prefab: PrefabId): (r: Result<Pool, PoolError>)
    ensures r.Failure? <==> !pool.Registered(prefab)
    ensures r.Success? ==> r.value.Registered(prefab) && r.value.queues[prefab] == pool.queues[prefab] + [obj]
    ensures r.Success? ==> obj in r.value.active && !r.value.active[obj]
    ensures r.Success? ==> r.value.queues.Keys == pool.queues.Keys
    ensures r.Success? ==> forall p :: p in pool.queues && p != prefab ==> r.value.queues[p] == pool.queues[p]
    ensures r.Success? ==> forall o :: o != obj ==> (o in r.value.active <==> o in pool.active)
    ensures r.Success? ==> forall o :: o != obj && o in pool.active ==> r.value.active[o] == pool.active[o]
    ensures r.Success? ==> r.value.nextId == pool.nextId
  {
    if !pool.Registered(prefab) then Failure(NotRegistered(prefab))
    else Success(Pool(pool.queues[prefab := pool.queues[prefab] + [obj]], pool.active[obj := false], pool.nextId))
  }

  /** `GetNetworkObject`: the front of the prefab's queue when there is one, otherwise a new
      instance; either way it comes out active. The prefab must be registered. */
  function Get(pool: Pool, prefab: PrefabId): (r: Result<Instance, PoolError>)
    ensures r.Failure? <==> !pool.Registered(prefab)
    ensures r.Success? ==> r.value.obj in r.value.pool.active && r.value.pool.active[r.value.obj]
    ensures r.Success? ==> r.value.pool.queues.Keys == pool.queues.Keys
    ensures r.Success? ==> forall p :: p in pool.queues && p != prefab ==> r.value.pool.queues[p] == pool.queues[p]
    ensures r.Success? && |pool.queues[prefab]| > 0 ==>
      && r.value.obj == pool.queues[prefab][0]
      && r.value.pool.queues[prefab] == pool.queues[prefab][1..]
      && r.value.pool.nextId == pool.nextId
    ensures r.Success? && |pool.queues[prefab]| == 0 ==>
      && r.value.obj == pool.nextId
      && r.value.pool.queues[prefab] == []
      && r.value.pool.nextId == pool.nextId + 1
    ensures r.Success? ==> forall o :: o != r.value.obj ==> (o in r.value.pool.active <==> o in pool.active)
    ensures r.Success? ==> forall o :: o != r.value.obj && o in pool.active ==> r.value.pool.active[o] == pool.active[o]
  {
    if !pool.Registered(prefab) then Failure(NotRegistered(prefab))
    else
      var queue := pool.queues[prefab];
      var taken :=
        if |queue| > 0 then Instance(pool.(queues := pool.queues[prefab := queue[1..]]), queue[0])
        else CreateInstance(pool);
      Success(taken.(pool := taken.pool.(active := taken.pool.active[taken.obj := true])))
  }

  /** The number of instances a prewarm count creates: the loop does not run for a negative
      count. */
  function Prewarm(count: int): (n: nat)
    ensures count >= 0 ==> n == count
    ensures count < 0 ==> n == 0
  {
    if count < 0 then 0 else count
  }

  /** The ids `start`, `start + 1`, ... of `n` instances minted in a row. */
  function FreshIds(start: nat, n: nat): (ids: seq<ObjectId>)
    ensures |ids| == n
    ensures forall i :: 0 <= i < n ==> ids[i] == start + i
  {
    seq(n, i => start + i)
  }

  /** `RegisterPrefabInternal`: the prefab gets a new queue holding `prewarmCount` new
      instances, inactive and in creation order; whatever queue it had before is dropped. */
  method RegisterPrefab(pool: Pool, prefab: PrefabId, prewarmCount: int) returns (r: Pool)
    ensures r.queues == pool.queues[prefab := FreshIds(pool.nextId, Prewarm(prewarmCount))]
    ensures r.nextId == pool.nextId + Prewarm(prewarmCount)
    ensures forall o :: o in r.active <==> o in pool.active || pool.nextId <= o < r.nextId
    ensures forall o :: o in r.active ==> r.active[o] == if pool.nextId <= o < r.nextId then false else pool.active[o]
    ensures forall o :: o in r.queues[prefab] ==> o in r.active && !r.active[o]
    ensures pool.Valid() ==> r.Valid()
    ensures pool.Valid() ==> forall o, p :: o in r.queues[prefab] && p in pool.queues ==> o !in pool.queues[p]
  {
    r := pool.(queues := pool.queues[prefab := []]);
    var i := 0;
    while i < prewarmCount
      invariant i <= Prewarm(prewarmCount)
      invariant r.queues == pool.queues[prefab := FreshIds(pool.nextId, i)]
      invariant r.nextId == pool.nextId + i
      invariant forall o :: o in r.active <==> o in pool.active || pool.nextId <= o < r.nextId
      invariant forall o :: o in r.active ==> r.active[o] == if pool.nextId <= o < r.nextId then false else pool.active[o]
    {
      var made := CreateInstance(r);
      var returned := Return(made.pool, made.obj, prefab);
      assert FreshIds(pool.nextId, i) + [made.obj] == FreshIds(pool.nextId, i + 1);
      r := returned.value;
      i := i + 1;
    }
    assert i == Prewarm(prewarmCount);
  }

  /** `AddPrefab`: registers the prefab. `NetworkObjectPool` asserts that the prefab is not
      registered yet; a failed Unity assertion is logged and the registration goes ahead,
      so `violated` reports the failed assertion next to the resulting pool. */
  method AddPrefab(pool: Pool, prefab: PrefabId, prewarmCount: int) returns (r: Pool, violated: bool)
    ensures violated <==> pool.Registered(prefab)
    ensures r.queues == pool.queues[prefab := FreshIds(pool.nextId, Prewarm(prewarmCount))]
    ensures r.nextId == pool.nextId + Prewarm(prewarmCount)
  {
    violated := pool.Registered(prefab);
    r := RegisterPrefab(pool, prefab, prewarmCount);
  }

  /** One entry of the pool's configured prefab list. */
  datatype PoolConfig = PoolConfig(prefab: PrefabId, prewarmCount: int)

  /** The instances the first `n` entries of a configured list prewarm in total. */
  function TotalPrewarm(configs: seq<PoolConfig>, n: nat): (total: nat)
    requires n <= |configs|
  {
    if n == 0 then 0 else TotalPrewarm(configs, n - 1) + Prewarm(configs[n - 1].prewarmCount)
  }

  /** The prefabs the first `n` entries name. */
  function ListedPrefabs(configs: seq<PoolConfig>, n: nat): (prefabs: set<PrefabId>)
    requires n <= |configs|
    ensures forall k :: 0 <= k < n ==> configs[k].prefab in prefabs
  {
    if n == 0 then {} else ListedPrefabs(configs, n - 1) + {configs[n - 1].prefab}
  }

  /** Only the prefabs the entries name are listed. */
  lemma {:induction false} OnlyListedPrefabs(configs: seq<PoolConfig>, n: nat, p: PrefabId)
    requires n <= |configs| && p in ListedPrefabs(configs, n)
    ensures exists k :: 0 <= k < n && configs[k].prefab == p
    decreases n
  {
    if p != configs[n - 1].prefab {
      OnlyListedPrefabs(configs, n - 1, p);
    }
  }

  /** The queue prefab `p` should have once the first `n` entries are registered, entry by
      entry from the back: the queue its last entry prewarmed, or the queue it had before
      when no entry names it. */
  function QueueAfter(pool: Pool, configs: seq<PoolConfig>, n: nat, p: PrefabId): seq<ObjectId>
    requires n <= |configs| && (p in pool.queues || p in ListedPrefabs(configs, n))
    decreases n
  {
    if n == 0 then pool.queues[p]
    else if configs[n - 1].prefab == p then
      FreshIds(pool.nextId + TotalPrewarm(configs, n - 1), Prewarm(configs[n - 1].prewarmCount))
    else QueueAfter(pool, configs, n - 1, p)
  }

  /** `r` is `pool` after registering the first `n` entries of `configs`. */
  predicate Initialized(pool: Pool, configs: seq<PoolConfig>, n: nat, r: Pool)
    requires n <= |configs|
  {
    && r.queues.Keys == pool.queues.Keys + ListedPrefabs(configs, n)
    && (forall p :: p in r.queues ==> r.queues[p] == QueueAfter(pool, configs, n, p))
    && r.nextId == pool.nextId + TotalPrewarm(configs, n)
  }

  /** Registering entry `n` extends `Initialized` by one entry. */
  lemma InitializeStep(pool: Pool, configs: seq<PoolConfig>, n: nat, r: Pool, next: Pool)
    requires n < |configs| && Initialized(pool, configs, n, r)
    requires next.queues == r.queues[configs[n].prefab := FreshIds(r.nextId, Prewarm(configs[n].prewarmCount))]
    requires next.nextId == r.nextId + Prewarm(configs[n].prewarmCount)
    ensures Initialized(pool, configs, n + 1, next)
  {
    assert ListedPrefabs(configs, n + 1) == ListedPrefabs(configs, n) + {configs[n].prefab};
    forall p | p in next.queues
      ensures next.queues[p] == QueueAfter(pool, configs, n + 1, p)
    {
      if p != configs[n].prefab {
        assert p in r.queues;
      }
    }
  }

  /** `InitializePool`: every configured prefab is registered in list order, so a prefab
      listed twice ends up with the queue of its last entry. */
  method InitializePool(pool: Pool, configs: seq<PoolConfig>) returns (r: Pool)
    ensures r.queues.Keys == pool.queues.Keys + ListedPrefabs(configs, |configs|)
    ensures forall p :: p in r.queues ==> r.queues[p] == QueueAfter(pool, configs, |configs|, p)
    ensures r.nextId == pool.nextId + TotalPrewarm(configs, |configs|)
  {
    r := pool;
    var i := 0;
    while i < |configs|
      invariant i <= |configs| && Initialized(pool, configs, i, r)
    {
      var next := RegisterPrefab(r, configs[i].prefab, configs[i].prewarmCount);
      InitializeStep(pool, configs, i, r, next);
      r := next;
      i := i + 1;
    }
  }

  /** A prefab no entry names keeps the queue it had. */
  lemma {:induction false} UnlistedQueueKept(pool: Pool, configs: seq<PoolConfig>, n: nat, p: PrefabId)
    requires n <= |configs| && p in pool.queues
    requires forall k :: 0 <= k < n ==> configs[k].prefab != p
    ensures QueueAfter(pool, configs, n, p) == pool.queues[p]
    decreases n
  {
    if n > 0 {
      UnlistedQueueKept(pool, configs, n - 1, p);
    }
  }

  /** A prefab's queue is the one its last entry prewarmed: as many new instances as that
      entry's count, minted after those of every earlier entry. */
  lemma {:induction false} LastEntryWins(pool: Pool, configs: seq<PoolConfig>, n: nat, k: nat)
    requires k < n <= |configs|
    requires forall j :: k < j < n ==> configs[j].prefab != configs[k].prefab
    ensures QueueAfter(pool, configs, n, configs[k].prefab) ==
      FreshIds(pool.nextId + TotalPrewarm(configs, k), Prewarm(configs[k].prewarmCount))
    decreases n
  {
    if k < n - 1 {
      LastEntryWins(pool, configs, n - 1, k);
    }
  }

  // ---------------------------------------------------------------------------
  // Properties

  /** Returning an instance the pool minted keeps the pool valid. */
  lemma ReturnKeepsValid(pool: Pool, obj: ObjectId, prefab: PrefabId)
    requires pool.Valid() && pool.Registered(prefab) && obj < pool.nextId
    ensures Return(pool, obj, prefab).value.Valid()
  {
    var r := Return(pool, obj, prefab).value;
    forall p, o | p in r.queues && o in r.queues[p]
      ensures o < r.nextId
    {
      if p == prefab && o !in pool.queues[prefab] {
        assert o == obj;
      }
    }
  }

  /** Getting an instance keeps the pool valid; a created instance is new to the pool. */
  lemma GetKeepsValid(pool: Pool, prefab: PrefabId)
    requires pool.Valid() && pool.Registered(prefab)
    ensures Get(pool, prefab).value.pool.Valid()
    ensures |pool.queues[prefab]| == 0 ==>
      var obj := Get(pool, prefab).value.obj;
      obj !in pool.active && forall p :: p in pool.queues ==> obj !in pool.queues[p]
  {
    var r := Get(pool, prefab).value;
    forall p, o | p in r.pool.queues && o in r.pool.queues[p]
      ensures o < r.pool.nextId
    {
      if p == prefab && |pool.queues[prefab]| > 0 {
        assert o in pool.queues[prefab];
      }
    }
    if |pool.queues[prefab]| > 0 {
      assert pool.queues[prefab][0] in pool.queues[prefab];
    }
  }

  /** Returns `objs` one after the other. */
  function ReturnAll(pool: Pool, objs: seq<ObjectId>, prefab: PrefabId): (r: Result<Pool, PoolError>)
    ensures r.Failure? <==> !pool.Registered(prefab)
    ensures r.Success? ==> r.value.queues.Keys == pool.queues.Keys
    decreases |objs|
  {
    if |objs| == 0 then (if pool.Registered(prefab) then Success(pool) else Failure(NotRegistered(prefab)))
    else
      var next :- Return(pool, objs[0], prefab);
      ReturnAll(next, objs[1..], prefab)
  }

  /** A pool and the instances taken from it, in the order they were taken. */
  datatype Taken = Taken(pool: Pool, objs: seq<ObjectId>)

  /** Gets `n` instances one after the other. */
  function GetMany(pool: Pool, prefab: PrefabId, n: nat): (r: Result<Taken, PoolError>)
    ensures r.Failure? <==> !pool.Registered(prefab)
    ensures r.Success? ==> |r.value.objs| == n && r.value.pool.queues.Keys == pool.queues.Keys
    decreases n
  {
    if !pool.Registered(prefab) then Failure(NotRegistered(prefab))
    else if n == 0 then Success(Taken(pool, []))
    else
      var first := Get(pool, prefab).value;
      var rest := GetMany(first.pool, prefab, n - 1).value;
      Success(Taken(rest.pool, [first.obj] + rest.objs))
  }

  /** Returning instances appends them to the queue, in order. */
  lemma {:induction false} ReturnAllQueue(pool: Pool, objs: seq<ObjectId>, prefab: PrefabId)
    requires pool.Registered(prefab)
    ensures ReturnAll(pool, objs, prefab).Success?
    ensures ReturnAll(pool, objs, prefab).value.queues[prefab] == pool.queues[prefab] + objs
    decreases |objs|
  {
    if |objs| > 0 {
      var next := Return(pool, objs[0], prefab).value;
      assert ReturnAll(pool, objs, prefab) == ReturnAll(next, objs[1..], prefab);
      assert next.queues[prefab] == pool.queues[prefab] + [objs[0]];
      ReturnAllQueue(next, objs[1..], prefab);
      assert pool.queues[prefab] + [objs[0]] + objs[1..] == pool.queues[prefab] + objs;
    }
  }

  /** Getting at most as many instances as are queued hands out the front of the queue, in
      order, and leaves the rest. */
  lemma {:induction false} GetManyQueue(pool: Pool, prefab: PrefabId, n: nat)
    requires pool.Registered(prefab) && n <= |pool.queues[prefab]|
    ensures GetMany(pool, prefab, n).Success?
    ensures GetMany(pool, prefab, n).value.objs == pool.queues[prefab][..n]
    ensures GetMany(pool, prefab, n).value.pool.queues[prefab] == pool.queues[prefab][n..]
    decreases n
  {
    if n > 0 {
      var queue := pool.queues[prefab];
      var first := Get(pool, prefab).value;
      assert first.obj == queue[0] && first.pool.queues[prefab] == queue[1..];
      var rest := GetMany(first.pool, prefab, n - 1).value;
      assert GetMany(pool, prefab, n).value == Taken(rest.pool, [first.obj] + rest.objs);
      GetManyQueue(first.pool, prefab, n - 1);
      assert queue[1..][..n - 1] == queue[1..n];
      assert [queue[0]] + queue[1..n] == queue[..n];
      assert queue[1..][n - 1..] == queue[n..];
    }
  }

  /** The pool is first in, first out: after returning `objs`, emptying the queue hands out
      what was queued before, then `objs` in the order they were returned. */
  lemma ReturnedInOrder(pool: Pool, objs: seq<ObjectId>, prefab: PrefabId, returned: Pool)
    requires pool.Registered(prefab) && ReturnAll(pool, objs, prefab) == Success(returned)
    ensures GetMany(returned, prefab, |pool.queues[prefab]| + |objs|).Success?
    ensures GetMany(returned, prefab, |pool.queues[prefab]| + |objs|).value.objs == pool.queues[prefab] + objs
    ensures GetMany(returned, prefab, |pool.queues[prefab]| + |objs|).value.pool.queues[prefab] == []
  {
    ReturnAllQueue(pool, objs, prefab);
    var queue := returned.queues[prefab];
    var n := |pool.queues[prefab]| + |objs|;
    assert |queue| == n;
    GetManyQueue(returned, prefab, n);
    assert queue[..n] == queue && queue[n..] == [];
  }

  /** Getting from an empty queue creates a new instance and leaves the queue empty; a
      following return queues that instance. */
  lemma GetThenReturn(pool: Pool, prefab: PrefabId)
    requires pool.Registered(prefab) && pool.queues[prefab] == []
    ensures var got := Get(pool, prefab).value;
      && got.obj == pool.nextId
      && Return(got.pool, got.obj, prefab).value.queues[prefab] == [pool.nextId]
  {
  }
}
