/**
 * The in-memory table of tinyredis: a map from key to value and a map from
 * key to deadline, with lazy expiry. The clock is an explicit argument:
 * `now` is a reading of the monotonic clock in ticks.
 */
module Store {
  import opened Wrappers

  /** steady_clock ticks per second (nanoseconds). */
  const TicksPerSecond: int := 1_000_000_000

  /** The two maps of the store, as values. Deadlines are absolute tick counts. */
  datatype Table = Table(memory: map<string, string>, expiry: map<string, int>)
  {
    /** The deadline of key has passed at now. */
    predicate Expired(key: string, now: int) {
      key in expiry && expiry[key] <= now
    }

    /** key holds a value that has not expired at now. */
    predicate Live(key: string, now: int) {
      key in memory && !Expired(key, now)
    }

    /** purge_if_expired: drops key from both maps when its deadline has passed. */
    function Purge(key: string, now: int): (r: Table)
      ensures Invariant(this) ==> Invariant(r)
      ensures key in r.memory <==> Live(key, now)
      ensures key in r.expiry ==> r.expiry[key] > now
      ensures View(r, now) == View(this, now)
      ensures r.memory - {key} == memory - {key} && r.expiry - {key} == expiry - {key}
    {
      if Expired(key, now) then
        var r := Table(memory - {key}, expiry - {key});
        assert View(r, now) == View(this, now);
        r
      else this
    }

    /** set: installs value and clears any deadline. */
    function Set(key: string, value: string, now: int): (r: Table)
      ensures Invariant(this) ==> Invariant(r)
      ensures View(r, now) == View(this, now)[key := value]
      ensures key in r.memory && r.memory[key] == value && key !in r.expiry
      ensures r.memory - {key} == memory - {key} && r.expiry - {key} == expiry - {key}
    {
      var p := Purge(key, now);
      var r := Table(p.memory[key := value], p.expiry - {key});
      assert View(r, now) == View(this, now)[key := value];
      r
    }

    /** get: the live value of key, after purging it. */
    function Get(key: string, now: int): (r: (Table, Option<string>))
      ensures r.0 == Purge(key, now)
      ensures r.1 == if key in View(this, now) then Some(View(this, now)[key]) else None
    {
      var p := Purge(key, now);
      if key in p.memory then (p, Some(p.memory[key])) else (p, None)
    }

    /** del: true exactly when key was live; afterwards key is in neither map. */
    function Del(key: string, now: int): (r: (Table, bool))
      ensures Invariant(this) ==> Invariant(r.0)
      ensures r.1 <==> key in View(this, now)
      ensures View(r.0, now) == View(this, now) - {key}
      ensures key !in r.0.memory && (Invariant(this) ==> key !in r.0.expiry)
      ensures r.0.memory - {key} == memory - {key} && r.0.expiry - {key} == expiry - {key}
    {
      var p := Purge(key, now);
      if key in p.memory then
        var r := Table(p.memory - {key}, p.expiry - {key});
        assert View(r, now) == View(this, now) - {key};
        (r, true)
      else
        assert View(p, now) == View(this, now) - {key};
        (p, false)
    }

    /**
     * expire: false and only the purge when key is not live; otherwise true,
     * and a non-positive count deletes key while a positive one installs the
     * deadline now + seconds, replacing any earlier one.
     */
    function Expire(key: string, seconds: int, now: int): (r: (Table, bool))
      ensures Invariant(this) ==> Invariant(r.0)
      ensures r.1 <==> key in View(this, now)
      ensures !r.1 ==> r.0 == Purge(key, now)
      ensures r.1 && seconds <= 0 ==>
                View(r.0, now) == View(this, now) - {key} && key !in r.0.memory && key !in r.0.expiry
      ensures r.1 && seconds > 0 ==>
                r.0.memory == memory && r.0.expiry == expiry[key := now + seconds * TicksPerSecond]
      ensures r.0.memory - {key} == memory - {key} && r.0.expiry - {key} == expiry - {key}
    {
      var p := Purge(key, now);
      if key !in p.memory then (p, false)
      else if seconds <= 0 then
        var r := Table(p.memory - {key}, p.expiry - {key});
        assert View(r, now) == View(this, now) - {key};
        (r, true)
      else (Table(p.memory, p.expiry[key := now + seconds * TicksPerSecond]), true)
    }

    /**
     * ttl: -2 when key is not live, -1 when it has no deadline, otherwise the
     * whole seconds left before the deadline, rounded down.
     */
    function Ttl(key: string, now: int): (r: (Table, int))
      ensures r.0 == Purge(key, now)
      ensures r.1 >= -2
      ensures r.1 == -2 <==> key !in View(this, now)
      ensures r.1 == -1 <==> key in View(this, now) && key !in expiry
      ensures r.1 >= 0 ==>
                key in View(this, now) && key in expiry &&
                r.1 * TicksPerSecond <= expiry[key] - now < (r.1 + 1) * TicksPerSecond
    {
      var p := Purge(key, now);
      if key !in p.memory then (p, -2)
      else if key !in p.expiry then (p, -1)
      else
        var remaining := p.expiry[key] - now;
        // kvstore.cpp:55-59 purges here when the deadline has passed between
        // two clock readings; with a single reading Purge has already done so.
        if remaining <= 0 then assert false; (p, -2)
        else (p, remaining / TicksPerSecond)
    }
  }

  /** The empty store. */
  const Empty: Table := Table(map[], map[])

  /** Store invariant: only keys that hold a value carry a deadline. */
  predicate Invariant(t: Table) {
    t.expiry.Keys <= t.memory.Keys
  }

  /** What a client can observe at now: the keys that are live, with their values. */
  function View(t: Table, now: int): (v: map<string, string>)
    ensures forall key :: key in v <==> t.Live(key, now)
  {
    map key | key in t.memory && !t.Expired(key, now) :: t.memory[key]
  }

  /**
   * KVStore::incrby is declared (kvstore.hpp:24) but has no definition in the
   * source, so the dispatcher receives its effect as a parameter: the new
   * table and the reply, or None for a value that is not an integer.
   */
  type IncrByFn = (Table, string, int, int) -> (Table, Option<int>)

  /** The incrby effect keeps the store invariant. */
  ghost predicate KeepsInvariant(incrby: IncrByFn) {
    forall t: Table, key: string, delta: int, now: int ::
      Invariant(t) ==> Invariant(incrby(t, key, delta, now).0)
  }

  /** The store object: the two maps are fields that every operation updates in place. */
  class KVStore {
    var memory: map<string, string>
    var expiry: map<string, int>

    /** The fields as a table value. */
    function Model(): Table
      reads this
    {
      Table(memory, expiry)
    }

    ghost predicate Valid()
      reads this
    {
      Invariant(Model())
    }

    constructor ()
      ensures Valid() && Model() == Empty
    {
      memory := map[];
      expiry := map[];
    }

    method PurgeIfExpired(key: string, now: int) returns (purged: bool)
      requires Valid()
      modifies this
      ensures Valid()
      ensures purged == old(Model()).Expired(key, now)
      ensures Model() == old(Model()).Purge(key, now)
    {
      if key !in expiry {
        return false;
      }
      var deadline := expiry[key];
      if deadline <= now {
        memory := memory - {key};
        expiry := expiry - {key};
        return true;
      }
      return false;
    }

    method Expire(key: string, seconds: int, now: int) returns (ok: bool)
      requires Valid()
      modifies this
      ensures Valid()
      ensures (Model(), ok) == old(Model()).Expire(key, seconds, now)
    {
      var _ := PurgeIfExpired(key, now);
      if key !in memory {
        return false;
      }
      if seconds <= 0 {
        memory := memory - {key};
        expiry := expiry - {key};
        return true;
      }
      expiry := expiry[key := now + seconds * TicksPerSecond];
      return true;
    }

    method Ttl(key: string, now: int) returns (r: int)
      requires Valid()
      modifies this
      ensures Valid()
      ensures (Model(), r) == old(Model()).Ttl(key, now)
    {
      var _ := PurgeIfExpired(key, now);
      if key !in memory {
        return -2;
      }
      if key !in expiry {
        return -1;
      }
      var deadline := expiry[key];
      var remaining := deadline - now;
      if remaining <= 0 {
        // kvstore.cpp:55-59: with one clock reading the purge above has
        // already removed a key whose deadline is not in the future.
        assert false;
      }
      return remaining / TicksPerSecond;
    }

    method Set(key: string, value: string, now: int)
      requires Valid()
      modifies this
      ensures Valid()
      ensures Model() == old(Model()).Set(key, value, now)
    {
      var _ := PurgeIfExpired(key, now);
      memory := memory[key := value];
      if key in expiry {
        expiry := expiry - {key};
      }
    }

    method Get(key: string, now: int) returns (r: Option<string>)
      requires Valid()
      modifies this
      ensures Valid()
      ensures (Model(), r) == old(Model()).Get(key, now)
    {
      var _ := PurgeIfExpired(key, now);
      if key in memory {
        return Some(memory[key]);
      }
      return None;
    }

    method Del(key: string, now: int) returns (removed: bool)
      requires Valid()
      modifies this
      ensures Valid()
      ensures (Model(), removed) == old(Model()).Del(key, now)
    {
      var _ := PurgeIfExpired(key, now);
      if key in memory {
        memory := memory - {key};
        expiry := expiry - {key};
        return true;
      }
      return false;
    }

    /** incrby, whose effect is the parameter described at IncrByFn. */
    method IncrBy(key: string, delta: int, now: int, incrby: IncrByFn) returns (r: Option<int>)
      requires Valid() && KeepsInvariant(incrby)
      modifies this
      ensures Valid()
      ensures (Model(), r) == incrby(old(Model()), key, delta, now)
    {
      var (t, res) := incrby(Model(), key, delta, now);
      memory, expiry := t.memory, t.expiry;
      r := res;
    }
  }

  /** After set, the key reads back its value and has no deadline, at that instant and later. */
  lemma SetThenGet(t: Table, key: string, value: string, now: int, later: int)
    requires now <= later
    ensures t.Set(key, value, now).Get(key, later).1 == Some(value)
    ensures t.Set(key, value, now).Ttl(key, later).1 == -1
  {
  }

  /** After a successful positive expire, ttl at the same instant is exactly the count given. */
  lemma ExpireThenTtl(t: Table, key: string, seconds: int, now: int)
    requires key in View(t, now) && seconds > 0
    ensures t.Expire(key, seconds, now).1
    ensures t.Expire(key, seconds, now).0.Ttl(key, now).1 == seconds
  {
    var u := t.Expire(key, seconds, now).0;
    assert u.expiry[key] - now == seconds * TicksPerSecond;
  }

  /** Once the deadline installed by expire has passed, the key reads as absent. */
  lemma ExpireThenDeadlinePasses(t: Table, key: string, seconds: int, now: int, later: int)
    requires key in View(t, now) && seconds > 0
    requires later >= now + seconds * TicksPerSecond
    ensures t.Expire(key, seconds, now).0.Ttl(key, later).1 == -2
    ensures t.Expire(key, seconds, now).0.Get(key, later).1 == None
  {
  }

  /**
   * Lazy purge: a key whose deadline has passed is absent to every
   * operation, and whichever of them touches it leaves it in neither map.
   */
  lemma ExpiredKeyIsAbsent(t: Table, key: string, seconds: int, now: int)
    requires t.Expired(key, now)
    ensures t.Get(key, now).1 == None
    ensures !t.Del(key, now).1
    ensures !t.Expire(key, seconds, now).1
    ensures t.Ttl(key, now).1 == -2
    ensures key !in t.Get(key, now).0.memory && key !in t.Get(key, now).0.expiry
    ensures key !in t.Del(key, now).0.memory && key !in t.Del(key, now).0.expiry
    ensures key !in t.Expire(key, seconds, now).0.memory && key !in t.Expire(key, seconds, now).0.expiry
    ensures key !in t.Ttl(key, now).0.memory && key !in t.Ttl(key, now).0.expiry
  {
  }

  /** expire with a non-positive count is del: same table, same answer. */
  lemma ExpireNonPositiveIsDel(t: Table, key: string, seconds: int, now: int)
    requires seconds <= 0
    ensures t.Expire(key, seconds, now) == t.Del(key, now)
  {
  }

  /** The scenario of tests/kvstore_tests.cpp:5-22, on an empty store. */
  lemma SetGetDelScenario(now: int)
    ensures var t1 := Empty.Set("key1", "value1", now);
            && t1.Get("key1", now).1 == Some("value1")
            && t1.Get("nonexistent", now).1 == None
            && t1.Del("key1", now).1
            && t1.Del("key1", now).0.Get("key1", now).1 == None
            && !t1.Del("key1", now).0.Del("nonexistent", now).1
  {
  }
}
