/**
 * The time-to-live memoising cache put in front of the data fetch
 * (`TTLCache` in app.py). It is an insertion-ordered map from a call key to
 * the value computed for it and the time it was stored, bounded by `maxsize`;
 * a stored value is served while it is younger than `ttl` seconds.
 *
 * The clock is an input: `now` is the reading taken when the lookup starts,
 * `doneAt` the reading taken after the computation has returned (the stamp).
 * The computation itself is the value `result`, used only on a miss.
 */
module TtlCache {

  /** The configuration the bot decorates its fetch with. */
  const DefaultMaxSize: nat := 32
  const DefaultTtl: int := 300

  datatype Entry<V> = Entry(value: V, storedAt: int)

  /** `order` is the key order of the `OrderedDict`: first insertion first. */
  datatype Cache<K, V> = Cache(maxsize: nat, ttl: int, entries: map<K, Entry<V>>, order: seq<K>)
  {
    /** The key order lists every stored key exactly once. */
    ghost predicate Valid()
    {
      && Distinct(order)
      && entries.Keys == (set k | k in order)
    }

    /** At most `maxsize` entries are stored. */
    predicate Bounded()
    {
      |entries| <= maxsize
    }

    /** `key` is stored and its entry is younger than the time-to-live at `now`. */
    predicate Fresh(key: K, now: int)
    {
      key in entries && now - entries[key].storedAt < ttl
    }
  }

  ghost predicate Distinct<K>(s: seq<K>)
  {
    forall i, j :: 0 <= i < j < |s| ==> s[i] != s[j]
  }

  /** A cache with nothing stored yet. */
  function Empty<K, V>(maxsize: nat, ttl: int): (c: Cache<K, V>)
    ensures c.Valid() && c.Bounded()
    ensures |c.entries| == 0
    ensures c.maxsize == maxsize && c.ttl == ttl
  {
    Cache(maxsize, ttl, map[], [])
  }

  /** What one call of the decorated function returns and leaves behind, and
      whether it ran the computation. */
  datatype Outcome<K, V> = Outcome(value: V, cache: Cache<K, V>, computed: bool)

  /** One call of the decorated function with key `key` (`wrapper` in app.py). */
  function Call<K, V>(c: Cache<K, V>, key: K, now: int, result: V, doneAt: int): (r: Outcome<K, V>)
    requires c.Valid()
    ensures r.cache.Valid()
    // a hit within the time-to-live: the stored value, nothing run, nothing changed
    ensures c.Fresh(key, now) ==> !r.computed && r.value == c.entries[key].value && r.cache == c
    // a miss or an expired entry: the computation runs, its value is returned
    // and stored as `Store` describes
    ensures !c.Fresh(key, now) ==> r.computed && r.value == result
                                   && r.cache == Store(c, key, result, doneAt)
  {
    if c.Fresh(key, now) then Outcome(c.entries[key].value, c, false)
    else Outcome(result, Store(c, key, result, doneAt), true)
  }

  /** The miss path of `wrapper`: store `(result, doneAt)` under `key`, then
      evict the front key when the size exceeds `maxsize`. */
  function Store<K, V>(c: Cache<K, V>, key: K, result: V, doneAt: int): (d: Cache<K, V>)
    requires c.Valid()
    ensures d.Valid()
    ensures d.maxsize == c.maxsize && d.ttl == c.ttl
    // the value is stored with the later clock reading
    ensures c.Bounded() && c.maxsize >= 1 ==>
              key in d.entries && d.entries[key] == Entry(result, doneAt)
    // the capacity bound is kept
    ensures c.Bounded() ==> d.Bounded()
    // refreshing a stored key keeps its place and the size
    ensures key in c.entries && c.Bounded() ==>
              d.order == c.order && |d.entries| == |c.entries|
    // a new key goes to the back ...
    ensures key !in c.entries && |c.entries| < c.maxsize ==> d.order == c.order + [key]
    // ... and when that overflows the capacity, exactly the front key goes
    ensures key !in c.entries && |c.entries| >= c.maxsize ==>
              d.order == (c.order + [key])[1..]
              && d.entries.Keys == c.entries.Keys + {key} - {(c.order + [key])[0]}
    // no other entry changes
    ensures forall k :: k in d.entries && k != key ==> k in c.entries && d.entries[k] == c.entries[k]
  {
    var v := Entry(result, doneAt);
    SizeIsOrderLength(c);
    if key in c.entries then
      var s := c.(entries := c.entries[key := v]);
      RefreshIsValid(c, key, v);
      if |s.entries| > c.maxsize then EvictFrontIsValid(s); EvictFront(s) else s
    else
      var s := c.(entries := c.entries[key := v], order := c.order + [key]);
      AppendIsValid(c, key, v);
      if |s.entries| > c.maxsize then EvictFrontIsValid(s); EvictFront(s) else s
  }

  /** `popitem(last=False)`: drop the front key. */
  function EvictFront<K, V>(c: Cache<K, V>): Cache<K, V>
    requires c.order != []
  {
    c.(entries := c.entries - {c.order[0]}, order := c.order[1..])
  }

  /** Overwriting a stored key keeps the key set and the order. */
  lemma RefreshIsValid<K, V>(c: Cache<K, V>, key: K, v: Entry<V>)
    requires c.Valid() && key in c.entries
    ensures c.(entries := c.entries[key := v]).Valid()
    ensures c.entries[key := v].Keys == c.entries.Keys
    ensures |c.entries[key := v]| == |c.entries|
  {
    assert c.entries[key := v].Keys == c.entries.Keys;
  }

  /** Inserting a new key appends it to the order. */
  lemma AppendIsValid<K, V>(c: Cache<K, V>, key: K, v: Entry<V>)
    requires c.Valid() && key !in c.entries
    ensures c.(entries := c.entries[key := v], order := c.order + [key]).Valid()
    ensures c.entries[key := v].Keys == c.entries.Keys + {key}
    ensures |c.entries[key := v]| == |c.entries| + 1
  {
    assert c.entries[key := v].Keys == c.entries.Keys + {key};
    assert (set k | k in c.order + [key]) == (set k | k in c.order) + {key};
  }

  /** Dropping the front key of a valid cache leaves a valid cache. */
  lemma EvictFrontIsValid<K, V>(c: Cache<K, V>)
    requires c.Valid() && c.order != []
    ensures EvictFront(c).Valid()
    ensures EvictFront(c).entries.Keys == c.entries.Keys - {c.order[0]}
    ensures |EvictFront(c).entries| == |c.entries| - 1
  {
    var d := EvictFront(c);
    DistinctTail(c.order);
    SetOfTail(c.order);
    assert d.entries.Keys == c.entries.Keys - {c.order[0]};
  }

  /** The elements after the first of a sequence without repetitions are
      all its elements but the first. */
  lemma SetOfTail<K>(s: seq<K>)
    requires s != [] && Distinct(s)
    ensures (set k | k in s[1..]) == (set k | k in s) - {s[0]}
  {
    forall k | k in s[1..]
      ensures k != s[0]
    {
      var i :| 0 <= i < |s[1..]| && s[1..][i] == k;
      assert s[i + 1] == k;
    }
    forall k | k in s && k != s[0]
      ensures k in s[1..]
    {
      var i :| 0 <= i < |s| && s[i] == k;
      assert s[1..][i - 1] == k;
    }
  }

  /** The set of elements of a sequence without repetitions has its length. */
  lemma {:induction false} DistinctCard<K>(s: seq<K>)
    requires Distinct(s)
    ensures |set k | k in s| == |s|
  {
    if s != [] {
      DistinctCard(s[1..]);
      assert (set k | k in s) == {s[0]} + (set k | k in s[1..]);
      assert s[0] !in s[1..];
    }
  }

  /** In a valid cache the number of entries is the length of the key order. */
  lemma SizeIsOrderLength<K, V>(c: Cache<K, V>)
    requires c.Valid()
    ensures |c.entries| == |c.order|
  {
    DistinctCard(c.order);
    assert c.entries.Keys == set k | k in c.order;
  }

  /** Calling twice with the same key, the second time within `ttl` seconds of
      the first call's stamp, runs the computation once: the second call is
      served the first call's value and leaves the cache as it was. */
  lemma RepeatWithinTtlHits<K, V>(c: Cache<K, V>, key: K, now: int, result: V, doneAt: int,
                                  later: int, other: V, laterDone: int)
    requires c.Valid() && c.Bounded() && c.maxsize >= 1
    requires !c.Fresh(key, now)
    requires later - doneAt < c.ttl
    ensures var first := Call(c, key, now, result, doneAt);
            var second := Call(first.cache, key, later, other, laterDone);
            first.computed && !second.computed
            && second.value == result && second.cache == first.cache
  {
  }

  /** Once `ttl` seconds have passed since the stamp, the next call runs the
      computation again and re-stamps the entry in place. */
  lemma ExpiredIsRecomputed<K, V>(c: Cache<K, V>, key: K, now: int, result: V, doneAt: int)
    requires c.Valid() && c.Bounded()
    requires key in c.entries && now - c.entries[key].storedAt >= c.ttl
    ensures var r := Call(c, key, now, result, doneAt);
            r.computed && r.value == result && r.cache.order == c.order
            && r.cache.entries == c.entries[key := Entry(result, doneAt)]
  {
    var r := Call(c, key, now, result, doneAt);
    SizeIsOrderLength(c);
    assert r.cache.entries.Keys == c.entries.Keys;
  }

  /** Calls with the keys `ks` in turn, each a miss answered with `result`. */
  function InsertAll<K, V>(c: Cache<K, V>, ks: seq<K>, now: int, result: V, doneAt: int): (r: Cache<K, V>)
    requires c.Valid()
    ensures r.Valid()
    decreases |ks|
  {
    if ks == [] then c
    else InsertAll(Call(c, ks[0], now, result, doneAt).cache, ks[1..], now, result, doneAt)
  }

  /** The newest `m` elements of `s`, oldest first (all of `s` when it is shorter). */
  function Newest<K>(s: seq<K>, m: nat): (r: seq<K>)
    ensures |r| == if |s| <= m then |s| else m
  {
    if |s| <= m then s else s[|s| - m..]
  }

  /** One miss on a new key: the order becomes the newest `maxsize` keys of
      the old order followed by the key. */
  lemma InsertNewKey<K, V>(c: Cache<K, V>, k: K, now: int, result: V, doneAt: int)
    requires c.Valid() && c.Bounded() && c.maxsize >= 1
    requires k !in c.entries
    ensures var d := Call(c, k, now, result, doneAt).cache;
            d.Valid() && d.Bounded() && d.maxsize == c.maxsize
            && d.order == Newest(c.order + [k], c.maxsize)
            && d.entries.Keys <= c.entries.Keys + {k}
  {
    SizeIsOrderLength(c);
    assert !c.Fresh(k, now);
  }

  /** First-in, first-out eviction: after inserting new keys one after the
      other, the cache holds the newest `maxsize` keys of the whole insertion
      history, oldest first, whatever was stored before. */
  lemma {:induction false} FifoKeepsNewest<K, V>(c: Cache<K, V>, ks: seq<K>, now: int, result: V, doneAt: int)
    requires c.Valid() && c.Bounded() && c.maxsize >= 1
    requires Distinct(ks)
    requires forall i :: 0 <= i < |ks| ==> ks[i] !in c.entries
    ensures InsertAll(c, ks, now, result, doneAt).order == Newest(c.order + ks, c.maxsize)
    decreases |ks|
  {
    if ks == [] {
      SizeIsOrderLength(c);
      assert c.order + ks == c.order;
    } else {
      var d := Call(c, ks[0], now, result, doneAt).cache;
      InsertNewKey(c, ks[0], now, result, doneAt);
      var rest := ks[1..];
      NewKeysStayNew(c.entries, d.entries, ks);
      DistinctTail(ks);
      FifoKeepsNewest(d, rest, now, result, doneAt);
      SizeIsOrderLength(c);
      NewestAfterStep(c.order, ks, c.maxsize);
    }
  }

  /** The keys after the first stay absent from a cache that only gained the first. */
  lemma NewKeysStayNew<K, V>(before: map<K, V>, after: map<K, V>, ks: seq<K>)
    requires ks != [] && Distinct(ks)
    requires forall i :: 0 <= i < |ks| ==> ks[i] !in before
    requires after.Keys <= before.Keys + {ks[0]}
    ensures forall i :: 0 <= i < |ks[1..]| ==> ks[1..][i] !in after
  {
    forall i | 0 <= i < |ks[1..]|
      ensures ks[1..][i] !in after
    {
      assert ks[1..][i] == ks[i + 1] != ks[0];
    }
  }

  lemma DistinctTail<K>(ks: seq<K>)
    requires ks != [] && Distinct(ks)
    ensures Distinct(ks[1..])
  {
    forall i, j | 0 <= i < j < |ks[1..]|
      ensures ks[1..][i] != ks[1..][j]
    {
      assert ks[1..][i] == ks[i + 1] && ks[1..][j] == ks[j + 1];
    }
  }

  /** Taking the newest keys after one step, then the newest of those and
      the remaining keys, gives the newest keys of the whole history. */
  lemma NewestAfterStep<K>(order: seq<K>, ks: seq<K>, m: nat)
    requires ks != [] && |order| <= m && m >= 1
    ensures Newest(Newest(order + [ks[0]], m) + ks[1..], m) == Newest(order + ks, m)
  {
    var head := order + [ks[0]];
    var all := order + ks;
    assert all == head + ks[1..];
    if |head| > m {
      var tail := all[1..];
      assert Newest(head, m) == head[1..];
      assert head[1..] + ks[1..] == tail;
      assert Newest(tail, m) == tail[|tail| - m..];
      assert Newest(all, m) == all[|all| - m..];
      assert tail[|tail| - m..] == all[|all| - m..];
    } else {
      assert Newest(head, m) == head;
    }
  }
}
