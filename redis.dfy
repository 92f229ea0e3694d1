/** The in-process stand-in for Redis (`MockRedis`), the read-through helper
    `fetchWithCache` and the bulk invalidation `clearCache`.

    Expiry timers are modelled on a logical clock: a pending timer is the
    clock reading (in milliseconds) at which it fires, and `AdvanceTo` lets
    time pass, running the callbacks that fall due. */
module Redis {
  import Glob
  import KeyOrder

  datatype Option<T> = None | Some(value: T)

  /** What one call of an asynchronous producer ends with: a value, or a
      rejection. */
  datatype Outcome<T> = Ok(value: T) | Err(reason: string)

  /** The JSON text form of the producer's values. `encode` fails (None)
      where `JSON.stringify` throws; `decode` fails where `JSON.parse` throws. */
  datatype Codec<!T> = Codec(encode: T -> Option<string>, decode: string -> Option<T>)

  /** Reading back what was written gives the value that was written. */
  ghost predicate RoundTrips<T(!new)>(codec: Codec<T>) {
    forall x :: codec.encode(x).Some? ==> codec.decode(codec.encode(x).value) == Some(x)
  }

  /** Largest delay, in milliseconds, that Node.js honours in `setTimeout`. */
  const MaxTimerDelay: int := 2147483647

  /** The delay Node.js uses for a requested one: outside 1..MaxTimerDelay it
      falls back to 1 ms. */
  function TimerDelay(ms: int): int {
    if ms < 1 || ms > MaxTimerDelay then 1 else ms
  }

  /** `set` installs a timer only for mode 'EX' with a truthy (non-zero) time. */
  predicate ArmsTimer(expiryMode: Option<string>, time: Option<int>) {
    expiryMode == Some("EX") && time.Some? && time.value != 0
  }

  /** The distinct keys among `keys` that `c` holds. */
  function Present(keys: seq<string>, c: map<string, string>): set<string> {
    KeyOrder.Elems(keys) * c.Keys
  }

  /** The keys of `c` that `pattern` matches. */
  function Matching(c: map<string, string>, pattern: string): set<string> {
    set k | k in c && Glob.Matches(pattern, k)
  }

  /** The timers of `deadlines` that are due at clock reading `t`. */
  function Due(deadlines: map<string, int>, t: int): set<string> {
    set k | k in deadlines && deadlines[k] <= t
  }

  /** The elements of `s` that `pattern` matches, in the order of `s`. */
  function FilterMatching(s: seq<string>, pattern: string): seq<string> {
    if s == [] then []
    else if Glob.Matches(pattern, s[0]) then [s[0]] + FilterMatching(s[1..], pattern)
    else FilterMatching(s[1..], pattern)
  }

  /** Exactly the matching elements are kept. */
  lemma {:induction false} FilterMatchingMembers(s: seq<string>, pattern: string)
    ensures forall k :: k in FilterMatching(s, pattern) <==> k in s && Glob.Matches(pattern, k)
    decreases |s|
  {
    if s != [] {
      FilterMatchingMembers(s[1..], pattern);
      assert s == [s[0]] + s[1..];
    }
  }

  /** The kept elements stay in their order, and without repetitions when
      `s` has none. */
  lemma {:induction false} FilterMatchingOrdered(s: seq<string>, pattern: string)
    ensures KeyOrder.SubsequenceOf(FilterMatching(s, pattern), s)
    ensures KeyOrder.NoDups(s) ==> KeyOrder.NoDups(FilterMatching(s, pattern))
    decreases |s|
  {
    if s != [] {
      FilterMatchingOrdered(s[1..], pattern);
      var rest := FilterMatching(s[1..], pattern);
      if Glob.Matches(pattern, s[0]) {
        var r := [s[0]] + rest;
        assert r[1..] == rest;
        if KeyOrder.NoDups(s) {
          KeyOrder.NoDupsHead(s);
          if s[0] in rest {
            KeyOrder.SubsequenceMember(rest, s[1..], s[0]);
          }
          forall i, j | 0 <= i < j < |r| ensures r[i] != r[j] {
            if i == 0 {
              assert r[j] == rest[j - 1];
            } else {
              assert r[i] == rest[i - 1] && r[j] == rest[j - 1];
            }
          }
        }
      } else {
        KeyOrder.SkipHead(rest, s);
      }
    }
  }

  /** `del` never counts more than it was given, nor more than is stored. */
  lemma {:induction false} PresentBounds(keys: seq<string>, c: map<string, string>)
    ensures |Present(keys, c)| <= |keys|
    ensures |Present(keys, c)| <= |c|
    decreases |keys|
  {
    if keys != [] {
      PresentBounds(keys[1..], c);
      assert Present(keys, c) <= Present(keys[1..], c) + {keys[0]};
      SubsetSize(Present(keys, c), Present(keys[1..], c) + {keys[0]});
    }
    SubsetSize(Present(keys, c), c.Keys);
  }

  lemma SubsetSize(a: set<string>, b: set<string>)
    requires a <= b
    ensures |a| <= |b|
  {
    assert b == a + (b - a);
  }

  /** The stored keys among `done`, counted: the number `del` has reached
      after handling the arguments in `done`. */
  lemma CountStep(done: set<string>, k: string, c: map<string, string>)
    ensures |(done + {k}) * c.Keys| == |done * c.Keys| + (if k in c && k !in done then 1 else 0)
  {
    if k in c && k !in done {
      assert (done + {k}) * c.Keys == (done * c.Keys) + {k};
    } else {
      assert (done + {k}) * c.Keys == done * c.Keys;
    }
  }

  /** How the state `del` has reached after removing the keys `done` moves on
      by removing `k`. */
  lemma DelStep(c: map<string, string>, d: map<string, int>, o: seq<string>, done: set<string>, k: string)
    ensures (c - done) - {k} == c - (done + {k})
    ensures (d - done) - {k} == d - (done + {k})
    ensures KeyOrder.Without(KeyOrder.Without(o, done), {k}) == KeyOrder.Without(o, done + {k})
    ensures |(done + {k}) * c.Keys| == |done * c.Keys| + (if k in c - done then 1 else 0)
  {
    MinusMinus(c, done, {k});
    MinusMinus(d, done, {k});
    KeyOrder.WithoutWithout(o, done, {k});
    CountStep(done, k, c);
  }

  /** Distinct keys that are all stored are all counted. */
  lemma {:induction false} PresentDistinct(keys: seq<string>, c: map<string, string>)
    requires KeyOrder.NoDups(keys)
    requires forall k :: k in keys ==> k in c
    ensures |Present(keys, c)| == |keys|
    decreases |keys|
  {
    if keys != [] {
      KeyOrder.NoDupsHead(keys);
      PresentDistinct(keys[1..], c);
      assert Present(keys, c) == Present(keys[1..], c) + {keys[0]};
      assert keys[0] !in Present(keys[1..], c);
    }
  }

  /** What `get` answers: `cache.get(key) || null`, so absent keys and
      stored empty strings both read as null. */
  function Read(c: map<string, string>, key: string): Option<string> {
    if key in c && c[key] != "" then Some(c[key]) else None
  }

  /** After `set(key, value)` a non-empty value reads back, an empty one
      reads as null, and every other key reads as before. */
  lemma ReadAfterWrite(c: map<string, string>, key: string, value: string, k: string)
    ensures Read(c[key := value], k) == if k == key then (if value != "" then Some(value) else None) else Read(c, k)
  {
  }

  /** After deleting `ks`, those keys read as null and the others as before. */
  lemma ReadAfterDelete(c: map<string, string>, ks: set<string>, k: string)
    ensures Read(c - ks, k) == if k in ks then None else Read(c, k)
  {
  }

  class MockRedis {
    /** The stored strings. */
    var cache: map<string, string>
    /** The keys of `cache` in the order the `Map` iterates them. */
    var order: seq<string>
    /** The pending expiry timers: the clock reading at which each fires. */
    var deadlines: map<string, int>
    /** The logical clock, in milliseconds. */
    var now: int

    /** A timer exists only for a stored key, and `order` lists every stored
        key exactly once. */
    ghost predicate Valid()
      reads this
    {
      && deadlines.Keys <= cache.Keys
      && (forall k :: k in order <==> k in cache)
      && KeyOrder.NoDups(order)
    }

    /** No timer is overdue: every expiry due by now has run. */
    ghost predicate Settled()
      reads this
    {
      forall k :: k in deadlines ==> deadlines[k] > now
    }

    /** What `get` answers for the current contents. */
    function Lookup(key: string): Option<string>
      reads this
    {
      Read(cache, key)
    }

    constructor ()
      ensures Valid() && Settled()
      ensures cache == map[] && order == [] && deadlines == map[] && now == 0
    {
      cache, order, deadlines, now := map[], [], map[], 0;
    }

    method Get(key: string) returns (r: Option<string>)
      ensures r == Lookup(key)
    {
      if key in cache && cache[key] != "" {
        r := Some(cache[key]);
      } else {
        r := None;
      }
    }

    /** `set(key, value, expiryMode?, time?)`. The value is stored; with
        'EX' and a non-zero time the key's timer is replaced by one firing
        `time` seconds from now. Any other call leaves an earlier timer for
        `key` pending. */
    method Set(key: string, value: string, expiryMode: Option<string>, time: Option<int>)
      returns (reply: string)
      requires Valid()
      modifies this
      ensures Valid() && reply == "OK"
      ensures cache == old(cache)[key := value]
      ensures order == if key in old(cache) then old(order) else old(order) + [key]
      ensures ArmsTimer(expiryMode, time) ==> deadlines == old(deadlines)[key := now + TimerDelay(time.value * 1000)]
      ensures !ArmsTimer(expiryMode, time) ==> deadlines == old(deadlines)
      ensures now == old(now)
      ensures old(Settled()) ==> Settled()
    {
      if key !in cache {
        KeyOrder.NoDupsSnoc(order, key);
        order := order + [key];
      }
      cache := cache[key := value];
      if ArmsTimer(expiryMode, time) {
        // clearing the earlier timeout and installing a new one leaves one deadline
        deadlines := deadlines[key := now + TimerDelay(time.value * 1000)];
      }
      reply := "OK";
    }

    /** One step of `del`: if `key` is stored, delete it and cancel its
        timer; report whether it was stored. */
    method Remove(key: string) returns (removed: bool)
      requires Valid()
      modifies this
      ensures Valid() && now == old(now)
      ensures removed == (key in old(cache))
      ensures cache == old(cache) - {key}
      ensures deadlines == old(deadlines) - {key}
      ensures order == KeyOrder.Without(old(order), {key})
    {
      removed := key in cache;
      if removed {
        cache := cache - {key};
        if key in deadlines {
          deadlines := deadlines - {key};
        } else {
          assert deadlines - {key} == deadlines;
        }
        KeyOrder.WithoutMembers(order, {key});
        KeyOrder.WithoutNoDups(order, {key});
        order := KeyOrder.Without(order, {key});
      } else {
        assert cache - {key} == cache;
        assert deadlines - {key} == deadlines;
        KeyOrder.WithoutAbsent(order, {key});
      }
    }

    /** `del(...keys)`: removes each listed key that is stored, with its
        timer, and counts the removals. */
    method Del(keys: seq<string>) returns (count: nat)
      requires Valid()
      modifies this
      ensures Valid()
      ensures count == |Present(keys, old(cache))|
      ensures cache == old(cache) - KeyOrder.Elems(keys)
      ensures deadlines == old(deadlines) - KeyOrder.Elems(keys)
      ensures order == KeyOrder.Without(old(order), KeyOrder.Elems(keys))
      ensures now == old(now)
      ensures old(Settled()) ==> Settled()
    {
      ghost var cache0, deadlines0, order0 := cache, deadlines, order;
      ghost var done: set<string> := {};
      count := 0;
      var i := 0;
      assert cache == cache0 - done && deadlines == deadlines0 - done
          && order == KeyOrder.Without(order0, done) && count == |done * cache0.Keys| by {
        assert cache == cache0 - {} && deadlines == deadlines0 - {};
        assert {} * cache0.Keys == {};
        KeyOrder.WithoutAbsent(order, {});
      }
      while i < |keys|
        invariant 0 <= i <= |keys|
        invariant Valid() && now == old(now)
        invariant done == KeyOrder.Elems(keys[..i])
        invariant cache == cache0 - done
        invariant deadlines == deadlines0 - done
        invariant order == KeyOrder.Without(order0, done)
        invariant count == |done * cache0.Keys|
      {
        DelStep(cache0, deadlines0, order0, done, keys[i]);
        KeyOrder.ElemsSnoc(keys, i);
        var removed := Remove(keys[i]);
        if removed {
          count := count + 1;
        }
        done := done + {keys[i]};
        i := i + 1;
      }
      assert keys[..i] == keys;
    }

    /** `keys(pattern)`: the stored keys the pattern matches, in `Map` order. */
    function Keys(pattern: string): (ks: seq<string>)
      reads this
      requires Valid() && Glob.Plain(pattern)
      ensures forall k :: k in ks <==> k in cache && Glob.Matches(pattern, k)
      ensures KeyOrder.NoDups(ks)
      ensures KeyOrder.SubsequenceOf(ks, order)
    {
      FilterMatchingMembers(order, pattern);
      FilterMatchingOrdered(order, pattern);
      FilterMatching(order, pattern)
    }

    /** The callback of `key`'s timer: it deletes the key from both maps. */
    method Fire(key: string)
      requires Valid()
      requires key in deadlines && deadlines[key] <= now
      modifies this
      ensures Valid()
      ensures cache == old(cache) - {key}
      ensures deadlines == old(deadlines) - {key}
      ensures order == KeyOrder.Without(old(order), {key})
      ensures now == old(now)
    {
      cache := cache - {key};
      deadlines := deadlines - {key};
      KeyOrder.WithoutMembers(order, {key});
      KeyOrder.WithoutNoDups(order, {key});
      order := KeyOrder.Without(order, {key});
    }

    /** Let the clock reach `t`; every timer due by then fires. */
    method AdvanceTo(t: int)
      requires Valid() && now <= t
      modifies this
      ensures Valid() && Settled() && now == t
      ensures cache == old(cache) - Due(old(deadlines), t)
      ensures deadlines == old(deadlines) - Due(old(deadlines), t)
      ensures order == KeyOrder.Without(old(order), Due(old(deadlines), t))
    {
      ghost var due := Due(deadlines, t);
      now := t;
      ghost var fired: set<string> := {};
      KeyOrder.WithoutAbsent(order, {});
      assert cache == cache - {} && deadlines == deadlines - {};
      while Due(deadlines, now) != {}
        invariant Valid() && now == t
        invariant fired <= due
        invariant Due(deadlines, t) == due - fired
        invariant cache == old(cache) - fired
        invariant deadlines == old(deadlines) - fired
        invariant order == KeyOrder.Without(old(order), fired)
        decreases deadlines.Keys
      {
        var k :| k in Due(deadlines, now);
        Fire(k);
        MinusMinus(old(cache), fired, {k});
        MinusMinus(old(deadlines), fired, {k});
        KeyOrder.WithoutWithout(old(order), fired, {k});
        fired := fired + {k};
      }
      assert due - fired == {};
      assert fired == due;
    }
  }

  /** Removing `a` and then `b` from a map removes `a + b`. */
  lemma MinusMinus<V>(m: map<string, V>, a: set<string>, b: set<string>)
    ensures (m - a) - b == m - (a + b)
  {
  }

  /** `fetchWithCache(key, fetcher, ttl)`. `fetcher(n)` is the outcome of
      the n-th call of the producer (counting from 0); `calls` says how many
      calls were made. `elapsed` is how many milliseconds `await fetcher()`
      in the `try` takes to settle: the expiry timers that fall due meanwhile
      fire before anything else touches the store. Anything that throws
      inside the `try` (a cached text that does not parse, a rejected fetch,
      a value that does not serialize) sends control to the `catch`, which
      calls the producer once more and hands its outcome, success or
      rejection, to the caller. */
  method FetchWithCache<T>(store: MockRedis, key: string, fetcher: nat -> Outcome<T>,
                           codec: Codec<T>, ttl: int, elapsed: nat)
    returns (r: Outcome<T>, calls: nat)
    requires store.Valid()
    modifies store
    ensures store.Valid()
    ensures old(store.Settled()) ==> store.Settled()
    ensures calls <= 2
    // hit: the parsed cached text, and the producer is not called
    ensures old(store.Lookup(key)).Some? && codec.decode(old(store.Lookup(key)).value).Some? ==>
      r == Ok(codec.decode(old(store.Lookup(key)).value).value) && calls == 0 && unchanged(store)
    // cached text that does not parse: the catch calls the producer
    ensures old(store.Lookup(key)).Some? && codec.decode(old(store.Lookup(key)).value).None? ==>
      r == fetcher(0) && calls == 1 && unchanged(store)
    // miss: the clock moves on by `elapsed` and the timers due by then fire
    ensures old(store.Lookup(key)).None? ==>
      store.Settled() && store.now == old(store.now) + elapsed
    // miss with a rejected fetch or an unserializable value: the producer runs again
    ensures old(store.Lookup(key)).None? && (fetcher(0).Err? || codec.encode(fetcher(0).value).None?) ==>
      var due := Due(old(store.deadlines), old(store.now) + elapsed);
      && r == fetcher(1) && calls == 2
      && store.cache == old(store.cache) - due
      && store.deadlines == old(store.deadlines) - due
      && store.order == KeyOrder.Without(old(store.order), due)
    // miss with a fetched, serializable value: it is stored under `key`, with
    // a timer counted from the clock reading once the fetch has settled
    ensures old(store.Lookup(key)).None? && fetcher(0).Ok? && codec.encode(fetcher(0).value).Some? ==>
      var t := old(store.now) + elapsed;
      var due := Due(old(store.deadlines), t);
      && r == fetcher(0) && calls == 1
      && store.cache == (old(store.cache) - due)[key := codec.encode(fetcher(0).value).value]
      && store.deadlines == (if ttl != 0
                             then (old(store.deadlines) - due)[key := t + TimerDelay(ttl * 1000)]
                             else old(store.deadlines) - due)
      && store.order == (if key in old(store.cache) - due
                         then KeyOrder.Without(old(store.order), due)
                         else KeyOrder.Without(old(store.order), due) + [key])
  {
    var cached := store.Get(key);
    if cached.Some? {
      var parsed := codec.decode(cached.value);
      if parsed.Some? {
        return Ok(parsed.value), 0;
      }
      // JSON.parse threw: the catch calls the producer
      return fetcher(0), 1;
    }
    var data := fetcher(0);
    store.AdvanceTo(store.now + elapsed);
    if data.Err? {
      return fetcher(1), 2;
    }
    var text := codec.encode(data.value);
    if text.None? {
      return fetcher(1), 2;
    }
    var _ := store.Set(key, text.value, Some("EX"), Some(ttl));
    return data, 1;
  }

  /** `clearCache(keyPattern)`: deletes every stored key the pattern matches. */
  method ClearCache(store: MockRedis, pattern: string)
    requires store.Valid() && Glob.Plain(pattern)
    modifies store
    ensures store.Valid() && store.now == old(store.now)
    ensures old(store.Settled()) ==> store.Settled()
    ensures forall k :: k in store.cache ==> !Glob.Matches(pattern, k)
    ensures store.cache == old(store.cache) - Matching(old(store.cache), pattern)
    ensures store.deadlines == old(store.deadlines) - Matching(old(store.cache), pattern)
    ensures store.order == KeyOrder.Without(old(store.order), Matching(old(store.cache), pattern))
    ensures Matching(old(store.cache), pattern) == {} ==> unchanged(store)
  {
    var ks := store.Keys(pattern);
    ghost var matching := Matching(store.cache, pattern);
    assert KeyOrder.Elems(ks) == matching;
    if |ks| > 0 {
      assert ks[0] in matching;
      var removed := store.Del(ks);
    } else {
      assert matching == {};
      assert store.cache - matching == store.cache;
      assert store.deadlines - matching == store.deadlines;
      KeyOrder.WithoutAbsent(store.order, {});
    }
  }
}
