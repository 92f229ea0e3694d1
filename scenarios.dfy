/** Concrete runs of the in-memory store and the cache helpers, each stating
    what the caller observes. */
module Scenarios {
  import Redis
  import Glob
  import KeyOrder

  /** `posts:*` matches both post keys and not the user key. */
  lemma PostsPattern()
    ensures Glob.Matches("posts:*", "posts:1") && Glob.Matches("posts:*", "posts:2")
    ensures !Glob.Matches("posts:*", "users:1")
  {
    assert "posts:" + "*" == "posts:*";
    assert Glob.Stars("posts:") == 0;
    Glob.PrefixStarMatches("posts:", "posts:1");
    Glob.PrefixStarMatches("posts:", "posts:2");
    Glob.PrefixStarMatches("posts:", "users:1");
    assert "users:1"[..6] != "posts:";
  }

  /** A stored value reads back; a stored empty string and an absent key
      both read as null. */
  method StoreAndRead() returns (stored: Redis.Option<string>, empty: Redis.Option<string>,
                                 absent: Redis.Option<string>)
    ensures stored == Redis.Some("[1]")
    ensures empty == Redis.None && absent == Redis.None
  {
    var r := new Redis.MockRedis();
    var _ := r.Set("posts", "[1]", Redis.None, Redis.None);
    var _ := r.Set("blank", "", Redis.None, Redis.None);
    stored := r.Get("posts");
    empty := r.Get("blank");
    absent := r.Get("users");
  }

  /** `set(k, v, 'EX', 300)`: `k` reads back for 300 000 ms, and is gone
      once that much time has passed. */
  method ExpiresAfterTtl() returns (before: Redis.Option<string>, after: Redis.Option<string>)
    ensures before == Redis.Some("v")
    ensures after == Redis.None
  {
    var r := new Redis.MockRedis();
    var _ := r.Set("k", "v", Redis.Some("EX"), Redis.Some(300));
    r.AdvanceTo(299999);
    before := r.Get("k");
    r.AdvanceTo(300000);
    after := r.Get("k");
  }

  /** Overwriting with 'EX' replaces the earlier timer: when the first
      deadline passes the newer value survives, and it expires at its own
      deadline. */
  method OverwriteWithExpiryRearms() returns (survivor: Redis.Option<string>, later: Redis.Option<string>)
    ensures survivor == Redis.Some("v2")
    ensures later == Redis.None
  {
    var r := new Redis.MockRedis();
    var _ := r.Set("k", "v1", Redis.Some("EX"), Redis.Some(1));
    var _ := r.Set("k", "v2", Redis.Some("EX"), Redis.Some(100));
    r.AdvanceTo(1500);
    survivor := r.Get("k");
    r.AdvanceTo(100000);
    later := r.Get("k");
  }

  /** Overwriting without 'EX' leaves the earlier timer pending, and that
      timer deletes the new value. */
  method OverwriteWithoutExpiryKeepsTimer() returns (current: Redis.Option<string>, stale: Redis.Option<string>)
    ensures current == Redis.Some("v2")
    ensures stale == Redis.None
  {
    var r := new Redis.MockRedis();
    var _ := r.Set("k", "v1", Redis.Some("EX"), Redis.Some(1));
    var _ := r.Set("k", "v2", Redis.None, Redis.None);
    current := r.Get("k");
    r.AdvanceTo(1000);
    stale := r.Get("k");
  }

  /** With `a` and `b` stored, the arguments `a, a, zz` name one stored key. */
  lemma DelArguments(c: map<string, string>)
    requires c.Keys == {"a", "b"}
    ensures Redis.Present(["a", "a", "zz"], c) == {"a"}
    ensures KeyOrder.Elems(["a", "a", "zz"]) == {"a", "zz"}
    ensures KeyOrder.Without(["a", "b"], {"a", "zz"}) == ["b"]
  {
    var args := ["a", "a", "zz"];
    assert KeyOrder.Elems(args) == {"a", "zz"};
    assert "zz" != "a" && "zz" != "b" && "a" != "b";
    var o := ["a", "b"];
    assert o[1..] == ["b"] && o[1..][1..] == [];
  }

  /** `del` counts each stored key once, however often it is named, and
      absent keys not at all. */
  method DelCountsDistinctStoredKeys() returns (count: nat, left: seq<string>)
    ensures count == 1
    ensures left == ["b"]
  {
    var r := new Redis.MockRedis();
    var _ := r.Set("a", "1", Redis.None, Redis.None);
    var _ := r.Set("b", "2", Redis.None, Redis.None);
    assert r.order == ["a", "b"];
    DelArguments(r.cache);
    count := r.Del(["a", "a", "zz"]);
    left := r.order;
  }

  /** `posts:*` holds no regular-expression metacharacter. */
  lemma PostsPatternPlain()
    ensures Glob.Plain("posts:*")
  {
    var p := "posts:*";
    forall i | 0 <= i < |p| ensures !Glob.IsRegexMeta(p[i]) {
      assert p[i] in {'p', 'o', 's', 't', ':', '*'};
    }
  }

  /** Of the three keys, `posts:*` matches the two post keys. */
  lemma PostsMatching(c: map<string, string>)
    requires c.Keys == {"posts:1", "users:1", "posts:2"}
    ensures Redis.Matching(c, "posts:*") == {"posts:1", "posts:2"}
  {
    PostsPattern();
  }

  /** Deleting the post keys from the insertion order leaves the user key. */
  lemma PostsRemoved()
    ensures KeyOrder.Without(["posts:1", "users:1", "posts:2"], {"posts:1", "posts:2"}) == ["users:1"]
  {
    var o := ["posts:1", "users:1", "posts:2"];
    assert o[1..] == ["users:1", "posts:2"] && o[1..][1..] == ["posts:2"] && o[1..][1..][1..] == [];
  }

  lemma KeysDistinct()
    ensures "posts:1" != "users:1" && "posts:2" != "users:1" && "posts:2" != "posts:1"
  {
    assert "posts:1"[0] != "users:1"[0];
    assert "posts:2"[0] != "users:1"[0];
    assert "posts:2"[6] != "posts:1"[6];
  }

  /** `clearCache("posts:*")` removes `posts:1` and `posts:2` and leaves
      `users:1` readable. */
  method ClearByPrefix() returns (left: seq<string>, user: Redis.Option<string>)
    ensures left == ["users:1"]
    ensures user == Redis.Some("u")
  {
    var r := new Redis.MockRedis();
    KeysDistinct();
    var _ := r.Set("posts:1", "p1", Redis.None, Redis.None);
    var _ := r.Set("users:1", "u", Redis.None, Redis.None);
    assert r.order == ["posts:1", "users:1"];
    var _ := r.Set("posts:2", "p2", Redis.None, Redis.None);
    ghost var order := r.order;
    assert order == ["posts:1", "users:1", "posts:2"];
    PostsMatching(r.cache);
    PostsPatternPlain();
    Redis.ClearCache(r, "posts:*");
    left := r.order;
    assert left == KeyOrder.Without(order, {"posts:1", "posts:2"});
    PostsRemoved();
    user := r.Get("users:1");
  }

  /** A key pattern without `*` names one key: `clearCache("posts")` removes
      what `set("posts", ...)` stored. */
  method ClearExactKey() returns (stored: Redis.Option<string>, cleared: Redis.Option<string>)
    ensures stored == Redis.Some("[{\"id\":1}]")
    ensures cleared == Redis.None
  {
    var r := new Redis.MockRedis();
    var _ := r.Set("posts", "[{\"id\":1}]", Redis.Some("EX"), Redis.Some(300));
    stored := r.Get("posts");
    assert Glob.Plain("posts") by {
      var p := "posts";
      forall i | 0 <= i < |p| ensures !Glob.IsRegexMeta(p[i]) {
        assert p[i] in {'p', 'o', 's', 't'};
      }
    }
    assert Glob.Stars("posts") == 0;
    Glob.LiteralMatchesOnlyItself("posts", "posts");
    Redis.ClearCache(r, "posts");
    cleared := r.Get("posts");
  }

  /** Two reads through the cache with nothing in between: the first misses,
      calls the producer once and stores its value; the second finds the
      stored text and returns the same value without calling the producer,
      however long the first fetch took. The codec reads back what it
      writes, and JSON text is never empty. */
  method FetchTwice<T(!new)>(store: Redis.MockRedis, key: string, fetcher: nat -> Redis.Outcome<T>,
                             codec: Redis.Codec<T>, ttl: int, elapsed: nat)
    returns (first: Redis.Outcome<T>, calls1: nat, second: Redis.Outcome<T>, calls2: nat)
    requires store.Valid() && Redis.RoundTrips(codec)
    requires store.Lookup(key).None?
    requires fetcher(0).Ok? && codec.encode(fetcher(0).value).Some?
    requires codec.encode(fetcher(0).value).value != ""
    modifies store
    ensures first == fetcher(0) && calls1 == 1
    ensures second == first && calls2 == 0
  {
    first, calls1 := Redis.FetchWithCache(store, key, fetcher, codec, ttl, elapsed);
    second, calls2 := Redis.FetchWithCache(store, key, fetcher, codec, ttl, elapsed);
  }
}
