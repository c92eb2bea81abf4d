/**
 * `PageCache`: B-tree nodes cached by page id, a least-recently-used queue of
 * page ids (`lru`), the set of dirty pages and the hit and miss counters. The
 * nodes themselves are never looked into, so their type is a parameter; the
 * shared `Arc<Mutex<..>>` handles are the values stored.
 */
module PageCache {
  import opened Wrappers

  datatype CacheError = PageNotInCache

  /** The part of the cache the operations below rearrange. */
  datatype CacheState<Node> = CacheState(cache: map<nat, Node>, lru: seq<nat>, dirtyPages: map<nat, Node>)

  /** `lru.iter().position(..)` followed by `lru.remove(pos)`: the first
      occurrence of `x` is taken out, if there is one. */
  function RemoveFirst(s: seq<nat>, x: nat): (r: seq<nat>)
  {
    if s == [] then []
    else if s[0] == x then s[1..]
    else [s[0]] + RemoveFirst(s[1..], x)
  }

  /** The page ids in a queue. */
  function Ids(s: seq<nat>): set<nat>
  {
    set x | x in s
  }

  lemma IdsConcat(a: seq<nat>, b: seq<nat>)
    ensures Ids(a + b) == Ids(a) + Ids(b)
  {
    assert forall x :: x in a + b <==> x in a || x in b;
  }

  /** No page id occurs twice in a queue. */
  predicate Distinct(s: seq<nat>)
  {
    forall i, j :: 0 <= i < j < |s| ==> s[i] != s[j]
  }

  // ---------------------------------------------------------------------
  // The operations on the cache state, as written.

  /** `get`: on a hit the id moves from its place to the back of the queue;
      a miss changes nothing. */
  function GetState<Node>(st: CacheState<Node>, id: nat): CacheState<Node>
  {
    if id in st.cache then st.(lru := RemoveFirst(st.lru, id) + [id]) else st
  }

  /** Whether `put(id, ..)` first evicts the front of the queue. */
  predicate Evicts<Node>(st: CacheState<Node>, capacity: nat, id: nat)
  {
    |st.cache| >= capacity && id !in st.cache && st.lru != []
  }

  /** The state after the eviction step of `put`: when the cache is full and
      `id` is new, the queue front is popped and dropped from the cache and
      the dirty set. */
  function EvictFor<Node>(st: CacheState<Node>, capacity: nat, id: nat): CacheState<Node>
  {
    if Evicts(st, capacity, id)
    then CacheState(st.cache - {st.lru[0]}, st.lru[1..], st.dirtyPages - {st.lru[0]})
    else st
  }

  /** `put`: after the eviction step `id` is stored, appended to the queue
      whether or not it is already there, and marked dirty if asked. */
  function PutState<Node>(st: CacheState<Node>, capacity: nat, id: nat, node: Node, isDirty: bool): CacheState<Node>
  {
    var kept := EvictFor(st, capacity, id);
    var stored := kept.(cache := kept.cache[id := node], lru := kept.lru + [id]);
    if isDirty then stored.(dirtyPages := stored.dirtyPages[id := node]) else stored
  }

  /** `mark_dirty`: only a cached page can be marked. */
  function MarkDirtyState<Node>(st: CacheState<Node>, id: nat): Result<CacheState<Node>, CacheError>
  {
    if id in st.cache then Ok(st.(dirtyPages := st.dirtyPages[id := st.cache[id]])) else Err(PageNotInCache)
  }

  /** `flush_all`: the dirty set is emptied and nothing else changes. */
  function FlushAllState<Node>(st: CacheState<Node>): CacheState<Node>
  {
    st.(dirtyPages := map[])
  }

  /** `invalidate`: the page leaves the cache and the dirty set, and its first
      occurrence leaves the queue. */
  function InvalidateState<Node>(st: CacheState<Node>, id: nat): CacheState<Node>
  {
    CacheState(st.cache - {id}, RemoveFirst(st.lru, id), st.dirtyPages - {id})
  }

  // ---------------------------------------------------------------------
  // The cache object.

  class PageCache<Node> {
    const capacity: nat
    const pageSize: nat
    var cache: map<nat, Node>
    var lru: seq<nat>
    var dirtyPages: map<nat, Node>
    var cacheHits: nat
    var cacheMisses: nat

    function State(): CacheState<Node>
      reads this
    {
      CacheState(cache, lru, dirtyPages)
    }

    /** Every dirty page is cached, and every cached page is in the queue. */
    ghost predicate Valid()
      reads this
    {
      Consistent(State())
    }

    constructor (capacity: nat, pageSize: nat)
      ensures Valid()
      ensures this.capacity == capacity && this.pageSize == pageSize
      ensures cache == map[] && lru == [] && dirtyPages == map[] && cacheHits == 0 && cacheMisses == 0
    {
      this.capacity := capacity;
      this.pageSize := pageSize;
      cache := map[];
      lru := [];
      dirtyPages := map[];
      cacheHits := 0;
      cacheMisses := 0;
    }

    /** `get`: a hit returns the cached node and counts a hit, a miss returns
        nothing and counts a miss. */
    method Get(pageId: nat) returns (r: Option<Node>)
      requires Valid()
      modifies this
      ensures Valid()
      ensures State() == GetState(old(State()), pageId)
      ensures pageId in old(cache) ==> r == Some(old(cache)[pageId]) && cacheHits == old(cacheHits) + 1 && cacheMisses == old(cacheMisses)
      ensures pageId !in old(cache) ==> r == None && cacheHits == old(cacheHits) && cacheMisses == old(cacheMisses) + 1
    {
      if pageId in cache {
        var node := cache[pageId];
        lru := RemoveFirst(lru, pageId);
        lru := lru + [pageId];
        cacheHits := cacheHits + 1;
        GetKeepsConsistent(old(State()), pageId);
        return Some(node);
      }
      cacheMisses := cacheMisses + 1;
      return None;
    }

    /** `put`, which always succeeds. */
    method Put(pageId: nat, node: Node, isDirty: bool)
      requires Valid()
      modifies this
      ensures Valid()
      ensures State() == PutState(old(State()), capacity, pageId, node, isDirty)
      ensures cacheHits == old(cacheHits) && cacheMisses == old(cacheMisses)
    {
      if |cache| >= capacity && pageId !in cache {
        if lru != [] {
          var evictedId := lru[0];
          lru := lru[1..];
          if evictedId in dirtyPages {
            dirtyPages := dirtyPages - {evictedId};
          } else {
            assert dirtyPages == dirtyPages - {evictedId};
          }
          cache := cache - {evictedId};
        }
      }
      assert State() == EvictFor(old(State()), capacity, pageId);
      cache := cache[pageId := node];
      lru := lru + [pageId];
      if isDirty {
        dirtyPages := dirtyPages[pageId := node];
      }
      PutKeepsConsistent(old(State()), capacity, pageId, node, isDirty);
    }

    /** `mark_dirty`: fails on a page that is not cached, changing nothing. */
    method MarkDirty(pageId: nat) returns (r: Result<(), CacheError>)
      requires Valid()
      modifies this
      ensures Valid()
      ensures match MarkDirtyState(old(State()), pageId)
        case Ok(st) => r == Ok(()) && State() == st
        case Err(e) => r == Err(e) && State() == old(State())
      ensures cacheHits == old(cacheHits) && cacheMisses == old(cacheMisses)
    {
      if pageId in cache {
        dirtyPages := dirtyPages[pageId := cache[pageId]];
        return Ok(());
      }
      return Err(PageNotInCache);
    }

    /** `flush_all`: forgets every dirty mark. */
    method FlushAll()
      requires Valid()
      modifies this
      ensures Valid()
      ensures State() == FlushAllState(old(State()))
      ensures cacheHits == old(cacheHits) && cacheMisses == old(cacheMisses)
    {
      dirtyPages := map[];
    }

    /** `invalidate`, which always succeeds. */
    method Invalidate(pageId: nat)
      requires Valid()
      modifies this
      ensures Valid()
      ensures State() == InvalidateState(old(State()), pageId)
      ensures cacheHits == old(cacheHits) && cacheMisses == old(cacheMisses)
    {
      cache := cache - {pageId};
      dirtyPages := dirtyPages - {pageId};
      lru := RemoveFirst(lru, pageId);
      InvalidateKeepsConsistent(old(State()), pageId);
    }
  }

  // ---------------------------------------------------------------------
  // The invariant every operation keeps.

  /** Every dirty page is a cached page, and every cached page is somewhere
      in the queue. */
  predicate Consistent<Node>(st: CacheState<Node>)
  {
    st.dirtyPages.Keys <= st.cache.Keys && st.cache.Keys <= Ids(st.lru)
  }

  /** Taking out the first occurrence of `x` takes out exactly one `x` and
      keeps the order of everything else. */
  lemma {:induction false} RemoveFirstCount(s: seq<nat>, x: nat)
    ensures multiset(RemoveFirst(s, x)) == multiset(s) - multiset{x}
    ensures x in s ==> |RemoveFirst(s, x)| == |s| - 1
    ensures x !in s ==> RemoveFirst(s, x) == s
  {
    if s != [] {
      RemoveFirstCount(s[1..], x);
      assert s == [s[0]] + s[1..];
      if s[0] != x {
        assert multiset(s) == multiset{s[0]} + multiset(s[1..]);
      }
    }
  }

  /** Only `x` can leave the queue's ids. */
  lemma RemoveFirstIds(s: seq<nat>, x: nat)
    ensures Ids(s) - {x} <= Ids(RemoveFirst(s, x)) <= Ids(s)
  {
    RemoveFirstCount(s, x);
    forall y | y in Ids(s) - {x}
      ensures y in Ids(RemoveFirst(s, x))
    {
      assert y in multiset(s);
      assert y in multiset(RemoveFirst(s, x));
    }
    forall y | y in Ids(RemoveFirst(s, x))
      ensures y in Ids(s)
    {
      assert y in multiset(RemoveFirst(s, x));
      assert y in multiset(s);
    }
  }

  lemma GetKeepsConsistent<Node>(st: CacheState<Node>, id: nat)
    requires Consistent(st)
    ensures Consistent(GetState(st, id))
  {
    if id in st.cache {
      var q := RemoveFirst(st.lru, id);
      RemoveFirstIds(st.lru, id);
      IdsConcat(q, [id]);
    }
  }

  lemma PutKeepsConsistent<Node>(st: CacheState<Node>, capacity: nat, id: nat, node: Node, isDirty: bool)
    requires Consistent(st)
    ensures Consistent(PutState(st, capacity, id, node, isDirty))
  {
    var kept := EvictFor(st, capacity, id);
    if Evicts(st, capacity, id) {
      assert st.lru == [st.lru[0]] + st.lru[1..];
      IdsConcat([st.lru[0]], st.lru[1..]);
    }
    assert Consistent(kept);
    IdsConcat(kept.lru, [id]);
  }

  lemma InvalidateKeepsConsistent<Node>(st: CacheState<Node>, id: nat)
    requires Consistent(st)
    ensures Consistent(InvalidateState(st, id))
  {
    RemoveFirstIds(st.lru, id);
  }

  /** Marking a page dirty and flushing keep the invariant, and a flush
      leaves the cached pages and the queue alone. */
  lemma MarkDirtyAndFlushKeepConsistent<Node>(st: CacheState<Node>, id: nat)
    requires Consistent(st)
    ensures MarkDirtyState(st, id).Ok? ==> Consistent(MarkDirtyState(st, id).value)
    ensures Consistent(FlushAllState(st)) && FlushAllState(st).cache == st.cache && FlushAllState(st).lru == st.lru
  {
  }

  /** A hit moves the page to the back of the queue and keeps the order of
      the other pages; the cached pages are untouched. */
  lemma GetMovesToBack<Node>(st: CacheState<Node>, id: nat)
    requires id in st.cache && id in st.lru
    ensures GetState(st, id).cache == st.cache
    ensures GetState(st, id).lru[|GetState(st, id).lru| - 1] == id
    ensures |GetState(st, id).lru| == |st.lru|
    ensures multiset(GetState(st, id).lru) == multiset(st.lru)
  {
    RemoveFirstCount(st.lru, id);
    var q := RemoveFirst(st.lru, id);
    assert multiset(q + [id]) == multiset(q) + multiset{id};
  }

  // ---------------------------------------------------------------------
  // The capacity bound. A `put` of a page that is already cached appends
  // its id to the queue a second time, so later evictions can pop an id
  // whose page is already gone, and the cache grows past its capacity.

  /** `put` with `lru` kept free of repeats: the earlier occurrence of `id`
      is taken out before `id` goes to the back. */
  function CorrectedPutState<Node>(st: CacheState<Node>, capacity: nat, id: nat, node: Node, isDirty: bool): CacheState<Node>
  {
    var kept := EvictFor(st, capacity, id);
    var stored := kept.(cache := kept.cache[id := node], lru := RemoveFirst(kept.lru, id) + [id]);
    if isDirty then stored.(dirtyPages := stored.dirtyPages[id := node]) else stored
  }

  /** The queue lists each cached page exactly once. */
  predicate Tidy<Node>(st: CacheState<Node>)
  {
    st.dirtyPages.Keys <= st.cache.Keys && st.cache.Keys == Ids(st.lru) && Distinct(st.lru)
  }

  /** A queue without repeats has as many ids as entries. */
  lemma {:induction false} DistinctIds(s: seq<nat>)
    requires Distinct(s)
    ensures |Ids(s)| == |s|
  {
    if s != [] {
      var t := s[1..];
      DropFrontDistinct(s);
      DistinctIds(t);
      assert Ids(s) == Ids(t) + {s[0]};
    }
  }

  /** Without repeats, taking out the first `x` takes out every `x`. */
  lemma {:induction false} RemoveFirstDistinct(s: seq<nat>, x: nat)
    requires Distinct(s)
    ensures Distinct(RemoveFirst(s, x)) && Ids(RemoveFirst(s, x)) == Ids(s) - {x}
  {
    if s != [] {
      var t := s[1..];
      DropFrontDistinct(s);
      RemoveFirstDistinct(t, x);
      if s[0] != x {
        var r := RemoveFirst(t, x);
        IdsConcat([s[0]], r);
        assert Ids([s[0]]) == {s[0]};
        assert s[0] !in Ids(r);
        assert Distinct([s[0]] + r) by {
          forall i, j | 0 <= i < j < |[s[0]] + r|
            ensures ([s[0]] + r)[i] != ([s[0]] + r)[j]
          {
            if i == 0 {
              assert ([s[0]] + r)[j] == r[j - 1];
              assert r[j - 1] in Ids(r);
            }
          }
        }
      }
    }
  }

  /** Appending an id that is not there keeps a queue free of repeats. */
  lemma AppendDistinct(s: seq<nat>, x: nat)
    requires Distinct(s) && x !in Ids(s)
    ensures Distinct(s + [x]) && Ids(s + [x]) == Ids(s) + {x}
  {
    IdsConcat(s, [x]);
    assert Ids([x]) == {x};
    forall i, j | 0 <= i < j < |s + [x]|
      ensures (s + [x])[i] != (s + [x])[j]
    {
      if j == |s| {
        assert s[i] in Ids(s);
      }
    }
  }

  /** Dropping the front keeps a queue free of repeats and loses only the
      front id. */
  lemma DropFrontDistinct(s: seq<nat>)
    requires Distinct(s) && s != []
    ensures Distinct(s[1..]) && Ids(s[1..]) == Ids(s) - {s[0]} && s[0] in Ids(s)
  {
    var t := s[1..];
    assert s == [s[0]] + t;
    IdsConcat([s[0]], t);
    assert Ids([s[0]]) == {s[0]};
    forall i, j | 0 <= i < j < |t|
      ensures t[i] != t[j]
    {
      assert t[i] == s[i + 1] && t[j] == s[j + 1];
    }
  }

  /** The eviction step keeps the queue an exact listing of the cache, and an
      eviction frees one place. */
  lemma EvictTidy<Node>(st: CacheState<Node>, capacity: nat, id: nat)
    requires Tidy(st)
    ensures Tidy(EvictFor(st, capacity, id))
    ensures Evicts(st, capacity, id) ==> |EvictFor(st, capacity, id).cache.Keys| == |st.cache.Keys| - 1
  {
    if Evicts(st, capacity, id) {
      DropFrontDistinct(st.lru);
    }
  }

  /** Storing `id` with its earlier occurrence taken out of the queue keeps
      the queue an exact listing of the cache, and grows the cache only by a
      new id. */
  lemma StoreTidy<Node>(kept: CacheState<Node>, id: nat, node: Node, isDirty: bool)
    requires Tidy(kept)
    ensures var stored := kept.(cache := kept.cache[id := node], lru := RemoveFirst(kept.lru, id) + [id]);
      var after := if isDirty then stored.(dirtyPages := stored.dirtyPages[id := node]) else stored;
      Tidy(after) && after.cache.Keys == kept.cache.Keys + {id}
  {
    RemoveFirstDistinct(kept.lru, id);
    AppendDistinct(RemoveFirst(kept.lru, id), id);
  }

  /** A map has as many entries as keys. */
  lemma MapSize<Node>(m: map<nat, Node>)
    ensures |m| == |m.Keys|
  {
  }

  /** The corrected `put` keeps the queue an exact listing of the cache and
      never lets a cache that fits its capacity (of at least one page) grow
      past it. */
  lemma CorrectedPutKeepsCapacity<Node>(st: CacheState<Node>, capacity: nat, id: nat, node: Node, isDirty: bool)
    requires Tidy(st) && 0 < capacity && |st.cache| <= capacity
    ensures Tidy(CorrectedPutState(st, capacity, id, node, isDirty))
    ensures |CorrectedPutState(st, capacity, id, node, isDirty).cache| <= capacity
  {
    var kept := EvictFor(st, capacity, id);
    var after := CorrectedPutState(st, capacity, id, node, isDirty);
    EvictTidy(st, capacity, id);
    StoreTidy(kept, id, node, isDirty);
    MapSize(st.cache);
    MapSize(after.cache);
    if st.lru == [] {
      assert st.cache.Keys == {};
    }
  }

  /** A capacity-1 cache after `put(1)`, `put(1)`, `put(2)`, `put(3)` as
      written holds two pages: the second eviction pops the stale copy of 1. */
  lemma PutExceedsCapacity(a: nat)
    ensures var empty := CacheState(map[], [], map[]);
      var s1 := PutState(empty, 1, 1, a, false);
      var s2 := PutState(s1, 1, 1, a, false);
      var s3 := PutState(s2, 1, 2, a, false);
      var s4 := PutState(s3, 1, 3, a, false);
      s4.cache.Keys == {2, 3} && |s4.cache| == 2
  {
    var empty: CacheState<nat> := CacheState(map[], [], map[]);
    var s1 := PutState(empty, 1, 1, a, false);
    assert s1 == CacheState(map[1 := a], [1], map[]);
    var s2 := PutState(s1, 1, 1, a, false);
    assert s2 == CacheState(map[1 := a], [1, 1], map[]);
    var s3 := PutState(s2, 1, 2, a, false);
    assert Evicts(s2, 1, 2);
    assert s2.cache - {1} == map[];
    assert s3 == CacheState(map[2 := a], [1, 2], map[]);
    var s4 := PutState(s3, 1, 3, a, false);
    assert Evicts(s3, 1, 3);
    assert s3.cache - {1} == s3.cache;
    assert s4 == CacheState(map[2 := a, 3 := a], [2, 3], map[]);
    MapSize(s4.cache);
  }
}
