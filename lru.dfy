/**
 * The cache's in-memory tier as a value: an access-ordered map from id to entity.
 * `order` lists the cached ids from least to most recently used; `vals` is the
 * lookup table. Together they stand for one LinkedHashMap in access order.
 */
module LruModel {
  import opened Wrappers
  import opened Domain

  datatype Lru = Lru(order: seq<string>, vals: map<string, Entity>)

  /** The cache with no entries. */
  const Empty := Lru([], map[])

  predicate Distinct(s: seq<string>) {
    forall i, j | 0 <= i < j < |s| :: s[i] != s[j]
  }

  /**
   * The shape of the map regardless of capacity: no id twice, the recency order
   * a permutation of the cached ids, and every entry filed under its own id.
   */
  ghost predicate WellFormed(c: Lru) {
    && Distinct(c.order)
    && (forall k :: k in c.order <==> k in c.vals)
    && (forall k | k in c.vals :: c.vals[k].id == Some(k))
  }

  /** The cache invariant: a positive capacity that is never exceeded, on a well-formed map. */
  ghost predicate Inv(c: Lru, maxSize: int) {
    && 0 < maxSize
    && |c.order| <= maxSize
    && WellFormed(c)
  }

  /** s with every occurrence of k taken out, the other ids in their old order. */
  function Without(s: seq<string>, k: string): seq<string> {
    if s == [] then []
    else if s[0] == k then Without(s[1..], k)
    else [s[0]] + Without(s[1..], k)
  }

  /**
   * Taking an id out of an order keeps exactly the other ids, keeps a
   * duplicate-free order duplicate-free, and shortens it by one exactly when
   * the id was there.
   */
  lemma {:induction false} WithoutFacts(s: seq<string>, k: string)
    ensures forall x :: x in Without(s, k) <==> x in s && x != k
    ensures k !in s ==> Without(s, k) == s
    ensures Distinct(s) ==> Distinct(Without(s, k)) && |Without(s, k)| == (if k in s then |s| - 1 else |s|)
  {
    if s != [] {
      DistinctTail(s);
      WithoutFacts(s[1..], k);
      if s[0] != k {
        DistinctTail([s[0]] + Without(s[1..], k));
        assert ([s[0]] + Without(s[1..], k))[1..] == Without(s[1..], k);
      }
    }
  }

  /** Taking out an id that is not there changes nothing. */
  lemma {:induction false} WithoutAbsent(s: seq<string>, k: string)
    requires k !in s
    ensures Without(s, k) == s
  {
    if s != [] {
      WithoutAbsent(s[1..], k);
      assert s == [s[0]] + s[1..];
    }
  }

  /** The tail of a duplicate-free order is duplicate-free and does not hold its head. */
  lemma DistinctTail(s: seq<string>)
    requires s != []
    ensures Distinct(s) ==> Distinct(s[1..]) && s[0] !in s[1..]
    ensures Distinct(s[1..]) && s[0] !in s[1..] ==> Distinct(s)
  {
    if Distinct(s[1..]) && s[0] !in s[1..] {
      forall i, j | 0 <= i < j < |s| ensures s[i] != s[j] {
        if i > 0 {
          assert s[i] == s[1..][i - 1] && s[j] == s[1..][j - 1];
        } else {
          assert s[j] in s[1..];
        }
      }
    }
  }

  /** Taking out the id at position p of a duplicate-free order closes the gap and moves nothing else. */
  lemma {:induction false} WithoutAt(s: seq<string>, p: nat)
    requires Distinct(s) && p < |s|
    ensures Without(s, s[p]) == s[..p] + s[p + 1..]
  {
    DistinctTail(s);
    var tail := s[1..];
    if p == 0 {
      WithoutAbsent(tail, s[0]);
    } else {
      var k := s[p];
      assert s[0] != k && tail[p - 1] == k;
      WithoutAt(tail, p - 1);
      assert s[..p] == [s[0]] + tail[..p - 1];
      assert s[p + 1..] == tail[p..];
    }
  }

  /** A duplicate-free order has as many ids as it has positions. */
  lemma {:induction false} DistinctCard(s: seq<string>)
    requires Distinct(s)
    ensures |set x | x in s| == |s|
  {
    if s != [] {
      DistinctTail(s);
      DistinctCard(s[1..]);
      assert (set x | x in s) == (set x | x in s[1..]) + {s[0]};
    }
  }

  /** Appending an id that is not yet in a duplicate-free order keeps it duplicate-free. */
  lemma DistinctSnoc(s: seq<string>, k: string)
    requires Distinct(s) && k !in s
    ensures Distinct(s + [k])
  {
  }

  /** The number of entries equals the length of the recency order. */
  lemma SizeIsOrderLength(c: Lru, maxSize: int)
    requires Inv(c, maxSize)
    ensures |c.vals| == |c.order| <= maxSize
  {
    DistinctCard(c.order);
    assert c.vals.Keys == set x | x in c.order;
  }

  /** LinkedHashMap.put in access order: insert or replace k and make it most recent. */
  function Put(c: Lru, k: string, e: Entity): (p: Lru)
    ensures k in p.vals && p.vals[k] == e && |p.order| > 0 && p.order[|p.order| - 1] == k
    ensures p.vals.Keys == c.vals.Keys + {k}
  {
    Lru(Without(c.order, k) + [k], c.vals[k := e])
  }

  /** LinkedHashMap.get of a present key in access order: k becomes most recent. */
  function Touch(c: Lru, k: string): (t: Lru)
    ensures t.vals == c.vals && |t.order| > 0 && t.order[|t.order| - 1] == k
  {
    Lru(Without(c.order, k) + [k], c.vals)
  }

  /** LinkedHashMap.remove: k leaves both the order and the table. */
  function Delete(c: Lru, k: string): (d: Lru)
    ensures k !in d.vals && d.vals.Keys == c.vals.Keys - {k}
  {
    Lru(Without(c.order, k), c.vals - {k})
  }

  /** A put keeps the map well-formed, grows it by one exactly when the id is new, and puts the id last. */
  lemma PutWellFormed(c: Lru, k: string, e: Entity)
    requires WellFormed(c) && e.id == Some(k)
    ensures var p := Put(c, k, e);
      && WellFormed(p)
      && |p.order| == |c.order| + (if k in c.vals then 0 else 1)
      && p.order[|p.order| - 1] == k
  {
    WithoutFacts(c.order, k);
    DistinctSnoc(Without(c.order, k), k);
  }

  /** A hit keeps the map well-formed and its size, and puts the id last. */
  lemma TouchWellFormed(c: Lru, k: string)
    requires WellFormed(c) && k in c.vals
    ensures var t := Touch(c, k);
      && WellFormed(t)
      && |t.order| == |c.order|
      && t.order[|t.order| - 1] == k
  {
    WithoutFacts(c.order, k);
    DistinctSnoc(Without(c.order, k), k);
  }

  /** A remove keeps the map well-formed and shrinks it by one exactly when the id was there. */
  lemma DeleteWellFormed(c: Lru, k: string)
    requires WellFormed(c)
    ensures var d := Delete(c, k);
      && WellFormed(d)
      && |d.order| == |c.order| - (if k in c.vals then 1 else 0)
      && k !in d.vals
  {
    WithoutFacts(c.order, k);
  }

  /** The in-memory effect of an add: the new cache and the entry evicted from it, if any. */
  datatype Admission = Admission(cache: Lru, evicted: Option<Entity>)

  /**
   * add without its store write: put the entity under its id, and when the map
   * then holds more than maxSize entries, remove its eldest entry and hand it back.
   */
  function Admit(c: Lru, e: Entity, maxSize: int): (a: Admission)
    requires Inv(c, maxSize) && e.id.Some?
    ensures Inv(a.cache, maxSize)
    ensures e.id.value in a.cache.vals && a.cache.vals[e.id.value] == e
    ensures a.cache.order[|a.cache.order| - 1] == e.id.value
    ensures a.evicted.Some? ==> a.evicted.value.id.Some? && a.evicted.value.id.value !in a.cache.vals
  {
    var k := e.id.value;
    var p := Put(c, k, e);
    PutWellFormed(c, k, e);
    if |p.order| > maxSize then
      EvictFront(p, k, maxSize);
      Admission(Delete(p, p.order[0]), Some(p.vals[p.order[0]]))
    else
      Admission(p, None)
  }

  /** Dropping the front of an order one over capacity leaves a full cache whose newest id is kept. */
  lemma EvictFront(p: Lru, k: string, maxSize: int)
    requires WellFormed(p) && 0 < maxSize && |p.order| == maxSize + 1
    requires p.order[maxSize] == k && k in p.vals
    ensures p.order[0] in p.vals && p.order[0] != k
    ensures p.vals[p.order[0]].id == Some(p.order[0])
    ensures var d := Delete(p, p.order[0]);
      && Inv(d, maxSize) && d.order == p.order[1..] && |d.order| == maxSize
      && d.order[maxSize - 1] == k && k in d.vals && d.vals[k] == p.vals[k]
      && p.order[0] !in d.vals
  {
    var eldest := p.order[0];
    assert eldest != k;
    DeleteWellFormed(p, eldest);
    WithoutAt(p.order, 0);
  }

  /**
   * An add evicts exactly when its id is new and the cache is full, and then it
   * evicts the least recently used entry: the front of the old order.
   */
  lemma AdmitEvictsLeastRecent(c: Lru, e: Entity, maxSize: int)
    requires Inv(c, maxSize) && e.id.Some?
    ensures var a := Admit(c, e, maxSize);
      && (a.evicted.Some? <==> e.id.value !in c.vals && |c.order| == maxSize)
      && (a.evicted.Some? ==>
            && a.evicted.value == c.vals[c.order[0]]
            && a.cache.order == c.order[1..] + [e.id.value]
            && a.cache.vals == (c.vals - {c.order[0]})[e.id.value := e])
      && (a.evicted.None? ==> a.cache == Put(c, e.id.value, e))
  {
    if e.id.value !in c.vals && |c.order| == maxSize {
      AdmitFullEvicts(c, e, maxSize);
    } else {
      AdmitRoomNoEviction(c, e, maxSize);
    }
  }

  /** A new id added to a full cache pushes out the front of the order. */
  lemma AdmitFullEvicts(c: Lru, e: Entity, maxSize: int)
    requires Inv(c, maxSize) && e.id.Some?
    requires e.id.value !in c.vals && |c.order| == maxSize
    ensures var a := Admit(c, e, maxSize);
      && a.evicted == Some(c.vals[c.order[0]])
      && a.cache.order == c.order[1..] + [e.id.value]
      && a.cache.vals == (c.vals - {c.order[0]})[e.id.value := e]
  {
    var k := e.id.value;
    var p := Put(c, k, e);
    var eldest := c.order[0];
    assert p.order == c.order + [k] by {
      WithoutAbsent(c.order, k);
    }
    assert eldest != k;
    assert Without(p.order, eldest) == c.order[1..] + [k] by {
      DistinctSnoc(c.order, k);
      WithoutAt(p.order, 0);
      assert p.order[1..] == c.order[1..] + [k];
    }
    assert p.vals - {eldest} == (c.vals - {eldest})[k := e];
  }

  /** An add that refreshes a cached id, or finds room, evicts nothing. */
  lemma AdmitRoomNoEviction(c: Lru, e: Entity, maxSize: int)
    requires Inv(c, maxSize) && e.id.Some?
    requires e.id.value in c.vals || |c.order| < maxSize
    ensures Admit(c, e, maxSize) == Admission(Put(c, e.id.value, e), None)
  {
    PutWellFormed(c, e.id.value, e);
  }

  /**
   * Adding an id that is already cached replaces its entry, moves it to most
   * recent, keeps the other ids in order and evicts nothing.
   */
  lemma AdmitCachedRefreshes(c: Lru, e: Entity, maxSize: int, p: nat)
    requires Inv(c, maxSize) && e.id.Some?
    requires p < |c.order| && c.order[p] == e.id.value
    ensures var a := Admit(c, e, maxSize);
      && a.evicted == None
      && a.cache.order == c.order[..p] + c.order[p + 1..] + [e.id.value]
      && a.cache.vals == c.vals[e.id.value := e]
      && |a.cache.order| == |c.order|
  {
    WithoutAt(c.order, p);
  }

  /** A hit moves its id to most recent, keeps the other ids in order and keeps the invariant. */
  lemma TouchMovesToNewest(c: Lru, maxSize: int, p: nat)
    requires Inv(c, maxSize) && p < |c.order|
    ensures var t := Touch(c, c.order[p]);
      && Inv(t, maxSize)
      && t.order == c.order[..p] + c.order[p + 1..] + [c.order[p]]
      && t.vals == c.vals
  {
    WithoutAt(c.order, p);
  }

  /** Removing a cached id keeps the invariant and leaves the other ids in their order. */
  lemma DeleteKeepsOrder(c: Lru, maxSize: int, p: nat)
    requires Inv(c, maxSize) && p < |c.order|
    ensures var d := Delete(c, c.order[p]);
      && Inv(d, maxSize)
      && d.order == c.order[..p] + c.order[p + 1..]
      && c.order[p] !in d.vals
  {
    WithoutAt(c.order, p);
  }

  /** A hit keeps the cache invariant. */
  lemma TouchKeepsInv(c: Lru, maxSize: int, k: string)
    requires Inv(c, maxSize) && k in c.vals
    ensures Inv(Touch(c, k), maxSize)
  {
    TouchWellFormed(c, k);
  }

  /** Removing an id keeps the cache invariant. */
  lemma DeleteKeepsInv(c: Lru, maxSize: int, k: string)
    requires Inv(c, maxSize)
    ensures Inv(Delete(c, k), maxSize)
  {
    DeleteWellFormed(c, k);
  }

  /** The cache invariant holds of an empty cache with any positive capacity. */
  lemma EmptyInv(maxSize: int)
    requires 0 < maxSize
    ensures Inv(Empty, maxSize)
  {
  }
}
