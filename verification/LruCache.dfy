/** The least-recently-used cache: a list of entries, most recent first, and a
    map from keys to list nodes (slave/util/lru_cache.h). */
module LruCache {
  import opened Wrappers

  const MAX_CACHE_ITEM_COUNT: nat := 10240

  // ---------------------------------------------------------------- recency lists

  ghost predicate Distinct<T>(s: seq<T>) {
    forall i, j | 0 <= i < j < |s| :: s[i] != s[j]
  }

  /** The list without the (first) occurrence of x. */
  function Remove<T(==)>(s: seq<T>, x: T): (r: seq<T>) {
    if s == [] then [] else if s[0] == x then s[1..] else [s[0]] + Remove(s[1..], x)
  }

  function MoveToFront<T(==)>(s: seq<T>, x: T): (r: seq<T>) {
    [x] + Remove(s, x)
  }

  function Take<T>(s: seq<T>, n: nat): (r: seq<T>) {
    if |s| <= n then s else s[..n]
  }

  lemma RemoveCons<T>(a: T, t: seq<T>, x: T)
    ensures Remove([a] + t, x) == if a == x then t else [a] + Remove(t, x)
  {
    assert ([a] + t)[1..] == t;
  }

  lemma {:induction false} RemoveFacts<T>(s: seq<T>, x: T)
    requires Distinct(s)
    ensures Distinct(Remove(s, x))
    ensures forall y :: y in Remove(s, x) <==> y in s && y != x
    ensures |Remove(s, x)| == if x in s then |s| - 1 else |s|
    ensures x !in s ==> Remove(s, x) == s
  {
    if s != [] {
      var a, t := s[0], s[1..];
      assert s == [a] + t && a !in t;
      RemoveFacts(t, x);
      RemoveCons(a, t, x);
    }
  }

  lemma TakeCons<T>(a: T, t: seq<T>, n: nat)
    ensures Take([a] + t, n) == if n == 0 then [] else [a] + Take(t, n - 1)
  {
  }

  /** Moving an element to the front of a list and cutting the list commute. */
  lemma {:induction false} RemoveTake<T>(s: seq<T>, x: T, n: nat)
    ensures Take(Remove(s, x), n) == Take(Remove(Take(s, n + 1), x), n)
  {
    hide Take, Remove;
    if s == [] {
      TakeAll(s, n + 1);
    } else {
      var a, t := s[0], s[1..];
      assert s == [a] + t;
      TakeCons(a, t, n + 1);
      RemoveCons(a, t, x);
      RemoveCons(a, Take(t, n), x);
      if a == x {
        TakeTwice(t, n);
      } else {
        TakeCons(a, Remove(t, x), n);
        TakeCons(a, Remove(Take(t, n), x), n);
        if n > 0 {
          RemoveTake(t, x, n - 1);
        }
      }
    }
  }

  lemma TakeAll<T>(s: seq<T>, n: nat)
    requires |s| <= n
    ensures Take(s, n) == s
  {
  }

  lemma TakeTwice<T>(s: seq<T>, n: nat)
    ensures Take(Take(s, n), n) == Take(s, n)
  {
  }

  lemma TouchTake<T>(s: seq<T>, x: T, n: nat)
    requires n > 0
    ensures Take(MoveToFront(s, x), n) == Take(MoveToFront(Take(s, n), x), n)
  {
    hide Take, Remove;
    RemoveTake(s, x, n - 1);
    TakeCons(x, Remove(s, x), n);
    TakeCons(x, Remove(Take(s, n), x), n);
  }

  // ---------------------------------------------------------------- order of last use

  /** Keys in order of last use, most recent first. */
  ghost function Recent<K(!new)>(uses: seq<K>): (r: seq<K>) {
    if uses == [] then [] else MoveToFront(Recent(uses[..|uses| - 1]), uses[|uses| - 1])
  }

  /** Position of the last use of k, or -1. */
  ghost function LastUse<K(!new)>(uses: seq<K>, k: K): (i: int)
    ensures -1 <= i < |uses|
  {
    if uses == [] then -1
    else if uses[|uses| - 1] == k then |uses| - 1
    else LastUse(uses[..|uses| - 1], k)
  }

  lemma {:induction false} LastUseFacts<K(!new)>(uses: seq<K>, k: K)
    ensures LastUse(uses, k) >= 0 <==> k in uses
    ensures LastUse(uses, k) >= 0 ==> uses[LastUse(uses, k)] == k
    ensures forall q | LastUse(uses, k) < q < |uses| :: uses[q] != k
  {
    if uses != [] {
      var n := |uses| - 1;
      LastUseFacts(uses[..n], k);
      assert uses == uses[..n] + [uses[n]];
    }
  }

  lemma {:induction false} LastUseSnoc<K(!new)>(init: seq<K>, k: K, x: K)
    ensures LastUse(init + [k], x) == if x == k then |init| else LastUse(init, x)
  {
    assert (init + [k])[..|init|] == init;
  }

  lemma RecentSnoc<K(!new)>(init: seq<K>, k: K)
    ensures Recent(init + [k]) == MoveToFront(Recent(init), k)
  {
    assert (init + [k])[..|init|] == init;
  }

  lemma NoUseNoKey<K(!new)>()
    ensures Recent<K>([]) == []
  {
  }

  /** Recent() lists exactly the keys used, each once. */
  lemma {:induction false} RecentListsUsedKeys<K(!new)>(uses: seq<K>)
    ensures Distinct(Recent(uses))
    ensures forall k :: k in Recent(uses) <==> k in uses
  {
    if uses != [] {
      var init, k := uses[..|uses| - 1], uses[|uses| - 1];
      assert uses == init + [k];
      RecentListsUsedKeys(init);
      RemoveFacts(Recent(init), k);
    }
  }

  /** Recent() runs from the latest use to the earliest. */
  lemma {:induction false} RecentIsByLastUse<K(!new)>(uses: seq<K>, i: nat, j: nat)
    requires i < j < |Recent(uses)|
    ensures LastUse(uses, Recent(uses)[i]) > LastUse(uses, Recent(uses)[j])
  {
    hide Recent, LastUse, Remove, Distinct;
    NoUseNoKey<K>();
    var init, k := uses[..|uses| - 1], uses[|uses| - 1];
    assert uses == init + [k];
    RecentSnoc(init, k);
    RecentListsUsedKeys(init);
    var r := Recent(init);
    var rest := Remove(r, k);
    RemoveFacts(r, k);
    var y := rest[j - 1];
    assert y in rest;
    LastUseSnoc(init, k, y);
    if i == 0 {
      LastUseFacts(init, y);
      LastUseSnoc(init, k, k);
    } else {
      var x := rest[i - 1];
      assert x in rest;
      LastUseSnoc(init, k, x);
      RemoveIndexFacts(r, k, i - 1, j - 1);
      RecentIsByLastUse(init, RemoveIndex(r, k, i - 1), RemoveIndex(r, k, j - 1));
    }
  }

  /** Where element i of Remove(s, x) stood in s. */
  ghost function RemoveIndex<T>(s: seq<T>, x: T, i: nat): (a: nat) {
    if s == [] then i else if s[0] == x then i + 1 else if i == 0 then 0 else 1 + RemoveIndex(s[1..], x, i - 1)
  }

  lemma {:induction false} RemoveIndexFacts<T>(s: seq<T>, x: T, i: nat, j: nat)
    requires i < j < |Remove(s, x)|
    ensures RemoveIndex(s, x, i) < RemoveIndex(s, x, j) < |s|
    ensures s[RemoveIndex(s, x, i)] == Remove(s, x)[i] && s[RemoveIndex(s, x, j)] == Remove(s, x)[j]
  {
    if s[0] != x {
      if i > 0 {
        RemoveIndexFacts(s[1..], x, i - 1, j - 1);
      } else if j > 1 {
        RemoveIndexFacts(s[1..], x, 0, j - 1);
      } else {
        RemoveIndexFirst(s[1..], x);
      }
    }
  }

  lemma RemoveIndexFirst<T>(s: seq<T>, x: T)
    requires |Remove(s, x)| > 0
    ensures RemoveIndex(s, x, 0) < |s| && s[RemoveIndex(s, x, 0)] == Remove(s, x)[0]
  {
  }

  ghost function KeySet<K(!new)>(s: seq<K>): (r: set<K>) {
    set x | x in s
  }

  lemma {:induction false} DistinctCount<K(!new)>(s: seq<K>)
    requires Distinct(s)
    ensures |KeySet(s)| == |s|
  {
    if s != [] {
      var n := |s| - 1;
      DistinctCount(s[..n]);
      assert s == s[..n] + [s[n]];
      assert KeySet(s) == KeySet(s[..n]) + {s[n]};
    }
  }

  /** The keys listed before position p are those used since the key at p was. */
  lemma UsedSince<K(!new)>(uses: seq<K>, p: nat)
    requires p < |Recent(uses)|
    ensures var k := Recent(uses)[p];
            0 <= LastUse(uses, k) < |uses| &&
            |KeySet(uses[LastUse(uses, k) + 1..])| == p
  {
    hide Recent, LastUse;
    var r := Recent(uses);
    RecentListsUsedKeys(uses);
    assert r[p] in r;
    LastUseFacts(uses, r[p]);
    var since := uses[LastUse(uses, r[p]) + 1..];
    forall x
      ensures x in r[..p] <==> x in since
    {
      SinceMember(uses, p, x);
    }
    assert KeySet(r[..p]) == KeySet(since);
    DistinctCount(r[..p]);
  }

  lemma SinceMember<K(!new)>(uses: seq<K>, p: nat, x: K)
    requires p < |Recent(uses)|
    requires 0 <= LastUse(uses, Recent(uses)[p]) < |uses|
    ensures x in Recent(uses)[..p] <==> x in uses[LastUse(uses, Recent(uses)[p]) + 1..]
  {
    hide Recent, LastUse;
    var r := Recent(uses);
    var last := LastUse(uses, r[p]);
    LastUseFacts(uses, x);
    if x in r[..p] {
      var i :| 0 <= i < p && r[i] == x;
      RecentIsByLastUse(uses, i, p);
      assert uses[last + 1..][LastUse(uses, x) - last - 1] == x;
    }
    if x in uses[last + 1..] {
      var q :| last < q < |uses| && uses[q] == x;
      RecentListsUsedKeys(uses);
      assert x in r;
      var i :| 0 <= i < |r| && r[i] == x;
      if i > p {
        RecentIsByLastUse(uses, p, i);
      }
      assert i < p;
      assert r[..p][i] == x;
    }
  }

  // ---------------------------------------------------------------- the cache as a value

  /** Cached keys, most recently used first, and their values. */
  datatype Cache<K, V> = Cache(keys: seq<K>, values: map<K, V>)

  datatype CacheOp<K, V> = Put(key: K, value: V) | Use(key: K)

  ghost function Apply<K(!new), V>(c: Cache<K, V>, op: CacheOp<K, V>, max: nat): (r: Cache<K, V>) {
    match op
    case Put(k, v) =>
      var keys := Take(MoveToFront(c.keys, k), max);
      var values := c.values[k := v];
      Cache(keys, map x | x in values && x in keys :: values[x])
    case Use(k) =>
      if k in c.values then c.(keys := MoveToFront(c.keys, k)) else c
  }

  ghost function Run<K(!new), V>(ops: seq<CacheOp<K, V>>, max: nat): (r: Cache<K, V>) {
    if ops == [] then Cache([], map[]) else Apply(Run(ops[..|ops| - 1], max), ops[|ops| - 1], max)
  }

  /** The keys used by a run: every put, and every access that found its key. */
  ghost function Uses<K(!new), V>(ops: seq<CacheOp<K, V>>, max: nat): (r: seq<K>) {
    if ops == [] then [] else
      var init, op := ops[..|ops| - 1], ops[|ops| - 1];
      if op.Put? || op.key in Run(init, max).values then Uses(init, max) + [op.key] else Uses(init, max)
  }

  ghost function LastPut<K(!new), V>(ops: seq<CacheOp<K, V>>, k: K): (r: Option<V>) {
    if ops == [] then None else
      var op := ops[|ops| - 1];
      if op.Put? && op.key == k then Some(op.value) else LastPut(ops[..|ops| - 1], k)
  }

  lemma InTake<T>(s: seq<T>, x: T, n: nat)
    ensures x in Take(s, n) ==> x in s
  {
  }

  ghost predicate WellKept<K(!new), V>(c: Cache<K, V>, ops: seq<CacheOp<K, V>>, max: nat) {
    && c.keys == Take(Recent(Uses(ops, max)), max)
    && (forall k | k in c.keys :: k in c.values)
    && (forall k | k in c.values :: k in c.keys)
    && (forall k | k in c.values :: LastPut(ops, k) == Some(c.values[k]))
  }

  lemma MoveToFrontKeys<K(!new)>(s: seq<K>, k: K, max: nat)
    requires Distinct(s) && |s| <= max
    ensures k in s ==> |MoveToFront(s, k)| == |s|
    ensures forall x :: x in MoveToFront(s, k) <==> x in s || x == k
  {
    RemoveFacts(s, k);
  }

  lemma TakeKeepsDistinct<K(!new)>(s: seq<K>, n: nat)
    requires Distinct(s)
    ensures Distinct(Take(s, n)) && |Take(s, n)| <= n
  {
  }

  /** A used key that is cached, or put, heads the list; the list stays the most
      recent ones. */
  lemma {:induction false} UseKeepsOrder<K(!new)>(uses: seq<K>, k: K, max: nat)
    requires max > 0
    ensures var keys := Take(Recent(uses), max);
            && Take(Recent(uses + [k]), max) == Take(MoveToFront(keys, k), max)
            && (k in keys ==> Take(MoveToFront(keys, k), max) == MoveToFront(keys, k))
  {
    hide Recent, Take, MoveToFront;
    var keys := Take(Recent(uses), max);
    RecentSnoc(uses, k);
    TouchTake(Recent(uses), k, max);
    RecentListsUsedKeys(uses);
    TakeKeepsDistinct(Recent(uses), max);
    MoveToFrontKeys(keys, k, max);
    if k in keys {
      TakeAll(MoveToFront(keys, k), max);
    }
  }

  /** After any run the cache holds the most recently used keys, each with the value
      put last. */
  lemma {:induction false} CacheKeepsMostRecent<K(!new), V>(ops: seq<CacheOp<K, V>>, max: nat)
    requires max > 0
    ensures WellKept(Run(ops, max), ops, max)
  {
    if ops != [] {
      var init, op := ops[..|ops| - 1], ops[|ops| - 1];
      CacheKeepsMostRecent(init, max);
      ApplyKeepsMostRecent(Run(init, max), ops, max);
    }
  }

  lemma ApplyKeepsMostRecent<K(!new), V>(c: Cache<K, V>, ops: seq<CacheOp<K, V>>, max: nat)
    requires max > 0 && ops != [] && c == Run(ops[..|ops| - 1], max)
    requires WellKept(c, ops[..|ops| - 1], max)
    ensures WellKept(Apply(c, ops[|ops| - 1], max), ops, max)
  {
    hide Recent, Take, MoveToFront, Run;
    var init, op := ops[..|ops| - 1], ops[|ops| - 1];
    var uses := Uses(init, max);
    UseKeepsOrder(uses, op.key, max);
    RecentListsUsedKeys(uses);
    TakeKeepsDistinct(Recent(uses), max);
    MoveToFrontKeys(c.keys, op.key, max);
    forall x
      ensures x in Take(MoveToFront(c.keys, op.key), max) ==> x in c.keys || x == op.key
    {
      InTake(MoveToFront(c.keys, op.key), x, max);
    }
    forall x
      ensures x in MoveToFront(c.keys, op.key) <==> x in c.keys || x == op.key
    {
    }
    var after := Apply(c, op, max);
    assert Uses(ops, max) == if op.Put? || op.key in c.values then uses + [op.key] else uses;
    assert after.keys == Take(Recent(Uses(ops, max)), max);
    assert forall k | k in after.keys :: k in after.values;
    assert forall k | k in after.values :: k in after.keys;
    assert forall k | k in after.values :: LastPut(ops, k) == Some(after.values[k]);
  }

  lemma TakeMember<T>(s: seq<T>, p: nat, n: nat)
    requires Distinct(s) && p < |s|
    ensures s[p] in Take(s, n) <==> p < n
  {
    if p < n {
      assert Take(s, n)[p] == s[p];
    }
  }

  /** A key is cached exactly when it was used and fewer than max other keys were
      used since. */
  lemma {:induction false} CachedIff<K(!new), V>(ops: seq<CacheOp<K, V>>, max: nat, k: K)
    requires max > 0
    ensures var uses := Uses(ops, max);
            k in Run(ops, max).values <==>
            k in uses && |KeySet(uses[LastUse(uses, k) + 1..])| < max
  {
    hide Recent, Take, Run, Uses, LastUse, KeySet;
    var uses := Uses(ops, max);
    CacheKeepsMostRecent(ops, max);
    RecentListsUsedKeys(uses);
    LastUseFacts(uses, k);
    InTake(Recent(uses), k, max);
    if k in uses {
      assert k in Recent(uses);
      var p :| 0 <= p < |Recent(uses)| && Recent(uses)[p] == k;
      UsedSince(uses, p);
      TakeMember(Recent(uses), p, max);
    }
  }

  // ---------------------------------------------------------------- list and index

  /** A list iterator: it names a list node and stays valid while nodes move. */
  datatype Node = Node(id: nat)

  datatype Table<K, V> = Table(list: seq<Node>, nodes: map<Node, (K, V)>, index: map<K, Node>)

  /** Keys of the listed nodes, in list order. */
  ghost function KeysOf<K, V>(list: seq<Node>, nodes: map<Node, (K, V)>): (r: seq<K>)
    requires forall n | n in list :: n in nodes
    ensures |r| == |list|
    ensures forall i | 0 <= i < |list| :: r[i] == nodes[list[i]].0
  {
    if list == [] then [] else [nodes[list[0]].0] + KeysOf(list[1..], nodes)
  }

  lemma {:induction false} KeysOfRemove<K, V>(list: seq<Node>, nodes: map<Node, (K, V)>, n: Node, k: K)
    requires forall m | m in list :: m in nodes
    requires forall m | m in list :: nodes[m].0 == k <==> m == n
    ensures forall m | m in Remove(list, n) :: m in nodes
    ensures KeysOf(Remove(list, n), nodes) == Remove(KeysOf(list, nodes), k)
  {
    if list != [] {
      var rest := list[1..];
      KeysOfRemove(rest, nodes, n, k);
      RemoveCons(nodes[list[0]].0, KeysOf(rest, nodes), k);
      if list[0] != n {
        assert Remove(list, n)[1..] == Remove(rest, n);
      }
    }
  }

  /** The index names, for every listed node, that node by its key, and nothing else. */
  ghost predicate Indexed<K, V>(list: seq<Node>, nodes: map<Node, (K, V)>, index: map<K, Node>) {
    && Distinct(list)
    && (forall n | n in nodes :: n in list)
    && (forall n | n in list :: n in nodes)
    && (forall n | n in nodes :: nodes[n].0 in index && index[nodes[n].0] == n)
    && (forall k | k in index :: index[k] in nodes && nodes[index[k]].0 == k)
  }

  ghost function ValuesOf<K, V>(nodes: map<Node, (K, V)>, index: map<K, Node>): (r: map<K, V>)
    requires forall k | k in index :: index[k] in nodes
  {
    map k | k in index :: nodes[index[k]].1
  }

  lemma IndexedKeys<K, V>(list: seq<Node>, nodes: map<Node, (K, V)>, index: map<K, Node>)
    requires Indexed(list, nodes, index)
    ensures Distinct(KeysOf(list, nodes))
    ensures forall k | k in KeysOf(list, nodes) :: k in index
    ensures forall k | k in index :: k in KeysOf(list, nodes)
  {
    hide KeysOf;
    var keys := KeysOf(list, nodes);
    forall i, j | 0 <= i < j < |keys|
      ensures keys[i] != keys[j]
    {
      assert list[i] in nodes && list[j] in nodes;
    }
    forall k | k in keys
      ensures k in index
    {
      var i :| 0 <= i < |keys| && keys[i] == k;
      assert list[i] in nodes;
    }
    forall k | k in index
      ensures k in KeysOf(list, nodes)
    {
      var i :| 0 <= i < |list| && list[i] == index[k];
      assert KeysOf(list, nodes)[i] == k;
    }
  }

  lemma KeysOfFrame<K, V>(list: seq<Node>, nodes: map<Node, (K, V)>, other: map<Node, (K, V)>)
    requires forall m | m in list :: m in nodes && m in other && nodes[m] == other[m]
    ensures KeysOf(list, nodes) == KeysOf(list, other)
  {
    hide Distinct;
    assert forall i | 0 <= i < |list| :: KeysOf(list, nodes)[i] == KeysOf(list, other)[i];
  }

  lemma {:induction false} UnlinkKeepsIndexed<K, V>(list: seq<Node>, nodes: map<Node, (K, V)>, index: map<K, Node>, n: Node)
    requires Indexed(list, nodes, index) && n in nodes
    ensures Indexed(Remove(list, n), nodes - {n}, index - {nodes[n].0})
  {
    hide Remove;
    RemoveFacts(list, n);
  }

  /** Erasing a node and its index entry removes one key. */
  lemma Unlink<K, V>(list: seq<Node>, nodes: map<Node, (K, V)>, index: map<K, Node>, n: Node)
    requires Indexed(list, nodes, index) && n in nodes
    ensures var (list', nodes', index') := (Remove(list, n), nodes - {n}, index - {nodes[n].0});
            && Indexed(list', nodes', index')
            && KeysOf(list', nodes') == Remove(KeysOf(list, nodes), nodes[n].0)
            && ValuesOf(nodes', index') == ValuesOf(nodes, index) - {nodes[n].0}
  {
    hide Remove, KeysOf, Distinct;
    UnlinkKeepsIndexed(list, nodes, index, n);
    KeysOfRemove(list, nodes, n, nodes[n].0);
    KeysOfFrame(Remove(list, n), nodes, nodes - {n});
  }

  lemma KeysOfCons<K, V>(n: Node, list: seq<Node>, nodes: map<Node, (K, V)>)
    requires n in nodes && forall m | m in list :: m in nodes
    ensures KeysOf([n] + list, nodes) == [nodes[n].0] + KeysOf(list, nodes)
  {
    assert ([n] + list)[1..] == list;
  }

  /** Pushing a node for a new key puts that key first. */
  lemma Link<K, V>(list: seq<Node>, nodes: map<Node, (K, V)>, index: map<K, Node>, n: Node, k: K, v: V)
    requires Indexed(list, nodes, index) && n !in nodes && k !in index
    ensures var (list', nodes', index') := ([n] + list, nodes[n := (k, v)], index[k := n]);
            && Indexed(list', nodes', index')
            && KeysOf(list', nodes') == [k] + KeysOf(list, nodes)
            && ValuesOf(nodes', index') == ValuesOf(nodes, index)[k := v]
  {
    hide KeysOf;
    var nodes' := nodes[n := (k, v)];
    KeysOfFrame(list, nodes, nodes');
    KeysOfCons(n, list, nodes');
  }

  lemma {:induction false} MoveKeepsIndexed<K, V>(list: seq<Node>, nodes: map<Node, (K, V)>, index: map<K, Node>, n: Node)
    requires Indexed(list, nodes, index) && n in nodes
    ensures Indexed(MoveToFront(list, n), nodes, index)
    ensures KeysOf(MoveToFront(list, n), nodes) == MoveToFront(KeysOf(list, nodes), nodes[n].0)
    ensures |MoveToFront(list, n)| == |list|
  {
    hide Remove, KeysOf;
    RemoveFacts(list, n);
    KeysOfRemove(list, nodes, n, nodes[n].0);
    KeysOfCons(n, Remove(list, n), nodes);
  }

  lemma {:induction false} RemoveLast<T>(s: seq<T>)
    requires s != [] && Distinct(s)
    ensures Remove(s, s[|s| - 1]) == s[..|s| - 1]
  {
    if |s| > 1 {
      RemoveLast(s[1..]);
    }
  }

  lemma {:induction false} IndexSize<K, V>(list: seq<Node>, nodes: map<Node, (K, V)>, index: map<K, Node>)
    requires Indexed(list, nodes, index)
    ensures |index| == |list|
  {
    hide Indexed, Remove;
    if list == [] {
      NothingIndexed(nodes, index);
    } else {
      var n := list[0];
      FirstIndexed(list, nodes, index);
      UnlinkKeepsIndexed(list, nodes, index, n);
      IndexSize(list[1..], nodes - {n}, index - {nodes[n].0});
      assert index == (index - {nodes[n].0})[nodes[n].0 := n];
    }
  }

  lemma NothingIndexed<K, V>(nodes: map<Node, (K, V)>, index: map<K, Node>)
    requires Indexed([], nodes, index)
    ensures index == map[]
  {
    hide Distinct;
    assert forall k | k in index :: index[k] in nodes;
  }

  lemma FirstIndexed<K, V>(list: seq<Node>, nodes: map<Node, (K, V)>, index: map<K, Node>)
    requires list != [] && Indexed(list, nodes, index)
    ensures list[0] in nodes && nodes[list[0]].0 in index && index[nodes[list[0]].0] == list[0]
    ensures Remove(list, list[0]) == list[1..]
  {
  }

  lemma Evicted<K(!new), V>(keys: seq<K>, values: map<K, V>, max: nat)
    requires Distinct(keys) && |keys| == max + 1
    requires forall k | k in keys :: k in values
    requires forall k | k in values :: k in keys
    ensures Take(keys, max) == keys[..max]
    ensures values - {keys[max]} == map x | x in values && x in Take(keys, max) :: values[x]
  {
    assert keys == keys[..max] + [keys[max]];
  }

  lemma PushNew<K, V>(list: seq<Node>, nodes: map<Node, (K, V)>, index: map<K, Node>, n: Node, k: K, v: V)
    requires Indexed(list, nodes, index) && n !in nodes && k !in index
    ensures var (list', nodes', index') := ([n] + list, nodes[n := (k, v)], index[k := n]);
            && Indexed(list', nodes', index')
            && KeysOf(list', nodes') == MoveToFront(KeysOf(list, nodes), k)
            && ValuesOf(nodes', index') == ValuesOf(nodes, index)[k := v]
  {
    hide KeysOf, Remove, ValuesOf, Distinct;
    Link(list, nodes, index, n, k, v);
    IndexedKeys(list, nodes, index);
    RemoveFacts(KeysOf(list, nodes), k);
  }

  lemma PushHeld<K, V>(list: seq<Node>, nodes: map<Node, (K, V)>, index: map<K, Node>, n: Node, k: K, v: V)
    requires Indexed(list, nodes, index) && n !in nodes && k in index
    ensures var (list', nodes', index') :=
              (Remove([n] + list, index[k]), nodes[n := (k, v)] - {index[k]}, index[k := n]);
            && Indexed(list', nodes', index')
            && KeysOf(list', nodes') == MoveToFront(KeysOf(list, nodes), k)
            && ValuesOf(nodes', index') == ValuesOf(nodes, index)[k := v]
  {
    hide KeysOf, Remove, ValuesOf, Distinct;
    var held := index[k];
    Unlink(list, nodes, index, held);
    Link(Remove(list, held), nodes - {held}, index - {k}, n, k, v);
    RemoveCons(n, list, held);
    assert (index - {k})[k := n] == index[k := n];
    assert nodes[n := (k, v)] - {held} == (nodes - {held})[n := (k, v)];
    assert (ValuesOf(nodes, index) - {k})[k := v] == ValuesOf(nodes, index)[k := v];
  }

  lemma HeldNode<K, V>(list: seq<Node>, nodes: map<Node, (K, V)>, index: map<K, Node>, k: K)
    requires Indexed(list, nodes, index) && k in index
    ensures index[k] in nodes && nodes[index[k]].0 == k
  {
  }

  lemma PutSize<K, V>(list: seq<Node>, nodes: map<Node, (K, V)>, index: map<K, Node>, k: K)
    requires Indexed(list, nodes, index)
    ensures |MoveToFront(KeysOf(list, nodes), k)| <= |list| + 1
  {
    hide Remove, KeysOf, Distinct;
    IndexedKeys(list, nodes, index);
    RemoveFacts(KeysOf(list, nodes), k);
  }

  lemma NotEvicted<K, V>(keys: seq<K>, values: map<K, V>, max: nat)
    requires |keys| <= max && forall k | k in values :: k in keys
    ensures Take(keys, max) == keys
    ensures values == map x | x in values && x in Take(keys, max) :: values[x]
  {
  }

  lemma {:induction false} Evict<K(!new), V>(list: seq<Node>, nodes: map<Node, (K, V)>, index: map<K, Node>, max: nat)
    requires Indexed(list, nodes, index) && |list| == max + 1
    ensures list[max] in nodes
    ensures var (list', nodes', index') :=
              (list[..max], nodes - {list[max]}, index - {nodes[list[max]].0});
            var keys, values := KeysOf(list, nodes), ValuesOf(nodes, index);
            && Indexed(list', nodes', index')
            && KeysOf(list', nodes') == Take(keys, max)
            && ValuesOf(nodes', index') == map x | x in values && x in Take(keys, max) :: values[x]
  {
    hide KeysOf, Remove;
    Unlink(list, nodes, index, list[max]);
    RemoveLast(list);
    IndexedKeys(list, nodes, index);
    RemoveLast(KeysOf(list, nodes));
    Evicted(KeysOf(list, nodes), ValuesOf(nodes, index), max);
  }

  /** List, nodes and index after a put, before the size is checked. */
  ghost function Pushed<K, V>(t: Table<K, V>, n: Node, k: K, v: V): (r: Table<K, V>) {
    if k in t.index
    then Table(Remove([n] + t.list, t.index[k]), t.nodes[n := (k, v)] - {t.index[k]}, t.index[k := n])
    else Table([n] + t.list, t.nodes[n := (k, v)], t.index[k := n])
  }

  ghost function Trimmed<K, V>(t: Table<K, V>, max: nat): (r: Table<K, V>)
    requires Indexed(t.list, t.nodes, t.index)
  {
    if |t.list| <= max then t else
      var last := t.list[|t.list| - 1];
      Table(t.list[..|t.list| - 1], t.nodes - {last}, t.index - {t.nodes[last].0})
  }

  ghost function ViewOf<K, V>(t: Table<K, V>): (c: Cache<K, V>)
    requires Indexed(t.list, t.nodes, t.index)
  {
    Cache(KeysOf(t.list, t.nodes), ValuesOf(t.nodes, t.index))
  }

  lemma PushEffect<K, V>(t: Table<K, V>, n: Node, k: K, v: V)
    requires Indexed(t.list, t.nodes, t.index) && n !in t.nodes
    ensures var p := Pushed(t, n, k, v);
            && Indexed(p.list, p.nodes, p.index)
            && ViewOf(p) == Cache(MoveToFront(ViewOf(t).keys, k), ViewOf(t).values[k := v])
            && |p.list| <= |t.list| + 1
            && (forall m | m in p.nodes :: m in t.nodes || m == n)
  {
    hide KeysOf, Remove, ValuesOf, Distinct, Indexed;
    if k in t.index {
      PushHeld(t.list, t.nodes, t.index, n, k, v);
    } else {
      PushNew(t.list, t.nodes, t.index, n, k, v);
    }
    PutSize(t.list, t.nodes, t.index, k);
  }

  lemma TrimEffect<K(!new), V>(t: Table<K, V>, max: nat)
    requires Indexed(t.list, t.nodes, t.index) && |t.list| <= max + 1
    ensures var (p, c) := (Trimmed(t, max), ViewOf(t));
            && Indexed(p.list, p.nodes, p.index) && |p.list| <= max
            && ViewOf(p) == Cache(Take(c.keys, max), map x | x in c.values && x in Take(c.keys, max) :: c.values[x])
            && (forall m | m in p.nodes :: m in t.nodes)
            && (forall m | m in t.list :: m in t.nodes)
  {
    hide KeysOf, Remove, Distinct, Take;
    if |t.list| <= max {
      IndexedKeys(t.list, t.nodes, t.index);
      NotEvicted(ViewOf(t).keys, ViewOf(t).values, max);
    } else {
      Evict(t.list, t.nodes, t.index, max);
    }
  }

  class Lru<K(==, !new), V> {
    var list: seq<Node>
    var nodes: map<Node, (K, V)>
    var index: map<K, Node>
    var maxSize: nat
    var nextNode: nat

    ghost predicate Valid()
      reads this
    {
      && maxSize > 0
      && |list| <= maxSize
      && Indexed(list, nodes, index)
      && (forall n | n in nodes :: n.id < nextNode)
    }

    /** The cache as a value. */
    ghost function View(): (c: Cache<K, V>)
      requires Valid()
      reads this
    {
      ViewOf(Table(list, nodes, index))
    }

    constructor (max: nat)
      ensures Valid() && View() == Cache([], map[])
      ensures maxSize == if max == 0 then 10240 else max
    {
      list, nodes, index, nextNode := [], map[], map[], 0;
      maxSize := if max == 0 then MAX_CACHE_ITEM_COUNT else max;
    }

    /** The part of a put that precedes the size check. */
    method Push(key: K, value: V)
      modifies `list, `nodes, `index, `nextNode
      ensures nextNode == old(nextNode) + 1
      ensures Table(list, nodes, index) == Pushed(old(Table(list, nodes, index)), Node(old(nextNode)), key, value)
    {
      var n := Node(nextNode);
      nextNode := nextNode + 1;
      var held := if key in index then Some(index[key]) else None;
      list, nodes := [n] + list, nodes[n := (key, value)];
      if held.Some? {
        list, nodes := Remove(list, held.value), nodes - {held.value};
        index := index - {key};
      }
      index := index[key := n];
      assert index == old(index)[key := n];
    }

    method Put(key: K, value: V)
      requires Valid()
      modifies this
      ensures Valid() && maxSize == old(maxSize)
      ensures View() == Apply(old(View()), CacheOp.Put(key, value), maxSize)
    {
      hide KeysOf, ValuesOf, Remove, Distinct, ViewOf, Take, Indexed, MoveToFront, Pushed;
      PushEffect(Table(list, nodes, index), Node(nextNode), key, value);
      Push(key, value);
      IndexSize(list, nodes, index);
      TrimEffect(Table(list, nodes, index), maxSize);
      if |index| > maxSize {
        var last := list[|list| - 1];
        index := index - {nodes[last].0};
        list, nodes := list[..|list| - 1], nodes - {last};
      }
    }

    method Find(key: K) returns (value: Option<V>)
      requires Valid()
      modifies this
      ensures Valid() && maxSize == old(maxSize)
      ensures View() == Apply(old(View()), Use(key), maxSize)
      ensures value == if key in old(View()).values then Some(old(View()).values[key]) else None
    {
      hide KeysOf, Remove, Distinct;
      if key !in index {
        return None;
      }
      HeldNode(list, nodes, index, key);
      MoveKeepsIndexed(list, nodes, index, index[key]);
      list := MoveToFront(list, index[key]);
      return Some(nodes[index[key]].1);
    }

    method Exists(key: K) returns (found: bool)
      requires Valid()
      ensures found <==> key in View().values
    {
      found := key in index;
    }

    method Size() returns (n: nat)
      requires Valid()
      ensures n == |View().keys| <= maxSize
    {
      IndexSize(list, nodes, index);
      n := |index|;
    }
  }
}
