/**
 Consistent hashing: the ring of virtual nodes, its stable sort, the binary search and the selection.

 The strategy rebuilds the ring from the healthy backends only, while its design notes promise a clockwise walk
 over the ring of the whole pool that skips unhealthy nodes. `SelectIsClockwiseWalk` proves that the two agree for
 every hash function, collisions included; how few keys a change of the pool can move follows from it.
 */
module ConsistentHash {
  import opened Wrappers

  type Hash32 = x: nat | x < 0x1_0000_0000

  /** What the strategy reads of a backend. */
  datatype Node = Node(id: string, weight: nat)

  datatype Entry = Entry(hash: Hash32, backendId: string)

  // ---------------------------------------------------------------- building the ring

  function Decimal(n: nat): string {
    if n < 10 then ['0' + (n as char)] else Decimal(n / 10) + ['0' + ((n % 10) as char)]
  }

  function VnodeKey(id: string, i: nat): string {
    id + "#vnode-" + Decimal(i)
  }

  function VnodeCount(perWeight: nat, node: Node): nat {
    perWeight * if node.weight == 0 then 1 else node.weight
  }

  /** The first `count` virtual nodes of a backend: raising the count only appends. */
  function Vnodes(h: string -> Hash32, id: string, count: nat): seq<Entry> {
    if count == 0 then [] else Vnodes(h, id, count - 1) + [Entry(h(VnodeKey(id, count - 1)), id)]
  }

  function NodeEntries(h: string -> Hash32, perWeight: nat, node: Node): seq<Entry> {
    Vnodes(h, node.id, VnodeCount(perWeight, node))
  }

  function Entries(h: string -> Hash32, perWeight: nat, nodes: seq<Node>): seq<Entry> {
    if nodes == [] then []
    else
      var last := nodes[|nodes| - 1];
      Entries(h, perWeight, nodes[..|nodes| - 1]) + NodeEntries(h, perWeight, last)
  }

  /** Places e before every entry whose hash is not smaller. */
  function Insert(e: Entry, ring: seq<Entry>): seq<Entry> {
    if ring == [] || e.hash <= ring[0].hash then [e] + ring else [ring[0]] + Insert(e, ring[1..])
  }

  /** The stable sort by hash that Array.prototype.sort performs; see `StableSortIsCorrect`. */
  function StableSort(s: seq<Entry>): seq<Entry> {
    if s == [] then [] else Insert(s[0], StableSort(s[1..]))
  }

  function Ring(h: string -> Hash32, perWeight: nat, nodes: seq<Node>): seq<Entry> {
    StableSort(Entries(h, perWeight, nodes))
  }

  ghost predicate Sorted(ring: seq<Entry>) {
    forall i, j :: 0 <= i < j < |ring| ==> ring[i].hash <= ring[j].hash
  }

  function Filter(s: seq<Entry>, keep: Entry -> bool): seq<Entry> {
    if s == [] then [] else (if keep(s[0]) then [s[0]] else []) + Filter(s[1..], keep)
  }

  function HasHash(hash: Hash32): Entry -> bool {
    (e: Entry) => e.hash == hash
  }

  function In(ids: set<string>): Entry -> bool {
    (e: Entry) => e.backendId in ids
  }

  lemma FilterCons(e: Entry, s: seq<Entry>, keep: Entry -> bool)
    ensures Filter([e] + s, keep) == if keep(e) then [e] + Filter(s, keep) else Filter(s, keep)
  {
    assert ([e] + s)[1..] == s;
  }

  lemma InsertCons(e: Entry, f: Entry, s: seq<Entry>)
    ensures Insert(e, [f] + s) == if e.hash <= f.hash then [e] + ([f] + s) else [f] + Insert(e, s)
  {
    assert ([f] + s)[1..] == s;
  }

  lemma SplitFirst(a: seq<Entry>, b: seq<Entry>)
    requires a != []
    ensures a == [a[0]] + a[1..] && a + b == [a[0]] + (a[1..] + b)
  {
  }

  lemma Associates(a: seq<Entry>, b: seq<Entry>, c: seq<Entry>)
    ensures (a + b) + c == a + (b + c)
    ensures a == [] ==> a + b == b
  {
  }

  lemma {:induction false} FilterConcat(a: seq<Entry>, b: seq<Entry>, keep: Entry -> bool)
    ensures Filter(a + b, keep) == Filter(a, keep) + Filter(b, keep)
  {
    if a == [] {
      assert a + b == b;
    } else {
      var head, tail := a[0], a[1..];
      SplitFirst(a, b);
      FilterConcat(tail, b, keep);
      FilterCons(head, tail + b, keep);
      FilterCons(head, tail, keep);
      Associates(if keep(head) then [head] else [], Filter(tail, keep), Filter(b, keep));
    }
  }

  lemma {:induction false} FilterMembers(s: seq<Entry>, keep: Entry -> bool)
    ensures forall e :: e in Filter(s, keep) <==> e in s && keep(e)
  {
    if s != [] {
      FilterMembers(s[1..], keep);
      assert forall e :: e in s <==> e == s[0] || e in s[1..];
    }
  }

  ghost predicate AllBelow(s: seq<Entry>, target: nat) {
    forall i :: 0 <= i < |s| ==> s[i].hash < target
  }

  ghost predicate AllFrom(s: seq<Entry>, target: nat) {
    forall i :: 0 <= i < |s| ==> s[i].hash >= target
  }

  lemma {:induction false} FilterKeepsBounds(s: seq<Entry>, keep: Entry -> bool, target: nat)
    ensures AllBelow(s, target) ==> AllBelow(Filter(s, keep), target)
    ensures AllFrom(s, target) ==> AllFrom(Filter(s, keep), target)
  {
    if s != [] { FilterKeepsBounds(s[1..], keep, target); }
  }

  lemma {:induction false} InsertKeepsBound(e: Entry, ring: seq<Entry>, target: nat)
    requires AllFrom(ring, target) && e.hash >= target
    ensures AllFrom(Insert(e, ring), target)
  {
    if ring != [] { InsertKeepsBound(e, ring[1..], target); }
  }

  lemma SortedCons(head: Entry, tail: seq<Entry>)
    requires Sorted(tail) && AllFrom(tail, head.hash)
    ensures Sorted([head] + tail)
  {
  }

  lemma {:induction false} InsertKeepsSorted(e: Entry, ring: seq<Entry>)
    requires Sorted(ring)
    ensures Sorted(Insert(e, ring))
  {
    if ring == [] || e.hash <= ring[0].hash {
      SortedCons(e, ring);
    } else {
      InsertKeepsSorted(e, ring[1..]);
      InsertKeepsBound(e, ring[1..], ring[0].hash);
      SortedCons(ring[0], Insert(e, ring[1..]));
    }
  }

  lemma {:induction false} InsertKeepsEntries(e: Entry, ring: seq<Entry>)
    ensures multiset(Insert(e, ring)) == multiset{e} + multiset(ring)
  {
    if ring != [] && e.hash > ring[0].hash {
      assert ring == [ring[0]] + ring[1..];
      InsertKeepsEntries(e, ring[1..]);
    }
  }

  /** Restricting a sorted ring commutes with inserting into it. */
  lemma {:induction false} FilterInsert(e: Entry, ring: seq<Entry>, keep: Entry -> bool)
    requires Sorted(ring)
    ensures Filter(Insert(e, ring), keep) == if keep(e) then Insert(e, Filter(ring, keep)) else Filter(ring, keep)
  {
    if ring == [] || e.hash <= ring[0].hash {
      FilterCons(e, ring, keep);
      FilterKeepsBounds(ring, keep, e.hash);
    } else {
      var head, tail := ring[0], ring[1..];
      assert ring == [head] + tail;
      FilterInsert(e, tail, keep);
      FilterCons(head, Insert(e, tail), keep);
      FilterCons(head, tail, keep);
      InsertCons(e, head, Filter(tail, keep));
    }
  }

  lemma {:induction false} SortResult(s: seq<Entry>)
    ensures Sorted(StableSort(s))
    ensures multiset(StableSort(s)) == multiset(s)
    ensures |StableSort(s)| == |s|
  {
    if s != [] {
      SortResult(s[1..]);
      InsertKeepsSorted(s[0], StableSort(s[1..]));
      InsertKeepsEntries(s[0], StableSort(s[1..]));
      assert s == [s[0]] + s[1..];
    }
    assert |multiset(StableSort(s))| == |multiset(s)|;
  }

  /** Sorting a restriction is restricting the sort: the heart of the refinement, and where stability is needed. */
  lemma {:induction false} SortFilter(s: seq<Entry>, keep: Entry -> bool)
    ensures StableSort(Filter(s, keep)) == Filter(StableSort(s), keep)
  {
    if s != [] {
      var head, tail := s[0], s[1..];
      assert s == [head] + tail;
      SortFilter(tail, keep);
      SortResult(tail);
      FilterInsert(head, StableSort(tail), keep);
      FilterCons(head, tail, keep);
      if keep(head) { SortCons(head, Filter(tail, keep)); }
    }
  }

  lemma SortCons(e: Entry, s: seq<Entry>)
    ensures StableSort([e] + s) == Insert(e, StableSort(s))
  {
    assert ([e] + s)[1..] == s;
  }

  lemma {:induction false} SortConstant(s: seq<Entry>, hash: Hash32)
    requires forall e :: e in s ==> e.hash == hash
    ensures StableSort(s) == s
  {
    if s != [] { SortConstant(s[1..], hash); }
  }

  /** The sort is ascending, loses and invents nothing, and keeps the order of entries whose hashes collide. */
  lemma StableSortIsCorrect(s: seq<Entry>, hash: Hash32)
    ensures Sorted(StableSort(s)) && multiset(StableSort(s)) == multiset(s)
    ensures Filter(StableSort(s), HasHash(hash)) == Filter(s, HasHash(hash))
  {
    var collide := HasHash(hash);
    SortResult(s);
    SortFilter(s, collide);
    FilterMembers(s, collide);
    SortConstant(Filter(s, collide), hash);
  }

  // ---------------------------------------------------------------- lookup

  /** Entries before the first one whose hash reaches the target. */
  function Below(ring: seq<Entry>, target: Hash32): (b: nat)
    ensures b <= |ring|
  {
    if ring == [] || ring[0].hash >= target then 0 else 1 + Below(ring[1..], target)
  }

  lemma {:induction false} BelowSplits(ring: seq<Entry>, target: Hash32)
    requires Sorted(ring)
    ensures forall i :: 0 <= i < |ring| ==> (ring[i].hash < target <==> i < Below(ring, target))
  {
    if ring != [] {
      BelowSplits(ring[1..], target);
      forall i | 0 <= i < |ring| ensures ring[i].hash < target <==> i < Below(ring, target) {
        if i > 0 { assert ring[i] == ring[1..][i - 1]; }
      }
    }
  }

  /** Where the clockwise search starts: the first hash at or after the target, else the first entry of the ring. */
  function StartIndex(ring: seq<Entry>, target: Hash32): (k: nat)
    requires ring != []
    ensures k < |ring|
  {
    if Below(ring, target) == |ring| then 0 else Below(ring, target)
  }

  function Owner(ring: seq<Entry>, target: Hash32): Entry
    requires ring != []
  {
    ring[StartIndex(ring, target)]
  }

  /** The id `select` settles on for a client key. */
  function OwnerId(h: string -> Hash32, perWeight: nat, nodes: seq<Node>, key: string): string
    requires nodes != []
  {
    var ring := Ring(h, perWeight, nodes);
    if ring == [] then nodes[0].id else Owner(ring, h(key)).backendId
  }

  // ---------------------------------------------------------------- the clockwise walk

  /** Walks clockwise from entry i over at most `left` entries, to the first one kept. */
  function Walk(ring: seq<Entry>, i: nat, left: nat, keep: Entry -> bool): Option<Entry>
    requires i < |ring|
    decreases left
  {
    if left == 0 then None
    else if keep(ring[i]) then Some(ring[i])
    else Walk(ring, if i + 1 == |ring| then 0 else i + 1, left - 1, keep)
  }

  function First(s: seq<Entry>): Option<Entry> {
    if s == [] then None else Some(s[0])
  }

  /** Up to the end of the ring, a walk finds the first kept entry of the rest. */
  lemma {:induction false} WalkToEnd(ring: seq<Entry>, i: nat, left: nat, keep: Entry -> bool)
    requires i < |ring| && left >= |ring| - i
    ensures Walk(ring, i, left, keep) ==
      if Filter(ring[i..], keep) != [] then First(Filter(ring[i..], keep))
      else Walk(ring, 0, left - (|ring| - i), keep)
    decreases |ring| - i
  {
    assert ring[i..][0] == ring[i] && ring[i..][1..] == ring[i + 1..];
    if !keep(ring[i]) && i + 1 < |ring| { WalkToEnd(ring, i + 1, left - 1, keep); }
    if !keep(ring[i]) && i + 1 == |ring| { assert Filter(ring[i + 1..], keep) == []; }
  }

  lemma {:induction false} WalkWithin(ring: seq<Entry>, i: nat, left: nat, keep: Entry -> bool)
    requires i < |ring| && left <= |ring| - i
    ensures Walk(ring, i, left, keep) == First(Filter(ring[i..i + left], keep))
    decreases left
  {
    if left > 0 {
      assert ring[i..i + left][0] == ring[i] && ring[i..i + left][1..] == ring[i + 1..i + left];
      if !keep(ring[i]) {
        if left > 1 { WalkWithin(ring, i + 1, left - 1, keep); }
        else { assert Filter(ring[i + 1..i + left], keep) == []; }
      }
    }
  }

  lemma WalkPrefix(ring: seq<Entry>, left: nat, keep: Entry -> bool)
    requires ring != [] && left <= |ring|
    ensures Walk(ring, 0, left, keep) == First(Filter(ring[..left], keep))
  {
    WalkWithin(ring, 0, left, keep);
    assert ring[0..0 + left] == ring[..left];
  }

  lemma FirstConcat(a: seq<Entry>, b: seq<Entry>)
    ensures First(a + b) == if a != [] then First(a) else First(b)
  {
    if a == [] { assert a + b == b; }
  }

  /** A walk once around, from position b, searches the ring from b on and then the ring before b. */
  lemma WalkAround(ring: seq<Entry>, b: nat, keep: Entry -> bool)
    requires ring != [] && b <= |ring|
    ensures Walk(ring, if b == |ring| then 0 else b, |ring|, keep) ==
      First(Filter(ring[b..], keep) + Filter(ring[..b], keep))
  {
    FirstConcat(Filter(ring[b..], keep), Filter(ring[..b], keep));
    WalkPrefix(ring, b, keep);
    if b < |ring| { WalkToEnd(ring, b, |ring|, keep); }
  }

  lemma OwnerOfSplit(low: seq<Entry>, high: seq<Entry>, target: Hash32)
    requires AllBelow(low, target) && AllFrom(high, target) && low + high != []
    ensures Some(Owner(low + high, target)) == First(high + low)
  {
    BelowOfSplit(low, high, target);
  }

  lemma FilterSplit(ring: seq<Entry>, b: nat, keep: Entry -> bool)
    requires b <= |ring|
    ensures Filter(ring, keep) == Filter(ring[..b], keep) + Filter(ring[b..], keep)
  {
    SplitAt(ring, b);
    FilterOfConcat(ring, ring[..b], ring[b..], keep);
  }

  lemma SplitAt(ring: seq<Entry>, b: nat)
    requires b <= |ring|
    ensures ring == ring[..b] + ring[b..]
  {
  }

  lemma FilterOfConcat(ring: seq<Entry>, low: seq<Entry>, high: seq<Entry>, keep: Entry -> bool)
    requires ring == low + high
    ensures Filter(ring, keep) == Filter(low, keep) + Filter(high, keep)
  {
    FilterConcat(low, high, keep);
  }

  lemma FilterSplitBounds(ring: seq<Entry>, target: Hash32, keep: Entry -> bool)
    requires Sorted(ring)
    ensures AllBelow(Filter(ring[..Below(ring, target)], keep), target)
    ensures AllFrom(Filter(ring[Below(ring, target)..], keep), target)
  {
    BelowSplits(ring, target);
    FilterKeepsBounds(ring[..Below(ring, target)], keep, target);
    FilterKeepsBounds(ring[Below(ring, target)..], keep, target);
  }

  /** Looking up the restricted ring is walking the full ring once around. */
  lemma OwnerIsWalk(ring: seq<Entry>, target: Hash32, keep: Entry -> bool)
    requires Sorted(ring) && Filter(ring, keep) != []
    ensures ring != []
    ensures Walk(ring, StartIndex(ring, target), |ring|, keep) == Some(Owner(Filter(ring, keep), target))
  {
    var b := Below(ring, target);
    FilterSplit(ring, b, keep);
    FilterSplitBounds(ring, target, keep);
    OwnerOfSplit(Filter(ring[..b], keep), Filter(ring[b..], keep), target);
    WalkAround(ring, b, keep);
  }

  lemma {:induction false} BelowOfSplit(low: seq<Entry>, high: seq<Entry>, target: Hash32)
    requires AllBelow(low, target) && AllFrom(high, target)
    ensures Below(low + high, target) == |low|
  {
    if low == [] {
      assert low + high == high;
    } else {
      assert (low + high)[1..] == low[1..] + high;
      BelowOfSplit(low[1..], high, target);
    }
  }

  // ---------------------------------------------------------------- restricting the pool

  /** The backends of the pool whose id is in `ids`, in pool order: what the routing engine hands over. */
  function Only(nodes: seq<Node>, ids: set<string>): seq<Node> {
    if nodes == [] then []
    else
      var last := nodes[|nodes| - 1];
      Only(nodes[..|nodes| - 1], ids) + if last.id in ids then [last] else []
  }

  lemma {:induction false} VnodesFilter(h: string -> Hash32, id: string, count: nat, ids: set<string>)
    ensures Filter(Vnodes(h, id, count), In(ids)) == if id in ids then Vnodes(h, id, count) else []
    ensures |Vnodes(h, id, count)| == count
    ensures forall e :: e in Vnodes(h, id, count) ==> e.backendId == id
  {
    if count > 0 {
      VnodesFilter(h, id, count - 1, ids);
      FilterConcat(Vnodes(h, id, count - 1), [Entry(h(VnodeKey(id, count - 1)), id)], In(ids));
    }
  }

  lemma NodeEntriesFilter(h: string -> Hash32, perWeight: nat, node: Node, ids: set<string>)
    ensures Filter(NodeEntries(h, perWeight, node), In(ids)) ==
      if node.id in ids then NodeEntries(h, perWeight, node) else []
    ensures perWeight > 0 <==> NodeEntries(h, perWeight, node) != []
    ensures forall e :: e in NodeEntries(h, perWeight, node) ==> e.backendId == node.id
  {
    VnodesFilter(h, node.id, VnodeCount(perWeight, node), ids);
  }

  lemma EntriesSnoc(h: string -> Hash32, perWeight: nat, nodes: seq<Node>, last: Node)
    ensures Entries(h, perWeight, nodes + [last]) == Entries(h, perWeight, nodes) + NodeEntries(h, perWeight, last)
  {
    assert (nodes + [last])[..|nodes|] == nodes;
  }

  lemma {:induction false} EntriesFilter(h: string -> Hash32, perWeight: nat, nodes: seq<Node>, ids: set<string>)
    ensures Filter(Entries(h, perWeight, nodes), In(ids)) == Entries(h, perWeight, Only(nodes, ids))
  {
    if nodes != [] {
      var front, last := nodes[..|nodes| - 1], nodes[|nodes| - 1];
      EntriesFilter(h, perWeight, front, ids);
      NodeEntriesFilter(h, perWeight, last, ids);
      FilterConcat(Entries(h, perWeight, front), NodeEntries(h, perWeight, last), In(ids));
      if last.id in ids { EntriesSnoc(h, perWeight, Only(front, ids), last); }
      else { assert Only(nodes, ids) == Only(front, ids); }
    }
  }

  lemma {:induction false} EntriesKnown(h: string -> Hash32, perWeight: nat, nodes: seq<Node>)
    ensures forall e :: e in Entries(h, perWeight, nodes) ==> exists k :: 0 <= k < |nodes| && nodes[k].id == e.backendId
    ensures Entries(h, perWeight, nodes) == [] <==> nodes == [] || perWeight == 0
  {
    if nodes != [] {
      var front, last := nodes[..|nodes| - 1], nodes[|nodes| - 1];
      EntriesKnown(h, perWeight, front);
      NodeEntriesFilter(h, perWeight, last, {});
      forall e | e in Entries(h, perWeight, nodes) ensures exists k :: 0 <= k < |nodes| && nodes[k].id == e.backendId {
        if e in Entries(h, perWeight, front) {
          var k :| 0 <= k < |front| && front[k].id == e.backendId;
          assert nodes[k].id == e.backendId;
        } else {
          assert nodes[|nodes| - 1].id == e.backendId;
        }
      }
    }
  }

  /** A virtual node on a ring belongs to one of the backends it was built from; only a ring without vnodes is empty.
      */
  lemma RingKnown(h: string -> Hash32, perWeight: nat, nodes: seq<Node>)
    ensures forall e :: e in Ring(h, perWeight, nodes) ==> exists k :: 0 <= k < |nodes| && nodes[k].id == e.backendId
    ensures Ring(h, perWeight, nodes) == [] <==> nodes == [] || perWeight == 0
    ensures Sorted(Ring(h, perWeight, nodes))
  {
    EntriesKnown(h, perWeight, nodes);
    SortResult(Entries(h, perWeight, nodes));
    forall e | e in Ring(h, perWeight, nodes) ensures e in Entries(h, perWeight, nodes) {
      assert e in multiset(Ring(h, perWeight, nodes));
    }
  }

  /** The refinement: selecting among the healthy backends is walking clockwise round the ring of the whole pool from
      the client's position, past every virtual node of an excluded backend, to the first healthy one. */
  lemma SelectIsClockwiseWalk(h: string -> Hash32, perWeight: nat, pool: seq<Node>, healthy: set<string>, key: string)
    requires perWeight > 0 && Only(pool, healthy) != []
    ensures Ring(h, perWeight, pool) != []
    ensures var ring := Ring(h, perWeight, pool);
      var w := Walk(ring, StartIndex(ring, h(key)), |ring|, In(healthy));
      && w.Some?
      && OwnerId(h, perWeight, Only(pool, healthy), key) == w.value.backendId
  {
    var keep := In(healthy);
    EntriesFilter(h, perWeight, pool, healthy);
    SortFilter(Entries(h, perWeight, pool), keep);
    RingKnown(h, perWeight, pool);
    RingKnown(h, perWeight, Only(pool, healthy));
    OwnerIsWalk(Ring(h, perWeight, pool), h(key), keep);
  }

  // ---------------------------------------------------------------- which keys move

  lemma {:induction false} OnlyMembers(nodes: seq<Node>, ids: set<string>)
    ensures forall n :: n in Only(nodes, ids) <==> n in nodes && n.id in ids
    ensures nodes != [] && nodes[0].id in ids ==> Only(nodes, ids) != [] && Only(nodes, ids)[0] == nodes[0]
  {
    if nodes != [] {
      OnlyMembers(nodes[..|nodes| - 1], ids);
      assert forall n :: n in nodes <==> n in nodes[..|nodes| - 1] || n == nodes[|nodes| - 1];
      if |nodes| > 1 { assert nodes[..|nodes| - 1][0] == nodes[0]; }
    }
  }

  lemma OwnerIsMember(h: string -> Hash32, perWeight: nat, nodes: seq<Node>, key: string) returns (k: nat)
    requires nodes != []
    ensures k < |nodes| && nodes[k].id == OwnerId(h, perWeight, nodes, key)
  {
    RingKnown(h, perWeight, nodes);
    k := 0;
    if perWeight > 0 {
      var owner := Owner(Ring(h, perWeight, nodes), h(key));
      k :| 0 <= k < |nodes| && nodes[k].id == owner.backendId;
    }
  }

  /** Excluding backends moves no key whose backend stays: failover and removal touch only the excluded ones' keys. */
  lemma ExclusionMovesOnlyItsKeys(h: string -> Hash32, perWeight: nat, pool: seq<Node>, kept: set<string>, key: string)
    requires pool != [] && OwnerId(h, perWeight, pool, key) in kept
    ensures Only(pool, kept) != []
    ensures OwnerId(h, perWeight, Only(pool, kept), key) == OwnerId(h, perWeight, pool, key)
  {
    OnlyMembers(pool, kept);
    RingKnown(h, perWeight, pool);
    var k := OwnerIsMember(h, perWeight, pool, key);
    assert pool[k] in Only(pool, kept);
    if perWeight > 0 {
      SelectIsClockwiseWalk(h, perWeight, pool, kept, key);
    } else {
      RingKnown(h, perWeight, Only(pool, kept));
    }
  }

  ghost predicate AbsentFrom(nodes: seq<Node>, id: string) {
    forall n :: n in nodes ==> n.id != id
  }

  ghost function Ids(nodes: seq<Node>): set<string> {
    set n | n in nodes :: n.id
  }

  lemma {:induction false} OnlyConcat(a: seq<Node>, b: seq<Node>, ids: set<string>)
    ensures Only(a + b, ids) == Only(a, ids) + Only(b, ids)
  {
    if b == [] {
      assert a + b == a;
    } else {
      assert (a + b)[..|a + b| - 1] == a + b[..|b| - 1];
      OnlyConcat(a, b[..|b| - 1], ids);
    }
  }

  lemma {:induction false} OnlyAll(nodes: seq<Node>, ids: set<string>)
    requires forall n :: n in nodes ==> n.id in ids
    ensures Only(nodes, ids) == nodes
  {
    if nodes != [] {
      var front, last := nodes[..|nodes| - 1], nodes[|nodes| - 1];
      FrontAndLast(nodes, front, last);
      OnlyAll(front, ids);
    }
  }

  lemma FrontAndLast(nodes: seq<Node>, front: seq<Node>, last: Node)
    requires nodes != [] && front == nodes[..|nodes| - 1] && last == nodes[|nodes| - 1]
    ensures nodes == front + [last] && last in nodes && forall n :: n in front ==> n in nodes
  {
  }

  lemma OnlySingleton(x: Node, ids: set<string>)
    ensures Only([x], ids) == if x.id in ids then [x] else []
  {
    assert [x][..0] == [];
  }

  lemma OnlyTheRest(a: seq<Node>, x: Node, b: seq<Node>)
    requires AbsentFrom(a, x.id) && AbsentFrom(b, x.id)
    ensures Only(a + [x] + b, Ids(a) + Ids(b)) == a + b
  {
    var kept := Ids(a) + Ids(b);
    assert Only(a, kept) == a by { OnlyAll(a, kept); }
    assert Only(b, kept) == b by { OnlyAll(b, kept); }
    assert Only([x], kept) == [] by { OnlySingleton(x, kept); }
    assert Only(a + [x], kept) == a by { OnlyConcat(a, [x], kept); }
    OnlyConcat(a + [x], b, kept);
  }

  /** Adding a backend anywhere in the pool moves keys only onto it; read backwards, removing it moves only its own. */
  lemma AdditionMovesOnlyOntoNew(h: string -> Hash32, perWeight: nat, a: seq<Node>, x: Node, b: seq<Node>, key: string)
    requires AbsentFrom(a, x.id) && AbsentFrom(b, x.id) && a + b != []
    ensures var after := OwnerId(h, perWeight, a + [x] + b, key);
      after == x.id || after == OwnerId(h, perWeight, a + b, key)
  {
    var pool := a + [x] + b;
    var k := OwnerIsMember(h, perWeight, pool, key);
    if pool[k].id != x.id {
      assert pool[k] in a || pool[k] in b;
      OnlyTheRest(a, x, b);
      ExclusionMovesOnlyItsKeys(h, perWeight, pool, Ids(a) + Ids(b), key);
    }
  }

  // ---------------------------------------------------------------- raising a weight

  ghost predicate OneMore(ring: seq<Entry>, larger: seq<Entry>, j: nat, e: Entry) {
    && j <= |ring| && |larger| == |ring| + 1 && larger[j] == e
    && (forall i :: 0 <= i < j ==> larger[i] == ring[i])
    && (forall i :: j <= i < |ring| ==> larger[i + 1] == ring[i])
  }

  lemma OneMoreCons(c: Entry, ring: seq<Entry>, larger: seq<Entry>, j: nat, e: Entry)
    requires OneMore(ring, larger, j, e)
    ensures OneMore([c] + ring, [c] + larger, j + 1, e)
  {
  }

  lemma {:induction false} InsertOneMore(x: Entry, ring: seq<Entry>, larger: seq<Entry>, j: nat, e: Entry)
    returns (k: nat)
    requires Sorted(ring) && Sorted(larger) && OneMore(ring, larger, j, e)
    ensures OneMore(Insert(x, ring), Insert(x, larger), k, e)
  {
    if j == 0 {
      assert larger[1..] == ring;
      if ring != [] { assert larger[1] == ring[0]; }
      if x.hash <= e.hash { k := 1; } else { k := 0; }
    } else {
      assert larger[0] == ring[0];
      if x.hash <= ring[0].hash {
        k := j + 1;
      } else {
        k := InsertOneMore(x, ring[1..], larger[1..], j - 1, e);
        OneMoreCons(ring[0], Insert(x, ring[1..]), Insert(x, larger[1..]), k, e);
        k := k + 1;
      }
    }
  }

  /** One more entry in the input puts that entry somewhere in the sorted ring and leaves the others in order. */
  lemma {:induction false} SortOneMore(a: seq<Entry>, e: Entry, b: seq<Entry>) returns (j: nat)
    ensures OneMore(StableSort(a + b), StableSort(a + [e] + b), j, e)
  {
    if a == [] {
      assert a + b == b && (a + [e] + b)[1..] == b;
      j := InsertPosition(e, StableSort(b));
    } else {
      j := SortOneMore(a[1..], e, b);
      assert (a + b)[1..] == a[1..] + b && (a + [e] + b)[1..] == a[1..] + [e] + b;
      SortResult(a[1..] + b);
      SortResult(a[1..] + [e] + b);
      j := InsertOneMore(a[0], StableSort(a[1..] + b), StableSort(a[1..] + [e] + b), j, e);
    }
  }

  lemma {:induction false} InsertPosition(e: Entry, ring: seq<Entry>) returns (j: nat)
    ensures OneMore(ring, Insert(e, ring), j, e)
  {
    if ring == [] || e.hash <= ring[0].hash {
      j := 0;
    } else {
      j := InsertPosition(e, ring[1..]);
      OneMoreCons(ring[0], ring[1..], Insert(e, ring[1..]), j, e);
      assert ring == [ring[0]] + ring[1..];
      j := j + 1;
    }
  }

  lemma {:induction false} BelowIsFirst(ring: seq<Entry>, target: Hash32, b: nat)
    requires b <= |ring| && AllBelow(ring[..b], target)
    requires b < |ring| ==> ring[b].hash >= target
    ensures Below(ring, target) == b
  {
    if b > 0 {
      assert ring[0] == ring[..b][0];
      assert ring[1..][..b - 1] == ring[..b][1..];
      BelowIsFirst(ring[1..], target, b - 1);
    }
  }

  /** An entry placed before the target shifts the starting point by one. */
  lemma BelowEarlier(ring: seq<Entry>, larger: seq<Entry>, j: nat, e: Entry, target: Hash32)
    requires Sorted(ring) && Sorted(larger) && OneMore(ring, larger, j, e) && e.hash < target
    ensures j <= Below(ring, target) && Below(larger, target) == Below(ring, target) + 1
  {
    var b := Below(ring, target);
    BelowSplits(ring, target);
    if j > 0 { assert larger[j - 1] == ring[j - 1]; }
    forall i | 0 <= i <= b ensures larger[i].hash < target {
      if i > j { assert larger[i - 1 + 1] == ring[i - 1]; }
    }
    if b < |ring| { assert larger[b + 1] == ring[b]; }
    BelowIsFirst(larger, target, b + 1);
  }

  /** An entry placed at or after the target leaves it. */
  lemma BelowLater(ring: seq<Entry>, larger: seq<Entry>, j: nat, e: Entry, target: Hash32)
    requires Sorted(ring) && Sorted(larger) && OneMore(ring, larger, j, e) && e.hash >= target
    ensures Below(ring, target) <= j && Below(larger, target) == Below(ring, target)
  {
    BelowSplits(ring, target);
    if j < |ring| { assert larger[j + 1] == ring[j]; }
    BelowIsFirst(larger, target, Below(ring, target));
  }

  /** One more entry on the ring takes over the lookup or leaves it alone. */
  lemma OwnerOneMore(ring: seq<Entry>, larger: seq<Entry>, j: nat, e: Entry, target: Hash32)
    requires Sorted(ring) && Sorted(larger) && OneMore(ring, larger, j, e) && ring != []
    ensures Owner(larger, target) == e || Owner(larger, target) == Owner(ring, target)
  {
    var b := Below(ring, target);
    if e.hash < target {
      BelowEarlier(ring, larger, j, e, target);
      if b < |ring| { assert larger[b + 1] == ring[b]; }
    } else {
      BelowLater(ring, larger, j, e, target);
    }
  }

  lemma {:induction false} OwnerManyMore(a: seq<Entry>, more: seq<Entry>, b: seq<Entry>, id: string, target: Hash32)
    requires a + b != [] && forall e :: e in more ==> e.backendId == id
    ensures StableSort(a + b) != [] && StableSort(a + more + b) != []
    ensures var o := Owner(StableSort(a + more + b), target);
      o.backendId == id || o == Owner(StableSort(a + b), target)
    decreases |more|
  {
    SortResult(a + b);
    SortResult(a + more + b);
    if more == [] {
      assert a + more + b == a + b;
    } else {
      var front, e := more[..|more| - 1], more[|more| - 1];
      OwnerManyMore(a, front, b, id, target);
      assert a + more + b == (a + front) + [e] + b;
      var j := SortOneMore(a + front, e, b);
      SortResult(a + front + b);
      OwnerOneMore(StableSort(a + front + b), StableSort(a + more + b), j, e, target);
    }
  }

  lemma {:induction false} VnodesExtend(h: string -> Hash32, id: string, count: nat, more: nat)
    requires count <= more
    ensures Vnodes(h, id, count) <= Vnodes(h, id, more)
    ensures forall e :: e in Vnodes(h, id, more) ==> e.backendId == id
    decreases more
  {
    if count < more { VnodesExtend(h, id, count, more - 1); }
    else if count > 0 { VnodesExtend(h, id, count - 1, count - 1); }
  }

  lemma {:induction false} EntriesConcat(h: string -> Hash32, perWeight: nat, a: seq<Node>, b: seq<Node>)
    ensures Entries(h, perWeight, a + b) == Entries(h, perWeight, a) + Entries(h, perWeight, b)
  {
    if b == [] {
      assert a + b == a;
    } else {
      assert (a + b)[..|a + b| - 1] == a + b[..|b| - 1];
      EntriesConcat(h, perWeight, a, b[..|b| - 1]);
    }
  }

  lemma VnodeCountGrows(perWeight: nat, x: Node, weight: nat)
    requires x.weight <= weight
    ensures VnodeCount(perWeight, x) <= VnodeCount(perWeight, x.(weight := weight))
  {
    var w, v := if x.weight == 0 then 1 else x.weight, if weight == 0 then 1 else weight;
    assert perWeight * v - perWeight * w == perWeight * (v - w);
    assert perWeight * (v - w) >= 0;
  }

  /** A heavier backend's virtual nodes extend the lighter one's: the keys `id#vnode-i` do not depend on the weight. */
  lemma HeavierExtends(h: string -> Hash32, perWeight: nat, x: Node, weight: nat) returns (more: seq<Entry>)
    requires x.weight <= weight
    ensures NodeEntries(h, perWeight, x.(weight := weight)) == NodeEntries(h, perWeight, x) + more
    ensures forall e :: e in more ==> e.backendId == x.id
  {
    VnodeCountGrows(perWeight, x, weight);
    var few, many := VnodeCount(perWeight, x), VnodeCount(perWeight, x.(weight := weight));
    VnodesExtend(h, x.id, few, many);
    VnodesFilter(h, x.id, few, {});
    more := Vnodes(h, x.id, many)[few..];
  }

  lemma Regroup(a: seq<Entry>, few: seq<Entry>, more: seq<Entry>, b: seq<Entry>)
    ensures a + (few + more) + b == a + few + more + b
  {
  }

  lemma HeavierEntries(h: string -> Hash32, perWeight: nat, a: seq<Node>, x: Node, weight: nat, b: seq<Node>)
    returns (l: seq<Entry>, more: seq<Entry>, r: seq<Entry>)
    requires x.weight <= weight
    ensures Entries(h, perWeight, a + [x] + b) == l + r
    ensures Entries(h, perWeight, a + [x.(weight := weight)] + b) == l + more + r
    ensures forall e :: e in more ==> e.backendId == x.id
  {
    more := HeavierExtends(h, perWeight, x, weight);
    l, r := Entries(h, perWeight, a) + NodeEntries(h, perWeight, x), Entries(h, perWeight, b);
    assert Entries(h, perWeight, a + [x] + b) == l + r by { EntriesOfThree(h, perWeight, a, x, b); }
    EntriesOfThree(h, perWeight, a, x.(weight := weight), b);
    Regroup(Entries(h, perWeight, a), NodeEntries(h, perWeight, x), more, r);
  }

  /** Raising the weight of a backend moves keys only onto it; read backwards, lowering it moves only its own. */
  lemma RaisingWeightMovesOnlyOntoIt(
    h: string -> Hash32, perWeight: nat, a: seq<Node>, x: Node, weight: nat, b: seq<Node>, key: string)
    requires x.weight <= weight
    ensures var after := OwnerId(h, perWeight, a + [x.(weight := weight)] + b, key);
      after == x.id || after == OwnerId(h, perWeight, a + [x] + b, key)
  {
    var y := x.(weight := weight);
    RingKnown(h, perWeight, a + [x] + b);
    RingKnown(h, perWeight, a + [y] + b);
    if perWeight > 0 {
      var l, more, r := HeavierEntries(h, perWeight, a, x, weight, b);
      SortResult(l + r);
      OwnerManyMore(l, more, r, x.id, h(key));
    }
  }

  lemma EntriesOfThree(h: string -> Hash32, perWeight: nat, a: seq<Node>, x: Node, b: seq<Node>)
    ensures Entries(h, perWeight, a + [x] + b) ==
      Entries(h, perWeight, a) + NodeEntries(h, perWeight, x) + Entries(h, perWeight, b)
  {
    EntriesConcat(h, perWeight, a + [x], b);
    EntriesConcat(h, perWeight, a, [x]);
    assert [x][..0] == [];
  }

  // ---------------------------------------------------------------- what is on the ring

  /** The number that a decimal numeral stands for. */
  function Numeral(s: string): int {
    if s == "" then 0 else 10 * Numeral(s[..|s| - 1]) + (s[|s| - 1] as int - '0' as int)
  }

  /** Decimal writes n in digits without leading zeros, and the numeral reads back as n. */
  lemma {:induction false} DecimalReads(n: nat)
    ensures Numeral(Decimal(n)) == n
    ensures |Decimal(n)| >= 1 && (Decimal(n)[0] == '0' ==> n == 0)
    ensures forall k :: 0 <= k < |Decimal(n)| ==> '0' <= Decimal(n)[k] <= '9'
  {
    var s := Decimal(n);
    if n < 10 {
      assert s[..|s| - 1] == "";
    } else {
      assert s[..|s| - 1] == Decimal(n / 10);
      DecimalReads(n / 10);
    }
  }

  /** The ring holds, for every backend of the list, its entries `id#vnode-i` for i below the number of virtual nodes
      per weight times its weight (a weight of 0 counting as 1), each under the hash of that key, and nothing else. */
  ghost predicate HoldsExactly(ring: seq<Entry>, h: string -> Hash32, perWeight: nat, nodes: seq<Node>) {
    && (forall n: Node, i: nat :: n in nodes && i < perWeight * (if n.weight == 0 then 1 else n.weight) ==>
          Entry(h(n.id + "#vnode-" + Decimal(i)), n.id) in ring)
    && forall e :: e in ring ==> IsVnode(e, h, perWeight, nodes)
  }

  ghost predicate IsVnode(e: Entry, h: string -> Hash32, perWeight: nat, nodes: seq<Node>) {
    exists n: Node, i: nat :: n in nodes && IsVnodeOf(e, h, perWeight, n, i)
  }

  ghost predicate IsVnodeOf(e: Entry, h: string -> Hash32, perWeight: nat, n: Node, i: nat) {
    && i < perWeight * (if n.weight == 0 then 1 else n.weight)
    && e == Entry(h(n.id + "#vnode-" + Decimal(i)), n.id)
  }

  /** One backend's entries, literally. */
  ghost predicate VnodesAre(s: seq<Entry>, h: string -> Hash32, id: string, count: nat) {
    |s| == count && forall i: nat :: i < count ==> s[i] == Entry(h(id + "#vnode-" + Decimal(i)), id)
  }

  lemma {:induction false} VnodesLiteral(h: string -> Hash32, id: string, count: nat)
    ensures VnodesAre(Vnodes(h, id, count), h, id, count)
  {
    if count > 0 { VnodesLiteral(h, id, count - 1); }
  }

  lemma {:induction false} EntriesHoldExactly(h: string -> Hash32, perWeight: nat, nodes: seq<Node>)
    ensures HoldsExactly(Entries(h, perWeight, nodes), h, perWeight, nodes)
  {
    if nodes != [] {
      var front, last := nodes[..|nodes| - 1], nodes[|nodes| - 1];
      EntriesHoldExactly(h, perWeight, front);
      FrontAndLast(nodes, front, last);
      VnodesLiteral(h, last.id, VnodeCount(perWeight, last));
      ConcatHolds(h, perWeight, front, last, nodes, Entries(h, perWeight, front), NodeEntries(h, perWeight, last),
        Entries(h, perWeight, nodes));
    }
  }

  lemma ConcatHolds(
    h: string -> Hash32, perWeight: nat, front: seq<Node>, last: Node, nodes: seq<Node>,
    a: seq<Entry>, b: seq<Entry>, s: seq<Entry>)
    requires nodes == front + [last] && s == a + b
    requires HoldsExactly(a, h, perWeight, front)
    requires VnodesAre(b, h, last.id, perWeight * if last.weight == 0 then 1 else last.weight)
    ensures HoldsExactly(s, h, perWeight, nodes)
  {
    forall n: Node, i: nat | n in nodes && i < perWeight * (if n.weight == 0 then 1 else n.weight)
      ensures Entry(h(n.id + "#vnode-" + Decimal(i)), n.id) in s
    {
      if n in front {
        assert Entry(h(n.id + "#vnode-" + Decimal(i)), n.id) in a;
      } else {
        assert n == last && b[i] in b;
      }
    }
    forall e | e in s ensures IsVnode(e, h, perWeight, nodes) {
      if e in a {
        assert IsVnode(e, h, perWeight, front);
        var n: Node, i: nat :| n in front && IsVnodeOf(e, h, perWeight, n, i);
        assert n in nodes;
      } else {
        var i: nat :| i < |b| && b[i] == e;
        assert last in nodes && IsVnodeOf(e, h, perWeight, last, i);
      }
    }
  }

  lemma RingHoldsExactly(h: string -> Hash32, perWeight: nat, nodes: seq<Node>)
    ensures HoldsExactly(Ring(h, perWeight, nodes), h, perWeight, nodes)
  {
    var entries, ring := Entries(h, perWeight, nodes), Ring(h, perWeight, nodes);
    EntriesHoldExactly(h, perWeight, nodes);
    SortResult(entries);
    forall e ensures e in ring <==> e in entries {
      assert e in multiset(ring) <==> e in multiset(entries);
    }
  }

  ghost predicate DistinctIds(nodes: seq<Node>) {
    forall j, k :: 0 <= j < k < |nodes| ==> nodes[j].id != nodes[k].id
  }

  lemma {:induction false} OnlyNone(nodes: seq<Node>, ids: set<string>)
    requires forall j :: 0 <= j < |nodes| ==> nodes[j].id !in ids
    ensures Only(nodes, ids) == []
  {
    if nodes != [] { OnlyNone(nodes[..|nodes| - 1], ids); }
  }

  lemma {:induction false} OnlyOne(nodes: seq<Node>, k: nat)
    requires DistinctIds(nodes) && k < |nodes|
    ensures Only(nodes, {nodes[k].id}) == [nodes[k]]
  {
    var front, last := nodes[..|nodes| - 1], nodes[|nodes| - 1];
    var ids := {nodes[k].id};
    if k == |nodes| - 1 {
      forall j | 0 <= j < |front| ensures front[j].id !in ids { assert nodes[j] == front[j]; }
      OnlyNone(front, ids);
    } else {
      OnlyOne(front, k);
      assert last.id != nodes[k].id;
    }
  }

  /** Every backend owns exactly as many entries of the ring as it has virtual nodes. */
  lemma RingShares(h: string -> Hash32, perWeight: nat, nodes: seq<Node>, k: nat)
    requires DistinctIds(nodes) && k < |nodes|
    ensures |Filter(Ring(h, perWeight, nodes), In({nodes[k].id}))| ==
      perWeight * if nodes[k].weight == 0 then 1 else nodes[k].weight
  {
    var ids, one := {nodes[k].id}, [nodes[k]];
    OnlyOne(nodes, k);
    EntriesFilter(h, perWeight, nodes, ids);
    SortFilter(Entries(h, perWeight, nodes), In(ids));
    SortResult(Entries(h, perWeight, one));
    assert one[..0] == [];
    VnodesFilter(h, nodes[k].id, VnodeCount(perWeight, nodes[k]), ids);
  }

  lemma NoHashBefore(id: string, tail: string, key: string)
    requires '#' !in id && key == id + tail
    ensures forall p :: 0 <= p < |id| ==> key[p] != '#'
  {
    forall p | 0 <= p < |id| ensures key[p] != '#' { assert key[p] == id[p] && id[p] in id; }
  }

  /** Backends whose ids hold no '#' have different keys for different virtual nodes. */
  lemma KeysDiffer(id: string, i: nat, other: string, j: nat)
    requires '#' !in id && '#' !in other
    requires id + "#vnode-" + Decimal(i) == other + "#vnode-" + Decimal(j)
    ensures id == other && i == j
  {
    var key := id + "#vnode-" + Decimal(i);
    assert key[|id|] == '#' && key[|other|] == '#';
    NoHashBefore(id, "#vnode-" + Decimal(i), key);
    NoHashBefore(other, "#vnode-" + Decimal(j), key);
    assert key[..|id|] == id && key[..|other|] == other;
    assert key[|id| + 7..] == Decimal(i) && key[|other| + 7..] == Decimal(j);
    DecimalReads(i);
    DecimalReads(j);
  }

  ghost predicate DistinctHashes(s: seq<Entry>) {
    forall a, b :: 0 <= a < b < |s| ==> s[a].hash != s[b].hash
  }

  /** The hash tells all keys of the list's backends apart. */
  ghost predicate InjectiveOnKeys(h: string -> Hash32, nodes: seq<Node>) {
    forall m: Node, n: Node, i: nat, j: nat :: m in nodes && n in nodes ==>
      var key, other := m.id + "#vnode-" + Decimal(i), n.id + "#vnode-" + Decimal(j);
      h(key) == h(other) ==> key == other
  }

  ghost predicate PlainIds(nodes: seq<Node>) {
    DistinctIds(nodes) && forall n :: n in nodes ==> '#' !in n.id
  }

  lemma {:induction false} InsertKeepsDistinct(e: Entry, ring: seq<Entry>)
    requires DistinctHashes(ring) && forall a :: 0 <= a < |ring| ==> ring[a].hash != e.hash
    ensures DistinctHashes(Insert(e, ring))
    ensures forall f :: f in Insert(e, ring) ==> f == e || f in ring
  {
    if ring != [] && e.hash > ring[0].hash {
      InsertKeepsDistinct(e, ring[1..]);
      var rest := Insert(e, ring[1..]);
      forall b | 0 <= b < |rest| ensures rest[b].hash != ring[0].hash {
        assert rest[b] in rest;
        if rest[b] != e { var a :| 0 <= a < |ring[1..]| && ring[1..][a] == rest[b]; }
      }
    }
  }

  lemma {:induction false} SortKeepsDistinct(s: seq<Entry>)
    requires DistinctHashes(s)
    ensures DistinctHashes(StableSort(s))
  {
    if s != [] {
      var rest := StableSort(s[1..]);
      SortKeepsDistinct(s[1..]);
      SortResult(s[1..]);
      forall a | 0 <= a < |rest| ensures rest[a].hash != s[0].hash {
        assert rest[a] in multiset(s[1..]);
        var b :| 0 <= b < |s[1..]| && s[1..][b] == rest[a];
        assert s[b + 1].hash != s[0].hash;
      }
      InsertKeepsDistinct(s[0], rest);
    }
  }

  lemma VnodesDistinct(h: string -> Hash32, nodes: seq<Node>, n: Node, s: seq<Entry>, count: nat)
    requires n in nodes && '#' !in n.id && InjectiveOnKeys(h, nodes) && VnodesAre(s, h, n.id, count)
    ensures DistinctHashes(s)
  {
    forall a, b | 0 <= a < b < |s| ensures s[a].hash != s[b].hash {
      if s[a].hash == s[b].hash { KeysDiffer(n.id, a, n.id, b); }
    }
  }

  lemma {:induction false} EntriesDistinct(h: string -> Hash32, perWeight: nat, nodes: seq<Node>)
    requires PlainIds(nodes) && InjectiveOnKeys(h, nodes)
    ensures DistinctHashes(Entries(h, perWeight, nodes))
  {
    if nodes != [] {
      var front, last := nodes[..|nodes| - 1], nodes[|nodes| - 1];
      FrontAndLast(nodes, front, last);
      EntriesDistinct(h, perWeight, front);
      EntriesHoldExactly(h, perWeight, front);
      var a, b := Entries(h, perWeight, front), NodeEntries(h, perWeight, last);
      VnodesLiteral(h, last.id, VnodeCount(perWeight, last));
      VnodesDistinct(h, nodes, last, b, VnodeCount(perWeight, last));
      forall x, y | 0 <= x < |a| && 0 <= y < |b| ensures a[x].hash != b[y].hash {
        EntriesApart(h, perWeight, nodes, front, last, a[x], b[y], y);
      }
    }
  }

  lemma EntriesApart(
    h: string -> Hash32, perWeight: nat, nodes: seq<Node>, front: seq<Node>, last: Node, e: Entry, f: Entry, j: nat)
    requires PlainIds(nodes) && InjectiveOnKeys(h, nodes) && nodes == front + [last]
    requires e in Entries(h, perWeight, front) && f == Entry(h(last.id + "#vnode-" + Decimal(j)), last.id)
    ensures e.hash != f.hash
  {
    EntriesHoldExactly(h, perWeight, front);
    assert IsVnode(e, h, perWeight, front);
    var n: Node, i: nat :| n in front && IsVnodeOf(e, h, perWeight, n, i);
    var k :| 0 <= k < |front| && front[k] == n;
    assert nodes[k] == n && nodes[|front|] == last;
    assert n in nodes && last in nodes;
    if e.hash == f.hash { KeysDiffer(n.id, i, last.id, j); }
  }

  /** A hash without collisions on the keys gives a ring without collisions. */
  lemma RingIsDistinct(h: string -> Hash32, perWeight: nat, nodes: seq<Node>)
    requires PlainIds(nodes) && InjectiveOnKeys(h, nodes)
    ensures DistinctHashes(Ring(h, perWeight, nodes))
  {
    EntriesDistinct(h, perWeight, nodes);
    SortKeepsDistinct(Entries(h, perWeight, nodes));
  }

  /** Entries follow the order of the list. */
  ghost predicate InListOrder(s: seq<Entry>, nodes: seq<Node>) {
    forall a, b :: 0 <= a < b < |s| ==> NotAfter(s[a], s[b], nodes)
  }

  ghost predicate NotAfter(e: Entry, f: Entry, nodes: seq<Node>) {
    forall j, k :: 0 <= j < |nodes| && 0 <= k < |nodes| && e.backendId == nodes[j].id && f.backendId == nodes[k].id ==>
      j <= k
  }

  lemma {:induction false} EntriesInOrder(h: string -> Hash32, perWeight: nat, nodes: seq<Node>)
    requires DistinctIds(nodes)
    ensures InListOrder(Entries(h, perWeight, nodes), nodes)
  {
    if nodes != [] {
      var front, last := nodes[..|nodes| - 1], nodes[|nodes| - 1];
      var s, x := Entries(h, perWeight, front), NodeEntries(h, perWeight, last);
      EntriesInOrder(h, perWeight, front);
      EntriesKnown(h, perWeight, front);
      NodeEntriesFilter(h, perWeight, last, {});
      forall a, b | 0 <= a < b < |s + x| ensures NotAfter((s + x)[a], (s + x)[b], nodes) {
        if b >= |s| {
          assert (s + x)[b] in x;
          assert nodes[|front|] == last;
        } else {
          LaterInLonger(s[a], s[b], front, nodes);
        }
      }
    }
  }

  lemma LaterInLonger(e: Entry, f: Entry, front: seq<Node>, nodes: seq<Node>)
    requires DistinctIds(nodes) && nodes != [] && front == nodes[..|nodes| - 1] && NotAfter(e, f, front)
    requires exists c :: 0 <= c < |front| && front[c].id == e.backendId
    requires exists d :: 0 <= d < |front| && front[d].id == f.backendId
    ensures NotAfter(e, f, nodes)
  {
    var c :| 0 <= c < |front| && front[c].id == e.backendId;
    var d :| 0 <= d < |front| && front[d].id == f.backendId;
    assert nodes[c] == front[c] && nodes[d] == front[d];
  }

  /** Two kept entries are found in the restriction, in the same order. */
  lemma {:induction false} FilterFinds(s: seq<Entry>, keep: Entry -> bool, a: nat, b: nat) returns (x: nat, y: nat)
    requires a < b < |s| && keep(s[a]) && keep(s[b])
    ensures x < y < |Filter(s, keep)| && Filter(s, keep)[x] == s[a] && Filter(s, keep)[y] == s[b]
  {
    if a == 0 {
      FilterMembers(s[1..], keep);
      assert s[1..][b - 1] in s[1..];
      var z: nat :| z < |Filter(s[1..], keep)| && Filter(s[1..], keep)[z] == s[b];
      x, y := 0, z + 1;
    } else {
      x, y := FilterFinds(s[1..], keep, a - 1, b - 1);
      if keep(s[0]) { x, y := x + 1, y + 1; }
    }
  }

  lemma {:induction false} FilterKeepsOrder(s: seq<Entry>, keep: Entry -> bool, nodes: seq<Node>)
    requires InListOrder(s, nodes)
    ensures InListOrder(Filter(s, keep), nodes)
  {
    if s != [] {
      var tail, kept := s[1..], Filter(s[1..], keep);
      assert InListOrder(tail, nodes) by {
        forall a, b | 0 <= a < b < |tail| ensures NotAfter(tail[a], tail[b], nodes) {
          assert tail[a] == s[a + 1] && tail[b] == s[b + 1];
        }
      }
      FilterKeepsOrder(tail, keep, nodes);
      FilterMembers(tail, keep);
      forall b | 0 <= b < |kept| ensures NotAfter(s[0], kept[b], nodes) {
        assert kept[b] in tail;
        var c :| 0 <= c < |tail| && tail[c] == kept[b];
        assert s[c + 1] == kept[b];
      }
    }
  }

  /** Where hashes collide, the ring keeps the order of the list: the earlier backend comes first. */
  lemma CollisionsInListOrder(h: string -> Hash32, perWeight: nat, nodes: seq<Node>, a: nat, b: nat, j: nat, k: nat)
    requires DistinctIds(nodes) && j < |nodes| && k < |nodes|
    requires a < b < |Ring(h, perWeight, nodes)|
    requires Ring(h, perWeight, nodes)[a].hash == Ring(h, perWeight, nodes)[b].hash
    requires Ring(h, perWeight, nodes)[a].backendId == nodes[j].id
    requires Ring(h, perWeight, nodes)[b].backendId == nodes[k].id
    ensures j <= k
  {
    var ring, entries := Ring(h, perWeight, nodes), Entries(h, perWeight, nodes);
    var collide := HasHash(ring[a].hash);
    EntriesInOrder(h, perWeight, nodes);
    FilterKeepsOrder(entries, collide, nodes);
    StableSortIsCorrect(entries, ring[a].hash);
    var x, y := FilterFinds(ring, collide, a, b);
  }

  // ---------------------------------------------------------------- the strategy object

  class ConsistentHashStrategy {
    const vnodesPerWeight: nat
    const hash32: string -> Hash32

    constructor (vnodesPerWeight: nat, hash32: string -> Hash32)
      ensures this.vnodesPerWeight == vnodesPerWeight && this.hash32 == hash32
    {
      this.vnodesPerWeight := vnodesPerWeight;
      this.hash32 := hash32;
    }

    method BuildRing(nodes: seq<Node>) returns (ring: seq<Entry>)
      ensures ring == Ring(hash32, vnodesPerWeight, nodes)
      ensures Sorted(ring) && HoldsExactly(ring, hash32, vnodesPerWeight, nodes)
    {
      ring := [];
      for k := 0 to |nodes|
        invariant ring == Entries(hash32, vnodesPerWeight, nodes[..k])
      {
        var weight := if nodes[k].weight == 0 then 1 else nodes[k].weight;
        var vnodeCount := vnodesPerWeight * weight;
        ghost var before := ring;
        for i := 0 to vnodeCount
          invariant ring == before + Vnodes(hash32, nodes[k].id, i)
        {
          ring := ring + [Entry(hash32(VnodeKey(nodes[k].id, i)), nodes[k].id)];
        }
        assert nodes[..k + 1][..k] == nodes[..k];
      }
      assert nodes[..|nodes|] == nodes;
      ring := StableSort(ring);
      RingHoldsExactly(hash32, vnodesPerWeight, nodes);
      SortResult(Entries(hash32, vnodesPerWeight, nodes));
    }

    /** Binary search: the leftmost entry at or after the target, or 0 past the end of the ring. */
    method FindRingIndex(ring: seq<Entry>, target: Hash32) returns (result: nat)
      requires ring != [] && Sorted(ring)
      ensures result < |ring|
      ensures ring[|ring| - 1].hash < target ==> result == 0
      ensures ring[|ring| - 1].hash >= target ==>
        ring[result].hash >= target && forall i :: 0 <= i < result ==> ring[i].hash < target
      ensures result == StartIndex(ring, target)
    {
      BelowSplits(ring, target);
      var low, high := 0, |ring| - 1;
      if target > ring[high].hash { return 0; }
      result := 0;
      while low <= high
        invariant 0 <= low <= high + 1 <= |ring|
        invariant forall i :: 0 <= i < low ==> ring[i].hash < target
        invariant high + 1 < |ring| ==> result == high + 1 && ring[result].hash >= target
        decreases high - low
      {
        var mid := (low + high) / 2;
        if ring[mid].hash >= target {
          result := mid;
          high := mid - 1;
        } else {
          low := mid + 1;
        }
      }
    }

    /** The index, in the list handed over, of the backend selected for the client key. */
    method Select(nodes: seq<Node>, clientKey: string) returns (k: Option<nat>)
      ensures k.None? <==> nodes == []
      ensures k.Some? ==>
        && k.value < |nodes|
        && nodes[k.value].id == OwnerId(hash32, vnodesPerWeight, nodes, clientKey)
        && forall i :: 0 <= i < k.value ==> nodes[i].id != nodes[k.value].id
    {
      if nodes == [] { return None; }
      var ring := BuildRing(nodes);
      ghost var known := OwnerIsMember(hash32, vnodesPerWeight, nodes, clientKey);
      if ring == [] { return Some(0); }
      SortResult(Entries(hash32, vnodesPerWeight, nodes));
      var startIndex := FindRingIndex(ring, hash32(clientKey));
      var i := FindBackend(nodes, ring[startIndex].backendId, known);
      k := Some(i);
    }

    /** The first backend of the list with the id; `known` is one. */
    method FindBackend(nodes: seq<Node>, id: string, ghost known: nat) returns (i: nat)
      requires known < |nodes| && nodes[known].id == id
      ensures i < |nodes| && nodes[i].id == id && forall j :: 0 <= j < i ==> nodes[j].id != id
    {
      i := 0;
      while nodes[i].id != id
        invariant 0 <= i <= known
        invariant forall j :: 0 <= j < i ==> nodes[j].id != id
        decreases |nodes| - i
      {
        i := i + 1;
      }
    }
  }
}
