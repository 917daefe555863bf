/** An axis list: the nodes of one coordinate axis kept in ascending order of
    their value, each node naming the entity that owns it. The linked list of
    the zone is modelled by contract on a sequence: Add is a sorted insert,
    Move relocates one node keeping the order, Remove deletes a node by value. */
module AxisList {

  datatype Node = Node(value: int, key: int)

  ghost predicate Sorted(xs: seq<Node>)
  {
    forall i, j :: 0 <= i < j < |xs| ==> xs[i].value <= xs[j].value
  }

  ghost predicate StrictlySorted(xs: seq<Node>)
  {
    forall i, j :: 0 <= i < j < |xs| ==> xs[i].value < xs[j].value
  }

  /** The slot a node valued v is inserted at: after every node valued at
      most v, before the first node valued more. */
  function InsertPos(xs: seq<Node>, v: int): (p: nat)
    ensures p <= |xs|
    ensures forall i :: 0 <= i < p ==> xs[i].value <= v
    ensures p < |xs| ==> v < xs[p].value
  {
    if xs == [] || v < xs[0].value then 0 else 1 + InsertPos(xs[1..], v)
  }

  /** Sorted insert (the list's Add): walks from the head past every node
      valued at most n.value and links n in before the first larger one. */
  function Insert(xs: seq<Node>, n: Node): (r: seq<Node>)
    ensures |r| == |xs| + 1
  {
    if xs == [] || n.value < xs[0].value then [n] + xs else [xs[0]] + Insert(xs[1..], n)
  }

  /** Insert links the node in at InsertPos. */
  lemma {:induction false} InsertShape(xs: seq<Node>, n: Node)
    ensures Insert(xs, n) == xs[..InsertPos(xs, n.value)] + [n] + xs[InsertPos(xs, n.value)..]
  {
    if xs != [] && xs[0].value <= n.value {
      var p := InsertPos(xs, n.value);
      InsertShape(xs[1..], n);
      assert xs[..p] == [xs[0]] + xs[1..][..p - 1];
      assert xs[p..] == xs[1..][p - 1..];
    }
  }

  lemma InsertAtSorted(xs: seq<Node>, n: Node, p: nat)
    requires Sorted(xs) && p <= |xs|
    requires forall i :: 0 <= i < p ==> xs[i].value <= n.value
    requires p < |xs| ==> n.value < xs[p].value
    ensures Sorted(xs[..p] + [n] + xs[p..])
  {
    var r := xs[..p] + [n] + xs[p..];
    forall i, j | 0 <= i < j < |r|
      ensures r[i].value <= r[j].value
    {
      if j < p {
        assert r[i] == xs[i] && r[j] == xs[j];
      } else if i > p {
        assert r[i] == xs[i - 1] && r[j] == xs[j - 1];
      } else if i == p {
        assert r[j] == xs[j - 1];
        assert xs[p].value <= xs[j - 1].value;
      } else if j == p {
        assert r[i] == xs[i];
      } else {
        assert r[i] == xs[i] && r[j] == xs[j - 1];
      }
    }
  }

  /** Insert keeps a sorted list sorted. */
  lemma InsertSorted(xs: seq<Node>, n: Node)
    requires Sorted(xs)
    ensures Sorted(Insert(xs, n))
  {
    InsertShape(xs, n);
    InsertAtSorted(xs, n, InsertPos(xs, n.value));
  }

  /** Insert adds exactly the one node. */
  lemma {:induction false} InsertAddsOne(xs: seq<Node>, n: Node)
    ensures multiset(Insert(xs, n)) == multiset(xs) + multiset{n}
  {
    if xs != [] && xs[0].value <= n.value {
      InsertAddsOne(xs[1..], n);
      assert xs == [xs[0]] + xs[1..];
    }
  }

  /** The list without its node at index i (the unlinking of that node). */
  function RemoveAt(xs: seq<Node>, i: nat): (r: seq<Node>)
    requires i < |xs|
    ensures |r| == |xs| - 1
  {
    if i == 0 then xs[1..] else [xs[0]] + RemoveAt(xs[1..], i - 1)
  }

  lemma {:induction false} RemoveAtShape(xs: seq<Node>, i: nat)
    requires i < |xs|
    ensures RemoveAt(xs, i) == xs[..i] + xs[i + 1..]
  {
    if i > 0 {
      RemoveAtShape(xs[1..], i - 1);
      assert xs[..i] == [xs[0]] + xs[1..][..i - 1];
      assert xs[i + 1..] == xs[1..][i..];
    }
  }

  /** Unlinking a node keeps a sorted list sorted. */
  lemma RemoveAtSorted(xs: seq<Node>, i: nat)
    requires Sorted(xs) && i < |xs|
    ensures Sorted(RemoveAt(xs, i))
  {
    RemoveAtCut(xs, i);
    CutSorted(xs, i, RemoveAt(xs, i));
  }

  /** RemoveAt takes out exactly the node at i. */
  lemma RemoveAtTakesOne(xs: seq<Node>, i: nat)
    requires i < |xs|
    ensures multiset(RemoveAt(xs, i)) == multiset(xs) - multiset{xs[i]}
  {
    RemoveAtShape(xs, i);
    SliceTakesOne(xs, i);
  }

  lemma SliceTakesOne(xs: seq<Node>, i: nat)
    requires i < |xs|
    ensures multiset(xs[..i] + xs[i + 1..]) == multiset(xs) - multiset{xs[i]}
  {
    assert xs == xs[..i] + [xs[i]] + xs[i + 1..];
  }

  /** Relocation of the node at index i to the value v, keeping the order
      (the list's Move): the node is unlinked and re-inserted; it keeps its
      owner. */
  function Move(xs: seq<Node>, i: nat, v: int): (r: seq<Node>)
    requires i < |xs|
    ensures |r| == |xs|
  {
    Insert(RemoveAt(xs, i), Node(v, xs[i].key))
  }

  /** Move keeps a sorted list sorted. */
  lemma MoveSorted(xs: seq<Node>, i: nat, v: int)
    requires Sorted(xs) && i < |xs|
    ensures Sorted(Move(xs, i, v))
  {
    RemoveAtSorted(xs, i);
    InsertSorted(RemoveAt(xs, i), Node(v, xs[i].key));
  }

  /** Move replaces the node at i by one with the same owner valued v. */
  lemma MoveReplacesOne(xs: seq<Node>, i: nat, v: int)
    requires i < |xs|
    ensures multiset(Move(xs, i, v)) == multiset(xs) - multiset{xs[i]} + multiset{Node(v, xs[i].key)}
  {
    RemoveAtTakesOne(xs, i);
    InsertAddsOne(RemoveAt(xs, i), Node(v, xs[i].key));
  }

  /** r is xs with the node `Node(from, key)` relocated to `to`. */
  ghost predicate Moved(xs: seq<Node>, key: int, from: int, to: int, r: seq<Node>)
  {
    exists i :: 0 <= i < |xs| && xs[i] == Node(from, key) && r == Move(xs, i, to)
  }

  /** Relocation of the node of `key` valued `from` (the list's Move given
      the node handle, found here by its value and owner). */
  method MoveNode(xs: seq<Node>, key: int, from: int, to: int) returns (r: seq<Node>)
    requires Node(from, key) in xs
    ensures Moved(xs, key, from, to, r)
  {
    var i :| 0 <= i < |xs| && xs[i] == Node(from, key);
    r := Move(xs, i, to);
  }

  /** r is xs with one node valued v taken out, or xs itself when no node is
      valued v. Which node goes, when several share the value, is left open. */
  ghost predicate RemovedOne(xs: seq<Node>, v: int, r: seq<Node>)
  {
    || ((forall i :: 0 <= i < |xs| ==> xs[i].value != v) && r == xs)
    || (exists i :: 0 <= i < |xs| && xs[i].value == v && r == RemoveAt(xs, i))
  }

  /** Removal by value (the list's Remove); a no-op when no node has it. */
  method Remove(xs: seq<Node>, v: int) returns (r: seq<Node>)
    ensures RemovedOne(xs, v, r)
    ensures |r| == if (exists i :: 0 <= i < |xs| && xs[i].value == v) then |xs| - 1 else |xs|
  {
    if exists i :: 0 <= i < |xs| && xs[i].value == v {
      var i :| 0 <= i < |xs| && xs[i].value == v;
      r := RemoveAt(xs, i);
    } else {
      r := xs;
    }
  }

  /** Every node is owned by a key of coords and valued at its coordinate. */
  ghost predicate Owned(xs: seq<Node>, coords: map<int, int>)
  {
    forall i :: 0 <= i < |xs| ==> xs[i].key in coords && coords[xs[i].key] == xs[i].value
  }

  /** No key owns two nodes. */
  ghost predicate KeysDistinct(xs: seq<Node>)
  {
    forall i, j :: 0 <= i < j < |xs| ==> xs[i].key != xs[j].key
  }

  /** Every key of coords has its node. */
  ghost predicate Covers(xs: seq<Node>, coords: map<int, int>)
  {
    forall k :: k in coords ==> Node(coords[k], k) in xs
  }

  /** The list indexes `coords` on its axis: it is sorted and holds exactly
      one node per key of coords, valued at that key's coordinate. */
  ghost predicate Indexes(xs: seq<Node>, coords: map<int, int>)
  {
    Sorted(xs) && Owned(xs, coords) && KeysDistinct(xs) && Covers(xs, coords)
  }

  /** r is xs with n linked in at slot p. */
  ghost predicate Spliced(xs: seq<Node>, n: Node, p: nat, r: seq<Node>)
  {
    && p <= |xs| && |r| == |xs| + 1
    && (forall i :: 0 <= i < p ==> r[i] == xs[i])
    && r[p] == n
    && (forall i :: p < i < |r| ==> r[i] == xs[i - 1])
  }

  lemma InsertSpliced(xs: seq<Node>, n: Node)
    ensures Spliced(xs, n, InsertPos(xs, n.value), Insert(xs, n))
  {
    InsertShape(xs, n);
  }

  lemma SplicedOwned(xs: seq<Node>, coords: map<int, int>, n: Node, p: nat, r: seq<Node>, c: map<int, int>)
    requires Spliced(xs, n, p, r) && Owned(xs, coords)
    requires n.key !in coords && c == coords[n.key := n.value]
    ensures Owned(r, c)
  {
    forall i | 0 <= i < |r|
      ensures r[i].key in c && c[r[i].key] == r[i].value
    {
      if i < p {
        assert r[i] == xs[i];
      } else if p < i {
        assert r[i] == xs[i - 1];
      }
    }
  }

  lemma SplicedDistinct(xs: seq<Node>, n: Node, p: nat, r: seq<Node>)
    requires Spliced(xs, n, p, r) && KeysDistinct(xs)
    requires forall i :: 0 <= i < |xs| ==> xs[i].key != n.key
    ensures KeysDistinct(r)
  {
    forall i, j | 0 <= i < j < |r|
      ensures r[i].key != r[j].key
    {
      var mi := if i < p then i else i - 1;
      var mj := if j < p then j else j - 1;
      if i != p && j != p {
        assert r[i] == xs[mi] && r[j] == xs[mj];
      } else if i == p {
        assert r[j] == xs[mj];
      } else {
        assert r[i] == xs[mi];
      }
    }
  }

  lemma SplicedCovers(xs: seq<Node>, coords: map<int, int>, n: Node, p: nat, r: seq<Node>, c: map<int, int>)
    requires Spliced(xs, n, p, r) && Covers(xs, coords)
    requires c == coords[n.key := n.value]
    ensures Covers(r, c)
  {
    forall k | k in c
      ensures Node(c[k], k) in r
    {
      if k != n.key {
        var m :| 0 <= m < |xs| && xs[m] == Node(coords[k], k);
        if m < p {
          assert r[m] == xs[m];
        } else {
          assert r[m + 1] == xs[m];
        }
      } else {
        assert r[p] == n;
      }
    }
  }

  /** Adding a node for a fresh key indexes the extended map. */
  lemma IndexesInsert(xs: seq<Node>, coords: map<int, int>, k: int, v: int)
    requires Indexes(xs, coords) && k !in coords
    ensures Indexes(Insert(xs, Node(v, k)), coords[k := v])
  {
    var n := Node(v, k);
    var p := InsertPos(xs, v);
    var r := Insert(xs, n);
    var c := coords[k := v];
    InsertSpliced(xs, n);
    InsertSorted(xs, n);
    SplicedOwned(xs, coords, n, p, r, c);
    SplicedDistinct(xs, n, p, r);
    SplicedCovers(xs, coords, n, p, r, c);
  }

  /** r is xs without its node at index i. */
  ghost predicate Cut(xs: seq<Node>, i: nat, r: seq<Node>)
  {
    && i < |xs| && |r| == |xs| - 1
    && (forall a :: 0 <= a < i ==> r[a] == xs[a])
    && (forall a :: i <= a < |r| ==> r[a] == xs[a + 1])
  }

  lemma RemoveAtCut(xs: seq<Node>, i: nat)
    requires i < |xs|
    ensures Cut(xs, i, RemoveAt(xs, i))
  {
    RemoveAtShape(xs, i);
  }

  lemma CutSorted(xs: seq<Node>, i: nat, r: seq<Node>)
    requires Cut(xs, i, r) && Sorted(xs)
    ensures Sorted(r)
  {
    forall a, b | 0 <= a < b < |r|
      ensures r[a].value <= r[b].value
    {
      var a', b' := if a < i then a else a + 1, if b < i then b else b + 1;
      assert r[a] == xs[a'] && r[b] == xs[b'];
    }
  }

  lemma CutOwned(xs: seq<Node>, coords: map<int, int>, i: nat, r: seq<Node>, c: map<int, int>)
    requires Cut(xs, i, r) && Owned(xs, coords) && KeysDistinct(xs)
    requires c == coords - {xs[i].key}
    ensures Owned(r, c)
  {
    forall a | 0 <= a < |r|
      ensures r[a].key in c && c[r[a].key] == r[a].value
    {
      if a < i {
        assert r[a] == xs[a];
      } else {
        assert r[a] == xs[a + 1];
      }
    }
  }

  lemma CutDistinct(xs: seq<Node>, i: nat, r: seq<Node>)
    requires Cut(xs, i, r) && KeysDistinct(xs)
    ensures KeysDistinct(r)
  {
    forall a, b | 0 <= a < b < |r|
      ensures r[a].key != r[b].key
    {
      var a', b' := if a < i then a else a + 1, if b < i then b else b + 1;
      assert r[a] == xs[a'] && r[b] == xs[b'];
    }
  }

  lemma CutCovers(xs: seq<Node>, coords: map<int, int>, i: nat, r: seq<Node>, c: map<int, int>)
    requires Cut(xs, i, r) && Covers(xs, coords)
    requires c == coords - {xs[i].key}
    ensures Covers(r, c)
  {
    forall k | k in c
      ensures Node(c[k], k) in r
    {
      var m :| 0 <= m < |xs| && xs[m] == Node(coords[k], k);
      if m < i {
        assert r[m] == xs[m];
      } else {
        assert m != i;
        assert r[m - 1] == xs[m];
      }
    }
  }

  /** Dropping the node at index i indexes the map without its owner. */
  lemma IndexesRemoveAt(xs: seq<Node>, coords: map<int, int>, i: nat)
    requires Indexes(xs, coords) && i < |xs|
    ensures Indexes(RemoveAt(xs, i), coords - {xs[i].key})
  {
    var r := RemoveAt(xs, i);
    var c := coords - {xs[i].key};
    RemoveAtCut(xs, i);
    CutSorted(xs, i, r);
    CutOwned(xs, coords, i, r, c);
    CutDistinct(xs, i, r);
    CutCovers(xs, coords, i, r, c);
  }

  /** Removing by value what was just inserted gives back the list, when no
      other node had that value. */
  lemma InsertThenRemove(xs: seq<Node>, n: Node, r: seq<Node>)
    requires forall i :: 0 <= i < |xs| ==> xs[i].value != n.value
    requires RemovedOne(Insert(xs, n), n.value, r)
    ensures r == xs
  {
    var p := InsertPos(xs, n.value);
    var ins := Insert(xs, n);
    InsertSpliced(xs, n);
    assert ins[p] == n;
    var i :| 0 <= i < |ins| && ins[i].value == n.value && r == RemoveAt(ins, i);
    assert i == p;
    RemoveAtCut(ins, p);
    forall a | 0 <= a < |r|
      ensures r[a] == xs[a]
    {
      if a >= p {
        assert r[a] == ins[a + 1];
      }
    }
  }

  /** Relocating a node re-indexes its owner at the new value. */
  lemma IndexesMove(xs: seq<Node>, coords: map<int, int>, i: nat, v: int)
    requires Indexes(xs, coords) && i < |xs|
    ensures Indexes(Move(xs, i, v), coords[xs[i].key := v])
  {
    var k := xs[i].key;
    IndexesRemoveAt(xs, coords, i);
    IndexesInsert(RemoveAt(xs, i), coords - {k}, k, v);
    assert (coords - {k})[k := v] == coords[k := v];
  }

  /** Removing by value the coordinate only `k` has drops exactly k's node. */
  lemma IndexesRemoveOwn(xs: seq<Node>, coords: map<int, int>, k: int, r: seq<Node>)
    requires Indexes(xs, coords) && k in coords
    requires forall k' :: k' in coords && k' != k ==> coords[k'] != coords[k]
    requires RemovedOne(xs, coords[k], r)
    ensures Indexes(r, coords - {k})
  {
    var m :| 0 <= m < |xs| && xs[m] == Node(coords[k], k);
    var i :| 0 <= i < |xs| && xs[i].value == coords[k] && r == RemoveAt(xs, i);
    assert xs[i].key == k;
    IndexesRemoveAt(xs, coords, i);
  }

  /** Two strictly sorted lists with the same nodes are the same list. */
  lemma {:induction false} StrictlySortedUnique(a: seq<Node>, b: seq<Node>)
    requires StrictlySorted(a) && StrictlySorted(b)
    requires forall n :: n in a <==> n in b
    ensures a == b
  {
    if a == [] {
      if b != [] {
        SameHead(b, a);
        assert false;
      }
    } else {
      SameHead(a, b);
      SameTail(a, b);
      StrictlySortedUnique(a[1..], b[1..]);
      assert a == [a[0]] + a[1..] && b == [b[0]] + b[1..];
    }
  }

  /** The least node of two strictly sorted lists with the same nodes. */
  lemma SameHead(a: seq<Node>, b: seq<Node>)
    requires StrictlySorted(a) && StrictlySorted(b) && a != []
    requires forall n :: n in a <==> n in b
    ensures b != [] && a[0] == b[0]
  {
    assert a[0] in a;
    var k :| 0 <= k < |b| && b[k] == a[0];
    assert b[0] in b;
    var m :| 0 <= m < |a| && a[m] == b[0];
    assert a[0].value <= a[m].value;
    assert b[0].value <= b[k].value;
  }

  /** The rest of two strictly sorted lists with the same nodes and the
      same head: again strictly sorted, with the same nodes. */
  lemma SameTail(a: seq<Node>, b: seq<Node>)
    requires StrictlySorted(a) && StrictlySorted(b) && a != [] && b != [] && a[0] == b[0]
    requires forall n :: n in a <==> n in b
    ensures StrictlySorted(a[1..]) && StrictlySorted(b[1..])
    ensures forall n :: n in a[1..] <==> n in b[1..]
  {
    forall n
      ensures n in a[1..] <==> n in b[1..]
    {
      if n in a[1..] {
        var j :| 1 <= j < |a| && a[j] == n;
        assert n in b && a[0].value < n.value;
      }
      if n in b[1..] {
        var j :| 1 <= j < |b| && b[j] == n;
        assert n in a && b[0].value < n.value;
      }
    }
  }

  /** When no two keys share a coordinate, the list is determined by the
      coordinates alone: whatever relocations led to the same positions, the
      node order is the same (in particular moving an entity away and back). */
  lemma OrderDeterminedByCoords(xs: seq<Node>, ys: seq<Node>, coords: map<int, int>)
    requires Indexes(xs, coords) && Indexes(ys, coords)
    requires forall k, k' :: k in coords && k' in coords && k != k' ==> coords[k] != coords[k']
    ensures xs == ys
  {
    forall n
      ensures n in xs <==> n in ys
    {
      if n in xs {
        var i :| 0 <= i < |xs| && xs[i] == n;
      }
      if n in ys {
        var i :| 0 <= i < |ys| && ys[i] == n;
      }
    }
    StrictlySortedUnique(xs, ys);
  }
}
