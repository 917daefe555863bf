/** The state of a zone as values: the registry, the positions of the
    registered entities and the two axis lists, the invariant that ties them
    together and what each zone operation does to it. Also the closed form of
    the range query. */
module ZoneState {
  import opened Geometry
  import opened AxisList
  import opened Entity

  /** Keys admitted into the view-set of `self` by a range query with window
      `area`: every other registered key that passes the perpendicular band
      test on y and is within distance area.x. */
  function ViewOf(pos: map<int, Pos>, self: int, area: Area): (r: set<int>)
    requires self in pos
    ensures self !in r && r <= pos.Keys
  {
    set k | k in pos && k != self && InWindow(pos[self], pos[k], area)
  }

  /** Visibility is mutual for a shared window. */
  lemma MutualVisibility(pos: map<int, Pos>, a: int, b: int, area: Area)
    requires a in pos && b in pos
    ensures b in ViewOf(pos, a, area) <==> a in ViewOf(pos, b, area)
  {
    InWindowSymmetric(pos[a], pos[b], area);
  }

  /** With a band at least as tall as area.x, the view-set is the disc of
      radius area.x: the y half-extent has no effect. */
  lemma ViewOfIsDiscWhenBandTaller(pos: map<int, Pos>, self: int, area: Area)
    requires self in pos && area.x <= area.y
    ensures forall k :: k in pos && k != self ==>
              (k in ViewOf(pos, self, area) <==> WithinDistance(pos[self], pos[k], area.x))
  {
    forall k | k in pos && k != self
      ensures k in ViewOf(pos, self, area) <==> WithinDistance(pos[self], pos[k], area.x)
    {
      BandRedundantWhenTaller(pos[self], pos[k], area);
    }
  }

  /** Two entities one unit apart on the x axis see each other through a
      5 by 5 window; alone, an entity sees nothing. */
  lemma TwoEntityViews()
    ensures ViewOf(map[1 := Pos(0, 0), 2 := Pos(1, 0)], 1, Area(5, 5)) == {2}
    ensures ViewOf(map[1 := Pos(0, 0)], 1, Area(5, 5)) == {}
  {
    var pos := map[1 := Pos(0, 0), 2 := Pos(1, 0)];
    assert InWindow(pos[1], pos[2], Area(5, 5));
  }

  /** In the same two-entity zone, entity 2 shares y = 0 with entity 1. Exit
      of 2 removes by value one node valued 0 from the y list, and that may
      be entity 1's node: the lists then no longer index the positions. */
  lemma SharedExitMayTakeOtherNode()
    ensures Indexed(map[1 := Pos(0, 0), 2 := Pos(1, 0)], [Node(0, 1), Node(1, 2)], [Node(0, 1), Node(0, 2)])
    ensures RemovedOne([Node(0, 1), Node(1, 2)], 1, [Node(0, 1)])
    ensures RemovedOne([Node(0, 1), Node(0, 2)], 0, [Node(0, 2)])
    ensures !Indexed(map[1 := Pos(0, 0)], [Node(0, 1)], [Node(0, 2)])
  {
    var pos := map[1 := Pos(0, 0), 2 := Pos(1, 0)];
    var xs, ys := [Node(0, 1), Node(1, 2)], [Node(0, 1), Node(0, 2)];
    assert XCoords(pos) == map[1 := 0, 2 := 1];
    assert YCoords(pos) == map[1 := 0, 2 := 0];
    assert xs[0] in xs && xs[1] in xs && ys[0] in ys && ys[1] in ys;
    assert RemoveAt(xs, 1) == [Node(0, 1)];
    assert RemoveAt(ys, 0) == [Node(0, 2)];
    assert YCoords(map[1 := Pos(0, 0)]) == map[1 := 0];
  }

  function XCoords(pos: map<int, Pos>): (c: map<int, int>)
    ensures c.Keys == pos.Keys && forall k :: k in pos ==> c[k] == pos[k].x
  {
    map k | k in pos :: pos[k].x
  }

  function YCoords(pos: map<int, Pos>): (c: map<int, int>)
    ensures c.Keys == pos.Keys && forall k :: k in pos ==> c[k] == pos[k].y
  {
    map k | k in pos :: pos[k].y
  }

  lemma CoordsUpdate(pos: map<int, Pos>, k: int, p: Pos)
    ensures XCoords(pos[k := p]) == XCoords(pos)[k := p.x]
    ensures YCoords(pos[k := p]) == YCoords(pos)[k := p.y]
  {
  }

  lemma CoordsRemove(pos: map<int, Pos>, k: int)
    ensures XCoords(pos - {k}) == XCoords(pos) - {k}
    ensures YCoords(pos - {k}) == YCoords(pos) - {k}
  {
  }

  /** The two axis lists index the positions: each is sorted and holds
      exactly one node per registered key, valued at that key's coordinate. */
  ghost predicate Indexed(pos: map<int, Pos>, xs: seq<Node>, ys: seq<Node>)
  {
    Indexes(xs, XCoords(pos)) && Indexes(ys, YCoords(pos))
  }

  /** No other registered key shares the x or the y of `key`. */
  ghost predicate Unshared(pos: map<int, Pos>, key: int)
  {
    key in pos ==>
      forall k :: k in pos && k != key ==> pos[k].x != pos[key].x && pos[k].y != pos[key].y
  }

  /** Adding one node per list for a new key keeps the lists indexing the
      positions. */
  lemma IndexedEnter(pos: map<int, Pos>, xs: seq<Node>, ys: seq<Node>, key: int, x: int, y: int)
    requires Indexed(pos, xs, ys) && key !in pos
    ensures Indexed(pos[key := Pos(x, y)], Insert(xs, Node(x, key)), Insert(ys, Node(y, key)))
  {
    IndexesInsert(xs, XCoords(pos), key, x);
    IndexesInsert(ys, YCoords(pos), key, y);
    CoordsUpdate(pos, key, Pos(x, y));
  }

  /** Moving a key's x node to x moves the key to x and leaves the y list
      indexing it as before. */
  lemma IndexedMoveX(pos: map<int, Pos>, xs: seq<Node>, ys: seq<Node>, i: nat, x: int)
    requires Indexed(pos, xs, ys) && i < |xs|
    ensures xs[i].key in pos
    ensures Indexed(pos[xs[i].key := Pos(x, pos[xs[i].key].y)], Move(xs, i, x), ys)
  {
    var key := xs[i].key;
    IndexesMove(xs, XCoords(pos), i, x);
    CoordsUpdate(pos, key, Pos(x, pos[key].y));
    assert YCoords(pos)[key := pos[key].y] == YCoords(pos);
  }

  /** Moving a key's y node to y moves the key to y and leaves the x list
      indexing it as before. */
  lemma IndexedMoveY(pos: map<int, Pos>, xs: seq<Node>, ys: seq<Node>, i: nat, y: int)
    requires Indexed(pos, xs, ys) && i < |ys|
    ensures ys[i].key in pos
    ensures Indexed(pos[ys[i].key := Pos(pos[ys[i].key].x, y)], xs, Move(ys, i, y))
  {
    var key := ys[i].key;
    IndexesMove(ys, YCoords(pos), i, y);
    CoordsUpdate(pos, key, Pos(pos[key].x, y));
    assert XCoords(pos)[key := pos[key].x] == XCoords(pos);
  }

  /** Removing by value one node at the key's x and one at its y drops
      exactly the key's own nodes when no other key shares either value. */
  lemma IndexedExit(pos: map<int, Pos>, xs: seq<Node>, ys: seq<Node>, key: int, xs': seq<Node>, ys': seq<Node>)
    requires Indexed(pos, xs, ys) && key in pos && Unshared(pos, key)
    requires RemovedOne(xs, pos[key].x, xs') && RemovedOne(ys, pos[key].y, ys')
    ensures Indexed(pos - {key}, xs', ys')
  {
    IndexesRemoveOwn(xs, XCoords(pos), key, xs');
    IndexesRemoveOwn(ys, YCoords(pos), key, ys');
    CoordsRemove(pos, key);
  }

  /** Each registered key has a node on each list, at its coordinate. */
  lemma IndexedHasNodes(pos: map<int, Pos>, xs: seq<Node>, ys: seq<Node>, key: int)
    requires Indexed(pos, xs, ys) && key in pos
    ensures exists i :: 0 <= i < |xs| && xs[i] == Node(pos[key].x, key)
    ensures exists i :: 0 <= i < |ys| && ys[i] == Node(pos[key].y, key)
  {
    assert Node(XCoords(pos)[key], key) in xs;
    assert Node(YCoords(pos)[key], key) in ys;
  }

  /** Every record is filed under its own key. */
  ghost predicate Registered(entities: map<int, AoiEntity>)
  {
    forall k :: k in entities ==> entities[k].Key == k
  }

  lemma RegisteredAdd(entities: map<int, AoiEntity>, e: AoiEntity)
    requires Registered(entities)
    ensures Registered(entities[e.Key := e])
  {
    var entities' := entities[e.Key := e];
    forall k | k in entities'
      ensures entities'[k].Key == k
    {
      if k != e.Key {
        assert entities'[k] == entities[k];
      }
    }
  }

  /** Every record is registered under its own key with a position, and the
      axis lists index those positions. */
  ghost predicate Consistent(entities: map<int, AoiEntity>, pos: map<int, Pos>, xs: seq<Node>, ys: seq<Node>)
  {
    entities.Keys == pos.Keys && Registered(entities) && Indexed(pos, xs, ys)
  }

  /** Registering a record for a new key, with one node per list at its
      coordinates, keeps the zone consistent. */
  lemma ConsistentEnter(entities: map<int, AoiEntity>, pos: map<int, Pos>, xs: seq<Node>, ys: seq<Node>,
                        e: AoiEntity, x: int, y: int)
    requires Consistent(entities, pos, xs, ys) && e.Key !in pos
    ensures Consistent(entities[e.Key := e], pos[e.Key := Pos(x, y)],
                       Insert(xs, Node(x, e.Key)), Insert(ys, Node(y, e.Key)))
  {
    IndexedEnter(pos, xs, ys, e.Key, x, y);
    RegisteredAdd(entities, e);
  }

  /** Exit undoes Enter: entering a fresh key at a position no other key
      shares on either axis and then removing it, with one node by value
      from each list, restores the registry, the positions and both lists. */
  lemma EnterThenExit(entities: map<int, AoiEntity>, pos: map<int, Pos>, xs: seq<Node>, ys: seq<Node>,
                      e: AoiEntity, x: int, y: int, xs': seq<Node>, ys': seq<Node>)
    requires Indexed(pos, xs, ys) && e.Key !in entities && e.Key !in pos
    requires Unshared(pos[e.Key := Pos(x, y)], e.Key)
    requires RemovedOne(Insert(xs, Node(x, e.Key)), x, xs')
    requires RemovedOne(Insert(ys, Node(y, e.Key)), y, ys')
    ensures entities[e.Key := e] - {e.Key} == entities
    ensures pos[e.Key := Pos(x, y)] - {e.Key} == pos
    ensures xs' == xs && ys' == ys
  {
    FreeCoordinates(pos, xs, ys, e.Key, x, y);
    InsertThenRemove(xs, Node(x, e.Key), xs');
    InsertThenRemove(ys, Node(y, e.Key), ys');
  }

  /** A position no registered key shares on either axis has no node on
      either list. */
  lemma FreeCoordinates(pos: map<int, Pos>, xs: seq<Node>, ys: seq<Node>, key: int, x: int, y: int)
    requires Indexed(pos, xs, ys) && key !in pos
    requires Unshared(pos[key := Pos(x, y)], key)
    ensures forall i :: 0 <= i < |xs| ==> xs[i].value != x
    ensures forall i :: 0 <= i < |ys| ==> ys[i].value != y
  {
    var pos' := pos[key := Pos(x, y)];
    forall i | 0 <= i < |xs|
      ensures xs[i].value != x
    {
      assert xs[i].key in XCoords(pos);
      assert pos'[xs[i].key] == pos[xs[i].key];
    }
    forall i | 0 <= i < |ys|
      ensures ys[i].value != y
    {
      assert ys[i].key in YCoords(pos);
      assert pos'[ys[i].key] == pos[ys[i].key];
    }
  }

  /** Relocating a key's x node keeps the zone consistent, with the key
      moved to the new x. */
  lemma ConsistentMoveX(entities: map<int, AoiEntity>, pos: map<int, Pos>, xs: seq<Node>, ys: seq<Node>, i: nat, x: int)
    requires Consistent(entities, pos, xs, ys) && i < |xs|
    ensures xs[i].key in pos
    ensures Consistent(entities, pos[xs[i].key := Pos(x, pos[xs[i].key].y)], Move(xs, i, x), ys)
  {
    IndexedMoveX(pos, xs, ys, i, x);
    assert pos[xs[i].key := Pos(x, pos[xs[i].key].y)].Keys == pos.Keys;
  }

  /** Relocating a key's y node keeps the zone consistent, with the key
      moved to the new y. */
  lemma ConsistentMoveY(entities: map<int, AoiEntity>, pos: map<int, Pos>, xs: seq<Node>, ys: seq<Node>, i: nat, y: int)
    requires Consistent(entities, pos, xs, ys) && i < |ys|
    ensures ys[i].key in pos
    ensures Consistent(entities, pos[ys[i].key := Pos(pos[ys[i].key].x, y)], xs, Move(ys, i, y))
  {
    IndexedMoveY(pos, xs, ys, i, y);
    assert pos[ys[i].key := Pos(pos[ys[i].key].x, y)].Keys == pos.Keys;
  }

  /** xs' is xs after the position update of one axis: untouched when the
      coordinate `from` of `key` equals `to`, otherwise with key's node moved
      from `from` to `to`. */
  ghost predicate Relocated(xs: seq<Node>, key: int, from: int, to: int, xs': seq<Node>)
  {
    if from == to then xs' == xs else Moved(xs, key, from, to, xs')
  }

  lemma UpdateSame(pos: map<int, Pos>, key: int, p: Pos)
    requires key in pos && pos[key] == p
    ensures pos[key := p] == pos
  {
  }

  lemma UpdateTwice(pos: map<int, Pos>, key: int, p: Pos, q: Pos)
    ensures pos[key := p][key := q] == pos[key := q]
  {
  }

  /** Relocating a key on the x axis keeps the zone consistent, with the key
      at its new x. */
  lemma ConsistentRelocateX(entities: map<int, AoiEntity>, pos: map<int, Pos>, xs: seq<Node>, ys: seq<Node>,
                            key: int, x: int, xs': seq<Node>)
    requires Consistent(entities, pos, xs, ys) && key in pos
    requires Relocated(xs, key, pos[key].x, x, xs')
    ensures Consistent(entities, pos[key := Pos(x, pos[key].y)], xs', ys)
  {
    if pos[key].x == x {
      UpdateSame(pos, key, Pos(x, pos[key].y));
    } else {
      var i :| 0 <= i < |xs| && xs[i] == Node(pos[key].x, key) && xs' == Move(xs, i, x);
      ConsistentMoveX(entities, pos, xs, ys, i, x);
    }
  }

  /** Relocating a key on the y axis keeps the zone consistent, with the key
      at its new y. */
  lemma ConsistentRelocateY(entities: map<int, AoiEntity>, pos: map<int, Pos>, xs: seq<Node>, ys: seq<Node>,
                            key: int, y: int, ys': seq<Node>)
    requires Consistent(entities, pos, xs, ys) && key in pos
    requires Relocated(ys, key, pos[key].y, y, ys')
    ensures Consistent(entities, pos[key := Pos(pos[key].x, y)], xs, ys')
  {
    if pos[key].y == y {
      UpdateSame(pos, key, Pos(pos[key].x, y));
    } else {
      var j :| 0 <= j < |ys| && ys[j] == Node(pos[key].y, key) && ys' == Move(ys, j, y);
      ConsistentMoveY(entities, pos, xs, ys, j, y);
    }
  }

  /** Dropping a key whose coordinates no other key shares, together with
      one node at each of its coordinates, keeps the zone consistent. */
  lemma ConsistentExit(entities: map<int, AoiEntity>, pos: map<int, Pos>, xs: seq<Node>, ys: seq<Node>,
                       key: int, xs': seq<Node>, ys': seq<Node>)
    requires Consistent(entities, pos, xs, ys) && key in pos && Unshared(pos, key)
    requires RemovedOne(xs, pos[key].x, xs') && RemovedOne(ys, pos[key].y, ys')
    ensures Consistent(entities - {key}, pos - {key}, xs', ys')
  {
    IndexedExit(pos, xs, ys, key, xs', ys');
    assert (entities - {key}).Keys == entities.Keys - {key};
    assert (pos - {key}).Keys == pos.Keys - {key};
  }
}
