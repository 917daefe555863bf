/** The AOI zone: a registry from key to entity record and two axis lists,
    one node per entity on each, kept in ascending coordinate order. Enter,
    Update and Exit maintain them; every Update ends in the range query Find,
    which rebuilds the entity's view-set by walking outward on both lists. */
module Zone {
  import opened Geometry
  import opened AxisList
  import opened Entity
  import opened ZoneState

  datatype Option<T> = None | Some(value: T)

  /** Direction of a sweep: `right` walks to higher indices. Ahead(a, b, right)
      says b lies strictly past a in that direction. */
  predicate Ahead(a: int, b: int, right: bool)
  {
    if right then a < b else b < a
  }

  class AoiZone {
    var entities: map<int, AoiEntity>
    /** The values of each registered entity's x and y nodes. */
    var positions: map<int, Pos>
    var xLinks: seq<Node>
    var yLinks: seq<Node>

    /** The registry, the positions and the two axis lists agree. */
    ghost predicate Valid()
      reads this
    {
      Consistent(entities, positions, xLinks, yLinks)
    }

    constructor ()
      ensures Valid() && entities == map[] && positions == map[] && xLinks == [] && yLinks == []
    {
      entities := map[];
      positions := map[];
      xLinks := [];
      yLinks := [];
    }

    /** The indexer: the record registered under `key`, or null. */
    function Get(key: int): (e: AoiEntity?)
      reads this
      ensures e == null <==> key !in entities
      ensures e != null ==> e == entities[key]
      ensures Valid() && e != null ==> e.Key == key
    {
      if key in entities then entities[key] else null
    }

    /** Registers `key` at (x, y) with a sorted insert on each list. A key
        already registered is left as it is and its record returned. */
    method Enter(key: int, x: int, y: int) returns (e: AoiEntity)
      requires Valid()
      modifies this
      ensures Valid() && key in entities && e == entities[key]
      ensures key in old(entities) ==> e == old(entities)[key] && unchanged(this)
      ensures key !in old(entities) ==>
        && fresh(e) && e.Key == key && e.ViewEntity == {} && e.ViewEntityBak == {}
        && entities == old(entities)[key := e]
        && positions == old(positions)[key := Pos(x, y)]
        && xLinks == Insert(old(xLinks), Node(x, key))
        && yLinks == Insert(old(yLinks), Node(y, key))
    {
      if key in entities {
        e := entities[key];
        return;
      }
      e := new AoiEntity(key);
      ConsistentEnter(entities, positions, xLinks, yLinks, e, x, y);
      xLinks := Insert(xLinks, Node(x, key));
      yLinks := Insert(yLinks, Node(y, key));
      entities := entities[key := e];
      positions := positions[key := Pos(x, y)];
    }

    /** Registers `key` at (x, y) as Enter does, then runs the range query at
        the entity's position; the view-set it returns excludes `key`. */
    method EnterWithView(key: int, x: int, y: int, area: Area) returns (e: AoiEntity, enter: set<int>)
      requires Valid()
      modifies this, if key in entities then {entities[key]} else {}
      ensures Valid() && key in entities && e == entities[key]
      ensures key in old(entities) ==>
        && e == old(entities)[key] && entities == old(entities) && positions == old(positions)
        && xLinks == old(xLinks) && yLinks == old(yLinks) && e.ViewEntityBak == old(e.ViewEntity)
      ensures key !in old(entities) ==>
        && fresh(e) && entities == old(entities)[key := e] && positions == old(positions)[key := Pos(x, y)]
        && xLinks == Insert(old(xLinks), Node(x, key)) && yLinks == Insert(old(yLinks), Node(y, key))
        && e.ViewEntityBak == {}
      ensures enter == e.ViewEntity == ViewOf(positions, key, area)
    {
      e := Enter(key, x, y);
      var found, view := UpdateWithView(key, area);
      enter := view.value;
    }

    /** Same as EnterWithView: despite its name, the caller's own key is not
        added to the view-set. */
    method EnterIncludingMyself(key: int, x: int, y: int, area: Area) returns (e: AoiEntity, enter: set<int>)
      requires Valid()
      modifies this, if key in entities then {entities[key]} else {}
      ensures Valid() && key in entities && e == entities[key]
      ensures key in old(entities) ==>
        && e == old(entities)[key] && entities == old(entities) && positions == old(positions)
        && xLinks == old(xLinks) && yLinks == old(yLinks) && e.ViewEntityBak == old(e.ViewEntity)
      ensures key !in old(entities) ==>
        && fresh(e) && entities == old(entities)[key := e] && positions == old(positions)[key := Pos(x, y)]
        && xLinks == Insert(old(xLinks), Node(x, key)) && yLinks == Insert(old(yLinks), Node(y, key))
        && e.ViewEntityBak == {}
      ensures enter == e.ViewEntity == ViewOf(positions, key, area) && key !in enter
    {
      e := Enter(key, x, y);
      var found, view := UpdateWithView(key, area);
      enter := view.value;
    }

    /** Re-runs the range query at the entity's current position. An
        unregistered key changes nothing and yields null. */
    method Update(key: int, area: Area) returns (e: AoiEntity?)
      requires Valid()
      modifies if key in entities then {entities[key]} else {}
      ensures key !in entities ==> e == null
      ensures key in entities ==>
        && e == entities[key]
        && e.ViewEntityBak == old(e.ViewEntity)
        && e.ViewEntity == ViewOf(positions, key, area)
    {
      if key !in entities {
        return null;
      }
      e := entities[key];
      Find(e, area);
    }

    /** Update(key, area) also handing out the view-set, or None when the key
        is not registered. */
    method UpdateWithView(key: int, area: Area) returns (e: AoiEntity?, enter: Option<set<int>>)
      requires Valid()
      modifies if key in entities then {entities[key]} else {}
      ensures key !in entities ==> e == null && enter == None
      ensures key in entities ==>
        && e == entities[key]
        && e.ViewEntityBak == old(e.ViewEntity)
        && e.ViewEntity == ViewOf(positions, key, area)
        && enter == Some(e.ViewEntity)
    {
      e := Update(key, area);
      enter := if e == null then None else Some(e.ViewEntity);
    }

    /** Update(key, area) whose view-set then also holds the caller's own key;
        the key lands in the entity's current buffer itself. */
    method UpdateIncludingMyself(key: int, area: Area) returns (e: AoiEntity?, enter: Option<set<int>>)
      requires Valid()
      modifies if key in entities then {entities[key]} else {}
      ensures key !in entities ==> e == null && enter == None
      ensures key in entities ==>
        && e == entities[key]
        && e.ViewEntityBak == old(e.ViewEntity)
        && e.ViewEntity == ViewOf(positions, key, area) + {key}
        && enter == Some(e.ViewEntity)
    {
      e, enter := UpdateWithView(key, area);
      if enter.Some? {
        e.ViewEntity := e.ViewEntity + {key};
        enter := Some(e.ViewEntity);
      }
    }

    /** Moves the entity to (x, y), relocating an axis node only where the
        coordinate changed, then runs the range query there. An unregistered
        key changes nothing and yields null. */
    method UpdateAt(key: int, x: int, y: int, area: Area) returns (e: AoiEntity?)
      requires Valid()
      modifies this, if key in entities then {entities[key]} else {}
      ensures Valid()
      ensures key !in old(entities) ==> e == null && unchanged(this)
      ensures key in old(entities) ==>
        && e == old(entities)[key] && entities == old(entities)
        && positions == old(positions)[key := Pos(x, y)]
        && Relocated(old(xLinks), key, old(positions)[key].x, x, xLinks)
        && Relocated(old(yLinks), key, old(positions)[key].y, y, yLinks)
        && e.ViewEntityBak == old(e.ViewEntity)
        && e.ViewEntity == ViewOf(positions, key, area)
    {
      if key !in entities {
        return null;
      }
      e := entities[key];
      Relocate(key, x, y);
      Find(e, area);
    }

    /** The two axis moves of the position update: each list moves its node
        only when that coordinate changes. */
    method Relocate(key: int, x: int, y: int)
      requires Valid() && key in entities
      modifies this`xLinks, this`yLinks, this`positions
      ensures Valid()
      ensures positions == old(positions)[key := Pos(x, y)]
      ensures Relocated(old(xLinks), key, old(positions)[key].x, x, xLinks)
      ensures Relocated(old(yLinks), key, old(positions)[key].y, y, yLinks)
    {
      ghost var p := positions[key];
      RelocateX(key, x);
      RelocateY(key, y);
      UpdateTwice(old(positions), key, Pos(x, p.y), Pos(x, y));
    }

    /** Moves key's x node to x when its x coordinate differs. */
    method RelocateX(key: int, x: int)
      requires Valid() && key in entities
      modifies this`xLinks, this`positions
      ensures Valid()
      ensures positions == old(positions)[key := Pos(x, old(positions)[key].y)]
      ensures Relocated(old(xLinks), key, old(positions)[key].x, x, xLinks)
    {
      var p := positions[key];
      var xs := xLinks;
      IndexedHasNodes(positions, xLinks, yLinks, key);
      if Abs(p.x - x) > 0 {
        xs := MoveNode(xLinks, key, p.x, x);
      }
      ConsistentRelocateX(entities, positions, xLinks, yLinks, key, x, xs);
      xLinks, positions := xs, positions[key := Pos(x, p.y)];
    }

    /** Moves key's y node to y when its y coordinate differs. */
    method RelocateY(key: int, y: int)
      requires Valid() && key in entities
      modifies this`yLinks, this`positions
      ensures Valid()
      ensures positions == old(positions)[key := Pos(old(positions)[key].x, y)]
      ensures Relocated(old(yLinks), key, old(positions)[key].y, y, yLinks)
    {
      var p := positions[key];
      var ys := yLinks;
      IndexedHasNodes(positions, xLinks, yLinks, key);
      if Abs(p.y - y) > 0 {
        ys := MoveNode(yLinks, key, p.y, y);
      }
      ConsistentRelocateY(entities, positions, xLinks, yLinks, key, y, ys);
      yLinks, positions := ys, positions[key := Pos(p.x, y)];
    }

    /** UpdateAt also handing out the view-set, or None when the key is not
        registered. */
    method UpdateAtWithView(key: int, x: int, y: int, area: Area) returns (e: AoiEntity?, enter: Option<set<int>>)
      requires Valid()
      modifies this, if key in entities then {entities[key]} else {}
      ensures Valid()
      ensures key !in old(entities) ==> e == null && enter == None && unchanged(this)
      ensures key in old(entities) ==>
        && e == old(entities)[key] && entities == old(entities)
        && positions == old(positions)[key := Pos(x, y)]
        && Relocated(old(xLinks), key, old(positions)[key].x, x, xLinks)
        && Relocated(old(yLinks), key, old(positions)[key].y, y, yLinks)
        && e.ViewEntityBak == old(e.ViewEntity)
        && e.ViewEntity == ViewOf(positions, key, area)
        && enter == Some(e.ViewEntity)
    {
      e := UpdateAt(key, x, y, area);
      enter := if e == null then None else Some(e.ViewEntity);
    }

    /** UpdateAtWithView whose view-set then also holds the caller's own key. */
    method UpdateAtIncludingMyself(key: int, x: int, y: int, area: Area) returns (e: AoiEntity?, enter: Option<set<int>>)
      requires Valid()
      modifies this, if key in entities then {entities[key]} else {}
      ensures Valid()
      ensures key !in old(entities) ==> e == null && enter == None && unchanged(this)
      ensures key in old(entities) ==>
        && e == old(entities)[key] && entities == old(entities)
        && positions == old(positions)[key := Pos(x, y)]
        && Relocated(old(xLinks), key, old(positions)[key].x, x, xLinks)
        && Relocated(old(yLinks), key, old(positions)[key].y, y, yLinks)
        && e.ViewEntityBak == old(e.ViewEntity)
        && e.ViewEntity == ViewOf(positions, key, area) + {key}
        && enter == Some(e.ViewEntity)
    {
      e, enter := UpdateAtWithView(key, x, y, area);
      if enter.Some? {
        e.ViewEntity := e.ViewEntity + {key};
        enter := Some(e.ViewEntity);
      }
    }

    /** The range query: swaps the buffers, then fills the emptied current
        buffer by sweeping both lists outward from the entity's own nodes. */
    method Find(node: AoiEntity, area: Area)
      requires Valid() && node.Key in entities && entities[node.Key] == node
      modifies node`ViewEntity, node`ViewEntityBak
      ensures node.ViewEntityBak == old(node.ViewEntity)
      ensures node.ViewEntity == ViewOf(positions, node.Key, area)
    {
      node.SwapViewEntity();
      var v := Sweep(node.Key, area, node.ViewEntity);
      node.ViewEntity := v;
    }

    /** The four sweeps of the range query, adding to `view`: right then left
        along the x list, right then left along the y list. The keys added
        are exactly the closed-form view-set of `self`. */
    method Sweep(self: int, area: Area, view: set<int>) returns (r: set<int>)
      requires Valid() && self in positions
      ensures r == view + ViewOf(positions, self, area)
    {
      IndexedHasNodes(positions, xLinks, yLinks, self);
      var ix :| 0 <= ix < |xLinks| && xLinks[ix] == Node(positions[self].x, self);
      var iy :| 0 <= iy < |yLinks| && yLinks[iy] == Node(positions[self].y, self);
      r := SweepXBoth(self, ix, area, view);
      r := SweepY(self, iy, true, area, r);
      r := SweepY(self, iy, false, area, r);
    }

    /** The two sweeps along the x list already find the whole view-set. */
    method SweepXBoth(self: int, ix: nat, area: Area, view: set<int>) returns (r: set<int>)
      requires Valid() && self in positions
      requires ix < |xLinks| && xLinks[ix] == Node(positions[self].x, self)
      ensures r == view + ViewOf(positions, self, area)
    {
      r := SweepX(self, ix, true, area, view);
      r := SweepX(self, ix, false, area, r);
      forall k | k in ViewOf(positions, self, area)
        ensures k in r
      {
        IndexedHasNodes(positions, xLinks, yLinks, k);
        var m :| 0 <= m < |xLinks| && xLinks[m] == Node(positions[k].x, k);
        assert m != ix && InWindow(positions[self], positions[xLinks[m].key], area);
        assert Ahead(ix, m, true) || Ahead(ix, m, false);
      }
    }

    /** One direction of the sweep along the x list, starting next to the
        node at index ix owned by `self`: stops at the first node whose x gap
        passes area.x and admits keys that pass the window test. Everything it
        admits belongs in the view-set, and it misses nothing in its
        direction. */
    method SweepX(self: int, ix: nat, right: bool, area: Area, view: set<int>) returns (r: set<int>)
      requires Valid() && self in positions
      requires ix < |xLinks| && xLinks[ix].key == self
      ensures view <= r && r - view <= ViewOf(positions, self, area)
      ensures forall m :: (0 <= m < |xLinks| && Ahead(ix, m, right) &&
                InWindow(positions[self], positions[xLinks[m].key], area)) ==> xLinks[m].key in r
    {
      var me := positions[self];
      r := view;
      var j: int := if right then ix + 1 else ix - 1;
      while 0 <= j < |xLinks|
        invariant if right then ix < j <= |xLinks| else -1 <= j < ix
        invariant view <= r && r - view <= ViewOf(positions, self, area)
        invariant forall m :: (0 <= m < |xLinks| && Ahead(ix, m, right) && Ahead(m, j, right) &&
                    InWindow(me, positions[xLinks[m].key], area)) ==> xLinks[m].key in r
        decreases if right then |xLinks| - j else j
      {
        var cur := xLinks[j];
        if AbsGap(cur.value, me.x) > area.x {
          forall m | 0 <= m < |xLinks| && Ahead(ix, m, right) && !Ahead(m, j, right)
            ensures !InWindow(me, positions[xLinks[m].key], area)
          {
            if InWindow(me, positions[xLinks[m].key], area) {
              DistanceBoundsAxisGaps(me, positions[xLinks[m].key], area.x);
              assert false;
            }
          }
          break;
        }
        var other := positions[cur.key];
        if AbsGap(other.y, me.y) <= area.y && WithinDistance(me, other, area.x) {
          r := r + {cur.key};
        }
        j := if right then j + 1 else j - 1;
      }
    }

    /** One direction of the sweep along the y list, starting next to the
        node at index iy owned by `self`: stops at the first node whose y gap
        passes area.y and admits keys passing the x band (area.x) and the
        distance test (area.x). It admits nothing outside the view-set. */
    method SweepY(self: int, iy: nat, right: bool, area: Area, view: set<int>) returns (r: set<int>)
      requires Valid() && self in positions
      requires iy < |yLinks| && yLinks[iy].key == self
      ensures view <= r && r - view <= ViewOf(positions, self, area)
    {
      var me := positions[self];
      r := view;
      var j: int := if right then iy + 1 else iy - 1;
      while 0 <= j < |yLinks|
        invariant if right then iy < j <= |yLinks| else -1 <= j < iy
        invariant view <= r && r - view <= ViewOf(positions, self, area)
        decreases if right then |yLinks| - j else j
      {
        var cur := yLinks[j];
        if AbsGap(cur.value, me.y) > area.y {
          break;
        }
        var other := positions[cur.key];
        if AbsGap(other.x, me.x) <= area.x && WithinDistance(me, other, area.x) {
          r := r + {cur.key};
        }
        j := if right then j + 1 else j - 1;
      }
    }

    /** Removes `key` when registered: its registry entry and, by value, one
        node valued at its x and one valued at its y. When no other entity
        shares either coordinate, the removed nodes are its own. */
    method Exit(key: int)
      requires Valid()
      modifies this
      ensures key !in old(entities) ==> unchanged(this)
      ensures key in old(entities) ==>
        && entities == old(entities) - {key}
        && positions == old(positions) - {key}
        && RemovedOne(old(xLinks), old(positions)[key].x, xLinks)
        && RemovedOne(old(yLinks), old(positions)[key].y, yLinks)
      ensures old(Unshared(positions, key)) ==> Valid()
    {
      if key !in entities {
        return;
      }
      ExitEntity(key, entities[key]);
    }

    /** Removes one node valued at the x of `node` from the x list, one
        valued at its y from the y list, and the registry entry of `key`.
        Called with the record of `key` itself, at coordinates no other
        entity shares, it keeps the zone consistent. */
    method ExitEntity(key: int, node: AoiEntity)
      requires node.Key in positions
      modifies this
      ensures entities == old(entities) - {key} && positions == old(positions) - {key}
      ensures RemovedOne(old(xLinks), old(positions)[node.Key].x, xLinks)
      ensures RemovedOne(old(yLinks), old(positions)[node.Key].y, yLinks)
      ensures old(Valid()) && key == node.Key && old(Unshared(positions, key)) ==> Valid()
    {
      var p := positions[node.Key];
      var xs := Remove(xLinks, p.x);
      var ys := Remove(yLinks, p.y);
      if Valid() && key == node.Key && Unshared(positions, key) {
        ConsistentExit(entities, positions, xLinks, yLinks, key, xs, ys);
      }
      xLinks, yLinks := xs, ys;
      entities := entities - {key};
      positions := positions - {key};
    }
  }
}
