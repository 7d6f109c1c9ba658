/** The order store of the bill page: a list of order positions, each an
    immutable record compared by identity, and the running total price. An
    update replaces the position it is given (the very same object, not an
    equal one) by a fresh copy with a changed count. */
module OrderStore {

  class Position {
    const name: string
    const price: int
    const count: int
    const limit: int

    constructor(name: string, price: int, count: int, limit: int)
      ensures this.name == name && this.price == price && this.count == count && this.limit == limit
    {
      this.name := name;
      this.price := price;
      this.count := count;
      this.limit := limit;
    }
  }

  /** `positions.reduce((sum, pos) => sum + pos.price * pos.count, 0)`. */
  function Sum(ps: seq<Position>): int {
    if |ps| == 0 then 0 else Sum(ps[..|ps| - 1]) + ps[|ps| - 1].price * ps[|ps| - 1].count
  }

  /** How many entries of `ps` are the object `p`. */
  function Occurrences(ps: seq<Position>, p: Position): nat {
    if |ps| == 0 then 0 else Occurrences(ps[..|ps| - 1], p) + (if ps[|ps| - 1] == p then 1 else 0)
  }

  predicate DistinctRefs(ps: seq<Position>) {
    forall i, j :: 0 <= i < j < |ps| ==> ps[i] != ps[j]
  }

  /** `after` is `before` with every entry identical to `p` replaced by a copy
      of `p` whose count is changed by `delta`; all other entries are the
      same objects. */
  predicate Bumped(before: seq<Position>, after: seq<Position>, p: Position, delta: int) {
    && |after| == |before|
    && forall k :: 0 <= k < |before| ==>
         if before[k] == p then
           && after[k].name == p.name && after[k].price == p.price
           && after[k].count == p.count + delta && after[k].limit == p.limit
         else after[k] == before[k]
  }

  /** Each replaced entry adds `delta` units of its price to the sum. */
  lemma {:induction false} SumOfBumped(before: seq<Position>, after: seq<Position>, p: Position, delta: int)
    requires Bumped(before, after, p, delta)
    ensures Sum(after) == Sum(before) + Occurrences(before, p) * (p.price * delta)
  {
    var n := |before|;
    if n > 0 {
      assert Bumped(before[..n - 1], after[..n - 1], p, delta);
      SumOfBumped(before[..n - 1], after[..n - 1], p, delta);
      var k := p.price * delta;
      var o := Occurrences(before[..n - 1], p);
      var a, b := after[n - 1], before[n - 1];
      assert Sum(after) == Sum(after[..n - 1]) + a.price * a.count;
      assert Sum(before) == Sum(before[..n - 1]) + b.price * b.count;
      if b == p {
        assert Occurrences(before, p) == o + 1;
        Distribute(p.price, p.count, delta);
        assert a.price * a.count == b.price * b.count + k;
        Distribute(k, o, 1);
      } else {
        assert Occurrences(before, p) == o;
        assert a == b;
      }
    }
  }

  lemma Distribute(x: int, y: int, z: int)
    ensures x * (y + z) == x * y + x * z
    ensures (y + z) * x == y * x + z * x
  {
  }

  lemma {:induction false} OccursOnce(ps: seq<Position>, p: Position)
    requires DistinctRefs(ps)
    ensures Occurrences(ps, p) == if p in ps then 1 else 0
  {
    var n := |ps|;
    if n > 0 {
      OccursOnce(ps[..n - 1], p);
      assert ps == ps[..n - 1] + [ps[n - 1]];
      assert ps[n - 1] == p ==> p !in ps[..n - 1];
    }
  }

  /** When the position given to `increaseCount` is in the list (and the list
      holds each object once), the new total `old total + price` is again the
      sum of the list. */
  lemma IncreaseKeepsTotal(before: seq<Position>, after: seq<Position>, p: Position)
    requires DistinctRefs(before) && p in before
    requires Bumped(before, after, p, 1)
    ensures Sum(after) == Sum(before) + p.price
  {
    SumOfBumped(before, after, p, 1);
    OccursOnce(before, p);
  }

  /** A position no longer in the list (a stale copy) changes no entry, yet
      `increaseCount` still adds its price to the total. */
  lemma IncreaseWithStalePosition(before: seq<Position>, after: seq<Position>, p: Position)
    requires p !in before
    requires Bumped(before, after, p, 1)
    ensures after == before && Sum(after) == Sum(before)
  {
    assert forall k :: 0 <= k < |before| ==> before[k] != p;
  }

  class OrderStore {
    var orderPositions: seq<Position>
    var totalPrice: int

    /** The total is the sum of the list, each object appears once and no
        count is negative. */
    ghost predicate Valid()
      reads this
    {
      && DistinctRefs(orderPositions)
      && totalPrice == Sum(orderPositions)
      && forall i :: 0 <= i < |orderPositions| ==> orderPositions[i].count >= 0
    }

    constructor()
      ensures Valid() && totalPrice == 0 && |orderPositions| == 3
      ensures orderPositions[0].name == "Position 1" && orderPositions[0].price == 10 && orderPositions[0].limit == 5
      ensures orderPositions[1].name == "Position 2" && orderPositions[1].price == 20 && orderPositions[1].limit == 3
      ensures orderPositions[2].name == "Position 3" && orderPositions[2].price == 30 && orderPositions[2].limit == 2
      ensures forall i :: 0 <= i < 3 ==> orderPositions[i].count == 0
    {
      var p1 := new Position("Position 1", 10, 0, 5);
      var p2 := new Position("Position 2", 20, 0, 3);
      var p3 := new Position("Position 3", 30, 0, 2);
      var initial := [p1, p2, p3];
      assert Sum([p1]) == 0 by {
        assert [p1][..0] == [];
      }
      assert Sum([p1, p2]) == 0 by {
        assert [p1, p2][..1] == [p1];
      }
      assert Sum(initial) == 0 by {
        assert initial[..2] == [p1, p2];
      }
      assert p1 != p2 && p1 != p3 && p2 != p3;
      orderPositions := initial;
      totalPrice := 0;
    }

    /** The list with each entry identical to `position` replaced by a fresh
        copy whose count is changed by `delta`. */
    method MapBumped(position: Position, delta: int) returns (updated: seq<Position>)
      ensures Bumped(orderPositions, updated, position, delta)
      ensures forall k :: 0 <= k < |updated| && orderPositions[k] == position ==> fresh(updated[k])
      ensures DistinctRefs(orderPositions) ==> DistinctRefs(updated)
    {
      updated := [];
      for i := 0 to |orderPositions|
        invariant Bumped(orderPositions[..i], updated, position, delta)
        invariant forall k :: 0 <= k < i && orderPositions[k] == position ==> fresh(updated[k])
        invariant DistinctRefs(orderPositions) ==> DistinctRefs(updated)
      {
        var pos := orderPositions[i];
        if pos == position {
          var copy := new Position(pos.name, pos.price, pos.count + delta, pos.limit);
          updated := updated + [copy];
        } else {
          if DistinctRefs(orderPositions) {
            forall k | 0 <= k < i
              ensures updated[k] != pos
            {
              assert orderPositions[k] != pos;
            }
          }
          updated := updated + [pos];
        }
      }
      assert orderPositions[..|orderPositions|] == orderPositions;
    }

    /** `increaseCount`: the identical entry gets one more unit and the total
        grows by the position's price. The total stays the sum of the list
        exactly when the position is in it. */
    method IncreaseCount(position: Position)
      modifies this
      ensures Bumped(old(orderPositions), orderPositions, position, 1)
      ensures forall k :: 0 <= k < |orderPositions| && old(orderPositions)[k] == position ==> fresh(orderPositions[k])
      ensures totalPrice == old(totalPrice) + position.price
      ensures old(Valid()) && position in old(orderPositions) ==> Valid()
    {
      var updatedPositions := MapBumped(position, 1);
      if DistinctRefs(orderPositions) && position in orderPositions {
        IncreaseKeepsTotal(orderPositions, updatedPositions, position);
      }
      orderPositions := updatedPositions;
      totalPrice := totalPrice + position.price;
    }

    /** `decreaseCount`: nothing when the given position has no units;
        otherwise the identical entry gets one unit fewer and the total is
        recomputed as the sum of the list. */
    method DecreaseCount(position: Position)
      modifies this
      ensures position.count == 0 ==> orderPositions == old(orderPositions) && totalPrice == old(totalPrice)
      ensures position.count != 0 ==> Bumped(old(orderPositions), orderPositions, position, -1)
      ensures position.count != 0 ==>
        forall k :: 0 <= k < |orderPositions| && old(orderPositions)[k] == position ==> fresh(orderPositions[k])
      ensures position.count != 0 ==> totalPrice == Sum(orderPositions)
      ensures old(Valid()) ==> Valid()
    {
      if position.count == 0 {
        return;
      }
      var updatedPositions := MapBumped(position, -1);
      orderPositions := updatedPositions;
      totalPrice := Sum(orderPositions);
    }
  }

  /** Nothing reads `limit`: three increases of the third position, whose
      limit is 2, leave it with three units. */
  method LimitIsNotEnforced() returns (store: OrderStore)
    ensures |store.orderPositions| == 3
    ensures store.orderPositions[2].count == 3 && store.orderPositions[2].limit == 2
  {
    store := new OrderStore();
    store.IncreaseCount(store.orderPositions[2]);
    store.IncreaseCount(store.orderPositions[2]);
    store.IncreaseCount(store.orderPositions[2]);
  }
}
