/** The bill-splitting page: a store of how many units of each order
    position the user takes, guarded "+" and "-" buttons, and the user's
    total. Prices are whole currency units. */
module SplitBill {

  datatype OrderPosition = OrderPosition(id: int, name: string, price: int, count: int)

  /** The fixed positions the page offers. */
  function TestPositions(): seq<OrderPosition> {
    [OrderPosition(1, "Item 1", 10, 5), OrderPosition(2, "Item 2", 20, 3), OrderPosition(3, "Item 3", 15, 4)]
  }

  /** `userCounts[id] ?? 0`. */
  function CountOf(counts: map<int, int>, id: int): int {
    if id in counts then counts[id] else 0
  }

  predicate NonNegative(counts: map<int, int>) {
    forall id :: id in counts ==> counts[id] >= 0
  }

  /** `increaseCount`: one more unit of `id`, every other count as it was. */
  function Increased(counts: map<int, int>, id: int): (r: map<int, int>)
    ensures CountOf(r, id) == CountOf(counts, id) + 1
    ensures forall k :: k != id ==> CountOf(r, k) == CountOf(counts, k)
    ensures NonNegative(counts) ==> NonNegative(r)
  {
    counts[id := CountOf(counts, id) + 1]
  }

  /** `decreaseCount`: one unit fewer of `id` when it has any, otherwise the
      same state. */
  function Decreased(counts: map<int, int>, id: int): (r: map<int, int>)
    ensures CountOf(counts, id) > 0 ==> CountOf(r, id) == CountOf(counts, id) - 1
    ensures CountOf(counts, id) <= 0 ==> r == counts
    ensures forall k :: k != id ==> CountOf(r, k) == CountOf(counts, k)
    ensures NonNegative(counts) ==> NonNegative(r)
  {
    var count := CountOf(counts, id);
    if count > 0 then counts[id := count - 1] else counts
  }

  /** An increase followed by a decrease of the same position leaves every
      count as it was. */
  lemma IncreaseThenDecrease(counts: map<int, int>, id: int)
    requires NonNegative(counts)
    ensures forall k :: CountOf(Decreased(Increased(counts, id), id), k) == CountOf(counts, k)
  {
  }

  datatype Click = Plus(id: int) | Minus(id: int)

  function Apply(counts: map<int, int>, click: Click): map<int, int> {
    match click
    case Plus(id) => Increased(counts, id)
    case Minus(id) => Decreased(counts, id)
  }

  function Run(counts: map<int, int>, clicks: seq<Click>): map<int, int>
    decreases |clicks|
  {
    if |clicks| == 0 then counts else Run(Apply(counts, clicks[0]), clicks[1..])
  }

  /** Starting from no counts, no sequence of store operations makes a count
      negative. */
  lemma {:induction false} RunKeepsNonNegative(counts: map<int, int>, clicks: seq<Click>)
    requires NonNegative(counts)
    ensures NonNegative(Run(counts, clicks))
    decreases |clicks|
  {
    if |clicks| > 0 {
      RunKeepsNonNegative(Apply(counts, clicks[0]), clicks[1..]);
    }
  }

  // -------------------------------------------------------------- buttons

  /** The "+" button is disabled when the count is truthy and has reached the
      position's stock; an absent or zero count leaves it enabled. */
  predicate PlusEnabled(counts: map<int, int>, p: OrderPosition)
    ensures CountOf(counts, p.id) == 0 ==> PlusEnabled(counts, p)
    ensures 0 < CountOf(counts, p.id) ==> (PlusEnabled(counts, p) <==> CountOf(counts, p.id) < p.count)
  {
    !(CountOf(counts, p.id) != 0 && CountOf(counts, p.id) >= p.count)
  }

  /** The "-" button is disabled when the count is absent or zero; on
      counts that are never negative it is enabled exactly when
      `decreaseCount` would change the state. */
  predicate MinusEnabled(counts: map<int, int>, p: OrderPosition)
    ensures NonNegative(counts) ==> (MinusEnabled(counts, p) <==> Decreased(counts, p.id) != counts)
  {
    CountOf(counts, p.id) != 0
  }

  predicate DistinctIds(ps: seq<OrderPosition>) {
    forall i, j :: 0 <= i < j < |ps| ==> ps[i].id != ps[j].id
  }

  /** Each position's count lies between zero and its stock. */
  predicate WithinStock(counts: map<int, int>, ps: seq<OrderPosition>) {
    forall i :: 0 <= i < |ps| ==> 0 <= CountOf(counts, ps[i].id) <= ps[i].count
  }

  /** A button press on the position at index `i`: it acts only when the
      button is enabled. */
  datatype Press = PressPlus(i: nat) | PressMinus(i: nat)

  function Pressed(counts: map<int, int>, ps: seq<OrderPosition>, press: Press): map<int, int> {
    if press.i >= |ps| then counts
    else
      var p := ps[press.i];
      match press
      case PressPlus(_) => if PlusEnabled(counts, p) then Increased(counts, p.id) else counts
      case PressMinus(_) => if MinusEnabled(counts, p) then Decreased(counts, p.id) else counts
  }

  function PressAll(counts: map<int, int>, ps: seq<OrderPosition>, presses: seq<Press>): map<int, int>
    decreases |presses|
  {
    if |presses| == 0 then counts else PressAll(Pressed(counts, ps, presses[0]), ps, presses[1..])
  }

  /** One enabled press keeps every count within stock, provided every
      position has at least one unit (with a stock of 0 the "+" button of a
      zero count stays enabled). */
  lemma PressedKeepsWithinStock(counts: map<int, int>, ps: seq<OrderPosition>, press: Press)
    requires DistinctIds(ps) && forall i :: 0 <= i < |ps| ==> ps[i].count >= 1
    requires WithinStock(counts, ps)
    ensures WithinStock(Pressed(counts, ps, press), ps)
  {
    var r := Pressed(counts, ps, press);
    if press.i < |ps| {
      forall i | 0 <= i < |ps|
        ensures 0 <= CountOf(r, ps[i].id) <= ps[i].count
      {
        if i != press.i {
          assert ps[i].id != ps[press.i].id;
        }
      }
    }
  }

  lemma {:induction false} PressAllKeepsWithinStock(counts: map<int, int>, ps: seq<OrderPosition>, presses: seq<Press>)
    requires DistinctIds(ps) && forall i :: 0 <= i < |ps| ==> ps[i].count >= 1
    requires WithinStock(counts, ps)
    ensures WithinStock(PressAll(counts, ps, presses), ps)
    decreases |presses|
  {
    if |presses| > 0 {
      PressedKeepsWithinStock(counts, ps, presses[0]);
      PressAllKeepsWithinStock(Pressed(counts, ps, presses[0]), ps, presses[1..]);
    }
  }

  /** On the page's own positions, whatever the user presses, no count
      exceeds the stock. */
  lemma TestPositionsStayWithinStock(presses: seq<Press>)
    ensures WithinStock(PressAll(map[], TestPositions(), presses), TestPositions())
  {
    PressAllKeepsWithinStock(map[], TestPositions(), presses);
  }

  /** With a stock of 0 the bound fails: one press on "+" takes the count
      above the stock. */
  lemma ZeroStockIsExceeded()
    ensures var ps := [OrderPosition(7, "Sold out", 10, 0)];
      !WithinStock(PressAll(map[], ps, [PressPlus(0)]), ps)
  {
    var ps := [OrderPosition(7, "Sold out", 10, 0)];
    assert PressAll(map[], ps, [PressPlus(0)]) == PressAll(Pressed(map[], ps, PressPlus(0)), ps, []);
  }

  // ---------------------------------------------------------------- total

  /** The user's total: each position's price times the user's count. */
  function Total(ps: seq<OrderPosition>, counts: map<int, int>): int {
    if |ps| == 0 then 0
    else Total(ps[..|ps| - 1], counts) + ps[|ps| - 1].price * CountOf(counts, ps[|ps| - 1].id)
  }

  /** The summed price of the positions carrying `id`. */
  function PriceOfId(ps: seq<OrderPosition>, id: int): int {
    if |ps| == 0 then 0
    else PriceOfId(ps[..|ps| - 1], id) + (if ps[|ps| - 1].id == id then ps[|ps| - 1].price else 0)
  }

  /** One more unit of `id` raises the total by the price of `id`. */
  lemma {:induction false} TotalAfterIncrease(ps: seq<OrderPosition>, counts: map<int, int>, id: int)
    ensures Total(ps, Increased(counts, id)) == Total(ps, counts) + PriceOfId(ps, id)
  {
    if |ps| > 0 {
      TotalAfterIncrease(ps[..|ps| - 1], counts, id);
    }
  }

  /** One unit fewer of a held `id` lowers the total by the price of `id`. */
  lemma {:induction false} TotalAfterDecrease(ps: seq<OrderPosition>, counts: map<int, int>, id: int)
    requires CountOf(counts, id) > 0
    ensures Total(ps, Decreased(counts, id)) == Total(ps, counts) - PriceOfId(ps, id)
  {
    if |ps| > 0 {
      TotalAfterDecrease(ps[..|ps| - 1], counts, id);
    }
  }

  class UserStore {
    var userCounts: map<int, int>

    constructor()
      ensures userCounts == map[]
    {
      userCounts := map[];
    }

    method IncreaseCount(id: int)
      modifies this
      ensures userCounts == Increased(old(userCounts), id)
    {
      userCounts := userCounts[id := (if id in userCounts then userCounts[id] else 0) + 1];
    }

    method DecreaseCount(id: int)
      modifies this
      ensures userCounts == Decreased(old(userCounts), id)
    {
      var count := if id in userCounts then userCounts[id] else 0;
      if count > 0 {
        userCounts := userCounts[id := count - 1];
      }
    }

    /** The "+" button of a position. */
    method ClickPlus(p: OrderPosition)
      modifies this
      ensures userCounts == if PlusEnabled(old(userCounts), p) then Increased(old(userCounts), p.id) else old(userCounts)
    {
      var current := if p.id in userCounts then userCounts[p.id] else 0;
      if !(current != 0 && current >= p.count) {
        IncreaseCount(p.id);
      }
    }

    /** The "-" button of a position. */
    method ClickMinus(p: OrderPosition)
      modifies this
      ensures userCounts == if MinusEnabled(old(userCounts), p) then Decreased(old(userCounts), p.id) else old(userCounts)
    {
      var current := if p.id in userCounts then userCounts[p.id] else 0;
      if current != 0 {
        DecreaseCount(p.id);
      }
    }

    /** `getTotalPrice`. */
    method GetTotalPrice(ps: seq<OrderPosition>) returns (totalPrice: int)
      ensures totalPrice == Total(ps, userCounts)
    {
      totalPrice := 0;
      for i := 0 to |ps|
        invariant totalPrice == Total(ps[..i], userCounts)
      {
        var position := ps[i];
        var userCount := if position.id in userCounts then userCounts[position.id] else 0;
        totalPrice := totalPrice + position.price * userCount;
        assert ps[..i + 1][..i] == ps[..i];
      }
      assert ps[..|ps|] == ps;
    }
  }
}
