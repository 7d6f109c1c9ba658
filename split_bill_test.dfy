/** The second bill-splitting page: the user takes whole positions (or a
    percentage of one), and the store keeps the list of selected position
    ids and the amount the user pays for each. Amounts are real numbers,
    since a percentage share is fractional. */
module SplitBillTest {
  import opened Wrappers
  import SplitBill
  import Arrays

  type OrderPosition = SplitBill.OrderPosition

  /** `positions.find(pos => pos.id === id)`: the first position with that
      id, or none. */
  function Find(ps: seq<OrderPosition>, id: int): (r: Option<OrderPosition>)
    ensures r.Some? ==> r.value in ps && r.value.id == id
    ensures r.Some? ==> exists i :: 0 <= i < |ps| && ps[i] == r.value && forall j :: 0 <= j < i ==> ps[j].id != id
    ensures r.None? <==> forall p :: p in ps ==> p.id != id
  {
    if |ps| == 0 then None
    else if ps[0].id == id then Some(ps[0])
    else
      var r := Find(ps[1..], id);
      assert ps == [ps[0]] + ps[1..];
      assert r.Some? ==> exists i :: 0 <= i < |ps| && ps[i] == r.value && forall j :: 0 <= j < i ==> ps[j].id != id by {
        if r.Some? {
          var i :| 0 <= i < |ps[1..]| && ps[1..][i] == r.value && forall j :: 0 <= j < i ==> ps[1..][j].id != id;
          assert ps[i + 1] == r.value && forall j :: 0 <= j < i + 1 ==> ps[j].id != id;
        }
      }
      r
  }

  datatype ShareState = ShareState(selectedPositions: seq<int>, userPrices: map<int, real>)

  /** `userPrices[id] || 0`. */
  function PriceOf(prices: map<int, real>, id: int): real {
    if id in prices then prices[id] else 0.0
  }

  predicate NonNegative(prices: map<int, real>) {
    forall id :: id in prices ==> prices[id] >= 0.0
  }

  /** `increaseCount`: for a known position, the user's amount grows by the
      position's full price (price times units) and the id is appended to
      the selection; an unknown id changes nothing. */
  function Increased(s: ShareState, ps: seq<OrderPosition>, id: int): (r: ShareState)
    ensures Find(ps, id).None? ==> r == s
    ensures Find(ps, id).Some? ==>
      var p := Find(ps, id).value;
      && r.selectedPositions == s.selectedPositions + [id]
      && PriceOf(r.userPrices, id) == PriceOf(s.userPrices, id) + (p.price * p.count) as real
      && forall k :: k != id ==> PriceOf(r.userPrices, k) == PriceOf(s.userPrices, k)
    ensures NonNegative(s.userPrices) && (forall p :: p in ps ==> p.price * p.count >= 0) ==> NonNegative(r.userPrices)
  {
    match Find(ps, id)
    case None => s
    case Some(position) =>
      var userPrice := PriceOf(s.userPrices, id) + (position.price * position.count) as real;
      ShareState(s.selectedPositions + [id], s.userPrices[id := userPrice])
  }

  /** `decreaseCount`: for a known position whose amount covers its full
      price, the amount shrinks by it and every copy of the id leaves the
      selection; otherwise nothing changes. */
  function Decreased(s: ShareState, ps: seq<OrderPosition>, id: int): (r: ShareState)
    ensures Find(ps, id).None? ==> r == s
    ensures Find(ps, id).Some? ==>
      var p := Find(ps, id).value;
      var userPrice := PriceOf(s.userPrices, id) - (p.price * p.count) as real;
      && (userPrice < 0.0 ==> r == s)
      && (userPrice >= 0.0 ==>
            && r.selectedPositions == Arrays.Without(s.selectedPositions, id)
            && PriceOf(r.userPrices, id) == userPrice
            && forall k :: k != id ==> PriceOf(r.userPrices, k) == PriceOf(s.userPrices, k))
    ensures NonNegative(s.userPrices) ==> NonNegative(r.userPrices)
  {
    match Find(ps, id)
    case None => s
    case Some(position) =>
      var userPrice := PriceOf(s.userPrices, id) - (position.price * position.count) as real;
      if userPrice >= 0.0 then ShareState(Arrays.Without(s.selectedPositions, id), s.userPrices[id := userPrice])
      else s
  }

  /** `rangeCount`: for a known position the user's amount becomes the
      price of `percentage` percent of its units; the selection is never
      touched. */
  function RangeCounted(s: ShareState, ps: seq<OrderPosition>, id: int, percentage: real): (r: ShareState)
    ensures r.selectedPositions == s.selectedPositions
    ensures Find(ps, id).None? ==> r == s
    ensures Find(ps, id).Some? ==>
      var p := Find(ps, id).value;
      && PriceOf(r.userPrices, id) == SharePrice(p, percentage)
      && forall k :: k != id ==> PriceOf(r.userPrices, k) == PriceOf(s.userPrices, k)
    ensures NonNegative(s.userPrices) && percentage >= 0.0 && (forall p :: p in ps ==> p.price * p.count >= 0) ==> NonNegative(r.userPrices)
  {
    match Find(ps, id)
    case None => s
    case Some(position) => s.(userPrices := s.userPrices[id := SharePrice(position, percentage)])
  }

  /** The price of `percentage` percent of a position's units: a share of
      the position's full price in that proportion. */
  function SharePrice(p: OrderPosition, percentage: real): (r: real)
    ensures r == (p.price * p.count) as real * percentage / 100.0
    ensures p.price * p.count >= 0 && percentage >= 0.0 ==> r >= 0.0
  {
    var count := p.count as real * percentage / 100.0;
    p.price as real * count
  }

  /** `handlePositionClick`: a selected position is released (when its
      amount covers the full price), any other is taken; only that
      position's amount moves. */
  function Clicked(s: ShareState, ps: seq<OrderPosition>, id: int): (r: ShareState)
    ensures Find(ps, id).None? ==> r == s
    ensures Find(ps, id).Some? && id !in s.selectedPositions ==> r.selectedPositions == s.selectedPositions + [id]
    ensures Find(ps, id).Some? && id in s.selectedPositions &&
            PriceOf(s.userPrices, id) >= (Find(ps, id).value.price * Find(ps, id).value.count) as real ==>
              id !in r.selectedPositions
    ensures forall k :: k != id ==> PriceOf(r.userPrices, k) == PriceOf(s.userPrices, k)
  {
    if id in s.selectedPositions then Decreased(s, ps, id) else Increased(s, ps, id)
  }

  /** Two clicks on an unselected position undo each other: the selection
      is restored exactly and the position's amount is as before. */
  lemma ClickTwiceRestores(s: ShareState, ps: seq<OrderPosition>, id: int)
    requires id !in s.selectedPositions && PriceOf(s.userPrices, id) >= 0.0
    ensures var r := Clicked(Clicked(s, ps, id), ps, id);
      && r.selectedPositions == s.selectedPositions
      && forall k :: PriceOf(r.userPrices, k) == PriceOf(s.userPrices, k)
  {
    if Find(ps, id).Some? {
      var once := Clicked(s, ps, id);
      assert id in once.selectedPositions;
      Arrays.WithoutAppended(s.selectedPositions, id);
    }
  }

  // ---------------------------------------------------------------- sums

  /** The full price of all positions. */
  function FullPrice(ps: seq<OrderPosition>): int {
    if |ps| == 0 then 0 else FullPrice(ps[..|ps| - 1]) + ps[|ps| - 1].price * ps[|ps| - 1].count
  }

  /** The amounts of the selected positions, each position counted once. */
  function SelectedAmount(ps: seq<OrderPosition>, s: ShareState): real {
    if |ps| == 0 then 0.0
    else
      var p := ps[|ps| - 1];
      SelectedAmount(ps[..|ps| - 1], s) + (if p.id in s.selectedPositions then PriceOf(s.userPrices, p.id) else 0.0)
  }

  /** The selected amount depends only on the amounts of selected ids. */
  lemma {:induction false} SelectedAmountIgnoresUnselected(ps: seq<OrderPosition>, s: ShareState, t: ShareState)
    requires s.selectedPositions == t.selectedPositions
    requires forall id :: id in s.selectedPositions ==> PriceOf(s.userPrices, id) == PriceOf(t.userPrices, id)
    ensures SelectedAmount(ps, s) == SelectedAmount(ps, t)
  {
    if |ps| > 0 {
      SelectedAmountIgnoresUnselected(ps[..|ps| - 1], s, t);
    }
  }

  /** With non-negative amounts the selected amount is non-negative. */
  lemma {:induction false} SelectedAmountIsNonNegative(ps: seq<OrderPosition>, s: ShareState)
    requires NonNegative(s.userPrices)
    ensures SelectedAmount(ps, s) >= 0.0
  {
    if |ps| > 0 {
      SelectedAmountIsNonNegative(ps[..|ps| - 1], s);
    }
  }

  class ShareStore {
    var selectedPositions: seq<int>
    var userPrices: map<int, real>

    function State(): ShareState
      reads this
    {
      ShareState(selectedPositions, userPrices)
    }

    constructor()
      ensures State() == ShareState([], map[])
    {
      selectedPositions := [];
      userPrices := map[];
    }

    method IncreaseCount(id: int)
      modifies this
      ensures State() == Increased(old(State()), SplitBill.TestPositions(), id)
    {
      var position := Find(SplitBill.TestPositions(), id);
      if position.Some? {
        var p := position.value;
        var userPrice := (if id in userPrices then userPrices[id] else 0.0) + (p.price * p.count) as real;
        userPrices := userPrices[id := userPrice];
        selectedPositions := selectedPositions + [id];
      }
    }

    method DecreaseCount(id: int)
      modifies this
      ensures State() == Decreased(old(State()), SplitBill.TestPositions(), id)
    {
      var position := Find(SplitBill.TestPositions(), id);
      if position.Some? {
        var p := position.value;
        var userPrice := (if id in userPrices then userPrices[id] else 0.0) - (p.price * p.count) as real;
        if userPrice >= 0.0 {
          userPrices := userPrices[id := userPrice];
          selectedPositions := Arrays.Without(selectedPositions, id);
        }
      }
    }

    method RangeCount(id: int, percentage: real)
      modifies this
      ensures State() == RangeCounted(old(State()), SplitBill.TestPositions(), id, percentage)
    {
      var position := Find(SplitBill.TestPositions(), id);
      if position.Some? {
        var p := position.value;
        userPrices := userPrices[id := SharePrice(p, percentage)];
      }
    }

    method HandlePositionClick(positionId: int)
      modifies this
      ensures State() == Clicked(old(State()), SplitBill.TestPositions(), positionId)
    {
      if positionId in selectedPositions {
        DecreaseCount(positionId);
      } else {
        IncreaseCount(positionId);
      }
    }

    /** `getRemainingPrice`: what the user pays for the selected positions. */
    method GetRemainingPrice() returns (userPrice: real)
      ensures userPrice == SelectedAmount(SplitBill.TestPositions(), State())
    {
      var ps := SplitBill.TestPositions();
      userPrice := 0.0;
      for i := 0 to |ps|
        invariant userPrice == SelectedAmount(ps[..i], State())
      {
        var position := ps[i];
        if position.id in selectedPositions {
          userPrice := userPrice + (if position.id in userPrices then userPrices[position.id] else 0.0);
        }
        assert ps[..i + 1][..i] == ps[..i];
      }
      assert ps[..|ps|] == ps;
    }
  }

  /** `getTotalPrice`: the full price of the positions, whatever the store
      holds. */
  method GetTotalPrice(ps: seq<OrderPosition>) returns (totalPrice: int)
    ensures totalPrice == FullPrice(ps)
  {
    totalPrice := 0;
    for i := 0 to |ps|
      invariant totalPrice == FullPrice(ps[..i])
    {
      totalPrice := totalPrice + ps[i].price * ps[i].count;
      assert ps[..i + 1][..i] == ps[..i];
    }
    assert ps[..|ps|] == ps;
  }

  /** The page's total is 170. */
  lemma TestPositionsFullPrice()
    ensures FullPrice(SplitBill.TestPositions()) == 170
  {
    var ps := SplitBill.TestPositions();
    assert ps[..1][..0] == [];
    assert FullPrice(ps[..1]) == 50;
    assert ps[..2][..1] == ps[..1];
    assert FullPrice(ps[..2]) == 110;
    assert ps[..3] == ps && ps[..3][..2] == ps[..2];
  }
}
