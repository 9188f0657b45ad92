/** Best time to buy and sell a stock (Array-I/buySellStocks.cpp): the largest gain
    prices[j] - prices[i] over a buy day i before a sell day j, or 0 when no pair
    gains. The prices are read only, so they are a sequence here. */
module BuySellStocks {

  /** The largest 32-bit int, the starting value of the running minimum price. */
  const IntMax := 0x7fff_ffff

  /** profit is the best gain of one buy followed by one later sale, and 0 when
      no such pair gains: it bounds every pair and is reached by one, unless 0. */
  ghost predicate IsMaxProfit(prices: seq<int>, profit: int) {
    && profit >= 0
    && (forall i, j :: 0 <= i < j < |prices| ==> prices[j] - prices[i] <= profit)
    && (profit == 0 || exists i, j :: 0 <= i < j < |prices| && prices[j] - prices[i] == profit)
  }

  /** The best profit is determined by the prices, so any two methods meeting
      IsMaxProfit return the same value; it is 0 exactly when no later price is
      above an earlier one. */
  lemma MaxProfitUnique(prices: seq<int>, p1: int, p2: int)
    requires IsMaxProfit(prices, p1) && IsMaxProfit(prices, p2)
    ensures p1 == p2
    ensures p1 == 0 <==> forall i, j :: 0 <= i < j < |prices| ==> prices[j] <= prices[i]
  {
    if p1 != 0 {
      var i, j :| 0 <= i < j < |prices| && prices[j] - prices[i] == p1;
    }
    if p2 != 0 {
      var i, j :| 0 <= i < j < |prices| && prices[j] - prices[i] == p2;
    }
  }

  /** The brute force: every buy day i, every later sell day j, keeping the largest
      gain. */
  method MaxProfitBruteForce(prices: seq<int>) returns (maxPro: int)
    ensures IsMaxProfit(prices, maxPro)
  {
    maxPro := 0;
    var n := |prices|;
    var i := 0;
    while i < n
      invariant 0 <= i <= n
      invariant maxPro >= 0
      invariant forall a, b :: 0 <= a < i && a < b < n ==> prices[b] - prices[a] <= maxPro
      invariant maxPro == 0 || exists a, b :: 0 <= a < b < n && prices[b] - prices[a] == maxPro
    {
      var j := i + 1;
      while j < n
        invariant i + 1 <= j <= n
        invariant maxPro >= 0
        invariant forall a, b :: 0 <= a < i && a < b < n ==> prices[b] - prices[a] <= maxPro
        invariant forall b :: i < b < j ==> prices[b] - prices[i] <= maxPro
        invariant maxPro == 0 || exists a, b :: 0 <= a < b < n && prices[b] - prices[a] == maxPro
      {
        if prices[j] > prices[i] {
          if prices[j] - prices[i] > maxPro {
            maxPro := prices[j] - prices[i];
          }
        }
        j := j + 1;
      }
      i := i + 1;
    }
  }

  /** The single pass: the lowest price so far is the best buy for a sale today, so
      the best gain is the largest price - minPrice. Prices are C++ ints, so none
      is above INT_MAX. */
  method MaxProfit(prices: seq<int>) returns (maxProfit: int)
    requires forall k :: 0 <= k < |prices| ==> prices[k] <= IntMax
    ensures IsMaxProfit(prices, maxProfit)
  {
    var minPrice := IntMax;
    maxProfit := 0;
    var i := 0;
    while i < |prices|
      invariant 0 <= i <= |prices|
      invariant forall k :: 0 <= k < i ==> minPrice <= prices[k]
      invariant i > 0 ==> exists k :: 0 <= k < i && prices[k] == minPrice
      invariant i == 0 ==> minPrice == IntMax
      invariant maxProfit >= 0
      invariant forall a, b :: 0 <= a < b < i ==> prices[b] - prices[a] <= maxProfit
      invariant maxProfit == 0 || exists a, b :: 0 <= a < b < i && prices[b] - prices[a] == maxProfit
    {
      var price := prices[i];
      if price < minPrice {
        minPrice := price;
      }
      var profit := price - minPrice;
      if profit > maxProfit {
        var k :| 0 <= k < i + 1 && prices[k] == minPrice;
        assert k < i;
        maxProfit := profit;
      }
      i := i + 1;
    }
  }

  /** The example of the solution file: buy at 1, sell at 6. */
  lemma Example()
    ensures IsMaxProfit([7, 1, 5, 3, 6, 4], 5)
  {
    var s := [7, 1, 5, 3, 6, 4];
    assert s[4] - s[1] == 5;
  }

  /** Both solutions give 5 on the example. */
  method Demo() returns (bruteForce: int, onePass: int)
    ensures bruteForce == 5 && onePass == 5
  {
    var prices := [7, 1, 5, 3, 6, 4];
    bruteForce := MaxProfitBruteForce(prices);
    onePass := MaxProfit(prices);
    Example();
    MaxProfitUnique(prices, bruteForce, 5);
    MaxProfitUnique(prices, onePass, 5);
  }
}
