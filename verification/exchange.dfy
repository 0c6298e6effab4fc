/**
 The exchange: an order book kept in placement order. Orders are appended,
 erased by 0-based position, and the book's value is the sum of
 amount * price over its ask orders.
 */
module Exchanges {
  import opened Wallets

  /** An order as placed; `kind` is "ask" or "bid". Never changed once made. */
  datatype Order = Order(kind: string, currency: string, amount: real, price: real)

  /** What one order adds to the portfolio value: its notional when it is an
      ask, nothing when it is anything else. */
  function AskNotional(o: Order): (r: real)
  {
    if o.kind == "ask" then o.amount * o.price else 0.0
  }

  /** The portfolio value of a book: the sum of the ask orders' notionals. */
  function AskValue(book: seq<Order>): (r: real)
  {
    if book == [] then 0.0 else AskNotional(book[0]) + AskValue(book[1..])
  }

  /** The book after erasing position `index`: in range, the order there is
      gone and every later one moves down by one; out of range, nothing changes. */
  function Erased<T>(book: seq<T>, index: int): (r: seq<T>)
    ensures 0 <= index < |book| ==> |r| == |book| - 1
    ensures 0 <= index < |book| ==> forall j :: 0 <= j < index ==> r[j] == book[j]
    ensures 0 <= index < |book| ==> forall j :: index <= j < |r| ==> r[j] == book[j + 1]
    ensures !(0 <= index < |book|) ==> r == book
  {
    if 0 <= index < |book| then book[..index] + book[index + 1..] else book
  }

  /** The value of two books laid end to end is the sum of their values. */
  lemma {:induction false} AskValueConcat(a: seq<Order>, b: seq<Order>)
    ensures AskValue(a + b) == AskValue(a) + AskValue(b)
  {
    if a == [] {
      assert a + b == b;
    } else {
      assert (a + b)[1..] == a[1..] + b;
      AskValueConcat(a[1..], b);
    }
  }

  /** Placing an order raises the value by that order's ask notional. */
  lemma PlaceAddsNotional(book: seq<Order>, o: Order)
    ensures AskValue(book + [o]) == AskValue(book) + AskNotional(o)
  {
    AskValueConcat(book, [o]);
  }

  /** Cancelling a valid position lowers the value by exactly the ask
      notional of the order removed. */
  lemma CancelRemovesNotional(book: seq<Order>, index: int)
    requires 0 <= index < |book|
    ensures AskValue(Erased(book, index)) == AskValue(book) - AskNotional(book[index])
  {
    var front, o, back := book[..index], book[index], book[index + 1..];
    assert book == front + ([o] + back);
    assert Erased(book, index) == front + back;
    AskValueConcat(front, [o] + back);
    assert AskValue([o] + back) == AskNotional(o) + AskValue(back) by {
      assert ([o] + back)[1..] == back;
    }
    AskValueConcat(front, back);
  }

  /** A book with no ask orders (an empty or all-bid book) is worth zero. */
  lemma {:induction false} AskValueWithoutAsks(book: seq<Order>)
    requires forall j :: 0 <= j < |book| ==> book[j].kind != "ask"
    ensures AskValue(book) == 0.0
  {
    if book != [] {
      AskValueWithoutAsks(book[1..]);
    }
  }

  /** Two asks, 2 BTC at 100 and 1 BTC at 200, around a bid for 5 ETH at 10. */
  lemma MixedBookValue()
    ensures AskValue([Order("ask", "BTC", 2.0, 100.0), Order("bid", "ETH", 5.0, 10.0),
                      Order("ask", "BTC", 1.0, 200.0)]) == 400.0
  {
    var book := [Order("ask", "BTC", 2.0, 100.0), Order("bid", "ETH", 5.0, 10.0),
                 Order("ask", "BTC", 1.0, 200.0)];
    assert "bid" != "ask" by { assert "bid"[0] != "ask"[0]; }
    assert book[1..] == [book[1], book[2]];
    assert book[1..][1..] == [book[2]];
  }

  /** The order book, in placement order. */
  class Exchange {
    var orderBook: seq<Order>

    constructor ()
      ensures orderBook == []
    {
      orderBook := [];
    }

    /** Appends `order` at the end of the book. */
    method PlaceOrder(order: Order)
      modifies this
      ensures orderBook == old(orderBook) + [order]
    {
      orderBook := orderBook + [order];
    }

    /** Erases the order at 0-based `index` when it is in range. */
    method CancelOrder(index: int)
      modifies this
      ensures orderBook == Erased(old(orderBook), index)
    {
      if 0 <= index < |orderBook| {
        orderBook := orderBook[..index] + orderBook[index + 1..];
      }
    }

    /** Sums amount * price over the ask orders. The wallet is accepted and
        not consulted. */
    method CalculatePortfolioValue(wallet: Wallet) returns (totalValue: real)
      ensures totalValue == AskValue(orderBook)
    {
      totalValue := 0.0;
      var i := 0;
      while i < |orderBook|
        invariant 0 <= i <= |orderBook|
        invariant totalValue == AskValue(orderBook[..i])
      {
        var order := orderBook[i];
        assert orderBook[..i + 1] == orderBook[..i] + [order];
        AskValueConcat(orderBook[..i], [order]);
        if order.kind == "ask" {
          totalValue := totalValue + order.amount * order.price;
        }
        i := i + 1;
      }
      assert orderBook[..i] == orderBook;
    }
  }
}
