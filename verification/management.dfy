/**
 The management system: one wallet and one exchange, joined by the rules
 for placing asks and bids and for cancelling by the user's 1-based position.
 The console prompts and reads are replaced by parameters.
 */
module Management {
  import opened Wallets
  import opened Exchanges

  class CryptoManagementSystem {
    const wallet: Wallet
    const exchange: Exchange

    ghost predicate Valid()
      reads this, wallet
    {
      wallet.Valid()
    }

    constructor ()
      ensures Valid() && fresh(wallet) && fresh(exchange)
      ensures wallet.currencies == [] && exchange.orderBook == []
    {
      wallet := new Wallet();
      exchange := new Exchange();
    }

    /** Ask: debit the wallet, and place the ask only if the debit succeeded. */
    method PlaceAsk(currency: string, amount: real, price: real)
      requires Valid()
      modifies wallet, exchange
      ensures Valid()
      ensures wallet.currencies == Withdrawn(old(wallet.currencies), currency, amount)
      ensures exchange.orderBook
           == if RemoveStatus(old(wallet.currencies), currency, amount) == Removed
              then old(exchange.orderBook) + [Order("ask", currency, amount, price)]
              else old(exchange.orderBook)
    {
      var status := wallet.RemoveCurrency(currency, amount);
      if status == Removed {
        var ask := Order("ask", currency, amount, price);
        exchange.PlaceOrder(ask);
      }
    }

    /** Bid: credit the wallet, then place the bid whatever the deposit did. */
    method PlaceBid(currency: string, amount: real, price: real)
      requires Valid()
      modifies wallet, exchange
      ensures Valid()
      ensures wallet.currencies == Deposited(old(wallet.currencies), currency, amount)
      ensures amount < 0.0 ==> wallet.currencies == old(wallet.currencies)
      ensures exchange.orderBook == old(exchange.orderBook) + [Order("bid", currency, amount, price)]
    {
      wallet.InsertCurrency(currency, amount);
      var bid := Order("bid", currency, amount, price);
      exchange.PlaceOrder(bid);
    }

    /** Cancel by the user's 1-based position. */
    method CancelOrder(index: int)
      modifies exchange
      ensures exchange.orderBook == Erased(old(exchange.orderBook), index - 1)
      ensures 1 <= index <= |old(exchange.orderBook)| ==>
                exchange.orderBook == old(exchange.orderBook)[..index - 1] + old(exchange.orderBook)[index..]
    {
      exchange.CancelOrder(index - 1);
    }
  }

  /** A client run: deposit 10 LTC, withdraw 4 (balance 6), withdraw 7
      (insufficient, balance stays 6); then an ask for XRP, never deposited,
      places no order, while a bid always does. */
  method ClientRun()
  {
    var cms := new CryptoManagementSystem();
    cms.wallet.InsertCurrency("LTC", 10.0);
    assert cms.wallet.currencies == [Currency("LTC", 10.0)];
    var first := cms.wallet.RemoveCurrency("LTC", 4.0);
    assert first == Removed && cms.wallet.currencies == [Currency("LTC", 6.0)];
    var second := cms.wallet.RemoveCurrency("LTC", 7.0);
    assert second == Insufficient && cms.wallet.currencies == [Currency("LTC", 6.0)];
    assert "XRP" != "LTC" by { assert "XRP"[0] != "LTC"[0]; }
    cms.PlaceAsk("XRP", 5.0, 2.0);
    assert cms.exchange.orderBook == [];
    cms.PlaceBid("XRP", -1.0, 2.0);
    assert cms.exchange.orderBook == [Order("bid", "XRP", -1.0, 2.0)];
    assert cms.wallet.currencies == [Currency("LTC", 6.0)];
    cms.CancelOrder(2);
    assert |cms.exchange.orderBook| == 1;
    cms.CancelOrder(1);
    assert cms.exchange.orderBook == [];
  }
}
