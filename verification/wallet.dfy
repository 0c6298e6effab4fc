/**
 The wallet: a list of (currency code, amount) entries searched linearly by
 code. Deposits add to the first entry with that code or append a new one;
 withdrawals debit that entry only when it holds enough.
 */
module Wallets {

  /** One balance entry: a currency code and the quantity held. */
  datatype Currency = Currency(kind: string, amount: real)

  datatype Option<T> = None | Some(value: T)

  /** The four ways a withdrawal ends. The wallet reports success as `true`
      and each of the three failures as `false` with its own message. */
  datatype Removal = Removed | NegativeAmount | Insufficient | NotFound

  /** At most one entry per currency code. */
  ghost predicate Unique(s: seq<Currency>)
  {
    forall i, j :: 0 <= i < j < |s| ==> s[i].kind != s[j].kind
  }

  /** No entry holds a negative amount. */
  ghost predicate NonNegative(s: seq<Currency>)
  {
    forall i :: 0 <= i < |s| ==> s[i].amount >= 0.0
  }

  /** The wallet invariant. */
  ghost predicate WellFormed(s: seq<Currency>)
  {
    Unique(s) && NonNegative(s)
  }

  /** Position of the first entry for `kind`, as the front-to-back scans find it. */
  function Find(s: seq<Currency>, kind: string): (r: Option<nat>)
    ensures r.Some? ==> r.value < |s| && s[r.value].kind == kind
    ensures r.Some? ==> forall j :: 0 <= j < r.value ==> s[j].kind != kind
    ensures r.None? ==> forall j :: 0 <= j < |s| ==> s[j].kind != kind
  {
    if s == [] then None
    else if s[0].kind == kind then Some(0)
    else match Find(s[1..], kind)
      case None => None
      case Some(i) => Some(i + 1)
  }

  /** The amount held in `kind`, zero when there is no entry for it. */
  function BalanceOf(s: seq<Currency>, kind: string): (r: real)
  {
    match Find(s, kind)
    case Some(i) => s[i].amount
    case None => 0.0
  }

  /** True iff some entry has code `kind` and at least `amount` in it. */
  ghost predicate HasAtLeast(s: seq<Currency>, kind: string, amount: real)
  {
    exists i :: 0 <= i < |s| && s[i].kind == kind && s[i].amount >= amount
  }

  /** The entries after a deposit of `amount` in `kind`. */
  function Deposited(s: seq<Currency>, kind: string, amount: real): (r: seq<Currency>)
  {
    if amount < 0.0 then s
    else match Find(s, kind)
      case Some(i) => s[i := s[i].(amount := s[i].amount + amount)]
      case None => s + [Currency(kind, amount)]
  }

  /** How a withdrawal of `amount` from `kind` ends. */
  function RemoveStatus(s: seq<Currency>, kind: string, amount: real): (r: Removal)
  {
    if amount < 0.0 then NegativeAmount
    else match Find(s, kind)
      case None => NotFound
      case Some(i) => if s[i].amount >= amount then Removed else Insufficient
  }

  /** The entries after a withdrawal of `amount` from `kind`. */
  function Withdrawn(s: seq<Currency>, kind: string, amount: real): (r: seq<Currency>)
  {
    if RemoveStatus(s, kind, amount) == Removed then
      var i := Find(s, kind).value;
      s[i := s[i].(amount := s[i].amount - amount)]
    else s
  }

  /** A rejected (negative) deposit leaves the entries as they were. */
  lemma DepositNegative(s: seq<Currency>, kind: string, amount: real)
    requires amount < 0.0
    ensures Deposited(s, kind, amount) == s
  {
  }

  /** Depositing into a code that has an entry: that entry (the first one
      for the code) grows by exactly `amount`, nothing else changes. */
  lemma DepositExisting(s: seq<Currency>, kind: string, amount: real, i: nat)
    requires amount >= 0.0
    requires i < |s| && s[i].kind == kind
    requires forall j :: 0 <= j < i ==> s[j].kind != kind
    ensures |Deposited(s, kind, amount)| == |s|
    ensures Deposited(s, kind, amount)[i] == Currency(kind, s[i].amount + amount)
    ensures forall j :: 0 <= j < |s| && j != i ==> Deposited(s, kind, amount)[j] == s[j]
  {
    FindFirst(s, kind, i);
  }

  /** Depositing into a code without an entry appends exactly one entry. */
  lemma DepositNew(s: seq<Currency>, kind: string, amount: real)
    requires amount >= 0.0
    requires forall j :: 0 <= j < |s| ==> s[j].kind != kind
    ensures Deposited(s, kind, amount) == s + [Currency(kind, amount)]
  {
  }

  /** `Find` is determined by where the first match is. */
  lemma FindFirst(s: seq<Currency>, kind: string, i: nat)
    requires i < |s| && s[i].kind == kind
    requires forall j :: 0 <= j < i ==> s[j].kind != kind
    ensures Find(s, kind) == Some(i)
  {
  }

  /** A deposit keeps at most one entry per code and every amount non-negative. */
  lemma DepositPreservesWellFormed(s: seq<Currency>, kind: string, amount: real)
    requires WellFormed(s)
    ensures WellFormed(Deposited(s, kind, amount))
  {
    // An appended entry is for a code that `Find` saw in no existing entry.
  }

  /** A withdrawal keeps at most one entry per code and every amount non-negative. */
  lemma WithdrawPreservesWellFormed(s: seq<Currency>, kind: string, amount: real)
    requires WellFormed(s)
    ensures WellFormed(Withdrawn(s, kind, amount))
  {
  }

  /** The balance of `kind` after a deposit into `other`: it grows by
      exactly `amount` when the codes agree and the deposit is accepted,
      and is unchanged otherwise. */
  lemma BalanceAfterDeposit(s: seq<Currency>, other: string, amount: real, kind: string)
    ensures BalanceOf(Deposited(s, other, amount), kind)
         == if other == kind && amount >= 0.0 then BalanceOf(s, kind) + amount else BalanceOf(s, kind)
  {
    var r := Deposited(s, other, amount);
    if amount >= 0.0 && other != kind {
      // r differs from s only in entries for `other`, so the first `kind` entry stays put
      assert forall j :: 0 <= j < |s| ==> r[j].kind == s[j].kind;
      match Find(s, kind)
      case Some(i) => FindFirst(r, kind, i);
      case None =>
        assert forall j :: 0 <= j < |r| ==> r[j].kind != kind by {
          forall j | 0 <= j < |r| ensures r[j].kind != kind {
            if j < |s| { assert r[j].kind == s[j].kind; }
          }
        }
    } else if amount >= 0.0 {
      match Find(s, kind)
      case Some(i) => FindFirst(r, kind, i);
      case None => FindFirst(r, kind, |s|);
    }
  }

  /** Depositing A and then B into one code leaves exactly A + B more in it. */
  lemma DepositTwice(s: seq<Currency>, kind: string, a: real, b: real)
    requires a >= 0.0 && b >= 0.0
    ensures BalanceOf(Deposited(Deposited(s, kind, a), kind, b), kind) == BalanceOf(s, kind) + a + b
  {
    BalanceAfterDeposit(s, kind, a, kind);
    BalanceAfterDeposit(Deposited(s, kind, a), kind, b, kind);
  }

  /** What each withdrawal outcome means for a wallet with unique codes:
      success iff the amount is non-negative and the wallet holds enough;
      "not found" iff no entry has the code; "insufficient" iff an entry
      exists but holds less. */
  lemma RemoveStatusMeaning(s: seq<Currency>, kind: string, amount: real)
    requires Unique(s)
    ensures RemoveStatus(s, kind, amount) == NegativeAmount <==> amount < 0.0
    ensures RemoveStatus(s, kind, amount) == Removed <==> amount >= 0.0 && HasAtLeast(s, kind, amount)
    ensures RemoveStatus(s, kind, amount) == NotFound
        <==> amount >= 0.0 && forall j :: 0 <= j < |s| ==> s[j].kind != kind
    ensures RemoveStatus(s, kind, amount) == Insufficient
        <==> amount >= 0.0 && (exists j :: 0 <= j < |s| && s[j].kind == kind) && !HasAtLeast(s, kind, amount)
  {
    ContainsMeansBalance(s, kind, amount);
  }

  /** For a wallet with unique codes, holding at least `amount` of `kind`
      is the same as having an entry whose balance is at least `amount`. */
  lemma ContainsMeansBalance(s: seq<Currency>, kind: string, amount: real)
    requires Unique(s)
    ensures HasAtLeast(s, kind, amount) <==> Find(s, kind).Some? && BalanceOf(s, kind) >= amount
  {
    if HasAtLeast(s, kind, amount) {
      var i :| 0 <= i < |s| && s[i].kind == kind && s[i].amount >= amount;
      FindFirst(s, kind, i);
    }
  }

  /** The sufficiency query's edge cases: an unknown code is never held,
      and any request below zero is met by an existing entry, since no
      entry is negative. */
  lemma ContainsEdgeCases(s: seq<Currency>, kind: string, amount: real)
    ensures (forall j :: 0 <= j < |s| ==> s[j].kind != kind) ==> !HasAtLeast(s, kind, amount)
    ensures NonNegative(s) && amount < 0.0 && Find(s, kind).Some? ==> HasAtLeast(s, kind, amount)
  {
    if NonNegative(s) && amount < 0.0 && Find(s, kind).Some? {
      var i := Find(s, kind).value;
      assert s[i].kind == kind && s[i].amount >= amount;
    }
  }

  /** A successful withdrawal debits exactly `amount` from the entry for
      `kind` and changes nothing else; a failed one changes nothing. */
  lemma WithdrawEffect(s: seq<Currency>, kind: string, amount: real)
    ensures RemoveStatus(s, kind, amount) != Removed ==> Withdrawn(s, kind, amount) == s
    ensures RemoveStatus(s, kind, amount) == Removed ==>
      var i := Find(s, kind).value;
      && |Withdrawn(s, kind, amount)| == |s|
      && Withdrawn(s, kind, amount)[i] == Currency(kind, s[i].amount - amount)
      && BalanceOf(Withdrawn(s, kind, amount), kind) == BalanceOf(s, kind) - amount
      && forall j :: 0 <= j < |s| && j != i ==> Withdrawn(s, kind, amount)[j] == s[j]
  {
    if RemoveStatus(s, kind, amount) == Removed {
      var i := Find(s, kind).value;
      FindFirst(Withdrawn(s, kind, amount), kind, i);
    }
  }

  /** Withdrawing what was just deposited gives back the original entries,
      except that a code seen for the first time keeps a zero entry. */
  lemma DepositThenWithdraw(s: seq<Currency>, kind: string, amount: real)
    requires NonNegative(s) && amount >= 0.0
    ensures RemoveStatus(Deposited(s, kind, amount), kind, amount) == Removed
    ensures Withdrawn(Deposited(s, kind, amount), kind, amount)
         == if Find(s, kind).Some? then s else s + [Currency(kind, 0.0)]
  {
    match Find(s, kind)
    case Some(i) => RefundExisting(s, kind, amount, i);
    case None => RefundNew(s, kind, amount);
  }

  lemma RefundExisting(s: seq<Currency>, kind: string, amount: real, i: nat)
    requires amount >= 0.0 && Find(s, kind) == Some(i) && s[i].amount >= 0.0
    ensures RemoveStatus(Deposited(s, kind, amount), kind, amount) == Removed
    ensures Withdrawn(Deposited(s, kind, amount), kind, amount) == s
  {
    var d := Deposited(s, kind, amount);
    assert d == s[i := Currency(kind, s[i].amount + amount)];
    FindFirst(d, kind, i);
    assert Withdrawn(d, kind, amount) == d[i := Currency(kind, s[i].amount)];
  }

  lemma RefundNew(s: seq<Currency>, kind: string, amount: real)
    requires amount >= 0.0 && Find(s, kind).None?
    ensures RemoveStatus(Deposited(s, kind, amount), kind, amount) == Removed
    ensures Withdrawn(Deposited(s, kind, amount), kind, amount) == s + [Currency(kind, 0.0)]
  {
    var d := Deposited(s, kind, amount);
    assert d == s + [Currency(kind, amount)];
    FindFirst(d, kind, |s|);
  }

  /** The wallet, with its entries in insertion order. */
  class Wallet {
    var currencies: seq<Currency>

    ghost predicate Valid()
      reads this
    {
      WellFormed(currencies)
    }

    constructor ()
      ensures Valid() && currencies == []
    {
      currencies := [];
    }

    /** Deposit: rejected when `amount` is negative; otherwise credits the
        entry for `kind` or appends a new one. */
    method InsertCurrency(kind: string, amount: real)
      requires Valid()
      modifies this
      ensures Valid()
      ensures currencies == Deposited(old(currencies), kind, amount)
    {
      DepositPreservesWellFormed(currencies, kind, amount);
      if amount < 0.0 {
        return;
      }
      var i := 0;
      while i < |currencies|
        invariant 0 <= i <= |currencies|
        invariant currencies == old(currencies)
        invariant forall j :: 0 <= j < i ==> currencies[j].kind != kind
      {
        if currencies[i].kind == kind {
          FindFirst(currencies, kind, i);
          currencies := currencies[i := currencies[i].(amount := currencies[i].amount + amount)];
          return;
        }
        i := i + 1;
      }
      currencies := currencies + [Currency(kind, amount)];
    }

    /** Withdrawal: debits the entry for `kind` only when `amount` is
        non-negative and the entry holds at least `amount`. */
    method RemoveCurrency(kind: string, amount: real) returns (status: Removal)
      requires Valid()
      modifies this
      ensures Valid()
      ensures status == RemoveStatus(old(currencies), kind, amount)
      ensures currencies == Withdrawn(old(currencies), kind, amount)
    {
      WithdrawPreservesWellFormed(currencies, kind, amount);
      if amount < 0.0 {
        return NegativeAmount;
      }
      var i := 0;
      while i < |currencies|
        invariant 0 <= i <= |currencies|
        invariant currencies == old(currencies)
        invariant forall j :: 0 <= j < i ==> currencies[j].kind != kind
      {
        if currencies[i].kind == kind {
          FindFirst(currencies, kind, i);
          if currencies[i].amount >= amount {
            currencies := currencies[i := currencies[i].(amount := currencies[i].amount - amount)];
            return Removed;
          } else {
            return Insufficient;
          }
        }
        i := i + 1;
      }
      return NotFound;
    }

    /** Sufficiency query: does some entry for `kind` hold at least `amount`? */
    method ContainsCurrency(kind: string, amount: real) returns (found: bool)
      ensures found == HasAtLeast(currencies, kind, amount)
    {
      var i := 0;
      while i < |currencies|
        invariant 0 <= i <= |currencies|
        invariant forall j :: 0 <= j < i ==> !(currencies[j].kind == kind && currencies[j].amount >= amount)
      {
        if currencies[i].kind == kind && currencies[i].amount >= amount {
          return true;
        }
        i := i + 1;
      }
      return false;
    }
  }
}
