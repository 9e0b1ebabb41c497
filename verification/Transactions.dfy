/** Statement transactions: sign, type and amounts of a mapped transaction. */
module Transactions {
  import opened Wrappers
  import opened Money
  import MoneyText
  import Timestamps

  datatype Kind = Card | Refund | Transfer | Payment | Exchange | Fee | Credit | Debit

  /** The texts of an entry that are passed on as they are. */
  datatype Texts = Texts(id: string, description: string, reference: string, category: string, merchantName: string)

  /** The balance a statement was asked for. */
  datatype Source = Source(profile: int, balance: int)

  datatype Statement = Statement(date: string, detail: string, amount: BalanceAmount, fees: BalanceAmount,
                                 runningBalance: BalanceAmount, exchange: Option<(BalanceAmount, BalanceAmount)>,
                                 texts: Texts)

  datatype Transaction = Transaction(texts: Texts, source: Source, date: Timestamps.Instant, kind: Kind,
                                     amount: Amount, total: Amount, fees: Amount, runningBalance: Amount,
                                     exchange: Option<(Amount, Amount)>)

  datatype Failure = BadDate | BadAmount(error: MoneyError)

  function CreditOrDebit(totalCents: int): Kind {
    if totalCents > 0 then Credit else Debit
  }

  function Classify(detail: string, totalCents: int): Kind {
    if detail == "CARD_PAYMENT" || detail == "CARD" then Card
    else if detail == "CARD_REFUND" || detail == "CARD_CASHBACK" then (if totalCents > 0 then Refund else Card)
    else if detail == "TRANSFER" then Transfer
    else if detail == "DEPOSIT" || detail == "MONEY_ADDED" then CreditOrDebit(totalCents)
    else if detail == "PAYMENT" || detail == "ACQUIRING_PAYMENT" || detail == "DIRECT_DEBIT" then Payment
    else if detail == "CONVERSION" || detail == "EXCHANGE" then Exchange
    else if detail == "FEE" then Fee
    else CreditOrDebit(totalCents)
  }

  function MapExchange(e: Option<(BalanceAmount, BalanceAmount)>, other: int)
    : Result<Option<(Amount, Amount)>, Failure>
  {
    match e
    case None => Ok(None)
    case Some((source, target)) =>
      match ToMoney(source, other)
      case Err(e) => Err(BadAmount(e))
      case Ok(s) =>
        match ToMoney(target, other)
        case Err(e) => Err(BadAmount(e))
        case Ok(t) => Ok(Some((s, t)))
  }

  /** Maps one statement entry. The type is decided before the amount is known to be in range, from a
      conversion whose result may then be the platform's choice, other. */
  method MapTransaction(t: Statement, source: Source, other: int) returns (r: Result<Transaction, Failure>)
    ensures r == Mapped(t, source, other)
  {
    var date := Timestamps.Parse(t.date);
    if date.None? { return Err(BadDate); }
    var kind := Classify(t.detail, Cents(t.amount.value, other));
    var total := ToMoney(t.amount, other);
    if total.Err? { return Err(BadAmount(total.error)); }
    var amount := total.value;
    if amount.cents < 0 {
      amount := amount.(cents := MoneyText.Negate(amount.cents));
    }
    var fees := ToMoney(t.fees, other);
    if fees.Err? { return Err(BadAmount(fees.error)); }
    var runningBalance := ToMoney(t.runningBalance, other);
    if runningBalance.Err? { return Err(BadAmount(runningBalance.error)); }
    var exchange := MapExchange(t.exchange, other);
    if exchange.Err? { return Err(exchange.error); }
    return Ok(Transaction(t.texts, source, date.value, kind, amount, total.value, fees.value, runningBalance.value,
                          exchange.value));
  }

  function Mapped(t: Statement, source: Source, other: int): Result<Transaction, Failure> {
    var total, fees, balance := ToMoney(t.amount, other), ToMoney(t.fees, other), ToMoney(t.runningBalance, other);
    var exchange := MapExchange(t.exchange, other);
    if Timestamps.Parse(t.date).None? then Err(BadDate)
    else if total.Err? then Err(BadAmount(total.error))
    else if fees.Err? then Err(BadAmount(fees.error))
    else if balance.Err? then Err(BadAmount(balance.error))
    else if exchange.Err? then Err(exchange.error)
    else
      var cents := total.value.cents;
      Ok(Transaction(t.texts, source, Timestamps.Parse(t.date).value, Classify(t.detail, cents),
                     total.value.(cents := if cents < 0 then MoneyText.Negate(cents) else cents),
                     total.value, fees.value, balance.value, exchange.value))
  }

  /** Nothing in the result depends on what the platform converts out-of-range values to. */
  lemma MappedIndependent(t: Statement, source: Source, other: int, another: int)
    ensures Mapped(t, source, other) == Mapped(t, source, another)
  {
    ToMoneyInRange(t.amount, other, another);
    ToMoneyInRange(t.fees, other, another);
    ToMoneyInRange(t.runningBalance, other, another);
    if t.exchange.Some? {
      ToMoneyInRange(t.exchange.value.0, other, another);
      ToMoneyInRange(t.exchange.value.1, other, another);
    }
    hide ToMoney, Timestamps.Parse, Classify;
  }

  /** An entry maps exactly when its date parses and every amount in it is accepted. A mapped
      transaction's amount is the magnitude of its total, without overflow; credits and refunds are
      positive, debits are not; each other amount is that of its own field. */
  lemma MappedAmounts(t: Statement, source: Source, other: int)
    ensures Mapped(t, source, other).Ok? <==>
              && Timestamps.Parse(t.date).Some? && Accepted(t.amount) && Accepted(t.fees)
              && Accepted(t.runningBalance)
              && (t.exchange.Some? ==> Accepted(t.exchange.value.0) && Accepted(t.exchange.value.1))
    ensures Mapped(t, source, other).Ok? ==>
              var tx := Mapped(t, source, other).value;
              && INT64_MIN < tx.total.cents && 0 <= tx.amount.cents <= INT64_MAX
              && tx.amount.cents == Magnitude(tx.total.cents) && tx.amount.currency == tx.total.currency
              && (tx.kind == Credit || tx.kind == Refund ==> tx.total.cents > 0)
              && (tx.kind == Debit ==> tx.total.cents <= 0)
              && FromFields(t, source, other, tx)
  {
    ToMoneyInRange(t.amount, other, other);
    ToMoneyInRange(t.fees, other, other);
    ToMoneyInRange(t.runningBalance, other, other);
    if t.exchange.Some? {
      ToMoneyInRange(t.exchange.value.0, other, other);
      ToMoneyInRange(t.exchange.value.1, other, other);
    }
    if ToMoney(t.amount, other).Ok? { ClassifySign(t.detail, ToMoney(t.amount, other).value.cents); }
    hide ToMoney, Timestamps.Parse, Classify;
  }

  predicate FromFields(t: Statement, source: Source, other: int, tx: Transaction) {
    && tx.kind == Classify(t.detail, tx.total.cents)
    && tx.texts == t.texts && tx.source == source && Some(tx.date) == Timestamps.Parse(t.date)
    && Ok(tx.total) == ToMoney(t.amount, other) && Ok(tx.fees) == ToMoney(t.fees, other)
    && Ok(tx.runningBalance) == ToMoney(t.runningBalance, other)
    && (tx.exchange.Some? <==> t.exchange.Some?)
    && (tx.exchange.Some? ==> Ok(tx.exchange.value.0) == ToMoney(t.exchange.value.0, other)
                              && Ok(tx.exchange.value.1) == ToMoney(t.exchange.value.1, other))
  }

  predicate Accepted(a: BalanceAmount) {
    NewCurrency(a.currency).Ok? && InCentRange(a.value)
  }

  /** The type never contradicts the sign of the total, whatever the detail says. */
  lemma ClassifySign(detail: string, cents: int)
    ensures Classify(detail, cents) == Credit || Classify(detail, cents) == Refund ==> cents > 0
    ensures Classify(detail, cents) == Debit ==> cents <= 0
    ensures cents > 0 ==> Classify(detail, cents) != Debit
  {
  }

  /** The type by Wise's detail type; the sign decides only for card refunds, cashbacks, money coming in
      and anything unknown. */
  lemma KindByDetail(detail: string, cents: int)
    ensures var kind := Classify(detail, cents);
            var back := detail in {"CARD_REFUND", "CARD_CASHBACK"};
            var named := back || detail in {"CARD_PAYMENT", "CARD", "TRANSFER", "PAYMENT", "ACQUIRING_PAYMENT",
                                            "DIRECT_DEBIT", "CONVERSION", "EXCHANGE", "FEE"};
            && (kind == Card <==> detail in {"CARD_PAYMENT", "CARD"} || (back && cents <= 0))
            && (kind == Refund <==> back && cents > 0)
            && (kind == Transfer <==> detail == "TRANSFER")
            && (kind == Payment <==> detail in {"PAYMENT", "ACQUIRING_PAYMENT", "DIRECT_DEBIT"})
            && (kind == Exchange <==> detail in {"CONVERSION", "EXCHANGE"})
            && (kind == Fee <==> detail == "FEE")
            && (kind == Credit <==> !named && cents > 0)
            && (kind == Debit <==> !named && cents <= 0)
  {
  }

  /** Of several things wrong with an entry the first is reported: the date, then total, fees, balance,
      and the two sides of an exchange. */
  lemma FirstError(t: Statement, source: Source, other: int)
    requires Mapped(t, source, other).Err?
    ensures var e := Mapped(t, source, other).error;
            if Timestamps.Parse(t.date).None? then e == BadDate
            else if !Accepted(t.amount) then e == BadAmount(ToMoney(t.amount, other).error)
            else if !Accepted(t.fees) then e == BadAmount(ToMoney(t.fees, other).error)
            else if !Accepted(t.runningBalance) then e == BadAmount(ToMoney(t.runningBalance, other).error)
            else
              && t.exchange.Some?
              && if !Accepted(t.exchange.value.0) then e == BadAmount(ToMoney(t.exchange.value.0, other).error)
                 else !Accepted(t.exchange.value.1) && e == BadAmount(ToMoney(t.exchange.value.1, other).error)
  {
    hide Timestamps.Parse, Cents, Classify;
  }
}
