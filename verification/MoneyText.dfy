/** The printed form of an amount, and a parser that undoes it. */
module MoneyText {
  import opened Wrappers
  import opened Decimal
  import opened Money

  /** Negating an int64: the least one is its own negation. */
  function Negate(cents: int): int {
    if cents == INT64_MIN then INT64_MIN else -cents
  }

  /** Go's integer division truncates towards zero. */
  function Quot(a: int, b: int): int
    requires b > 0
  {
    if a >= 0 then a / b else -(-a / b)
  }

  function Rem(a: int, b: int): int
    requires b > 0
  {
    a - b * Quot(a, b)
  }

  /** The verbs %d and %02d; the width of the latter counts a minus sign. */
  function Verb(n: int): string { if n >= 0 then Text(n) else "-" + Text(-n) }

  function Verb02(n: int): string {
    if 0 <= n < 100 then Fixed(n, 2) else Verb(n)
  }

  function ToString(m: Amount): string {
    var magnitude := if m.cents < 0 then Negate(m.cents) else m.cents;
    var major, minor := Quot(magnitude, 100), Rem(magnitude, 100);
    m.currency + (if m.cents < 0 then " -" else " ") + Verb(major) + "." + Verb02(minor)
  }

  /** Reads "CUR [-]major.mm". */
  function Parse(s: string): Option<Amount> {
    if |s| < 8 || NewCurrency(s[..3]).Err? || s[3] != ' ' || s[|s| - 3] != '.' then None
    else
      var negative := s[4] == '-';
      var start := if negative then 5 else 4;
      if start >= |s| - 3 then None
      else
        var major, minor := s[start..|s| - 3], s[|s| - 2..];
        if !AllDigits(major) || !AllDigits(minor) then None
        else
          var magnitude := 100 * Value(major) + Value(minor);
          Some(Amount(if negative then -magnitude else magnitude, s[..3]))
  }

  lemma ParsePieces(currency: string, negative: bool, major: string, minor: string, s: string)
    requires NewCurrency(currency).Ok?
    requires AllDigits(major) && AllDigits(minor) && major != [] && |minor| == 2
    requires s == currency + (if negative then " -" else " ") + major + "." + minor
    ensures Parse(s) == Some(Amount((if negative then -1 else 1) * (100 * Value(major) + Value(minor)), currency))
  {
    hide Value;
    var start := if negative then 5 else 4;
    assert s[..3] == currency;
    assert s[start..|s| - 3] == major;
    assert s[|s| - 2..] == minor;
    assert !negative ==> s[4] == major[0];
  }

  lemma TwoDigits(n: nat)
    requires n < 100
    ensures Value(Fixed(n, 2)) == n
  {
    assert Pow10(2) == 100;
    FixedValue(n, 2);
  }

  /** Every other amount, split into its sign, major and minor units. */
  lemma ParsePrinted(m: Amount, n: nat, q: nat, r: nat)
    requires INT64_MIN < m.cents && NewCurrency(m.currency).Ok?
    requires n == (if m.cents < 0 then -m.cents else m.cents) && n == 100 * q + r && r < 100
    ensures Parse(ToString(m)) == Some(m)
  {
    hide *;
    Printed(m, q, r);
    TextValue(q);
    TwoDigits(r);
    ParsePieces(m.currency, m.cents < 0, Text(q), Fixed(r, 2), ToString(m));
  }

  /** Parse undoes ToString on every amount but the least int64, whose text is not an amount. */
  lemma ParseToString(m: Amount)
    requires INT64_MIN <= m.cents <= INT64_MAX && NewCurrency(m.currency).Ok?
    ensures Parse(ToString(m)) == Some(m) <==> m.cents != INT64_MIN
  {
    hide *;
    if m.cents == INT64_MIN {
      LeastAmount(m);
    } else {
      var n: nat := if m.cents < 0 then -m.cents else m.cents;
      ParsePrinted(m, n, n / 100, n % 100);
    }
  }

  lemma LeastAmount(m: Amount)
    requires m.cents == INT64_MIN && NewCurrency(m.currency).Ok?
    ensures Parse(ToString(m)).None?
  {
    var s := ToString(m);
    assert Verb02(-8) == "-8";
    assert s[|s| - 2..] == "-8";
  }

  /** Two amounts print alike only when they are equal. */
  lemma ToStringInjective(m: Amount, n: Amount)
    requires INT64_MIN < m.cents <= INT64_MAX && NewCurrency(m.currency).Ok?
    requires INT64_MIN < n.cents <= INT64_MAX && NewCurrency(n.currency).Ok?
    ensures ToString(m) == ToString(n) <==> m == n
  {
    ParseToString(m);
    ParseToString(n);
  }

  /** The sign belongs to the whole amount, and the minor units have two digits, also under one unit. */
  lemma Printed(m: Amount, q: nat, r: nat)
    requires INT64_MIN < m.cents && r < 100
    requires (if m.cents < 0 then -m.cents else m.cents) == 100 * q + r
    ensures ToString(m) == m.currency + (if m.cents < 0 then " -" else " ") + Text(q) + "." + Fixed(r, 2)
  {
    hide Text, Fixed;
    assert (100 * q + r) / 100 == q;
  }
}
