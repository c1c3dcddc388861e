/**
  The dual-currency cost figures (script.js): the per-row conversion of
  `createSubscriptionRow` and the four running totals of `updateStats`.
  Money is a mathematical real, so the identities between the figures hold
  exactly; the rounding of `toFixed` and `toLocaleString` is presentation.
*/
module Costs {
  import opened Subscriptions

  datatype Currency = USD | KRW

  /** `subscription.currency || 'USD'`, then the `=== 'KRW'` test. */
  function EffectiveCurrency(currency: string): (c: Currency)
    ensures c == KRW <==> currency == "KRW"
  {
    var shown := if currency == [] then "USD" else currency;
    if shown == "KRW" then KRW else USD
  }

  /** The four figures of the statistics panel. */
  datatype Totals = Totals(monthlyUSD: real, yearlyUSD: real, monthlyKRW: real, yearlyKRW: real)

  /** The totals of no subscription at all: the initial `let ... = 0`. */
  const Zero := Totals(0.0, 0.0, 0.0, 0.0)

  /** Figure-wise sum. */
  function Add(a: Totals, b: Totals): Totals {
    Totals(a.monthlyUSD + b.monthlyUSD, a.yearlyUSD + b.yearlyUSD,
           a.monthlyKRW + b.monthlyKRW, a.yearlyKRW + b.yearlyKRW)
  }

  /**
    Figures that agree with each other: yearly is twelve months, and the
    won amount is the dollar amount at the given rate.
  */
  predicate Consistent(t: Totals, rate: real) {
    && t.yearlyUSD == 12.0 * t.monthlyUSD
    && t.yearlyKRW == 12.0 * t.monthlyKRW
    && t.monthlyKRW == t.monthlyUSD * rate
    && t.yearlyKRW == t.yearlyUSD * rate
  }

  /**
    What one subscription adds to the four totals, with the four branches of
    the `forEach` body. The amount in the subscription's own currency and
    period is its price; the other three follow from it.
  */
  function Contribution(s: Subscription, rate: real): (t: Totals)
    requires rate > 0.0
    ensures Consistent(t, rate)
    ensures EffectiveCurrency(s.currency) == KRW && s.period == "monthly" ==> t.monthlyKRW == s.price
    ensures EffectiveCurrency(s.currency) == KRW && s.period != "monthly" ==> t.yearlyKRW == s.price
    ensures EffectiveCurrency(s.currency) == USD && s.period == "monthly" ==> t.monthlyUSD == s.price
    ensures EffectiveCurrency(s.currency) == USD && s.period != "monthly" ==> t.yearlyUSD == s.price
  {
    var p := s.price;
    if EffectiveCurrency(s.currency) == KRW then
      if s.period == "monthly" then
        WonMonthlyConsistent(p, rate);
        Totals(p / rate, (p * 12.0) / rate, p, p * 12.0)
      else
        WonYearlyConsistent(p, rate);
        Totals(p / 12.0 / rate, p / rate, p / 12.0, p)
    else
      if s.period == "monthly" then
        DollarMonthlyConsistent(p, rate);
        Totals(p, p * 12.0, p * rate, (p * 12.0) * rate)
      else
        DollarYearlyConsistent(p, rate);
        Totals(p / 12.0, p, (p / 12.0) * rate, p * rate)
  }

  // The four branches of the `forEach` body each add consistent figures.

  lemma WonMonthlyConsistent(p: real, rate: real)
    requires rate > 0.0
    ensures Consistent(Totals(p / rate, (p * 12.0) / rate, p, p * 12.0), rate)
  {
    var u := p / rate;
    assert u * rate == p;
    assert (p * 12.0) / rate == 12.0 * u;
  }

  lemma WonYearlyConsistent(p: real, rate: real)
    requires rate > 0.0
    ensures Consistent(Totals(p / 12.0 / rate, p / rate, p / 12.0, p), rate)
  {
    var m := p / 12.0;
    var u := m / rate;
    assert u * rate == m;
    assert p / rate == 12.0 * u;
  }

  lemma DollarMonthlyConsistent(p: real, rate: real)
    requires rate > 0.0
    ensures Consistent(Totals(p, p * 12.0, p * rate, (p * 12.0) * rate), rate)
  {
    assert (p * 12.0) * rate == 12.0 * (p * rate);
  }

  lemma DollarYearlyConsistent(p: real, rate: real)
    requires rate > 0.0
    ensures Consistent(Totals(p / 12.0, p, (p / 12.0) * rate, p * rate), rate)
  {
    var m := p / 12.0;
    assert p == 12.0 * m;
    assert p * rate == 12.0 * (m * rate);
  }

  /**
    `updateStats`: the totals after the `forEach` has visited every
    subscription in list order.
  */
  function Aggregate(subs: seq<Subscription>, rate: real): (t: Totals)
    requires rate > 0.0
    ensures Consistent(t, rate)
    ensures subs == [] ==> t == Zero
  {
    if subs == [] then Zero
    else
      var acc := Aggregate(subs[..|subs| - 1], rate);
      var c := Contribution(subs[|subs| - 1], rate);
      ConsistentAdd(acc, c, rate);
      Add(acc, c)
  }

  /** Adding consistent figures gives consistent figures. */
  lemma ConsistentAdd(a: Totals, b: Totals, rate: real)
    requires Consistent(a, rate) && Consistent(b, rate)
    ensures Consistent(Add(a, b), rate)
  {
    assert (a.monthlyUSD + b.monthlyUSD) * rate == a.monthlyUSD * rate + b.monthlyUSD * rate;
    assert (a.yearlyUSD + b.yearlyUSD) * rate == a.yearlyUSD * rate + b.yearlyUSD * rate;
  }

  /** Visiting one more subscription adds its contribution. */
  lemma AggregateSnoc(subs: seq<Subscription>, s: Subscription, rate: real)
    requires rate > 0.0
    ensures Aggregate(subs + [s], rate) == Add(Aggregate(subs, rate), Contribution(s, rate))
  {
    assert (subs + [s])[..|subs|] == subs;
  }

  /** The totals of one list followed by another are the sum of their totals. */
  lemma {:induction false} AggregateAppend(a: seq<Subscription>, b: seq<Subscription>, rate: real)
    requires rate > 0.0
    ensures Aggregate(a + b, rate) == Add(Aggregate(a, rate), Aggregate(b, rate))
    decreases |b|
  {
    if b == [] {
      assert a + b == a;
    } else {
      var b' := b[..|b| - 1];
      assert (a + b)[..|a + b| - 1] == a + b';
      assert (a + b)[|a + b| - 1] == b[|b| - 1];
      AggregateAppend(a, b', rate);
    }
  }

  /**
    The order of the list does not change the totals: any two lists holding
    the same records, counted with multiplicity, have the same totals.
  */
  lemma {:induction false} AggregatePermutation(a: seq<Subscription>, b: seq<Subscription>, rate: real)
    requires rate > 0.0
    requires multiset(a) == multiset(b)
    ensures Aggregate(a, rate) == Aggregate(b, rate)
    decreases |a|
  {
    if a == [] {
      assert |b| == |multiset(b)| == 0;
    } else {
      var n := |a| - 1;
      var x := a[n];
      var a' := a[..n];
      assert a == a' + [x];
      assert x in multiset(b);
      assert x in b;
      var i :| 0 <= i < |b| && b[i] == x;
      var b1, b2 := b[..i], b[i + 1..];
      assert b == b1 + [x] + b2;
      var b' := b1 + b2;
      CancelOne(a', x, b1, b2);
      var c := Contribution(x, rate);
      calc {
        Aggregate(b, rate);
        { AggregateAppend(b1 + [x], b2, rate); }
        Add(Aggregate(b1 + [x], rate), Aggregate(b2, rate));
        { AggregateSnoc(b1, x, rate); }
        Add(Add(Aggregate(b1, rate), c), Aggregate(b2, rate));
        { AddSwap(Aggregate(b1, rate), c, Aggregate(b2, rate)); }
        Add(Add(Aggregate(b1, rate), Aggregate(b2, rate)), c);
        { AggregateAppend(b1, b2, rate); }
        Add(Aggregate(b', rate), c);
        { AggregatePermutation(a', b', rate); }
        Add(Aggregate(a', rate), c);
        { AggregateSnoc(a', x, rate); }
        Aggregate(a, rate);
      }
    }
  }

  /** Adding c before or after q gives the same totals. */
  lemma AddSwap(p: Totals, c: Totals, q: Totals)
    ensures Add(Add(p, c), q) == Add(Add(p, q), c)
  {}

  /** Taking the same element out of two equal multisets leaves equal multisets. */
  lemma CancelOne<T>(a: seq<T>, x: T, b1: seq<T>, b2: seq<T>)
    requires multiset(a + [x]) == multiset(b1 + [x] + b2)
    ensures multiset(a) == multiset(b1 + b2)
  {
    assert multiset(a + [x]) == multiset(a) + multiset{x};
    assert multiset(b1 + [x] + b2) == multiset(b1) + multiset{x} + multiset(b2);
    assert multiset(b1 + b2) == multiset(b1) + multiset(b2);
    forall y
      ensures multiset(a)[y] == multiset(b1 + b2)[y]
    {
      assert multiset(a + [x])[y] == multiset(a)[y] + multiset{x}[y];
      assert multiset(b1 + [x] + b2)[y] == multiset(b1)[y] + multiset{x}[y] + multiset(b2)[y];
    }
  }

  /** Swapping two blocks of the list does not change the totals. */
  lemma AggregateOrderIrrelevant(a: seq<Subscription>, b: seq<Subscription>, rate: real)
    requires rate > 0.0
    ensures Aggregate(a + b, rate) == Aggregate(b + a, rate)
  {
    AggregateAppend(a, b, rate);
    AggregateAppend(b, a, rate);
  }

  /** A list of one subscription totals to that subscription's contribution. */
  lemma AggregateSingle(s: Subscription, rate: real)
    requires rate > 0.0
    ensures Aggregate([s], rate) == Contribution(s, rate)
  {
    assert [s][..0] == [];
  }

  /**
    The body of the `forEach` callback as written: the four accumulators
    each grow by the subscription's share.
  */
  method Visit(monthlyUSD: real, yearlyUSD: real, monthlyKRW: real, yearlyKRW: real, s: Subscription, rate: real)
    returns (monthlyUSD': real, yearlyUSD': real, monthlyKRW': real, yearlyKRW': real)
    requires rate > 0.0
    ensures Totals(monthlyUSD', yearlyUSD', monthlyKRW', yearlyKRW')
         == Add(Totals(monthlyUSD, yearlyUSD, monthlyKRW, yearlyKRW), Contribution(s, rate))
  {
    var p := s.price;
    if EffectiveCurrency(s.currency) == KRW {
      if s.period == "monthly" {
        monthlyKRW' := monthlyKRW + p;
        yearlyKRW' := yearlyKRW + p * 12.0;
        monthlyUSD' := monthlyUSD + p / rate;
        yearlyUSD' := yearlyUSD + (p * 12.0) / rate;
      } else {
        monthlyKRW' := monthlyKRW + p / 12.0;
        yearlyKRW' := yearlyKRW + p;
        monthlyUSD' := monthlyUSD + p / 12.0 / rate;
        yearlyUSD' := yearlyUSD + p / rate;
      }
    } else {
      if s.period == "monthly" {
        monthlyUSD' := monthlyUSD + p;
        yearlyUSD' := yearlyUSD + p * 12.0;
        monthlyKRW' := monthlyKRW + p * rate;
        yearlyKRW' := yearlyKRW + (p * 12.0) * rate;
      } else {
        monthlyUSD' := monthlyUSD + p / 12.0;
        yearlyUSD' := yearlyUSD + p;
        monthlyKRW' := monthlyKRW + (p / 12.0) * rate;
        yearlyKRW' := yearlyKRW + p * rate;
      }
    }
  }

  /**
    `updateStats` as written: four accumulators, starting at zero, updated
    in one pass over the list. They end at the list's totals.
  */
  method UpdateStats(subs: seq<Subscription>, rate: real) returns (t: Totals)
    requires rate > 0.0
    ensures t == Aggregate(subs, rate)
    ensures Consistent(t, rate)
  {
    var monthlyUSD, yearlyUSD, monthlyKRW, yearlyKRW := 0.0, 0.0, 0.0, 0.0;
    var i := 0;
    while i < |subs|
      invariant 0 <= i <= |subs|
      invariant Totals(monthlyUSD, yearlyUSD, monthlyKRW, yearlyKRW) == Aggregate(subs[..i], rate)
    {
      monthlyUSD, yearlyUSD, monthlyKRW, yearlyKRW := Visit(monthlyUSD, yearlyUSD, monthlyKRW, yearlyKRW, subs[i], rate);
      assert subs[..i + 1] == subs[..i] + [subs[i]];
      AggregateSnoc(subs[..i], subs[i], rate);
      i := i + 1;
    }
    assert subs[..i] == subs;
    t := Totals(monthlyUSD, yearlyUSD, monthlyKRW, yearlyKRW);
  }

  /** A record without a currency is counted exactly as a dollar record. */
  lemma MissingCurrencyCountsAsUSD(s: Subscription, rate: real)
    requires rate > 0.0
    requires s.currency == []
    ensures Contribution(s, rate) == Contribution(s.(currency := "USD"), rate)
  {}

  /** Any period other than "monthly" is counted exactly as "yearly". */
  lemma OtherPeriodCountsAsYearly(s: Subscription, rate: real)
    requires rate > 0.0
    requires s.period != "monthly"
    ensures Contribution(s, rate) == Contribution(s.(period := "yearly"), rate)
  {}

  /**
    A dollar price and the same price converted to won contribute the same
    figures: the choice of currency changes nothing but the unit of entry.
  */
  lemma CurrencyRoundTrip(s: Subscription, rate: real)
    requires rate > 0.0
    requires EffectiveCurrency(s.currency) == USD
    ensures Contribution(s, rate) == Contribution(s.(currency := "KRW", price := s.price * rate), rate)
  {}

  /** The prices shown in the dollar and won columns of a table row. */
  datatype RowPrices = RowPrices(usd: real, krw: real)

  /**
    `createSubscriptionRow`'s conversion: the price in its own currency and
    the other column converted at the rate.
  */
  function ConvertRow(s: Subscription, rate: real): (r: RowPrices)
    requires rate > 0.0
    ensures r.krw == r.usd * rate
    ensures EffectiveCurrency(s.currency) == KRW ==> r.krw == s.price
    ensures EffectiveCurrency(s.currency) == USD ==> r.usd == s.price
  {
    if EffectiveCurrency(s.currency) == KRW then RowPrices(s.price / rate, s.price)
    else RowPrices(s.price, s.price * rate)
  }

  /**
    The row and the statistics agree: the row shows the subscription's
    amount per its own period, which is its monthly contribution for a
    monthly record and its yearly contribution otherwise.
  */
  lemma RowMatchesContribution(s: Subscription, rate: real)
    requires rate > 0.0
    ensures var r := ConvertRow(s, rate);
            var c := Contribution(s, rate);
            if s.period == "monthly" then r.usd == c.monthlyUSD && r.krw == c.monthlyKRW
            else r.usd == c.yearlyUSD && r.krw == c.yearlyKRW
  {}

  /** Ten dollars a month at 1300 won to the dollar. */
  lemma DollarMonthlyExample(s: Subscription)
    requires s.currency == "USD" && s.period == "monthly" && s.price == 10.0
    ensures Aggregate([s], 1300.0) == Totals(10.0, 120.0, 13000.0, 156000.0)
  {
    AggregateSingle(s, 1300.0);
  }

  /** 120000 won a year at 1200 won to the dollar. */
  lemma WonYearlyExample(s: Subscription)
    requires s.currency == "KRW" && s.period == "yearly" && s.price == 120000.0
    ensures Aggregate([s], 1200.0) == Totals(100.0 / 12.0, 100.0, 10000.0, 120000.0)
  {
    AggregateSingle(s, 1200.0);
  }
}
