/**
 * The rate logic of the exchange-rate page: rebuilding the API's EUR-based rate table into a table of
 * "INR per 1 unit of X", and converting an amount between two currencies of that table.
 * JavaScript doubles are modelled as exact `real`s.
 */
module Rates {
  import opened Wrappers

  type Code = string

  /** A rate table, keyed by currency code. */
  type RateTable = map<Code, real>

  /** The currency the upstream API quotes every rate against. */
  const Origin: Code := "EUR"

  /** The currency every rate of the page's table is expressed in. */
  const Display: Code := "INR"

  /** Message shown when a failed response gives no reason of its own. */
  const DefaultFailure: string := "Failed to fetch exchange rates"

  /** The parts of the API's JSON body the page reads: `success`, `error.info` and `rates` (units of X per 1 EUR). */
  datatype RatesResponse = RatesResponse(success: bool, errorInfo: Option<string>, rates: RateTable)

  /** `data.error?.info || 'Failed to fetch exchange rates'`: a missing or empty reason falls back to the default. */
  function FailureMessage(errorInfo: Option<string>): (m: string)
    ensures m != ""
    ensures errorInfo.Some? && errorInfo.value != "" ==> m == errorInfo.value
    ensures errorInfo.None? || errorInfo.value == "" ==> m == DefaultFailure
  {
    match errorInfo
    case Some(info) => if info != "" then info else DefaultFailure
    case None => DefaultFailure
  }

  /**
   * What exact division needs of a raw table: the pivot rate is present and no rate is zero.
   * The page itself does not check this. With INR missing, every entry becomes NaN and EUR becomes
   * `undefined`; the index page then throws when it formats the EUR rate, after the table was replaced.
   * A zero INR rate silently gives 0 for every code but INR. A code other than EUR quoted at 0 gets
   * Infinity; a zero EUR quote is harmless, because line 84 overwrites its entry. Both zero cases are
   * excluded here, because the loop divides by the zero rate before any override.
   */
  predicate Normalisable(raw: RateTable)
  {
    Display in raw && forall c :: c in raw ==> raw[c] != 0.0
  }

  /**
   * The table a successful refresh leaves behind: `inrRate / rate` for every raw code, then the two
   * overrides `EUR := inrRate` and `INR := 1`.
   */
  function Normalised(raw: RateTable): (t: RateTable)
    requires Normalisable(raw)
    ensures t.Keys == raw.Keys + {Origin, Display}
    ensures t[Display] == 1.0 && t[Origin] == raw[Display]
    ensures forall c :: c in raw && c != Origin && c != Display ==> t[c] == raw[Display] / raw[c]
  {
    (map c | c in raw :: raw[Display] / raw[c])[Origin := raw[Display]][Display := 1.0]
  }

  /** Filling the table entry by entry with `inrRate / rate`, then applying the two overrides, yields the normalised table. */
  lemma OverridesGiveNormalised(raw: RateTable, m: RateTable)
    requires Normalisable(raw)
    requires m.Keys == raw.Keys
    requires forall c :: c in m ==> m[c] == raw[Display] / raw[c]
    ensures m[Origin := raw[Display]][Display := 1.0] == Normalised(raw)
  {
    assert m == map c | c in raw :: raw[Display] / raw[c];
  }

  /** Rates a truthy lookup accepts: present and not zero (JavaScript treats `undefined` and `0` as false). */
  predicate Usable(t: RateTable, c: Code): (r: bool)
    ensures r ==> c in t
    ensures c in t ==> (r <==> t[c] != 0.0)
  {
    c in t && t[c] != 0.0
  }

  /** The table invariant the page keeps: no rate is zero, and a non-empty table rates its base currency at 1. */
  predicate TableInvariant(t: RateTable, base: Code)
  {
    (forall c :: c in t ==> t[c] != 0.0) && (t != map[] ==> base in t && t[base] == 1.0)
  }

  /** A normalised table satisfies the invariant with INR as its base. */
  lemma NormalisedInvariant(raw: RateTable)
    requires Normalisable(raw)
    ensures TableInvariant(Normalised(raw), Display)
  {
    var t := Normalised(raw);
    forall c | c in t ensures t[c] != 0.0 {
      if c != Origin && c != Display {
        assert raw[Display] / raw[c] != 0.0;
      }
    }
  }

  /** Positive raw rates give a table of positive rates. */
  lemma NormalisedPositive(raw: RateTable)
    requires Normalisable(raw)
    requires forall c :: c in raw ==> raw[c] > 0.0
    ensures forall c :: c in Normalised(raw) ==> Normalised(raw)[c] > 0.0
  {
  }

  /** Units of `c` per 1 EUR, as the API means it: its raw rate, and 1 for EUR itself. */
  function Quote(raw: RateTable, c: Code): (q: real)
    requires c in raw || c == Origin
  {
    if c == Origin then 1.0 else raw[c]
  }

  /** The API quotes EUR at 1, if it lists EUR at all. */
  predicate OriginConsistent(raw: RateTable)
  {
    Origin in raw ==> raw[Origin] == 1.0
  }

  /**
   * Every entry of the normalised table is "INR per 1 unit of that currency": the pivot rate divided by
   * the currency's own quote. The two overrides agree with this reading.
   */
  lemma NormalisedMeaning(raw: RateTable)
    requires Normalisable(raw) && OriginConsistent(raw)
    ensures forall c :: c in Normalised(raw) ==> Normalised(raw)[c] == raw[Display] / Quote(raw, c)
  {
    var t := Normalised(raw);
    var d := raw[Display];
    forall c | c in t ensures t[c] == d / Quote(raw, c) {
      if c == Display {
        assert Quote(raw, c) == d && d != 0.0;
        DivSelf(d);
      } else if c == Origin {
        assert Quote(raw, c) == 1.0;
      } else {
        assert Quote(raw, c) == raw[c];
      }
    }
  }

  lemma DivSelf(d: real)
    requires d != 0.0
    ensures d / d == 1.0
  {
  }

  lemma RatioOfQuotients(d: real, a: real, b: real)
    requires d != 0.0 && a != 0.0 && b != 0.0
    ensures (d / a) / (d / b) == b / a
  {
    var x, y := d / a, d / b;
    assert x * a == d && y * b == d;
    assert x * a == y * b;
    assert y != 0.0;
  }

  /** The result of `performConversion`. */
  datatype Conversion =
    | NoSelection
    | InvalidSelection
    | Converted(amount: real, convertedAmount: real, unitRate: real)

  /** `parseFloat(input) || 0`: an unparsable amount (`None`, NaN in the page) counts as 0. */
  function AmountOf(input: Option<real>): (a: real)
    ensures a == 0.0 <==> input.None? || input.value == 0.0
    ensures a != 0.0 ==> a == input.value
  {
    match input
    case Some(x) => x
    case None => 0.0
  }

  /**
   * Converting `amount` units of `from` into `to` against the table `t`. An empty selection does nothing;
   * a code whose lookup is falsy is an invalid selection; otherwise the amount and the unit rate are computed.
   */
  function Convert(t: RateTable, amount: real, from: Code, to: Code): (r: Conversion)
    ensures r.NoSelection? <==> from == "" || to == ""
    ensures r.InvalidSelection? <==> from != "" && to != "" && !(Usable(t, from) && Usable(t, to))
    ensures r.Converted? ==> r.amount == amount && r.unitRate == t[from] / t[to]
    ensures r.Converted? ==> r.convertedAmount == amount * r.unitRate
  {
    if from == "" || to == "" then NoSelection
    else if !Usable(t, from) || !Usable(t, to) then InvalidSelection
    else Converted(amount, (amount * t[from]) / t[to], t[from] / t[to])
  }

  /** On a table that keeps the invariant, only a code missing from the table makes a selection invalid. */
  lemma InvalidOnlyWhenMissing(t: RateTable, base: Code, amount: real, from: Code, to: Code)
    requires TableInvariant(t, base)
    ensures Convert(t, amount, from, to).InvalidSelection? <==> from != "" && to != "" && (from !in t || to !in t)
  {
  }

  /** An amount of 0, including an unparsable one, converts to 0. */
  lemma ZeroAmountConvertsToZero(t: RateTable, input: Option<real>, from: Code, to: Code)
    requires AmountOf(input) == 0.0
    requires Convert(t, AmountOf(input), from, to).Converted?
    ensures Convert(t, AmountOf(input), from, to).convertedAmount == 0.0
  {
  }

  /** Converting back with the swapped pair returns the original amount, at the reciprocal unit rate. */
  lemma RoundTrip(t: RateTable, amount: real, from: Code, to: Code)
    requires Convert(t, amount, from, to).Converted?
    ensures var there := Convert(t, amount, from, to);
            Convert(t, there.convertedAmount, to, from)
              == Converted(there.convertedAmount, amount, 1.0 / there.unitRate)
  {
    var f, g := t[from], t[to];
    var u := f / g;
    var b := amount * f / g;
    assert u * (g / f) == 1.0;
    assert b * g / f == amount * (f / g) * (g / f);
    assert g / f == 1.0 / u;
  }

  /** Exchanging the two codes inverts the unit rate of a valid conversion. */
  lemma SwappedUnitRate(t: RateTable, amount: real, from: Code, to: Code)
    requires Convert(t, amount, from, to).Converted?
    ensures Convert(t, amount, to, from).Converted?
    ensures Convert(t, amount, to, from).unitRate == 1.0 / Convert(t, amount, from, to).unitRate
  {
    var f, g := t[from], t[to];
    assert (g / f) * (f / g) == 1.0;
  }

  /**
   * After a refresh, converting between two codes of the raw table (or EUR) does not depend on the pivot:
   * the unit rate is the ratio of the API's own quotes.
   */
  lemma ConvertNormalised(raw: RateTable, amount: real, from: Code, to: Code)
    requires Normalisable(raw) && OriginConsistent(raw)
    requires from in raw || from == Origin
    requires to in raw || to == Origin
    requires from != "" && to != ""
    ensures var q := Quote(raw, to) / Quote(raw, from);
            Convert(Normalised(raw), amount, from, to) == Converted(amount, amount * q, q)
  {
    var t := Normalised(raw);
    NormalisedMeaning(raw);
    NormalisedInvariant(raw);
    var d, qf, qt := raw[Display], Quote(raw, from), Quote(raw, to);
    assert t[from] == d / qf && t[to] == d / qt;
    RatioOfQuotients(d, qf, qt);
  }

  /** The worked example: EUR-based rates {INR: 90, USD: 1.1, EUR: 1}, then 100 EUR in USD. */
  lemma Example()
    ensures Normalised(map["INR" := 90.0, "USD" := 1.1, "EUR" := 1.0])
              == map["INR" := 1.0, "USD" := 90.0 / 1.1, "EUR" := 90.0]
    ensures Convert(Normalised(map["INR" := 90.0, "USD" := 1.1, "EUR" := 1.0]), 100.0, "EUR", "USD")
              == Converted(100.0, 110.0, 1.1)
  {
    var raw := map["INR" := 90.0, "USD" := 1.1, "EUR" := 1.0];
    var t := Normalised(raw);
    assert t.Keys == {"INR", "USD", "EUR"};
    ConvertNormalised(raw, 100.0, "EUR", "USD");
  }
}
