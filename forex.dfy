/**
 * The page's process-wide state and the operations that change it: refreshing the rate table from an API
 * response, storing currency names, rendering and filtering the rate table, and swapping the two selected
 * currencies of the converter. Element lookup, HTML and formatting are not modelled.
 */
module Forex {
  import opened Wrappers
  import opened Strings
  import opened Rates
  import opened Table

  /** How a refresh ends: the table was rebuilt, or the page shows an error with this message. */
  datatype RefreshOutcome = Refreshed | Failed(message: string)

  class ForexState {
    /** "INR per 1 unit of X" after a successful refresh; empty before the first one. */
    var exchangeRates: RateTable
    /** Display names by code, as loaded from the name service. */
    var currencies: map<Code, string>
    /** The currency the table is expressed in. */
    var baseCurrency: Code
    /** The values of the converter's two select elements ("" when nothing is selected). */
    var fromSel: Code
    var toSel: Code
    /** The rows of the index page's table and whether each one is displayed. */
    var table: seq<Row>
    var shown: seq<bool>

    ghost predicate Valid()
      reads this
    {
      TableInvariant(exchangeRates, baseCurrency) && |shown| == |table|
    }

    /** The page as loaded: no rates, no names, EUR as base, nothing selected, an empty table. */
    constructor ()
      ensures Valid()
      ensures exchangeRates == map[] && currencies == map[] && baseCurrency == Origin
      ensures fromSel == "" && toSel == "" && table == [] && shown == []
    {
      exchangeRates := map[];
      currencies := map[];
      baseCurrency := Origin;
      fromSel, toSel := "", "";
      table, shown := [], [];
    }

    /**
     * The body of `fetchExchangeRates` once the response is in: a failed response leaves the table as it was;
     * a successful one replaces the table by the normalised rates and makes INR the base.
     */
    method Refresh(response: RatesResponse) returns (outcome: RefreshOutcome)
      requires Valid()
      requires response.success ==> Normalisable(response.rates)
      modifies this`exchangeRates, this`baseCurrency
      ensures Valid()
      ensures !response.success ==>
                outcome == Failed(FailureMessage(response.errorInfo)) &&
                exchangeRates == old(exchangeRates) && baseCurrency == old(baseCurrency)
      ensures response.success ==>
                outcome == Refreshed && exchangeRates == Normalised(response.rates) && baseCurrency == Display
    {
      if !response.success {
        return Failed(FailureMessage(response.errorInfo));
      }
      var originalRates := response.rates;
      var inrRate := originalRates[Display];
      exchangeRates := map[];
      var pending := originalRates.Keys;
      while pending != {}
        invariant pending <= originalRates.Keys
        invariant exchangeRates.Keys == originalRates.Keys - pending
        invariant forall c :: c in exchangeRates ==> exchangeRates[c] == inrRate / originalRates[c]
        decreases pending
      {
        var currency :| currency in pending;
        exchangeRates := exchangeRates[currency := inrRate / originalRates[currency]];
        pending := pending - {currency};
      }
      OverridesGiveNormalised(originalRates, exchangeRates);
      exchangeRates := exchangeRates[Origin := inrRate];
      exchangeRates := exchangeRates[Display := 1.0];
      baseCurrency := Display;
      NormalisedInvariant(originalRates);
      outcome := Refreshed;
    }

    /** `fetchCurrencyNames`: a response that arrives replaces the names; a failed one keeps them. */
    method LoadNames(response: Option<map<Code, string>>)
      requires Valid()
      modifies this`currencies
      ensures Valid()
      ensures response.Some? ==> currencies == response.value
      ensures response.None? ==> currencies == old(currencies)
    {
      if response.Some? {
        currencies := response.value;
      }
    }

    /** `updateCurrencyTable`: the table is rebuilt from the current rates and names, every row displayed. */
    method RenderTable()
      requires Valid()
      modifies this`table, this`shown
      ensures Valid()
      ensures table == Rows(exchangeRates, currencies)
      ensures |shown| == |table| && forall i :: 0 <= i < |shown| ==> shown[i]
    {
      var rows := Rows(exchangeRates, currencies);
      var all := seq(|rows|, _ => true);
      assert forall i :: 0 <= i < |all| ==> all[i];
      table, shown := rows, all;
    }

    /** `filterCurrencyTable`: each row is displayed iff its code or name contains the search input, ignoring case. */
    method FilterTable(searchInput: string)
      requires Valid()
      modifies this`shown
      ensures Valid()
      ensures |shown| == |table|
      ensures forall i :: 0 <= i < |table| ==> shown[i] == RowMatches(table[i], Lower(searchInput))
      ensures searchInput == "" ==> forall i :: 0 <= i < |shown| ==> shown[i]
    {
      var searchTerm := Lower(searchInput);
      var i := 0;
      while i < |table|
        invariant 0 <= i <= |table| && |shown| == |table|
        invariant forall k :: 0 <= k < i ==> shown[k] == RowMatches(table[k], searchTerm)
      {
        var code := Lower(table[i].code);
        var name := Lower(table[i].name);
        shown := shown[i := Contains(code, searchTerm) || Contains(name, searchTerm)];
        i := i + 1;
      }
      if searchInput == "" {
        forall k | 0 <= k < |table| ensures shown[k] {
          EmptySearchMatchesAll(table[k]);
        }
      }
    }

    /**
     * `performConversion` on the current selection. On a valid state only a selected code that the table
     * lacks is an invalid selection.
     */
    function CurrentConversion(amountInput: Option<real>): (r: Conversion)
      reads this
      ensures Valid() ==>
                (r.InvalidSelection? <==> fromSel != "" && toSel != "" && (fromSel !in exchangeRates || toSel !in exchangeRates))
      ensures r.Converted? ==> r.amount == AmountOf(amountInput)
    {
      Convert(exchangeRates, AmountOf(amountInput), fromSel, toSel)
    }

    /** `swapCurrencies`: the two selections trade places and the conversion is redone. */
    method Swap(amountInput: Option<real>) returns (r: Conversion)
      modifies this`fromSel, this`toSel
      ensures fromSel == old(toSel) && toSel == old(fromSel)
      ensures r == CurrentConversion(amountInput)
      ensures r.NoSelection? == old(CurrentConversion(amountInput)).NoSelection?
      ensures r.InvalidSelection? == old(CurrentConversion(amountInput)).InvalidSelection?
      ensures old(CurrentConversion(amountInput)).Converted? ==>
                r.Converted? && r.unitRate == 1.0 / old(CurrentConversion(amountInput)).unitRate
    {
      var temp := fromSel;
      fromSel := toSel;
      toSel := temp;
      r := CurrentConversion(amountInput);
      if old(CurrentConversion(amountInput)).Converted? {
        SwappedUnitRate(exchangeRates, AmountOf(amountInput), toSel, fromSel);
      }
    }

    /** Swapping twice restores the selection and the displayed result. */
    method SwapTwice(amountInput: Option<real>) returns (r: Conversion)
      modifies this`fromSel, this`toSel
      ensures fromSel == old(fromSel) && toSel == old(toSel)
      ensures r == old(CurrentConversion(amountInput))
    {
      var _ := Swap(amountInput);
      r := Swap(amountInput);
    }
  }
}
