/**
 * The rate table of the index page: one row per currency of the rate table, sorted by code, and the
 * search filter that decides which rows stay visible.
 */
module Table {
  import opened Strings
  import opened Rates

  /** One table row: the code, the name shown for it, and "INR per 1 unit of the code". */
  datatype Row = Row(code: Code, name: string, rate: real)

  /** `m` is the least element of `s` under the lexicographic order. */
  predicate IsMin(m: Code, s: set<Code>)
  {
    m in s && forall c :: c in s && c != m ==> LexLess(m, c)
  }

  lemma {:induction false} MinExists(s: set<Code>)
    requires s != {}
    ensures exists m :: IsMin(m, s)
  {
    var x :| x in s;
    if s != {x} {
      MinExists(s - {x});
      var m :| IsMin(m, s - {x});
      if LexLess(x, m) {
        forall c | c in s && c != x ensures LexLess(x, c) {
          if c != m {
            LexTransitive(x, m, c);
          }
        }
        assert IsMin(x, s);
      } else {
        LexTotal(x, m);
        assert IsMin(m, s);
      }
    } else {
      assert IsMin(x, s);
    }
  }

  lemma MinUnique(s: set<Code>)
    ensures forall m1, m2 :: IsMin(m1, s) && IsMin(m2, s) ==> m1 == m2
  {
    LexStrictTotalOrder();
  }

  predicate StrictlySorted(codes: seq<Code>)
  {
    forall i, j :: 0 <= i < j < |codes| ==> LexLess(codes[i], codes[j])
  }

  /** The codes of `s` in ascending order, each once (`.sort((a, b) => a.code.localeCompare(b.code))`). */
  function SortedCodes(s: set<Code>): (r: seq<Code>)
    ensures StrictlySorted(r)
    ensures forall c :: c in r <==> c in s
    ensures |r| == |s|
    decreases s
  {
    if s == {} then []
    else
      MinExists(s);
      MinUnique(s);
      var m :| IsMin(m, s);
      [m] + SortedCodes(s - {m})
  }

  /** The head of a strictly sorted listing of `s` is the least element of `s`. */
  lemma HeadIsMin(s: set<Code>, r: seq<Code>)
    requires StrictlySorted(r) && r != []
    requires forall c :: c in r <==> c in s
    ensures IsMin(r[0], s)
  {
    forall c | c in s && c != r[0] ensures LexLess(r[0], c) {
      var j :| 0 <= j < |r| && r[j] == c;
    }
  }

  /** The tail of a strictly sorted listing of `s` lists `s` without its head. */
  lemma TailLists(s: set<Code>, r: seq<Code>)
    requires StrictlySorted(r) && r != []
    requires forall c :: c in r <==> c in s
    ensures StrictlySorted(r[1..])
    ensures forall c :: c in r[1..] <==> c in s - {r[0]}
  {
    var rest := r[1..];
    forall c ensures c in rest <==> c in s - {r[0]} {
      if c in rest {
        var j :| 0 <= j < |rest| && rest[j] == c;
        assert LexLess(r[0], r[j + 1]);
        LexIrreflexive(r[0]);
      }
      if c in s - {r[0]} {
        var j :| 0 <= j < |r| && r[j] == c;
        assert rest[j - 1] == c;
      }
    }
  }

  /** Sorting has one answer: every strictly sorted listing of `s` is `SortedCodes(s)`. */
  lemma {:induction false} SortedCodesUnique(s: set<Code>, r: seq<Code>)
    requires StrictlySorted(r)
    requires forall c :: c in r <==> c in s
    ensures r == SortedCodes(s)
    decreases s
  {
    if r == [] {
      assert s == {};
    } else {
      assert r[0] in s;
      var sorted := SortedCodes(s);
      HeadIsMin(s, r);
      HeadIsMin(s, sorted);
      MinUnique(s);
      var m := r[0];
      assert sorted[0] == m;
      TailLists(s, r);
      TailLists(s, sorted);
      SortedCodesUnique(s - {m}, r[1..]);
      SortedCodesUnique(s - {m}, sorted[1..]);
      assert r == [m] + r[1..] && sorted == [m] + sorted[1..];
    }
  }

  /** `currencies[code] || code`: the known name, or the code itself when the name is missing or empty. */
  function DisplayName(names: map<Code, string>, code: Code): (n: string)
    ensures n == code || (code in names && n == names[code])
    ensures n == "" ==> code == ""
    ensures code in names && names[code] != "" ==> n == names[code]
    ensures !(code in names && names[code] != "") ==> n == code
  {
    if code in names && names[code] != "" then names[code] else code
  }

  /** The rows are in strictly ascending order of code. */
  predicate SortedByCode(rows: seq<Row>)
  {
    forall i, j :: 0 <= i < j < |rows| ==> LexLess(rows[i].code, rows[j].code)
  }

  /** The rows list exactly the entries of `t`: every row is an entry, and every entry has a row. */
  predicate ListsTable(rows: seq<Row>, t: RateTable)
  {
    && (forall i :: 0 <= i < |rows| ==> rows[i].code in t && rows[i].rate == t[rows[i].code])
    && (forall c :: c in t ==> exists i :: 0 <= i < |rows| && rows[i].code == c)
  }

  /** Each row shows the known, non-empty name of its code, and the code itself otherwise. */
  predicate NamedFrom(rows: seq<Row>, names: map<Code, string>)
  {
    && (forall i :: 0 <= i < |rows| && rows[i].code in names && names[rows[i].code] != "" ==>
          rows[i].name == names[rows[i].code])
    && (forall i :: 0 <= i < |rows| && (rows[i].code !in names || names[rows[i].code] == "") ==>
          rows[i].name == rows[i].code)
  }

  /**
   * The row projection of `updateCurrencyTable`: one row per entry of the table, sorted by code
   * (the lemmas below state the order, the coverage and the names).
   */
  function Rows(t: RateTable, names: map<Code, string>): (rows: seq<Row>)
    ensures |rows| == |t|
  {
    SortedCodesInTable(t);
    var codes := SortedCodes(t.Keys);
    RowsFor(t, names, codes)
  }

  /** One row per code of `codes`, in the same order. */
  function RowsFor(t: RateTable, names: map<Code, string>, codes: seq<Code>): (rows: seq<Row>)
    requires forall i :: 0 <= i < |codes| ==> codes[i] in t
    ensures |rows| == |codes|
    ensures forall i :: 0 <= i < |codes| ==> rows[i] == Row(codes[i], DisplayName(names, codes[i]), t[codes[i]])
    ensures forall c :: c in codes ==> exists i :: 0 <= i < |rows| && rows[i].code == c
  {
    var rows := seq(|codes|, i requires 0 <= i < |codes| => Row(codes[i], DisplayName(names, codes[i]), t[codes[i]]));
    assert forall c :: c in codes ==> exists i :: 0 <= i < |rows| && rows[i].code == c by {
      forall c | c in codes ensures exists i :: 0 <= i < |rows| && rows[i].code == c {
        var i :| 0 <= i < |codes| && codes[i] == c;
        assert rows[i].code == c;
      }
    }
    rows
  }

  lemma SortedCodesInTable(t: RateTable)
    ensures forall i :: 0 <= i < |SortedCodes(t.Keys)| ==> SortedCodes(t.Keys)[i] in t
  {
    var codes := SortedCodes(t.Keys);
    forall i | 0 <= i < |codes| ensures codes[i] in t {
      assert codes[i] in codes;
    }
  }

  /** The rows come in strictly ascending order of code, so no code appears twice. */
  lemma RowsSorted(t: RateTable, names: map<Code, string>)
    ensures SortedByCode(Rows(t, names))
  {
    var codes := SortedCodes(t.Keys);
    SortedCodesInTable(t);
    assert Rows(t, names) == RowsFor(t, names, codes);
  }

  /** The rows list exactly the entries of the table, each with its own rate. */
  lemma RowsListTable(t: RateTable, names: map<Code, string>)
    ensures ListsTable(Rows(t, names), t)
  {
    var codes := SortedCodes(t.Keys);
    SortedCodesInTable(t);
    assert Rows(t, names) == RowsFor(t, names, codes);
  }

  /** Every row shows the known name of its code, or the code itself when no non-empty name is known. */
  lemma RowsNamed(t: RateTable, names: map<Code, string>)
    ensures NamedFrom(Rows(t, names), names)
  {
    var codes := SortedCodes(t.Keys);
    SortedCodesInTable(t);
    assert Rows(t, names) == RowsFor(t, names, codes);
  }

  /** A row stays visible when its lower-cased code or name contains the (already lower-cased) search term. */
  predicate RowMatches(row: Row, searchTerm: string): (r: bool)
    ensures r ==> |searchTerm| <= |row.code| || |searchTerm| <= |row.name|
  {
    Contains(Lower(row.code), searchTerm) || Contains(Lower(row.name), searchTerm)
  }

  /** A row matches exactly when the term occurs in its lower-cased code or its lower-cased name. */
  lemma RowMatchesIffOccurs(row: Row, searchTerm: string)
    ensures RowMatches(row, searchTerm) <==>
              (exists i :: OccursAt(Lower(row.code), searchTerm, i)) ||
              (exists i :: OccursAt(Lower(row.name), searchTerm, i))
  {
    ContainsIffOccurs(Lower(row.code), searchTerm);
    ContainsIffOccurs(Lower(row.name), searchTerm);
  }

  /** An empty search keeps every row. */
  lemma EmptySearchMatchesAll(row: Row)
    ensures RowMatches(row, Lower(""))
  {
  }

  /** Searching for a row's code, in any letter case, keeps that row. */
  lemma SearchForCodeMatches(row: Row, searchInput: string)
    requires SameUpToCase(searchInput, row.code)
    ensures RowMatches(row, Lower(searchInput))
  {
    SameUpToCaseLowers(searchInput, row.code);
  }

  /** The filter ignores letter case: inputs that differ only in case keep the same rows. */
  lemma SearchIgnoresCase(row: Row, input1: string, input2: string)
    requires SameUpToCase(input1, input2)
    ensures RowMatches(row, Lower(input1)) == RowMatches(row, Lower(input2))
  {
    SameUpToCaseLowers(input1, input2);
  }
}
