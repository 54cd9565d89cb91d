/** The exploration page: the chain of filters that narrows the fact table to one year, one sex,
    a set of countries and one cancer type, and the diagnostic that reports the selected countries
    the narrowed table has no rows for. */
module Explore {
  import opened Tables
  import opened Records
  import opened Rate

  /** A fact row matches every selection made on the page. */
  predicate Selected(r: FactRow, year: int, sex: string, countries: seq<string>, cancer: string)
  {
    r.key.year == year && r.key.sex == sex && r.key.country in countries && r.key.cancer == cancer
  }

  /** The combined selection, as a row predicate. */
  function Selection(year: int, sex: string, countries: seq<string>, cancer: string): FactRow -> bool
  {
    (r: FactRow) => Selected(r, year, sex, countries, cancer)
  }

  /** The four filters of the page, one per widget. */
  function YearIs(year: int): FactRow -> bool { (r: FactRow) => r.key.year == year }
  function SexIs(sex: string): FactRow -> bool { (r: FactRow) => r.key.sex == sex }
  function CountryIn(countries: seq<string>): FactRow -> bool { (r: FactRow) => r.key.country in countries }
  function CancerIs(cancer: string): FactRow -> bool { (r: FactRow) => r.key.cancer == cancer }

  /** Narrowing step by step selects the same rows, in the same order, as the combined selection. */
  lemma FilterChain(df: seq<FactRow>, year: int, sex: string, countries: seq<string>, cancer: string)
    ensures Where(Where(Where(Where(df, YearIs(year)), SexIs(sex)), CountryIn(countries)), CancerIs(cancer))
            == Where(df, Selection(year, sex, countries, cancer))
  {
    var yearSex := (r: FactRow) => YearIs(year)(r) && SexIs(sex)(r);
    var yearSexCountry := (r: FactRow) => yearSex(r) && CountryIn(countries)(r);
    var s1 := Where(df, YearIs(year));
    assert Where(s1, SexIs(sex)) == Where(df, yearSex) by {
      WhereWhere(df, YearIs(year), SexIs(sex), yearSex);
    }
    var s2 := Where(df, yearSex);
    assert Where(s2, CountryIn(countries)) == Where(df, yearSexCountry) by {
      WhereWhere(df, yearSex, CountryIn(countries), yearSexCountry);
    }
    var s3 := Where(df, yearSexCountry);
    assert Where(s3, CancerIs(cancer)) == Where(df, Selection(year, sex, countries, cancer)) by {
      WhereWhere(df, yearSexCountry, CancerIs(cancer), Selection(year, sex, countries, cancer));
    }
  }

  /** The filter chain: `subset` is narrowed by year, then sex, then country, then cancer. The
      result is the selection applied once to the whole table. */
  method SelectSubset(df: seq<FactRow>, year: int, sex: string, countries: seq<string>, cancer: string)
    returns (subset: seq<FactRow>)
    ensures subset == Where(df, Selection(year, sex, countries, cancer))
  {
    subset := Where(df, YearIs(year));
    subset := Where(subset, SexIs(sex));
    subset := Where(subset, CountryIn(countries));
    subset := Where(subset, CancerIs(cancer));
    FilterChain(df, year, sex, countries, cancer);
  }

  /** The selected subset keeps, in their order, exactly the rows of the table matching all four
      choices, each as often as the table holds it, and the table itself is not changed. */
  lemma SelectionMeaning(df: seq<FactRow>, year: int, sex: string, countries: seq<string>, cancer: string)
    ensures forall i :: 0 <= i < |Where(df, Selection(year, sex, countries, cancer))| ==>
              Selected(Where(df, Selection(year, sex, countries, cancer))[i], year, sex, countries, cancer)
    ensures forall x :: multiset(Where(df, Selection(year, sex, countries, cancer)))[x]
              == if Selected(x, year, sex, countries, cancer) then multiset(df)[x] else 0
  {
    forall x ensures multiset(Where(df, Selection(year, sex, countries, cancer)))[x]
                     == if Selected(x, year, sex, countries, cancer) then multiset(df)[x] else 0 {
      WhereCount(df, Selection(year, sex, countries, cancer), x);
    }
  }

  /** What the page reports below the charts. */
  datatype Diagnostic =
    | AllPresent                              // nothing is written
    | NoData                                  // "No data avaiable for given subset."
    | MissingCountries(missing: set<string>)  // "No data available for " + the missing countries

  /** `subset["Country"].unique()`, as a set. */
  function CountriesOf(rows: seq<FactRow>): (cs: set<string>)
    ensures forall i :: 0 <= i < |rows| ==> rows[i].key.country in cs
    ensures forall c :: c in cs ==> exists i :: 0 <= i < |rows| && rows[i].key.country == c
  {
    set i | 0 <= i < |rows| :: rows[i].key.country
  }

  /** The diagnostic as the page computes it: it compares the number of distinct countries in
      the subset with the length of the selection list; when they differ it reports no data if
      the subset has no country, and otherwise the selected countries absent from the subset. */
  function Diagnose(subset: seq<FactRow>, countries: seq<string>): (d: Diagnostic)
    ensures d.AllPresent? <==> |CountriesOf(subset)| == |countries|
    ensures d.NoData? <==> |CountriesOf(subset)| == 0 && |countries| != 0
    ensures d.MissingCountries? ==>
              forall c :: c in d.missing <==> c in countries && forall i :: 0 <= i < |subset| ==> subset[i].key.country != c
  {
    var present := CountriesOf(subset);
    if |present| != |countries| then
      if |present| == 0 then NoData
      else MissingCountries((set c | c in countries) - present)
    else AllPresent
  }

  /** No country occurs twice in the list (a multiselect returns each option at most once). */
  predicate Distinct(countries: seq<string>)
  {
    forall a, b :: 0 <= a < b < |countries| ==> countries[a] != countries[b]
  }

  lemma {:induction false} DistinctCard(countries: seq<string>)
    requires Distinct(countries)
    ensures |set c | c in countries| == |countries|
    decreases |countries|
  {
    if countries != [] {
      var n := |countries| - 1;
      var front := countries[..n];
      assert Distinct(front);
      DistinctCard(front);
      assert (set c | c in countries) == (set c | c in front) + {countries[n]};
      assert countries[n] !in (set c | c in front) by {
        forall a | 0 <= a < n ensures front[a] != countries[n] {
          assert front[a] == countries[a];
        }
      }
    }
  }

  lemma SubsetCard(a: set<string>, b: set<string>)
    requires a <= b && |a| == |b|
    ensures a == b
  {
    assert b == a + (b - a);
    assert a * (b - a) == {};
    assert |b - a| == 0;
  }

  /** The meaning of the diagnostic for a subset whose every row has a selected country, as
      every subset of the filter chain has (SelectionMeaning), and a selection without repeats: it reports nothing exactly when
      every selected country has a row; it reports no data exactly when the subset is empty while
      some country is selected; and otherwise it names exactly the selected countries with no
      row, of which there is at least one. */
  lemma DiagnoseMeaning(subset: seq<FactRow>, countries: seq<string>)
    requires Distinct(countries)
    requires forall i :: 0 <= i < |subset| ==> subset[i].key.country in countries
    ensures Diagnose(subset, countries).AllPresent? <==>
              forall c :: c in countries ==> exists i :: 0 <= i < |subset| && subset[i].key.country == c
    ensures Diagnose(subset, countries).NoData? <==> subset == [] && countries != []
    ensures Diagnose(subset, countries).MissingCountries? ==>
              subset != [] && Diagnose(subset, countries).missing != {}
  {
    var present := CountriesOf(subset);
    var selected := set c | c in countries;
    DistinctCard(countries);
    assert present <= selected;
    if forall c :: c in countries ==> exists i :: 0 <= i < |subset| && subset[i].key.country == c {
      assert selected <= present;
      assert present == selected;
    }
    if |present| == |countries| {
      SubsetCard(present, selected);
      forall c | c in countries ensures exists i :: 0 <= i < |subset| && subset[i].key.country == c {
        assert c in present;
      }
    }
    if subset != [] {
      assert subset[0].key.country in present;
    }
    if Diagnose(subset, countries).MissingCountries? {
      assert present != selected;
      assert selected - present != {};
    }
  }
}
