/** The rows of the long tables and the key order pandas sorts groups by. */
module Records {
  import opened Tables

  /** Identifying columns of the mortality table: Country, Year, Cancer, Sex. */
  datatype MortalityIds = MortalityIds(country: string, year: int, cancer: string, sex: string)

  /** Identifying columns of the population table: Country, Year, Sex. */
  datatype PopulationIds = PopulationIds(country: string, year: int, sex: string)

  /** A row of the merged table: the mortality row's columns and the population cell joined to it. */
  datatype Row = Row(country: string, year: int, cancer: string, sex: string, age: string,
                     deaths: Option<nat>, pop: Option<nat>)

  /** The aggregation key (Country, Year, Cancer, Age, Sex), in the order the columns are grouped by. */
  datatype FactKey = FactKey(country: string, year: int, cancer: string, age: string, sex: string)

  function KeyOf(r: Row): FactKey
  {
    FactKey(r.country, r.year, r.cancer, r.age, r.sex)
  }

  /** A row is complete when neither of its nullable cells is missing. */
  predicate IsComplete(r: Row)
  {
    r.deaths.Some? && r.pop.Some?
  }

  /** Code-point lexicographic order on strings: how Python compares `str` values. */
  predicate StrLess(a: string, b: string)
    decreases |a|
  {
    if |a| == 0 then |b| > 0
    else if |b| == 0 then false
    else a[0] < b[0] || (a[0] == b[0] && StrLess(a[1..], b[1..]))
  }

  lemma {:induction false} StrLessIrreflexive(a: string)
    ensures !StrLess(a, a)
    decreases |a|
  {
    if |a| > 0 {
      StrLessIrreflexive(a[1..]);
    }
  }

  lemma {:induction false} StrLessTransitive(a: string, b: string, c: string)
    requires StrLess(a, b) && StrLess(b, c)
    ensures StrLess(a, c)
    decreases |a|
  {
    if |a| > 0 && a[0] == b[0] && b[0] == c[0] {
      StrLessTransitive(a[1..], b[1..], c[1..]);
    }
  }

  lemma {:induction false} StrLessTotal(a: string, b: string)
    requires a != b
    ensures StrLess(a, b) || StrLess(b, a)
    decreases |a|
  {
    if |a| > 0 && |b| > 0 && a[0] == b[0] {
      assert a == [a[0]] + a[1..] && b == [b[0]] + b[1..];
      StrLessTotal(a[1..], b[1..]);
    }
  }

  /** The order of a sorted groupby index: lexicographic over the key's columns, Year numerically. */
  predicate KeyLess(a: FactKey, b: FactKey)
  {
    || StrLess(a.country, b.country)
    || (a.country == b.country && a.year < b.year)
    || (a.country == b.country && a.year == b.year && StrLess(a.cancer, b.cancer))
    || (a.country == b.country && a.year == b.year && a.cancer == b.cancer && StrLess(a.age, b.age))
    || (a.country == b.country && a.year == b.year && a.cancer == b.cancer && a.age == b.age
        && StrLess(a.sex, b.sex))
  }

  lemma KeyLessIrreflexive(a: FactKey)
    ensures !KeyLess(a, a)
  {
    StrLessIrreflexive(a.country);
    StrLessIrreflexive(a.cancer);
    StrLessIrreflexive(a.age);
    StrLessIrreflexive(a.sex);
  }

  lemma KeyLessTransitive(a: FactKey, b: FactKey, c: FactKey)
    requires KeyLess(a, b) && KeyLess(b, c)
    ensures KeyLess(a, c)
  {
    if StrLess(a.country, b.country) && StrLess(b.country, c.country) {
      StrLessTransitive(a.country, b.country, c.country);
    }
    if StrLess(a.cancer, b.cancer) && StrLess(b.cancer, c.cancer) {
      StrLessTransitive(a.cancer, b.cancer, c.cancer);
    }
    if StrLess(a.age, b.age) && StrLess(b.age, c.age) {
      StrLessTransitive(a.age, b.age, c.age);
    }
    if StrLess(a.sex, b.sex) && StrLess(b.sex, c.sex) {
      StrLessTransitive(a.sex, b.sex, c.sex);
    }
  }

  lemma KeyLessTotal(a: FactKey, b: FactKey)
    requires a != b
    ensures KeyLess(a, b) || KeyLess(b, a)
  {
    if a.country != b.country {
      StrLessTotal(a.country, b.country);
    } else if a.year != b.year {
    } else if a.cancer != b.cancer {
      StrLessTotal(a.cancer, b.cancer);
    } else if a.age != b.age {
      StrLessTotal(a.age, b.age);
    } else {
      StrLessTotal(a.sex, b.sex);
    }
  }
}
