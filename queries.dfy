/**
 * The dashboard's queries over the loaded frame (the pandas expressions of
 * app.py): the pollutant list, the station coordinates, the yearly means and
 * the trend between the first and last of them, the five stations with the
 * highest mean, the years and stations offered for the detail view and the
 * daily series of one station in one year.
 */
module Queries {
  import opened Wrappers
  import opened Collections
  import opened Loading
  import DP = DataProcessing

  /** The boolean masks of app.py: `df["inquinante"] == p`, optionally `& df["anno"] == y` and `& df["nome_stazione"] == s`. */
  datatype Query = Query(inquinante: string, anno: Option<int>, stazione: Option<string>)
  {
    predicate Matches(x: Row)
    {
      && x.inquinante == inquinante
      && (anno.Some? ==> x.anno == anno.value)
      && (stazione.Some? ==> x.nomeStazione == stazione.value)
    }
  }

  /** `df[mask]`: the matching rows, in frame order. */
  function Where(df: seq<Row>, q: Query): (r: seq<Row>)
    ensures |r| <= |df|
    ensures forall x :: x in r <==> x in df && q.Matches(x)
    ensures forall x :: multiset(r)[x] == if q.Matches(x) then multiset(df)[x] else 0
    decreases |df|
  {
    if |df| == 0 then []
    else
      var last := df[|df| - 1];
      assert df == df[..|df| - 1] + [last];
      assert multiset(df) == multiset(df[..|df| - 1]) + multiset{last};
      Where(df[..|df| - 1], q) + (if q.Matches(last) then [last] else [])
  }

  /** Filtering a frame with one more row appends that row when it matches. */
  lemma WhereSnoc(df: seq<Row>, x: Row, q: Query)
    ensures Where(df + [x], q) == Where(df, q) + (if q.Matches(x) then [x] else [])
  {
    assert (df + [x])[..|df + [x]| - 1] == df;
  }

  /** The filter keeps frame order: it distributes over concatenation. */
  lemma {:induction false} WhereAppend(a: seq<Row>, b: seq<Row>, q: Query)
    ensures Where(a + b, q) == Where(a, q) + Where(b, q)
    decreases |b|
  {
    if |b| == 0 {
      assert a + b == a;
    } else {
      var b', last := b[..|b| - 1], b[|b| - 1];
      var tail := if q.Matches(last) then [last] else [];
      assert b == b' + [last];
      assert a + b == (a + b') + [last];
      calc {
        Where(a + b, q);
        Where((a + b') + [last], q);
        { WhereSnoc(a + b', last, q); }
        Where(a + b', q) + tail;
        { WhereAppend(a, b', q); }
        (Where(a, q) + Where(b', q)) + tail;
        Where(a, q) + (Where(b', q) + tail);
        { WhereSnoc(b', last, q); }
        Where(a, q) + Where(b' + [last], q);
        Where(a, q) + Where(b, q);
      }
    }
  }

  function Anno(x: Row): int { x.anno }

  function Nome(x: Row): string { x.nomeStazione }

  function Inquinante(x: Row): string { x.inquinante }

  function Valore(x: Row): real { x.valore }

  /** `df[column]`: one field of every row, in frame order. */
  function Column<K(!new)>(rows: seq<Row>, f: Row -> K): (c: seq<K>)
    ensures |c| == |rows|
    ensures forall i :: 0 <= i < |rows| ==> c[i] == f(rows[i])
    ensures forall k :: k in c <==> exists x :: x in rows && f(x) == k
  {
    var c := seq(|rows|, i requires 0 <= i < |rows| => f(rows[i]));
    forall x | x in rows
      ensures f(x) in c
    {
      var i :| 0 <= i < |rows| && rows[i] == x;
      assert c[i] == f(x);
    }
    c
  }

  /** One row of `groupby(key)["valore"].mean().reset_index()`. */
  datatype Group<K> = Group(key: K, mean: real)

  /** The distinct values of a column, sorted by a strict total order. */
  function SortedKeys<K(==,!new)>(rows: seq<Row>, f: Row -> K, lt: (K, K) -> bool): (r: seq<K>)
    requires StrictTotalOrder(lt)
    ensures StrictlySorted(r, lt)
    ensures forall k :: k in r <==> exists x :: x in rows && f(x) == k
  {
    SortedDistinct(Column(rows, f), lt)
  }

  /** The keys of some groups, in order. */
  function Keys<K>(g: seq<Group<K>>): (ks: seq<K>)
    ensures |ks| == |g|
    ensures forall i :: 0 <= i < |g| ==> ks[i] == g[i].key
  {
    seq(|g|, i requires 0 <= i < |g| => g[i].key)
  }

  // ---------------------------------------------------------------------
  // Pollutant list (app.py:56)
  // ---------------------------------------------------------------------

  /** `sorted(df["inquinante"].unique())`: strictly ascending, exactly the codes present. */
  function Pollutants(df: seq<Row>): (r: seq<string>)
    ensures StrictlySorted(r, StrLess)
    ensures Distinct(r)
    ensures forall p :: p in r <==> exists x :: x in df && x.inquinante == p
  {
    StrLessIsStrictTotalOrder();
    var r := SortedKeys(df, Inquinante, StrLess);
    StrictlySortedIsDistinct(r, StrLess);
    r
  }

  /** The menu depends only on which codes occur: a frame with NO2, PM10, NO2 offers NO2 then PM10. */
  lemma PollutantMenuExample(a: Row, b: Row, c: Row)
    requires a.inquinante == "NO2" && b.inquinante == "PM10" && c.inquinante == "NO2"
    ensures Pollutants([a, b, c]) == ["NO2", "PM10"]
  {
    StrLessIsStrictTotalOrder();
    var menu := Pollutants([a, b, c]);
    assert StrLess("NO2", "PM10");
    assert StrictlySorted(["NO2", "PM10"], StrLess);
    assert forall p :: p in menu <==> p in ["NO2", "PM10"] by {
      assert a in [a, b, c] && b in [a, b, c];
    }
    StrictlySortedUnique(menu, ["NO2", "PM10"], StrLess);
  }

  // ---------------------------------------------------------------------
  // Station coordinates (app.py:172-179)
  // ---------------------------------------------------------------------

  /** A row of `df_coord`: station name, latitude, longitude. */
  datatype StationPoint = StationPoint(nome: string, lat: real, lon: real)

  /** `lon` is `coordinate[0]`, `lat` is `coordinate[1]`. */
  function PointOf(x: Row): StationPoint
    requires |x.coordinate| >= 2
  {
    StationPoint(x.nomeStazione, x.coordinate[1], x.coordinate[0])
  }

  function Points(rows: seq<Row>): (pts: seq<StationPoint>)
    requires forall x :: x in rows ==> |x.coordinate| >= 2
    ensures forall pt :: pt in pts <==> exists x :: x in rows && pt == PointOf(x)
  {
    var pts := seq(|rows|, i requires 0 <= i < |rows| => assert rows[i] in rows; PointOf(rows[i]));
    forall x | x in rows
      ensures PointOf(x) in pts
    {
      var i :| 0 <= i < |rows| && rows[i] == x;
      assert pts[i] == PointOf(x);
    }
    pts
  }

  /**
   * `df_coord` after `drop_duplicates()`: no repeated (name, lat, lon) row,
   * and exactly the points of the pollutant's rows.
   */
  function StationPoints(df: seq<Row>, p: string): (r: seq<StationPoint>)
    requires forall x :: x in df && x.inquinante == p ==> |x.coordinate| >= 2
    ensures Distinct(r)
    ensures forall pt :: pt in r <==>
              exists x :: x in df && x.inquinante == p && |x.coordinate| >= 2 && pt == PointOf(x)
  {
    Dedup(Points(Where(df, Query(p, None, None))))
  }

  // ---------------------------------------------------------------------
  // Means
  // ---------------------------------------------------------------------

  function Sum(vs: seq<real>): real
    decreases |vs|
  {
    if |vs| == 0 then 0.0 else Sum(vs[..|vs| - 1]) + vs[|vs| - 1]
  }

  /** The arithmetic mean, as pandas' `mean()` over a non-empty group. */
  function Mean(vs: seq<real>): (m: real)
    requires |vs| > 0
    ensures m * (|vs| as real) == Sum(vs)
  {
    Sum(vs) / (|vs| as real)
  }

  lemma {:induction false} SumBounds(vs: seq<real>, lo: real, hi: real)
    requires forall i :: 0 <= i < |vs| ==> lo <= vs[i] <= hi
    ensures (|vs| as real) * lo <= Sum(vs) <= (|vs| as real) * hi
    decreases |vs|
  {
    if |vs| > 0 {
      var n := |vs| as real;
      SumBounds(vs[..|vs| - 1], lo, hi);
      assert (|vs[..|vs| - 1]| as real) == n - 1.0;
      assert lo <= vs[|vs| - 1] <= hi;
      assert (n - 1.0) * lo + lo == n * lo;
      assert (n - 1.0) * hi + hi == n * hi;
    }
  }

  /** A mean lies between the smallest and the largest value averaged. */
  lemma MeanBetween(vs: seq<real>, lo: real, hi: real)
    requires |vs| > 0
    requires forall i :: 0 <= i < |vs| ==> lo <= vs[i] <= hi
    ensures lo <= Mean(vs) <= hi
  {
    SumBounds(vs, lo, hi);
    var n := |vs| as real;
    var m := Mean(vs);
    assert m * n == Sum(vs);
  }

  /** The mean of equal values is that value. */
  lemma MeanOfConstant(vs: seq<real>, v: real)
    requires |vs| > 0
    requires forall i :: 0 <= i < |vs| ==> vs[i] == v
    ensures Mean(vs) == v
  {
    MeanBetween(vs, v, v);
  }

  /** The values of some rows, in order. */
  function Valori(rows: seq<Row>): seq<real>
  {
    Column(rows, Valore)
  }

  // ---------------------------------------------------------------------
  // Yearly means and trend (app.py:211, 227-241)
  // ---------------------------------------------------------------------

  /** The years having a record of the pollutant, strictly ascending. */
  function YearsOf(df: seq<Row>, p: string): (r: seq<int>)
    ensures forall i, j :: 0 <= i < j < |r| ==> r[i] < r[j]
    ensures forall y :: y in r <==> exists x :: x in df && x.inquinante == p && x.anno == y
  {
    IntOrdersAreStrictTotal();
    var r := SortedKeys(Where(df, Query(p, None, None)), Anno, IntLess);
    assert StrictlySorted(r, IntLess);
    r
  }

  lemma YearGroupsNonEmpty(df: seq<Row>, p: string, years: seq<int>)
    requires forall y :: y in years ==> exists x :: x in df && x.inquinante == p && x.anno == y
    ensures forall i :: 0 <= i < |years| ==> Where(df, Query(p, Some(years[i]), None)) != []
  {
    forall i | 0 <= i < |years|
      ensures Where(df, Query(p, Some(years[i]), None)) != []
    {
      assert years[i] in years;
      var x :| x in df && x.inquinante == p && x.anno == years[i];
      assert x in Where(df, Query(p, Some(years[i]), None));
    }
  }

  /**
   * `df_anno`: one entry per year having a record of the pollutant,
   * ascending by year, each the mean of that year's values (never an empty
   * group).
   */
  function YearlyMean(df: seq<Row>, p: string): (r: seq<Group<int>>)
    ensures forall i, j :: 0 <= i < j < |r| ==> r[i].key < r[j].key
    ensures forall y :: y in Keys(r) <==> exists x :: x in df && x.inquinante == p && x.anno == y
    ensures forall i :: 0 <= i < |r| ==>
              && Where(df, Query(p, Some(r[i].key), None)) != []
              && r[i].mean == Mean(Valori(Where(df, Query(p, Some(r[i].key), None))))
  {
    var years := YearsOf(df, p);
    YearGroupsNonEmpty(df, p, years);
    var r := seq(|years|, i requires 0 <= i < |years| =>
      Group(years[i], Mean(Valori(Where(df, Query(p, Some(years[i]), None))))));
    assert Keys(r) == years;
    r
  }

  datatype Label = Miglioramento | Peggioramento

  /** The trend verdict and the percentage change; the change is absent when the first mean is zero. */
  datatype Trend = Trend(verdict: Label, change: Option<real>)

  /**
   * The first and last points of the yearly series compared: an improvement
   * only when the last mean is strictly lower, so equal means (a single
   * year included) read as a deterioration. The change is
   * (last - first) / first * 100, stated here in multiplied-out form.
   */
  function TrendOf(series: seq<Group<int>>): (t: Option<Trend>)
    ensures t.None? <==> series == []
    ensures t.Some? ==> (t.value.verdict == Miglioramento <==> series[|series| - 1].mean < series[0].mean)
    ensures t.Some? ==> (t.value.change.Some? <==> series[0].mean != 0.0)
    ensures t.Some? && t.value.change.Some? ==>
              t.value.change.value * series[0].mean == (series[|series| - 1].mean - series[0].mean) * 100.0
  {
    if series == [] then None
    else
      var first := series[0].mean;
      var last := series[|series| - 1].mean;
      var change := if first == 0.0 then None else Some((last - first) / first * 100.0);
      Some(Trend(if last < first then Miglioramento else Peggioramento, change))
  }

  /** In a strictly ascending sequence bounded by two of its members, those two are its ends. */
  lemma AscendingEnds(ks: seq<int>, lo: int, hi: int)
    requires forall i, j :: 0 <= i < j < |ks| ==> ks[i] < ks[j]
    requires lo in ks && hi in ks
    requires forall k :: k in ks ==> lo <= k <= hi
    ensures ks[0] == lo && ks[|ks| - 1] == hi
  {
    assert ks[0] in ks && ks[|ks| - 1] in ks;
  }

  /**
   * For a pollutant with records, the trend compares the mean of its latest
   * year with the mean of its earliest year.
   */
  lemma TrendComparesEarliestAndLatestYear(df: seq<Row>, p: string, lo: int, hi: int)
    requires exists x :: x in df && x.inquinante == p && x.anno == lo
    requires exists x :: x in df && x.inquinante == p && x.anno == hi
    requires forall x :: x in df && x.inquinante == p ==> lo <= x.anno <= hi
    ensures TrendOf(YearlyMean(df, p)).Some?
    ensures Where(df, Query(p, Some(lo), None)) != [] && Where(df, Query(p, Some(hi), None)) != []
    ensures TrendOf(YearlyMean(df, p)).value.verdict == Miglioramento <==>
              Mean(Valori(Where(df, Query(p, Some(hi), None)))) < Mean(Valori(Where(df, Query(p, Some(lo), None))))
  {
    var r := YearlyMean(df, p);
    var ks := Keys(r);
    assert forall k :: k in ks ==> lo <= k <= hi;
    AscendingEnds(ks, lo, hi);
    assert r[0].key == lo && r[|r| - 1].key == hi;
  }

  lemma TrendScenarios()
    ensures TrendOf([Group(2020, 20.0), Group(2021, 15.0)]) == Some(Trend(Miglioramento, Some(-25.0)))
    ensures TrendOf([Group(2020, 15.0), Group(2021, 20.0)]) == Some(Trend(Peggioramento, Some(100.0 / 3.0)))
    ensures TrendOf([Group(2020, 20.0), Group(2021, 20.0)]) == Some(Trend(Peggioramento, Some(0.0)))
    ensures TrendOf([Group(2020, 20.0)]) == Some(Trend(Peggioramento, Some(0.0)))
    ensures TrendOf([Group(2020, 0.0), Group(2021, 5.0)]) == Some(Trend(Peggioramento, None))
  {
  }

  // ---------------------------------------------------------------------
  // Station ranking (app.py:255-258)
  // ---------------------------------------------------------------------

  /** The stations having a record of the pollutant, strictly ascending by name. */
  function NamesOf(df: seq<Row>, p: string): (r: seq<string>)
    ensures StrictlySorted(r, StrLess)
    ensures forall s :: s in r <==> exists x :: x in df && x.inquinante == p && x.nomeStazione == s
  {
    StrLessIsStrictTotalOrder();
    SortedKeys(Where(df, Query(p, None, None)), Nome, StrLess)
  }

  lemma StationGroupsNonEmpty(df: seq<Row>, p: string, names: seq<string>)
    requires forall s :: s in names ==> exists x :: x in df && x.inquinante == p && x.nomeStazione == s
    ensures forall i :: 0 <= i < |names| ==> Where(df, Query(p, None, Some(names[i]))) != []
  {
    forall i | 0 <= i < |names|
      ensures Where(df, Query(p, None, Some(names[i]))) != []
    {
      assert names[i] in names;
      var x :| x in df && x.inquinante == p && x.nomeStazione == names[i];
      assert x in Where(df, Query(p, None, Some(names[i])));
    }
  }

  /**
   * `df_staz`: one entry per station having a record of the pollutant,
   * ascending by name, each the mean of all that station's values.
   */
  function StationMeans(df: seq<Row>, p: string): (r: seq<Group<string>>)
    ensures StrictlySorted(Keys(r), StrLess)
    ensures forall s :: s in Keys(r) <==> exists x :: x in df && x.inquinante == p && x.nomeStazione == s
    ensures forall i :: 0 <= i < |r| ==>
              && Where(df, Query(p, None, Some(r[i].key))) != []
              && r[i].mean == Mean(Valori(Where(df, Query(p, None, Some(r[i].key)))))
  {
    var names := NamesOf(df, p);
    StationGroupsNonEmpty(df, p, names);
    var r := seq(|names|, i requires 0 <= i < |names| =>
      Group(names[i], Mean(Valori(Where(df, Query(p, None, Some(names[i])))))));
    assert Keys(r) == names;
    r
  }

  /** How many stations `head(5)` keeps. */
  const TopN: nat := 5

  predicate MeanAtLeast(a: Group<string>, b: Group<string>)
  {
    a.mean >= b.mean
  }

  lemma MeanAtLeastIsTotalPreorder()
    ensures TotalPreorder(MeanAtLeast)
  {
  }

  /** `sort_values("valore", ascending=False)`: non-increasing by mean, a permutation of its input. */
  function ByMeanDescending(means: seq<Group<string>>): (r: seq<Group<string>>)
    ensures forall i, j :: 0 <= i < j < |r| ==> r[i].mean >= r[j].mean
    ensures multiset(r) == multiset(means)
  {
    MeanAtLeastIsTotalPreorder();
    var r := SortBy(means, MeanAtLeast);
    assert forall i, j :: 0 <= i < j < |r| ==> MeanAtLeast(r[i], r[j]);
    r
  }

  /** A prefix of a non-increasing sequence: whatever it leaves out has a mean no higher than anything it keeps. */
  lemma PrefixOfDescending(s: seq<Group<string>>, k: nat)
    requires k <= |s|
    requires forall i, j :: 0 <= i < j < |s| ==> s[i].mean >= s[j].mean
    ensures multiset(s[..k]) <= multiset(s)
    ensures forall x, y :: x in multiset(s) - multiset(s[..k]) && y in s[..k] ==> x.mean <= y.mean
  {
    assert s == s[..k] + s[k..];
    assert multiset(s) == multiset(s[..k]) + multiset(s[k..]);
    forall x, y | x in multiset(s) - multiset(s[..k]) && y in s[..k]
      ensures x.mean <= y.mean
    {
      assert x in multiset(s[k..]);
      assert x in s[k..];
      var j :| 0 <= j < |s[k..]| && s[k..][j] == x;
      var i :| 0 <= i < k && s[..k][i] == y;
      assert s[i] == y && s[k + j] == x;
    }
  }

  /**
   * `head(5)` of that order: at most five groups, non-increasing by mean,
   * taken from the given ones; every group left out has a mean no higher
   * than any group kept. Ties may come in any order.
   */
  function TopByMean(means: seq<Group<string>>): (r: seq<Group<string>>)
    ensures |r| == if |means| < TopN then |means| else TopN
    ensures forall i, j :: 0 <= i < j < |r| ==> r[i].mean >= r[j].mean
    ensures multiset(r) <= multiset(means)
    ensures forall x, y :: x in multiset(means) - multiset(r) && y in r ==> x.mean <= y.mean
  {
    var sorted := ByMeanDescending(means);
    assert |sorted| == |means| by {
      assert |multiset(sorted)| == |multiset(means)|;
    }
    var k := if |sorted| < TopN then |sorted| else TopN;
    PrefixOfDescending(sorted, k);
    sorted[..k]
  }

  /**
   * `top5`: at most five (station, mean) pairs, as many as there are
   * stations when fewer; each is a station with records of the pollutant and
   * the mean of all its values; non-increasing by mean; and every station
   * left out has a mean no higher than any station kept.
   */
  function Ranking(df: seq<Row>, p: string): (r: seq<Group<string>>)
    ensures |r| == if |StationMeans(df, p)| < TopN then |StationMeans(df, p)| else TopN
    ensures forall i, j :: 0 <= i < j < |r| ==> r[i].mean >= r[j].mean
    ensures multiset(r) <= multiset(StationMeans(df, p))
    ensures Distinct(Keys(r))
    ensures forall g :: g in r ==>
              && (exists x :: x in df && x.inquinante == p && x.nomeStazione == g.key)
              && Where(df, Query(p, None, Some(g.key))) != []
              && g.mean == Mean(Valori(Where(df, Query(p, None, Some(g.key)))))
    ensures forall s :: s !in Keys(r) && (exists x :: x in df && x.inquinante == p && x.nomeStazione == s) ==>
              && Where(df, Query(p, None, Some(s))) != []
              && forall g :: g in r ==> Mean(Valori(Where(df, Query(p, None, Some(s))))) <= g.mean
  {
    RankingKept(df, p);
    RankingOmitted(df, p);
    var means := StationMeans(df, p);
    StrLessIsStrictTotalOrder();
    StrictlySortedIsDistinct(Keys(means), StrLess);
    SubMultisetKeysDistinct(TopByMean(means), means);
    TopByMean(means)
  }

  /** Picking groups from a list whose keys are distinct, each at most once, keeps the keys distinct. */
  lemma SubMultisetKeysDistinct<K>(r: seq<Group<K>>, s: seq<Group<K>>)
    requires Distinct(Keys(s)) && multiset(r) <= multiset(s)
    ensures Distinct(Keys(r))
  {
    assert Distinct(s) by {
      forall a, b | 0 <= a < b < |s| ensures s[a] != s[b] {
        assert Keys(s)[a] != Keys(s)[b];
      }
    }
    forall i, j | 0 <= i < j < |r| ensures Keys(r)[i] != Keys(r)[j] {
      if r[i].key == r[j].key {
        assert r[i] in multiset(r) && r[j] in multiset(r);
        assert r[i] in s && r[j] in s;
        var a :| 0 <= a < |s| && s[a] == r[i];
        var b :| 0 <= b < |s| && s[b] == r[j];
        assert Keys(s)[a] == Keys(s)[b];
        assert r[i] == r[j];
        RepeatCount(r, i, j);
        DistinctCount(s, r[i]);
        assert false;
      }
    }
  }

  lemma RankingKept(df: seq<Row>, p: string)
    ensures forall g :: g in TopByMean(StationMeans(df, p)) ==>
              && (exists x :: x in df && x.inquinante == p && x.nomeStazione == g.key)
              && Where(df, Query(p, None, Some(g.key))) != []
              && g.mean == Mean(Valori(Where(df, Query(p, None, Some(g.key)))))
  {
    var means := StationMeans(df, p);
    TopByMeanSelection(means);
    forall g | g in TopByMean(means)
      ensures exists x :: x in df && x.inquinante == p && x.nomeStazione == g.key
      ensures Where(df, Query(p, None, Some(g.key))) != []
      ensures g.mean == Mean(Valori(Where(df, Query(p, None, Some(g.key)))))
    {
      StationMeansMember(df, p, g);
    }
  }

  /** Each entry of `df_staz` is a station with records of the pollutant and the mean of its values. */
  lemma StationMeansMember(df: seq<Row>, p: string, g: Group<string>)
    requires g in StationMeans(df, p)
    ensures exists x :: x in df && x.inquinante == p && x.nomeStazione == g.key
    ensures Where(df, Query(p, None, Some(g.key))) != []
    ensures g.mean == Mean(Valori(Where(df, Query(p, None, Some(g.key)))))
  {
    var means := StationMeans(df, p);
    var i :| 0 <= i < |means| && means[i] == g;
    assert Keys(means)[i] == g.key;
  }

  lemma RankingOmitted(df: seq<Row>, p: string)
    ensures forall s :: s !in Keys(TopByMean(StationMeans(df, p))) && (exists x :: x in df && x.inquinante == p && x.nomeStazione == s) ==>
              && Where(df, Query(p, None, Some(s))) != []
              && forall g :: g in TopByMean(StationMeans(df, p)) ==> Mean(Valori(Where(df, Query(p, None, Some(s))))) <= g.mean
  {
    var means := StationMeans(df, p);
    var r := TopByMean(means);
    TopByMeanSelection(means);
    forall s | s !in Keys(r) && (exists x :: x in df && x.inquinante == p && x.nomeStazione == s)
      ensures Where(df, Query(p, None, Some(s))) != []
      ensures forall g :: g in r ==> Mean(Valori(Where(df, Query(p, None, Some(s))))) <= g.mean
    {
      assert s in Keys(means);
      var i :| 0 <= i < |means| && Keys(means)[i] == s;
    }
  }

  /** What `head(5)` keeps comes from its input, and every input entry whose key it drops comes no higher. */
  lemma TopByMeanSelection(means: seq<Group<string>>)
    ensures forall g :: g in TopByMean(means) ==> g in means
    ensures forall i :: 0 <= i < |means| && means[i].key !in Keys(TopByMean(means)) ==>
              forall g :: g in TopByMean(means) ==> means[i].mean <= g.mean
  {
    var r := TopByMean(means);
    forall g | g in r
      ensures g in means
    {
      assert g in multiset(r);
    }
    forall i | 0 <= i < |means| && means[i].key !in Keys(r)
      ensures forall g :: g in r ==> means[i].mean <= g.mean
    {
      var left := means[i];
      assert left in multiset(means) - multiset(r);
    }
  }

  // ---------------------------------------------------------------------
  // Detail view (app.py:304, 309, 313-317)
  // ---------------------------------------------------------------------

  /** `anni_disponibili`: strictly descending, exactly the years with a record of the pollutant. */
  function AvailableYears(df: seq<Row>, p: string): (r: seq<int>)
    ensures StrictlySorted(r, IntGreater)
    ensures forall y :: y in r <==> exists x :: x in df && x.inquinante == p && x.anno == y
  {
    IntOrdersAreStrictTotal();
    SortedDistinct(Column(Where(df, Query(p, None, None)), Anno), IntGreater)
  }

  /** `stazioni_disponibili`: strictly ascending names of the stations with a record for the pollutant in the year. */
  function StationsFor(df: seq<Row>, p: string, y: int): (r: seq<string>)
    ensures StrictlySorted(r, StrLess)
    ensures forall s :: s in r <==> exists x :: x in df && x.inquinante == p && x.anno == y && x.nomeStazione == s
  {
    StrLessIsStrictTotalOrder();
    SortedDistinct(Column(Where(df, Query(p, Some(y), None)), Nome), StrLess)
  }

  /** `sort_values("data")` order: ascending by date, NaT last. */
  predicate DateNoLater(a: Row, b: Row)
  {
    match (a.data, b.data)
    case (Some(x), Some(y)) => x <= y
    case (_, None) => true
    case (None, Some(_)) => false
  }

  lemma DateNoLaterIsTotalPreorder()
    ensures TotalPreorder(DateNoLater)
  {
  }

  /**
   * `df_focus`: exactly the rows of the (year, station, pollutant) triple,
   * each as often as in the frame, ascending by date with unreadable dates
   * last; empty, not an error, when nothing matches.
   */
  function DailySeries(df: seq<Row>, p: string, y: int, s: string): (r: seq<Row>)
    ensures multiset(r) == multiset(Where(df, Query(p, Some(y), Some(s))))
    ensures forall x :: x in r <==> x in df && x.anno == y && x.nomeStazione == s && x.inquinante == p
    ensures forall i, j :: 0 <= i < j < |r| ==> DateNoLater(r[i], r[j])
    ensures forall i, j :: 0 <= i < j < |r| && r[i].data.None? ==> r[j].data.None?
    ensures r == [] <==> forall x :: x in df ==> !(x.anno == y && x.nomeStazione == s && x.inquinante == p)
  {
    DateNoLaterIsTotalPreorder();
    var rows := Where(df, Query(p, Some(y), Some(s)));
    var r := SortBy(rows, DateNoLater);
    assert forall x :: x in r <==> x in rows by {
      forall x ensures x in r <==> x in rows {
        assert x in r <==> x in multiset(r);
        assert x in rows <==> x in multiset(rows);
      }
    }
    EmptyIffNoMember(r);
    r
  }

  // ---------------------------------------------------------------------
  // The queries over a freshly built dataset
  // ---------------------------------------------------------------------

  /**
   * Every row the dashboard sees after a successful build lies in the
   * processed period and names a registered station, with that station's
   * name and coordinates.
   */
  lemma FreshFrameShape(fs: seq<DP.Feature>, files: map<int, seq<DP.Entry>>, c: DP.Coercions,
                        d: seq<DP.Record>, toDate: DP.Json -> Option<Timestamp>)
    requires DP.Database(fs, files, c) == Success(d)
    ensures DP.RegistryOf(fs, c).Success?
    ensures forall x :: x in Frame(Dump(d), toDate) ==>
              && DP.FirstYear <= x.anno < DP.EndYear
              && x.idStazione in DP.RegistryOf(fs, c).value
              && x.nomeStazione == DP.RegistryOf(fs, c).value[x.idStazione].nome
              && x.coordinate == DP.RegistryOf(fs, c).value[x.idStazione].coordinate
  {
    DP.DatabaseShape(fs, files, c, d);
    var df := Frame(Dump(d), toDate);
    FrameOfDump(d, toDate);
    forall x | x in df
      ensures DP.FirstYear <= x.anno < DP.EndYear
      ensures DP.Enriched(d[IndexOf(df, x)], DP.RegistryOf(fs, c).value)
      ensures x.anno == d[IndexOf(df, x)].anno && x.idStazione == d[IndexOf(df, x)].idStazione
      ensures x.nomeStazione == d[IndexOf(df, x)].nomeStazione && x.coordinate == d[IndexOf(df, x)].coordinate
    {
      assert d[IndexOf(df, x)] in d;
    }
  }

  /** The position of a row that occurs in a frame. */
  function IndexOf(df: seq<Row>, x: Row): (i: nat)
    requires x in df
    ensures i < |df| && df[i] == x
  {
    if df[0] == x then 0 else 1 + IndexOf(df[1..], x)
  }

  /** The years offered for the detail view of a freshly built dataset all lie in the processed period. */
  lemma OfferedYearsWithinPeriod(fs: seq<DP.Feature>, files: map<int, seq<DP.Entry>>, c: DP.Coercions,
                                 d: seq<DP.Record>, toDate: DP.Json -> Option<Timestamp>, p: string)
    requires DP.Database(fs, files, c) == Success(d)
    ensures forall y :: y in AvailableYears(Frame(Dump(d), toDate), p) ==> DP.FirstYear <= y < DP.EndYear
  {
    FreshFrameShape(fs, files, c, d, toDate);
  }
}
