/** The data preparation of the statistics page (app/stats/page.tsx): the
    published statistics as the page reads them, the per-wilaya and
    per-series chart rows, the three decision slices, the ten best wilayas
    by pass rate and the histogram of averages in eight fixed bands.
    Fetching, translations and the charts' drawing are left out. */
module StatsPage {
  import opened Optional
  import opened Text
  import opened Seqs
  import opened Sorting
  import Records
  import CalculateStats

  // ----- the statistics as the page reads them -----

  datatype WilayaStat = WilayaStat(taux: real, moyenne: real, moyennes: seq<real>)

  datatype SerieStat = SerieStat(taux: real, admis: nat)

  datatype GlobalStat = GlobalStat(total: nat, tauxReussite: real, admis: nat, ajournes: nat, sessionnaires: nat)

  /** `parWilaya` and `parSerie` as their entries in key order (the order of
      `Object.keys` and `Object.values`). */
  datatype StatsData = StatsData(
    global: GlobalStat,
    parWilaya: seq<(String, WilayaStat)>,
    parSerie: seq<(String, SerieStat)>
  )

  /** A number after the JSON round trip: `JSON.stringify` writes `NaN` as
      `null`, which the page's arithmetic reads as 0. */
  function JsonNumber(v: Option<real>): real {
    v.GetOr(0.0)
  }

  function WilayaOf(t: CalculateStats.Tally): WilayaStat {
    WilayaStat(JsonNumber(CalculateStats.GroupRate(t)), JsonNumber(CalculateStats.GroupMean(t)), t.moyennes)
  }

  function SerieOf(t: CalculateStats.Tally): SerieStat {
    SerieStat(JsonNumber(CalculateStats.GroupRate(t)), t.admis)
  }

  function WilayaEntries(keys: seq<String>, at: map<String, CalculateStats.Tally>): (r: seq<(String, WilayaStat)>)
    requires forall k :: k in keys ==> k in at
    ensures |r| == |keys|
    ensures forall i :: 0 <= i < |keys| ==> r[i] == (keys[i], WilayaOf(at[keys[i]]))
  {
    if keys == [] then [] else WilayaEntries(keys[..|keys| - 1], at) + [(keys[|keys| - 1], WilayaOf(at[keys[|keys| - 1]]))]
  }

  function SerieEntries(keys: seq<String>, at: map<String, CalculateStats.Tally>): (r: seq<(String, SerieStat)>)
    requires forall k :: k in keys ==> k in at
    ensures |r| == |keys|
    ensures forall i :: 0 <= i < |keys| ==> r[i] == (keys[i], SerieOf(at[keys[i]]))
  {
    if keys == [] then [] else SerieEntries(keys[..|keys| - 1], at) + [(keys[|keys| - 1], SerieOf(at[keys[|keys| - 1]]))]
  }

  /** The statistics file written by the aggregation, as the page receives it. */
  function Published(s: CalculateStats.Summary): StatsData
    requires CalculateStats.WellFormed(s.parWilaya) && CalculateStats.WellFormed(s.parSerie)
  {
    var g := s.global;
    StatsData(
      GlobalStat(g.total, JsonNumber(g.tauxReussite), g.admis, g.ajournes, g.sessionnaires),
      WilayaEntries(s.parWilaya.keys, s.parWilaya.at),
      SerieEntries(s.parSerie.keys, s.parSerie.at))
  }

  // ----- chart rows -----

  datatype WilayaPoint = WilayaPoint(name: String, taux: real, moyenne: real)

  datatype SeriePoint = SeriePoint(name: String, taux: real, admis: nat)

  /** `wilayaData`: one row per wilaya key. */
  function WilayaData(ws: seq<(String, WilayaStat)>): (r: seq<WilayaPoint>)
    ensures |r| == |ws|
    ensures forall i :: 0 <= i < |ws| ==> r[i].name == ws[i].0 && r[i].taux == ws[i].1.taux && r[i].moyenne == ws[i].1.moyenne
  {
    seq(|ws|, i requires 0 <= i < |ws| => WilayaPoint(ws[i].0, ws[i].1.taux, ws[i].1.moyenne))
  }

  /** `serieData`: one row per series key. */
  function SerieData(ss: seq<(String, SerieStat)>): (r: seq<SeriePoint>)
    ensures |r| == |ss|
    ensures forall i :: 0 <= i < |ss| ==> r[i].name == ss[i].0 && r[i].taux == ss[i].1.taux && r[i].admis == ss[i].1.admis
  {
    seq(|ss|, i requires 0 <= i < |ss| => SeriePoint(ss[i].0, ss[i].1.taux, ss[i].1.admis))
  }

  /** `calculateStats` publishes its group-bys as computed. */
  lemma SummaryTables(rows: seq<Records.Candidate>)
    requires CalculateStats.AllAveragesRead(rows)
    ensures var s := CalculateStats.CalculateStats(rows);
      var xs := CalculateStats.Score(rows);
      && s.parWilaya == CalculateStats.GroupBy(xs, CalculateStats.WilayaKey)
      && s.parSerie == CalculateStats.GroupBy(xs, CalculateStats.SerieKey)
  {
  }

  /** Rows built from a group-by: one per group in first-seen order, without
      repeats, each rate the group's admitted share in percent in [0, 100],
      and each wilaya mean the mean of the group's averages. */
  lemma {:induction false} GroupRows(xs: seq<CalculateStats.Scored>, key: CalculateStats.Scored -> String)
    ensures var t := CalculateStats.GroupBy(xs, key);
      var ws := WilayaData(WilayaEntries(t.keys, t.at));
      var ss := SerieData(SerieEntries(t.keys, t.at));
      && NoDuplicates(t.keys) && |ws| == |ss| == |t.keys|
      && t.keys == Distinct(CalculateStats.KeyColumn(xs, key))
      && (forall i :: 0 <= i < |ws| ==> ws[i].name == ss[i].name == t.keys[i])
      && (forall k :: k in t.keys ==> TallyRow(t.at[k]))
  {
    var t := CalculateStats.GroupBy(xs, key);
    CalculateStats.GroupByKeysFirstSeen(xs, key);
    forall k | k in t.keys
      ensures TallyRow(t.at[k])
    {
      CalculateStats.GroupFacts(xs, key, k);
      TallyRowHolds(t.at[k]);
    }
  }

  /** What a row built from a non-empty group shows. */
  predicate TallyRow(g: CalculateStats.Tally) {
    && g.total > 0
    && WilayaOf(g).taux == SerieOf(g).taux == g.admis as real / g.total as real * 100.0
    && 0.0 <= WilayaOf(g).taux <= 100.0
    && CalculateStats.Mean(g.moyennes) == Some(WilayaOf(g).moyenne)
  }

  lemma TallyRowHolds(g: CalculateStats.Tally)
    requires 0 < g.total == |g.moyennes| && g.admis <= g.total
    ensures TallyRow(g)
  {
    CalculateStats.RateInRange(g.admis, g.total);
  }

  /** The rows of the published statistics are the aggregation's groups, one
      per wilaya (series) in first-seen order, with the group's pass rate and
      mean. */
  lemma {:induction false} PublishedRows(rows: seq<Records.Candidate>)
    requires CalculateStats.AllAveragesRead(rows)
    ensures var s := CalculateStats.CalculateStats(rows);
      var ws := WilayaData(Published(s).parWilaya);
      var ss := SerieData(Published(s).parSerie);
      && |ws| == |s.parWilaya.keys| && |ss| == |s.parSerie.keys|
      && NoDuplicates(s.parWilaya.keys) && NoDuplicates(s.parSerie.keys)
      && (forall i :: 0 <= i < |ws| ==>
            var t := s.parWilaya.at[s.parWilaya.keys[i]];
            && ws[i].name == s.parWilaya.keys[i]
            && t.total > 0
            && ws[i].taux == t.admis as real / t.total as real * 100.0
            && 0.0 <= ws[i].taux <= 100.0
            && CalculateStats.Mean(t.moyennes) == Some(ws[i].moyenne))
      && (forall i :: 0 <= i < |ss| ==>
            var t := s.parSerie.at[s.parSerie.keys[i]];
            && ss[i].name == s.parSerie.keys[i]
            && ss[i].admis == t.admis
            && t.total > 0
            && ss[i].taux == t.admis as real / t.total as real * 100.0
            && 0.0 <= ss[i].taux <= 100.0)
  {
    SummaryTables(rows);
    GroupRows(CalculateStats.Score(rows), CalculateStats.WilayaKey);
    GroupRows(CalculateStats.Score(rows), CalculateStats.SerieKey);
  }

  /** The published rows come one per wilaya (series) in the order the
      records first show that wilaya (series). */
  lemma PublishedRowOrder(rows: seq<Records.Candidate>)
    requires CalculateStats.AllAveragesRead(rows)
    ensures var s := CalculateStats.CalculateStats(rows);
      var xs := CalculateStats.Score(rows);
      var ws := WilayaData(Published(s).parWilaya);
      var ss := SerieData(Published(s).parSerie);
      var dw := Distinct(CalculateStats.KeyColumn(xs, CalculateStats.WilayaKey));
      var ds := Distinct(CalculateStats.KeyColumn(xs, CalculateStats.SerieKey));
      && |ws| == |dw| && (forall i :: 0 <= i < |ws| ==> ws[i].name == dw[i])
      && |ss| == |ds| && (forall i :: 0 <= i < |ss| ==> ss[i].name == ds[i])
  {
    SummaryTables(rows);
    GroupRows(CalculateStats.Score(rows), CalculateStats.WilayaKey);
    GroupRows(CalculateStats.Score(rows), CalculateStats.SerieKey);
  }

  // ----- decisions -----

  datatype DecisionKind = Admitted | Postponed | Retake

  datatype Slice = Slice(name: DecisionKind, value: nat)

  /** `decisionsData`: admitted, postponed and retake, in that order, each
      slice carrying the matching count of the global summary. */
  function DecisionsData(g: GlobalStat): (r: seq<Slice>)
    ensures |r| == 3
    ensures forall i :: 0 <= i < |r| ==> r[i].name == [Admitted, Postponed, Retake][i]
    ensures r[0].value == g.admis && r[1].value == g.ajournes && r[2].value == g.sessionnaires
  {
    [Slice(Admitted, g.admis), Slice(Postponed, g.ajournes), Slice(Retake, g.sessionnaires)]
  }

  /** On the published statistics the three slices count the records with
      each decision label, in order, and together never exceed the records. */
  lemma {:induction false} PublishedDecisions(rows: seq<Records.Candidate>)
    requires CalculateStats.AllAveragesRead(rows)
    ensures var d := DecisionsData(Published(CalculateStats.CalculateStats(rows)).global);
      var xs := CalculateStats.Score(rows);
      && d[0] == Slice(Admitted, |Filter(xs, CalculateStats.HasDecision(Records.Admitted))|)
      && d[1] == Slice(Postponed, |Filter(xs, CalculateStats.HasDecision(Records.Postponed))|)
      && d[2] == Slice(Retake, |Filter(xs, CalculateStats.HasDecision(Records.Retake))|)
      && d[0].value + d[1].value + d[2].value <= |rows|
  {
    CalculateStats.SummaryCounts(rows);
  }

  // ----- the ten best wilayas by pass rate -----

  function Taux(p: WilayaPoint): real {
    p.taux
  }

  /** `[...wilayaData].sort((a, b) => b.taux - a.taux).slice(0, 10)`. */
  function Chart(ws: seq<WilayaPoint>): seq<WilayaPoint> {
    TopBy(ws, Taux, 10)
  }

  /** The chart holds min(10, n) of the rows in non-increasing rate order,
      rows of equal rate in their original order, and no row left out has a
      higher rate than the last one shown. */
  lemma {:induction false} ChartOrdered(ws: seq<WilayaPoint>)
    ensures var c := Chart(ws);
      && |c| == (if |ws| < 10 then |ws| else 10)
      && SortedBy(c, Taux, Descending())
      && multiset(c) <= multiset(ws)
      && (forall x :: x in multiset(ws) - multiset(c) ==> |c| > 0 && x.taux <= c[|c| - 1].taux)
      && (forall v :: IsPrefix(Filter(c, KeyIs(Taux, v)), Filter(ws, KeyIs(Taux, v))))
  {
    TopByOrdered(ws, Taux, 10);
    TopByOmitted(ws, Taux, 10);
    TopByStable(ws, Taux, 10);
  }

  // ----- histogram of averages -----

  datatype Band = Band(range: String, min: real, max: real)

  /** The eight bands of the histogram, in display order. */
  const Bands: seq<Band> := [
    Band("0-5", 0.0, 5.0),
    Band("5-8", 5.0, 8.0),
    Band("8-10", 8.0, 10.0),
    Band("10-12", 10.0, 12.0),
    Band("12-14", 12.0, 14.0),
    Band("14-16", 14.0, 16.0),
    Band("16-18", 16.0, 18.0),
    Band("18-20", 18.0, 20.0)
  ]

  datatype Bin = Bin(range: String, min: real, max: real, count: nat)

  /** `m >= range.min && m < range.max`. */
  function Within(b: Band): real -> bool {
    (m: real) => m >= b.min && m < b.max
  }

  /** The averages the histogram can place: [0, 20). */
  function OnScale(): real -> bool {
    (m: real) => 0.0 <= m < 20.0
  }

  /** The reduce over `Object.values(parWilaya)` for one band. */
  function BandCount(ws: seq<(String, WilayaStat)>, b: Band): nat {
    if ws == [] then 0
    else BandCount(ws[..|ws| - 1], b) + |Filter(ws[|ws| - 1].1.moyennes, Within(b))|
  }

  /** The `ranges.map` with each band's count. */
  function Bins(ws: seq<(String, WilayaStat)>, bands: seq<Band>): (r: seq<Bin>)
    ensures |r| == |bands|
    ensures forall i :: 0 <= i < |bands| ==>
      r[i] == Bin(bands[i].range, bands[i].min, bands[i].max, BandCount(ws, bands[i]))
  {
    if bands == [] then []
    else [Bin(bands[0].range, bands[0].min, bands[0].max, BandCount(ws, bands[0]))] + Bins(ws, bands[1..])
  }

  /** `generateHistogramData`. */
  function Histogram(s: StatsData): seq<Bin> {
    Bins(s.parWilaya, Bands)
  }

  /** Every wilaya's averages, wilaya after wilaya. */
  function AllAverages(ws: seq<(String, WilayaStat)>): seq<real> {
    if ws == [] then [] else AllAverages(ws[..|ws| - 1]) + ws[|ws| - 1].1.moyennes
  }

  function TotalCount(r: seq<Bin>): nat {
    if r == [] then 0 else r[0].count + TotalCount(r[1..])
  }

  /** The number of the given bands that hold `m`. */
  function Hits(m: real, bands: seq<Band>): nat {
    if bands == [] then 0 else (if Within(bands[0])(m) then 1 else 0) + Hits(m, bands[1..])
  }

  /** The histogram shows eight bins in band order; together they cover [0, 20)
      without gaps, each with a lower bound below its upper one. */
  lemma HistogramShape(s: StatsData)
    ensures var h := Histogram(s);
      && |h| == 8
      && h[0].min == 0.0 && h[7].max == 20.0
      && (forall i :: 0 <= i < 7 ==> h[i].max == h[i + 1].min)
      && (forall i :: 0 <= i < 8 ==> h[i].min < h[i].max && h[i].range == Bands[i].range)
  {
    var h := Histogram(s);
    forall i | 0 <= i < 7 ensures h[i].max == h[i + 1].min {
      BandsTile(i);
    }
    forall i | 0 <= i < 8 ensures h[i].min < h[i].max {
      BandsTile(i);
    }
  }

  lemma BandsTile(i: nat)
    requires i < 8
    ensures Bands[i].min < Bands[i].max
    ensures i < 7 ==> Bands[i].max == Bands[i + 1].min
  {
    if i == 0 {} else if i == 1 {} else if i == 2 {} else if i == 3 {}
    else if i == 4 {} else if i == 5 {} else if i == 6 {} else {}
  }

  /** The bands do not overlap: an average lies in exactly one band when it is
      in [0, 20), and in none otherwise (20 itself included). */
  lemma {:induction false} BandsPartition(m: real)
    ensures Hits(m, Bands) == if OnScale()(m) then 1 else 0
  {
    HitsStep(m, Bands, 0);
    HitsStep(m, Bands, 1);
    HitsStep(m, Bands, 2);
    HitsStep(m, Bands, 3);
    HitsStep(m, Bands, 4);
    HitsStep(m, Bands, 5);
    HitsStep(m, Bands, 6);
    HitsStep(m, Bands, 7);
    assert Bands[8..] == [];
    assert Bands[0..] == Bands;
  }

  lemma HitsStep(m: real, bands: seq<Band>, k: nat)
    requires k < |bands|
    ensures Hits(m, bands[k..]) == (if Within(bands[k])(m) then 1 else 0) + Hits(m, bands[k + 1..])
  {
    assert bands[k..][1..] == bands[k + 1..];
  }

  /** A bin's count is the number of all the wilayas' averages in its band. */
  lemma {:induction false} BandCountFlat(ws: seq<(String, WilayaStat)>, b: Band)
    ensures BandCount(ws, b) == |Filter(AllAverages(ws), Within(b))|
  {
    if ws != [] {
      BandCountFlat(ws[..|ws| - 1], b);
      FilterConcat(AllAverages(ws[..|ws| - 1]), ws[|ws| - 1].1.moyennes, Within(b));
    }
  }

  /** How many of `xs` each band holds, added over the bands. */
  function BandSum(xs: seq<real>, bands: seq<Band>): nat {
    if bands == [] then 0 else |Filter(xs, Within(bands[0]))| + BandSum(xs, bands[1..])
  }

  lemma {:induction false} BinsTotal(ws: seq<(String, WilayaStat)>, bands: seq<Band>)
    ensures TotalCount(Bins(ws, bands)) == BandSum(AllAverages(ws), bands)
  {
    if bands != [] {
      BinsTotal(ws, bands[1..]);
      BandCountFlat(ws, bands[0]);
    }
  }

  lemma {:induction false} BandSumSnoc(xs: seq<real>, m: real, bands: seq<Band>)
    ensures BandSum(xs + [m], bands) == BandSum(xs, bands) + Hits(m, bands)
  {
    if bands != [] {
      BandSumSnoc(xs, m, bands[1..]);
      assert (xs + [m])[..|xs|] == xs;
      FilterCountLast(xs + [m], Within(bands[0]));
    }
  }

  lemma {:induction false} BandSumOnScale(xs: seq<real>)
    ensures BandSum(xs, Bands) == |Filter(xs, OnScale())|
  {
    if xs != [] {
      var init, m := xs[..|xs| - 1], xs[|xs| - 1];
      assert xs == init + [m];
      BandSumOnScale(init);
      BandSumSnoc(init, m, Bands);
      BandsPartition(m);
      FilterCountLast(xs, OnScale());
    } else {
      BandSumEmpty(Bands);
    }
  }

  lemma {:induction false} BandSumEmpty(bands: seq<Band>)
    ensures BandSum([], bands) == 0
  {
    if bands != [] {
      BandSumEmpty(bands[1..]);
    }
  }

  /** The bins together count exactly the averages in [0, 20), so never more
      than there are averages. */
  lemma {:induction false} HistogramTotal(s: StatsData)
    ensures TotalCount(Histogram(s)) == |Filter(AllAverages(s.parWilaya), OnScale())|
    ensures TotalCount(Histogram(s)) <= |AllAverages(s.parWilaya)|
  {
    BinsTotal(s.parWilaya, Bands);
    BandSumOnScale(AllAverages(s.parWilaya));
  }

  lemma {:induction false} AveragesLength(keys: seq<String>, at: map<String, CalculateStats.Tally>)
    requires forall k :: k in keys ==> k in at && |at[k].moyennes| == at[k].total
    ensures |AllAverages(WilayaEntries(keys, at))| == CalculateStats.SumOver(keys, at, CalculateStats.TotalOf)
  {
    if keys != [] {
      var init := keys[..|keys| - 1];
      AveragesLength(init, at);
      var r := WilayaEntries(keys, at);
      assert r[..|r| - 1] == WilayaEntries(init, at);
    }
  }

  /** On the published statistics the wilayas' averages are one per record,
      so the histogram counts the records whose average is in [0, 20). */
  lemma {:induction false} PublishedHistogram(rows: seq<Records.Candidate>)
    requires CalculateStats.AllAveragesRead(rows)
    ensures var d := Published(CalculateStats.CalculateStats(rows));
      && |AllAverages(d.parWilaya)| == |rows|
      && TotalCount(Histogram(d)) <= |rows|
  {
    var s := CalculateStats.CalculateStats(rows);
    var xs := CalculateStats.Score(rows);
    forall k | k in s.parWilaya.keys
      ensures k in s.parWilaya.at && |s.parWilaya.at[k].moyennes| == s.parWilaya.at[k].total
    {
      CalculateStats.GroupFacts(xs, CalculateStats.WilayaKey, k);
    }
    AveragesLength(s.parWilaya.keys, s.parWilaya.at);
    CalculateStats.SummaryGroups(rows);
    HistogramTotal(Published(s));
  }
}
