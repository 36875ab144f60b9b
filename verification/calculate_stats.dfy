/** The offline aggregation of scripts/calculateStats.js: one pass over the
    results computing decision counts, group-bys per series, wilaya, school and
    exam centre, means and the population variance, and the top-10 rankings.
    The file reading and writing around it are not modelled. */
module CalculateStats {
  import opened Optional
  import opened Text
  import opened Seqs
  import opened Sorting
  import opened Records

  // ----- toFloat -----

  /** `s.replace(from, to)` with a one-character string pattern: the first occurrence only. */
  function ReplaceFirst(s: String, from: char, to: char): (r: String)
    ensures |r| == |s|
    ensures forall i :: 0 <= i < |s| && i != IndexOf(s, from) ==> r[i] == s[i]
    ensures IndexOf(s, from) < |s| ==> r[IndexOf(s, from)] == to
  {
    var k := IndexOf(s, from);
    if k == |s| then s else s[..k] + [to] + s[k + 1..]
  }

  /** The unsigned part of a decimal: digits, optionally a point and more
      digits, read as long as it goes; `None` when there is no digit at all. */
  function ParseUnsigned(u: String): Option<real> {
    var whole := DigitPrefix(u);
    var rest := u[|whole|..];
    var frac := if rest != [] && rest[0] == '.' then DigitPrefix(rest[1..]) else [];
    if whole == [] && frac == [] then None else Some(DecimalValue(whole, frac))
  }

  /** The value of the decimal `whole.frac`. */
  function DecimalValue(whole: String, frac: String): real
    requires AllDigits(whole) && AllDigits(frac)
  {
    DigitsValue(whole) as real + DigitsValue(frac) as real / Pow10(|frac|) as real
  }

  /** `parseFloat` on the decimal forms the data uses: leading whitespace, an
      optional sign, then the unsigned part; what follows is ignored. `None`
      is `NaN`. */
  function ParseFloat(s: String): Option<real> {
    var t := TrimStart(s);
    if t != [] && t[0] == '-' then
      match ParseUnsigned(t[1..])
      case None => None
      case Some(m) => Some(-m)
    else if t != [] && t[0] == '+' then ParseUnsigned(t[1..])
    else ParseUnsigned(t)
  }

  /** `toFloat`: numbers pass through; strings have their first comma turned into a point. */
  function ToFloat(v: RawAverage): Option<real> {
    match v
    case Number(x) => Some(x)
    case Written(s) => ParseFloat(ReplaceFirst(s, ',', '.'))
  }

  lemma {:induction false} ReplaceDecimalComma(a: String, b: String)
    requires AllDigits(a)
    ensures ReplaceFirst(a + "," + b, ',', '.') == a + "." + b
  {
    var s := a + "," + b;
    assert s == a + ([','] + b);
    assert ',' !in a;
    IndexOfAt(a, [','] + b, ',');
    assert s[..|a|] == a && s[|a| + 1..] == b;
  }

  /** A string that starts with a digit has neither whitespace nor a sign to skip. */
  lemma ParseFloatUnsigned(t: String)
    requires t != [] && IsDigit(t[0])
    ensures ParseFloat(t) == ParseUnsigned(t)
  {
    assert TrimStart(t) == t;
  }

  lemma {:induction false} UnsignedDecimal(a: String, b: String)
    requires |a| > 0 && AllDigits(a) && AllDigits(b)
    ensures ParseUnsigned(a + "." + b) == Some(DecimalValue(a, b))
  {
    var t := a + "." + b;
    assert t == a + ("." + b);
    DigitPrefixOf(a, "." + b);
    assert t[|a|..] == "." + b;
    assert ("." + b)[1..] == b;
    DigitPrefixOf(b, []);
    assert b + [] == b;
  }

  /** A comma-decimal string of digits reads as its integer part plus its
      fraction. */
  lemma {:induction false} CommaDecimal(a: String, b: String)
    requires |a| > 0 && AllDigits(a) && AllDigits(b)
    ensures ToFloat(RawAverage.Written(a + "," + b)) == Some(DecimalValue(a, b))
  {
    ReplaceDecimalComma(a, b);
    var t := a + "." + b;
    assert t[0] == a[0];
    ParseFloatUnsigned(t);
    UnsignedDecimal(a, b);
  }

  lemma TwelveFiftyValue()
    ensures DecimalValue("12", "50") == 12.5
  {
    assert DigitsValue("12") == 12 by { assert "12"[..1] == "1"; }
    assert DigitsValue("50") == 50 by { assert "50"[..1] == "5"; }
    assert Pow10(2) == 100;
  }

  /** "12,50" reads as 12.5. */
  lemma TwelveFifty()
    ensures ToFloat(RawAverage.Written("12,50")) == Some(12.5)
  {
    CommaDecimal("12", "50");
    assert "12" + "," + "50" == "12,50";
    TwelveFiftyValue();
  }

  // ----- the records with their averages read -----

  /** A record together with `toFloat(Moy_Bac)`; the top-10 lists hold these. */
  datatype Scored = Scored(rec: Candidate, moy: real)

  predicate AllAveragesRead(rows: seq<Candidate>) {
    forall i :: 0 <= i < |rows| ==> ToFloat(rows[i].moyBac).Some?
  }

  function Score(rows: seq<Candidate>): (xs: seq<Scored>)
    requires AllAveragesRead(rows)
    ensures |xs| == |rows|
    ensures forall i :: 0 <= i < |rows| ==> xs[i].rec == rows[i] && ToFloat(rows[i].moyBac) == Some(xs[i].moy)
  {
    if rows == [] then []
    else [Scored(rows[0], ToFloat(rows[0].moyBac).value)] + Score(rows[1..])
  }

  function Moy(x: Scored): real {
    x.moy
  }

  /** The averages in record order (the `moyennes` arrays). */
  function Moys(xs: seq<Scored>): (ms: seq<real>)
    ensures |ms| == |xs|
    ensures forall i :: 0 <= i < |xs| ==> ms[i] == xs[i].moy
  {
    if xs == [] then [] else Moys(xs[..|xs| - 1]) + [xs[|xs| - 1].moy]
  }

  predicate IsAdmitted(x: Scored) {
    x.rec.decision == Admitted
  }

  function HasDecision(want: String): Scored -> bool {
    (x: Scored) => x.rec.decision == want
  }

  // ----- global decision counts -----

  datatype Counts = Counts(admis: nat, ajournes: nat, sessionnaires: nat)

  /** The `if / else if` chain on `Decision`, counted over the records. */
  function CountDecisions(xs: seq<Scored>): Counts {
    if xs == [] then Counts(0, 0, 0)
    else
      var c := CountDecisions(xs[..|xs| - 1]);
      var d := xs[|xs| - 1].rec.decision;
      if d == Admitted then c.(admis := c.admis + 1)
      else if d == Postponed then c.(ajournes := c.ajournes + 1)
      else if d == Retake then c.(sessionnaires := c.sessionnaires + 1)
      else c
  }

  /** Each count is the number of records carrying that exact label, and since a
      record carries one label the three never add up to more than the total. */
  lemma {:induction false} CountsMatchLabels(xs: seq<Scored>)
    ensures CountDecisions(xs).admis == |Filter(xs, HasDecision(Admitted))|
    ensures CountDecisions(xs).ajournes == |Filter(xs, HasDecision(Postponed))|
    ensures CountDecisions(xs).sessionnaires == |Filter(xs, HasDecision(Retake))|
    ensures CountDecisions(xs).admis + CountDecisions(xs).ajournes + CountDecisions(xs).sessionnaires <= |xs|
  {
    if xs != [] {
      var init, last := xs[..|xs| - 1], xs[|xs| - 1];
      CountsMatchLabels(init);
      FilterCountLast(xs, HasDecision(Admitted));
      FilterCountLast(xs, HasDecision(Postponed));
      FilterCountLast(xs, HasDecision(Retake));
    }
  }

  // ----- group-bys -----

  /** What the source keeps per group: every group kind keeps a subset of these. */
  datatype Tally = Tally(total: nat, admis: nat, moyennes: seq<real>, min: real, max: real)

  /** A new group: min seeded at 20 and max at 0. */
  const Seed := Tally(0, 0, [], 20.0, 0.0)

  /** The per-record update of a group. */
  function Bump(t: Tally, x: Scored): Tally {
    Tally(
      t.total + 1,
      if IsAdmitted(x) then t.admis + 1 else t.admis,
      t.moyennes + [x.moy],
      if x.moy < t.min then x.moy else t.min,
      if x.moy > t.max then x.moy else t.max)
  }

  /** The tally of a set of records taken on its own. */
  function Summarize(ys: seq<Scored>): Tally {
    if ys == [] then Seed else Bump(Summarize(ys[..|ys| - 1]), ys[|ys| - 1])
  }

  predicate IsMinSeeded(m: real, seed: real, ms: seq<real>) {
    && m <= seed
    && (forall i :: 0 <= i < |ms| ==> m <= ms[i])
    && (m == seed || exists i :: 0 <= i < |ms| && m == ms[i])
  }

  predicate IsMaxSeeded(m: real, seed: real, ms: seq<real>) {
    && m >= seed
    && (forall i :: 0 <= i < |ms| ==> m >= ms[i])
    && (m == seed || exists i :: 0 <= i < |ms| && m == ms[i])
  }

  lemma {:induction false} MoysSnoc(init: seq<Scored>, last: Scored)
    ensures Moys(init + [last]) == Moys(init) + [last.moy]
  {
    assert (init + [last])[..|init|] == init;
  }

  /** A group's tally counts its records and its admitted records, and keeps
      their averages in order. */
  lemma {:induction false} SummarizeCounts(ys: seq<Scored>)
    ensures Summarize(ys).total == |ys|
    ensures Summarize(ys).admis == |Filter(ys, IsAdmitted)| <= |ys|
    ensures Summarize(ys).moyennes == Moys(ys)
  {
    if ys != [] {
      var init, last := ys[..|ys| - 1], ys[|ys| - 1];
      SummarizeCounts(init);
      assert ys == init + [last];
      FilterConcat(init, [last], IsAdmitted);
      MoysSnoc(init, last);
    }
  }

  /** A group's min is min(20, its averages). */
  lemma {:induction false} SummarizeMin(ys: seq<Scored>)
    ensures IsMinSeeded(Summarize(ys).min, 20.0, Moys(ys))
  {
    if ys != [] {
      var init, last := ys[..|ys| - 1], ys[|ys| - 1];
      SummarizeMin(init);
      assert ys == init + [last];
      MoysSnoc(init, last);
      var ms := Moys(ys);
      var m0 := Summarize(init).min;
      if last.moy >= m0 && m0 != 20.0 {
        var i :| 0 <= i < |Moys(init)| && m0 == Moys(init)[i];
        assert ms[i] == m0;
      }
    }
  }

  /** A group's max is max(0, its averages). */
  lemma {:induction false} SummarizeMax(ys: seq<Scored>)
    ensures IsMaxSeeded(Summarize(ys).max, 0.0, Moys(ys))
  {
    if ys != [] {
      var init, last := ys[..|ys| - 1], ys[|ys| - 1];
      SummarizeMax(init);
      assert ys == init + [last];
      MoysSnoc(init, last);
      var ms := Moys(ys);
      var m0 := Summarize(init).max;
      if last.moy <= m0 && m0 != 0.0 {
        var i :| 0 <= i < |Moys(init)| && m0 == Moys(init)[i];
        assert ms[i] == m0;
      }
    }
  }

  /** A group-by result: the keys in first-seen order (the order of
      `Object.keys`) and the tally of each key. */
  datatype Table = Table(keys: seq<String>, at: map<String, Tally>)

  ghost predicate WellFormed(t: Table) {
    NoDuplicates(t.keys) && forall k :: k in t.at <==> k in t.keys
  }

  function Upsert(t: Table, k: String, x: Scored): Table {
    if k in t.at then Table(t.keys, t.at[k := Bump(t.at[k], x)])
    else Table(t.keys + [k], t.at[k := Bump(Seed, x)])
  }

  /** The record-by-record group-by on `key`. */
  function GroupBy(xs: seq<Scored>, key: Scored -> String): (t: Table)
    ensures WellFormed(t)
    ensures forall k :: k in t.at <==> exists i :: 0 <= i < |xs| && key(xs[i]) == k
  {
    if xs == [] then Table([], map[])
    else
      var t0 := GroupBy(xs[..|xs| - 1], key);
      var t := Upsert(t0, key(xs[|xs| - 1]), xs[|xs| - 1]);
      assert forall i :: 0 <= i < |xs| - 1 ==> xs[..|xs| - 1][i] == xs[i];
      assert forall k :: k in t.at <==> exists i :: 0 <= i < |xs| && key(xs[i]) == k by {
        forall k | k in t.at ensures exists i :: 0 <= i < |xs| && key(xs[i]) == k {
          if k != key(xs[|xs| - 1]) {
            var i :| 0 <= i < |xs| - 1 && key(xs[..|xs| - 1][i]) == k;
            assert key(xs[i]) == k;
          }
        }
      }
      t
  }

  /** The key of every record, in record order. */
  function KeyColumn(xs: seq<Scored>, key: Scored -> String): (ks: seq<String>)
    ensures |ks| == |xs|
    ensures forall i :: 0 <= i < |xs| ==> ks[i] == key(xs[i])
  {
    seq(|xs|, i requires 0 <= i < |xs| => key(xs[i]))
  }

  /** The group keys are the record keys in order of first appearance, which
      is the order `Object.keys` later enumerates them in. */
  lemma {:induction false} GroupByKeysFirstSeen(xs: seq<Scored>, key: Scored -> String)
    ensures GroupBy(xs, key).keys == Distinct(KeyColumn(xs, key))
  {
    if xs != [] {
      var init, last := xs[..|xs| - 1], xs[|xs| - 1];
      GroupByKeysFirstSeen(init, key);
      assert KeyColumn(xs, key) == KeyColumn(init, key) + [key(last)];
      DistinctSnoc(KeyColumn(init, key), key(last));
      assert key(last) in GroupBy(init, key).at <==> key(last) in KeyColumn(init, key);
    }
  }

  /** Each group's tally is the tally of exactly the records with that key. */
  lemma {:induction false} GroupByIsFilterThenSummarize(xs: seq<Scored>, key: Scored -> String, k: String)
    requires k in GroupBy(xs, key).at
    ensures GroupBy(xs, key).at[k] == Summarize(Filter(xs, KeyIs(key, k)))
  {
    var init, last := xs[..|xs| - 1], xs[|xs| - 1];
    FilterLast(xs, KeyIs(key, k));
    var t0 := GroupBy(init, key);
    var f0 := Filter(init, KeyIs(key, k));
    if k == key(last) {
      assert (f0 + [last])[..|f0|] == f0;
      if k in t0.at {
        GroupByIsFilterThenSummarize(init, key, k);
      } else {
        FilterNone(init, KeyIs(key, k));
      }
    } else {
      GroupByIsFilterThenSummarize(init, key, k);
    }
  }

  /** Sum of one field of the tallies, over the given keys. */
  function SumOver(keys: seq<String>, at: map<String, Tally>, f: Tally -> nat): nat
    requires forall k :: k in keys ==> k in at
  {
    if keys == [] then 0 else SumOver(keys[..|keys| - 1], at, f) + f(at[keys[|keys| - 1]])
  }

  function TotalOf(t: Tally): nat { t.total }
  function AdmisOf(t: Tally): nat { t.admis }

  lemma {:induction false} SumOverOther(keys: seq<String>, at: map<String, Tally>, f: Tally -> nat, k: String, v: Tally)
    requires forall j :: j in keys ==> j in at
    requires k !in keys
    ensures SumOver(keys, at[k := v], f) == SumOver(keys, at, f)
  {
    if keys != [] {
      SumOverOther(keys[..|keys| - 1], at, f, k, v);
    }
  }

  lemma {:induction false} SumOverReplace(keys: seq<String>, at: map<String, Tally>, f: Tally -> nat, k: String, v: Tally)
    requires forall j :: j in keys ==> j in at
    requires NoDuplicates(keys) && k in keys
    ensures SumOver(keys, at[k := v], f) + f(at[k]) == SumOver(keys, at, f) + f(v)
  {
    var init, last := keys[..|keys| - 1], keys[|keys| - 1];
    if last == k {
      assert k !in init;
      SumOverOther(init, at, f, k, v);
    } else {
      assert k in init by { var i :| 0 <= i < |keys| && keys[i] == k; assert i < |keys| - 1; assert init[i] == k; }
      SumOverReplace(init, at, f, k, v);
    }
  }

  /** Adding one record to a well-formed table raises the sum of a field by
      what the record adds to its own group's field. */
  lemma UpsertSum(t0: Table, k: String, x: Scored, f: Tally -> nat)
    requires WellFormed(t0)
    ensures var t := Upsert(t0, k, x);
      SumOver(t.keys, t.at, f) + (if k in t0.at then f(t0.at[k]) else 0)
        == SumOver(t0.keys, t0.at, f) + f(t.at[k])
  {
    if k in t0.at {
      SumOverReplace(t0.keys, t0.at, f, k, Bump(t0.at[k], x));
    } else {
      var t := Upsert(t0, k, x);
      SumOverOther(t0.keys, t0.at, f, k, Bump(Seed, x));
      assert t.keys[..|t.keys| - 1] == t0.keys && t.keys[|t.keys| - 1] == k;
    }
  }

  lemma UpsertTotal(t0: Table, k: String, x: Scored)
    requires WellFormed(t0)
    ensures var t := Upsert(t0, k, x);
      SumOver(t.keys, t.at, TotalOf) == SumOver(t0.keys, t0.at, TotalOf) + 1
  {
    UpsertSum(t0, k, x, TotalOf);
  }

  lemma {:induction false} GroupAdmittedStep(xs: seq<Scored>, key: Scored -> String)
    requires xs != []
    ensures SumOver(GroupBy(xs, key).keys, GroupBy(xs, key).at, AdmisOf)
         == SumOver(GroupBy(xs[..|xs| - 1], key).keys, GroupBy(xs[..|xs| - 1], key).at, AdmisOf)
            + if IsAdmitted(xs[|xs| - 1]) then 1 else 0
  {
    var t0 := GroupBy(xs[..|xs| - 1], key);
    UpsertSum(t0, key(xs[|xs| - 1]), xs[|xs| - 1], AdmisOf);
  }

  /** The group totals add up to the number of records. */
  lemma {:induction false} GroupTotals(xs: seq<Scored>, key: Scored -> String)
    ensures SumOver(GroupBy(xs, key).keys, GroupBy(xs, key).at, TotalOf) == |xs|
  {
    if xs != [] {
      var init, last := xs[..|xs| - 1], xs[|xs| - 1];
      GroupTotals(init, key);
      UpsertTotal(GroupBy(init, key), key(last), last);
    }
  }

  /** The group admitted counts add up to the number of admitted records. */
  lemma {:induction false} GroupAdmitted(xs: seq<Scored>, key: Scored -> String)
    ensures SumOver(GroupBy(xs, key).keys, GroupBy(xs, key).at, AdmisOf) == |Filter(xs, IsAdmitted)|
  {
    if xs != [] {
      var init, last := xs[..|xs| - 1], xs[|xs| - 1];
      GroupAdmitted(init, key);
      FilterCountLast(xs, IsAdmitted);
      GroupAdmittedStep(xs, key);
    }
  }

  // ----- rates, means, variance -----

  /** `(admis / total) * 100`; `None` is the `NaN` of `0 / 0`. */
  function Rate(admis: nat, total: nat): Option<real> {
    if total == 0 then None else Some(admis as real / total as real * 100.0)
  }

  lemma RateInRange(admis: nat, total: nat)
    requires admis <= total && total > 0
    ensures Rate(admis, total).Some?
    ensures 0.0 <= Rate(admis, total).value <= 100.0
    ensures admis == 0 ==> Rate(admis, total).value == 0.0
    ensures admis == total ==> Rate(admis, total).value == 100.0
  {
    assert admis as real / total as real <= 1.0;
  }

  lemma RateBounded(admis: nat, total: nat)
    requires admis <= total
    ensures total > 0 ==> Rate(admis, total).Some? && 0.0 <= Rate(admis, total).value <= 100.0
  {
    if total > 0 { RateInRange(admis, total); }
  }

  /** `ms.reduce((a, b) => a + b, 0) / ms.length`; `None` for the empty list. */
  function Mean(ms: seq<real>): Option<real> {
    if |ms| == 0 then None else Some(SumReal(ms) / |ms| as real)
  }

  /** A mean lies between any bounds of the values. */
  lemma {:induction false} MeanBetween(ms: seq<real>, lo: real, hi: real)
    requires |ms| > 0
    requires forall i :: 0 <= i < |ms| ==> lo <= ms[i] <= hi
    ensures Mean(ms).Some? && lo <= Mean(ms).value <= hi
  {
    SumRealBounds(ms, lo, hi);
    var n := |ms| as real;
    assert n * lo <= SumReal(ms) <= n * hi;
    assert lo == n * lo / n && hi == n * hi / n;
  }

  /** Sum of squared deviations from `c`. */
  function SumSqDev(ms: seq<real>, c: real): real {
    if ms == [] then 0.0
    else SumSqDev(ms[..|ms| - 1], c) + (ms[|ms| - 1] - c) * (ms[|ms| - 1] - c)
  }

  function SumSquares(ms: seq<real>): real {
    if ms == [] then 0.0 else SumSquares(ms[..|ms| - 1]) + ms[|ms| - 1] * ms[|ms| - 1]
  }

  /** Population variance (divide by n) around the mean; `None` for the empty list. */
  function Variance(ms: seq<real>): (v: Option<real>)
    ensures v.Some? <==> |ms| > 0
  {
    match Mean(ms)
    case None => None
    case Some(mu) => Some(SumSqDev(ms, mu) / |ms| as real)
  }

  lemma {:induction false} SumSqDevExpand(ms: seq<real>, c: real)
    ensures SumSqDev(ms, c) == SumSquares(ms) - 2.0 * c * SumReal(ms) + |ms| as real * (c * c)
  {
    if ms != [] {
      var init, l := ms[..|ms| - 1], ms[|ms| - 1];
      SumSqDevExpand(init, c);
      var n0 := |init| as real;
      var s0, q0 := SumReal(init), SumSquares(init);
      var cc := c * c;
      assert SumReal(ms) == s0 + l && SumSquares(ms) == q0 + l * l;
      assert (l - c) * (l - c) == l * l - 2.0 * c * l + cc;
      assert 2.0 * c * (s0 + l) == 2.0 * c * s0 + 2.0 * c * l;
      assert (n0 + 1.0) * cc == n0 * cc + cc;
    }
  }

  /** Around the mean, the cross term of the expansion cancels half the square term. */
  lemma CenteredSum(d: real, q: real, sum: real, n: real, mu: real)
    requires n > 0.0 && mu == sum / n
    requires d == q - 2.0 * mu * sum + n * (mu * mu)
    ensures d == q - n * (mu * mu)
  {
    assert sum == mu * n;
  }

  lemma CancelDivision(v: real, d: real, x: real, n: real, y: real)
    requires n > 0.0 && v == d / n && d == x - n * y
    ensures v == x / n - y
  {
    assert (x / n - y) * n == x - n * y;
  }

  lemma {:induction false} SumSqDevAtMean(ms: seq<real>, mu: real)
    requires |ms| > 0 && mu == SumReal(ms) / |ms| as real
    ensures SumSqDev(ms, mu) == SumSquares(ms) - |ms| as real * (mu * mu)
  {
    SumSqDevExpand(ms, mu);
    CenteredSum(SumSqDev(ms, mu), SumSquares(ms), SumReal(ms), |ms| as real, mu);
  }

  lemma {:induction false} VarianceAt(ms: seq<real>)
    requires |ms| > 0
    ensures Mean(ms).value == SumReal(ms) / |ms| as real
    ensures Variance(ms).value == SumSqDev(ms, Mean(ms).value) / |ms| as real
  {
  }

  lemma {:induction false} VarianceExpanded(ms: seq<real>)
    requires |ms| > 0
    ensures Variance(ms).value == (SumSquares(ms) - |ms| as real * (Mean(ms).value * Mean(ms).value)) / |ms| as real
  {
    VarianceAt(ms);
    SumSqDevAtMean(ms, Mean(ms).value);
  }

  /** The variance equals the mean of the squares minus the square of the mean. */
  lemma {:induction false} VarianceIdentity(ms: seq<real>)
    requires |ms| > 0
    ensures Variance(ms).value == SumSquares(ms) / |ms| as real - Mean(ms).value * Mean(ms).value
  {
    var mu := Mean(ms).value;
    VarianceExpanded(ms);
    CancelDivision(Variance(ms).value, SumSquares(ms) - |ms| as real * (mu * mu), SumSquares(ms), |ms| as real, mu * mu);
  }

  lemma {:induction false} SumSqDevNonNegative(ms: seq<real>, c: real)
    ensures SumSqDev(ms, c) >= 0.0
  {
    if ms != [] {
      SumSqDevNonNegative(ms[..|ms| - 1], c);
      var d := ms[|ms| - 1] - c;
      assert d * d >= 0.0;
    }
  }

  lemma {:induction false} VarianceNonNegative(ms: seq<real>)
    requires |ms| > 0
    ensures Variance(ms).value >= 0.0
  {
    SumSqDevNonNegative(ms, Mean(ms).value);
  }

  lemma {:induction false} SumSqDevConstant(ms: seq<real>, c: real)
    requires forall i :: 0 <= i < |ms| ==> ms[i] == c
    ensures SumSqDev(ms, c) == 0.0
  {
    if ms != [] {
      SumSqDevConstant(ms[..|ms| - 1], c);
    }
  }

  /** Equal values have that value as mean and variance 0: {10, 10, 10} gives 10 and 0. */
  lemma {:induction false} ConstantVariance(ms: seq<real>, c: real)
    requires |ms| > 0
    requires forall i :: 0 <= i < |ms| ==> ms[i] == c
    ensures Mean(ms) == Some(c)
    ensures Variance(ms) == Some(0.0)
  {
    MeanBetween(ms, c, c);
    SumSqDevConstant(ms, c);
  }

  // ----- the summary -----

  datatype Global = Global(total: nat, admis: nat, ajournes: nat, sessionnaires: nat, tauxReussite: Option<real>)

  /** `moyennes`: the general mean, the mean of the admitted, and the variance
      whose square root the source stores as `ecartType`. */
  datatype Averages = Averages(generale: Option<real>, admis: Option<real>, variance: Option<real>)

  datatype Summary = Summary(
    global: Global,
    parSerie: Table,
    parWilaya: Table,
    parEtablissement: Table,
    parCentre: Table,
    moyennes: Averages,
    top10: seq<Scored>,
    top10Wilaya: map<String, seq<Scored>>
  )

  function SerieKey(x: Scored): String { x.rec.serie }
  function WilayaKey(x: Scored): String { x.rec.wilayaFr }
  function SchoolKey(x: Scored): String { x.rec.schoolFr }
  function CentreKey(x: Scored): String { x.rec.centreFr }

  /** `taux` of a series or wilaya. */
  function GroupRate(t: Tally): Option<real> {
    Rate(t.admis, t.total)
  }

  /** `moyenne` of a wilaya. */
  function GroupMean(t: Tally): Option<real> {
    Mean(t.moyennes)
  }

  function WilayaIs(w: String): Scored -> bool {
    KeyIs(WilayaKey, w)
  }

  /** `top10`: the ten best averages, ties in record order. */
  function Top10(xs: seq<Scored>): seq<Scored> {
    TopBy(xs, Moy, 10)
  }

  /** `calculateStats` on the records of the results file. */
  function CalculateStats(rows: seq<Candidate>): (s: Summary)
    requires AllAveragesRead(rows)
    ensures s.global.total == |rows|
    ensures s.top10Wilaya.Keys == s.parWilaya.at.Keys
    ensures WellFormed(s.parSerie) && WellFormed(s.parWilaya) && WellFormed(s.parEtablissement) && WellFormed(s.parCentre)
  {
    var xs := Score(rows);
    var counts := CountDecisions(xs);
    var ms := Moys(xs);
    var parWilaya := GroupBy(xs, WilayaKey);
    Summary(
      Global(|xs|, counts.admis, counts.ajournes, counts.sessionnaires, Rate(counts.admis, |xs|)),
      GroupBy(xs, SerieKey),
      parWilaya,
      GroupBy(xs, SchoolKey),
      GroupBy(xs, CentreKey),
      Averages(Mean(ms), Mean(Moys(Filter(xs, IsAdmitted))), Variance(ms)),
      Top10(xs),
      map w | w in parWilaya.at :: Top10(Filter(xs, WilayaIs(w))))
  }

  /** The global counts are the numbers of records with each decision label,
      and the pass rate lies in [0, 100] once there is a record. */
  lemma {:induction false} SummaryCounts(rows: seq<Candidate>)
    requires AllAveragesRead(rows)
    ensures var s := CalculateStats(rows);
      && s.global.admis == |Filter(Score(rows), HasDecision(Admitted))|
      && s.global.ajournes == |Filter(Score(rows), HasDecision(Postponed))|
      && s.global.sessionnaires == |Filter(Score(rows), HasDecision(Retake))|
      && s.global.admis + s.global.ajournes + s.global.sessionnaires <= s.global.total
      && (|rows| > 0 ==> s.global.tauxReussite.Some? && 0.0 <= s.global.tauxReussite.value <= 100.0)
  {
    var xs := Score(rows);
    CountsMatchLabels(xs);
    RateBounded(CountDecisions(xs).admis, |xs|);
  }

  /** Every group-by partitions the records: group sizes add up to the total,
      and admitted counts add up to the global one. */
  lemma {:induction false} SummaryGroups(rows: seq<Candidate>)
    requires AllAveragesRead(rows)
    ensures var s := CalculateStats(rows);
      && SumOver(s.parSerie.keys, s.parSerie.at, TotalOf) == s.global.total
      && SumOver(s.parSerie.keys, s.parSerie.at, AdmisOf) == s.global.admis
      && SumOver(s.parWilaya.keys, s.parWilaya.at, TotalOf) == s.global.total
      && SumOver(s.parWilaya.keys, s.parWilaya.at, AdmisOf) == s.global.admis
      && SumOver(s.parEtablissement.keys, s.parEtablissement.at, TotalOf) == s.global.total
      && SumOver(s.parEtablissement.keys, s.parEtablissement.at, AdmisOf) == s.global.admis
      && SumOver(s.parCentre.keys, s.parCentre.at, TotalOf) == s.global.total
      && SumOver(s.parCentre.keys, s.parCentre.at, AdmisOf) == s.global.admis
  {
    var xs := Score(rows);
    CountsMatchLabels(xs);
    FilterCongruent(xs, IsAdmitted, HasDecision(Admitted));
    GroupTotals(xs, SerieKey);
    GroupAdmitted(xs, SerieKey);
    GroupTotals(xs, WilayaKey);
    GroupAdmitted(xs, WilayaKey);
    GroupTotals(xs, SchoolKey);
    GroupAdmitted(xs, SchoolKey);
    GroupTotals(xs, CentreKey);
    GroupAdmitted(xs, CentreKey);
  }

  /** A wilaya's top-10 holds at most ten of that wilaya's records, best first,
      drawn from the records. */
  lemma {:induction false} WilayaTop(xs: seq<Scored>, w: String)
    ensures var top := Top10(Filter(xs, WilayaIs(w)));
      && |top| <= 10
      && SortedBy(top, Moy, Descending())
      && (forall i :: 0 <= i < |top| ==> top[i].rec.wilayaFr == w)
      && multiset(top) <= multiset(xs)
  {
    var ys := Filter(xs, WilayaIs(w));
    TopByOrdered(ys, Moy, 10);
    FilterMultiset(xs, WilayaIs(w));
    var top := Top10(ys);
    forall i | 0 <= i < |top| ensures top[i].rec.wilayaFr == w {
      assert top[i] in multiset(top);
      assert top[i] in multiset(ys);
      assert top[i] in ys;
      assert WilayaIs(w)(top[i]);
      assert WilayaKey(top[i]) == w;
    }
    assert multiset(ys) <= multiset(xs);
  }

  /** `top10Wilaya[w]` is the wilaya top-10 above, for every wilaya of the data. */
  lemma {:induction false} SummaryWilayaTop(rows: seq<Candidate>, w: String)
    requires AllAveragesRead(rows)
    requires w in CalculateStats(rows).top10Wilaya
    ensures var top := CalculateStats(rows).top10Wilaya[w];
      && |top| <= 10
      && SortedBy(top, Moy, Descending())
      && (forall i :: 0 <= i < |top| ==> top[i].rec.wilayaFr == w)
      && multiset(top) <= multiset(Score(rows))
  {
    assert CalculateStats(rows).top10Wilaya[w] == Top10(Filter(Score(rows), WilayaIs(w)));
    WilayaTop(Score(rows), w);
  }

  /** Every group of a group-by is non-empty, holds the averages of exactly its
      records, has min(20, ...) and max(0, ...) of them, at most as many admitted
      as records, and a pass rate in [0, 100]. */
  lemma {:induction false} GroupFacts(xs: seq<Scored>, key: Scored -> String, k: String)
    requires k in GroupBy(xs, key).at
    ensures var t := GroupBy(xs, key).at[k];
      var ys := Filter(xs, KeyIs(key, k));
      && t.total == |ys| >= 1
      && t.admis == |Filter(ys, IsAdmitted)| <= t.total
      && t.moyennes == Moys(ys)
      && |t.moyennes| == t.total
      && IsMinSeeded(t.min, 20.0, t.moyennes)
      && IsMaxSeeded(t.max, 0.0, t.moyennes)
      && GroupRate(t).Some? && 0.0 <= GroupRate(t).value <= 100.0
  {
    var ys := Filter(xs, KeyIs(key, k));
    GroupByIsFilterThenSummarize(xs, key, k);
    SummarizeCounts(ys);
    SummarizeMin(ys);
    SummarizeMax(ys);
    var i :| 0 <= i < |xs| && key(xs[i]) == k;
    assert KeyIs(key, k)(xs[i]);
    assert xs[i] in ys;
    RateInRange(Summarize(ys).admis, Summarize(ys).total);
  }

  /** A wilaya's `moyenne` is the mean of its records' averages, and lies
      between the group's min and max. */
  lemma {:induction false} WilayaMean(xs: seq<Scored>, w: String)
    requires w in GroupBy(xs, WilayaKey).at
    ensures var t := GroupBy(xs, WilayaKey).at[w];
      && GroupMean(t) == Mean(Moys(Filter(xs, WilayaIs(w))))
      && GroupMean(t).Some?
      && t.min <= GroupMean(t).value <= t.max
  {
    var t := GroupBy(xs, WilayaKey).at[w];
    assert t.moyennes == Moys(Filter(xs, WilayaIs(w))) && |t.moyennes| > 0 by {
      GroupFacts(xs, WilayaKey, w);
    }
    assert forall i :: 0 <= i < |t.moyennes| ==> t.min <= t.moyennes[i] <= t.max by {
      GroupFacts(xs, WilayaKey, w);
    }
    MeanBetween(t.moyennes, t.min, t.max);
  }

  /** `top10` is the best min(10, n) records in non-increasing order, ties in
      record order, and nothing left out beats the last one kept. */
  lemma {:induction false} SummaryTop(rows: seq<Candidate>)
    requires AllAveragesRead(rows)
    ensures var top := CalculateStats(rows).top10;
      var xs := Score(rows);
      && |top| == (if |rows| < 10 then |rows| else 10)
      && SortedBy(top, Moy, Descending())
      && multiset(top) <= multiset(xs)
      && (forall x :: x in multiset(xs) - multiset(top) ==> |top| > 0 && x.moy <= top[|top| - 1].moy)
      && (forall v :: IsPrefix(Filter(top, KeyIs(Moy, v)), Filter(xs, KeyIs(Moy, v))))
  {
    var xs := Score(rows);
    TopByOrdered(xs, Moy, 10);
    TopByOmitted(xs, Moy, 10);
    TopByStable(xs, Moy, 10);
  }
}
