/** The query engine of data/dataService.ts: the load-once cache, lookup by
    candidate number, and the multi-criteria AND filter. The module-level
    `resultsData` array is passed explicitly as `data`. */
module DataService {
  import opened Optional
  import opened Text
  import opened Seqs
  import opened Sorting
  import opened Calendar
  import opened Records
  import Convert

  /** What `parseDateNaiss` returns: `null`, a `Date` whose time value is
      `NaN`, or a valid `Date` on a day counted from 1899-12-30. */
  datatype JsDate = NoDate | InvalidDate | ValidDate(day: int)

  /** `parseDateNaiss`: falsy cells give no date; a number is that many days
      after 1899-12-30, with no validity test, so a number too far from 1970
      gives an invalid `Date`; a string goes through `Date.parse`, whose `NaN`
      gives no date. */
  function ParseDateNaiss(v: BirthDate, parse: DateParser): (r: JsDate)
  {
    match v
    case Missing => NoDate
    case Serial(x) =>
      if x == 0.0 then NoDate
      else if SerialInRange(x) then ValidDate(x.Floor)
      else InvalidDate
    case Written(s) =>
      if s == "" then NoDate
      else match parse(s)
        case None => NoDate
        case Some(day) => ValidDate(day)
  }

  /** A non-zero number in the range of a `Date` is that many whole days
      after the epoch, one out of range an invalid `Date`; 0 is falsy and has
      no date. */
  lemma SerialDate(x: real, parse: DateParser)
    ensures x != 0.0 && SerialInRange(x) ==> ParseDateNaiss(Serial(x), parse) == ValidDate(x.Floor)
    ensures x != 0.0 && !SerialInRange(x) ==> ParseDateNaiss(Serial(x), parse) == InvalidDate
    ensures ParseDateNaiss(Serial(0.0), parse) == NoDate
  {
  }

  /** `birthDate ? birthDate.getFullYear().toString() : ''`: an invalid `Date`
      is truthy and its year prints as "NaN". */
  function BirthYearText(v: BirthDate, parse: DateParser): String {
    match ParseDateNaiss(v, parse)
    case ValidDate(day) => IntToString(YearOf(day))
    case InvalidDate => "NaN"
    case NoDate => ""
  }

  /** The year text is empty exactly when there is no date, "NaN" exactly for
      a non-zero number outside the range of a `Date`, and otherwise the
      decimal year, whose first character is a sign or a digit. */
  lemma BirthYearCases(v: BirthDate, parse: DateParser)
    ensures BirthYearText(v, parse) == "" <==> ParseDateNaiss(v, parse).NoDate?
    ensures BirthYearText(v, parse) == "NaN" <==> v.Serial? && v.serial != 0.0 && !SerialInRange(v.serial)
    ensures ParseDateNaiss(v, parse).ValidDate? ==>
      var t := BirthYearText(v, parse);
      |t| >= 1 && (t[0] == '-' || IsDigit(t[0]))
  {
    match ParseDateNaiss(v, parse)
    case ValidDate(day) => IntFirstChar(YearOf(day));
    case InvalidDate =>
    case NoDate =>
  }

  /** The leading character of a printed integer is its sign or a digit. */
  lemma IntFirstChar(n: int)
    ensures var t := IntToString(n); |t| >= 1 && (t[0] == '-' || IsDigit(t[0]))
  {
  }

  /** A number cell is read as the conversion script's `parseDate` reads it:
      both give the same day, or both reject it. */
  lemma SerialAgreesWithConversion(x: real, parse: DateParser)
    requires x != 0.0
    ensures ParseDateNaiss(Serial(x), parse).ValidDate? <==> Convert.ParseDate(Convert.Num(x), parse).Some?
    ensures ParseDateNaiss(Serial(x), parse).ValidDate? ==>
      ParseDateNaiss(Serial(x), parse).day == Convert.ParseDate(Convert.Num(x), parse).value
  {
    Convert.ParseDateSerial(x, parse);
  }

  /** The search form's criteria; the empty string stands for an absent field
      (both are falsy, so both impose no constraint). */
  datatype Criteria = Criteria(
    candidateNumber: String,
    fullName: String,
    examCenter: String,
    wilaya: String,
    birthYear: String,
    school: String,
    series: String
  )

  const NoCriteria := Criteria("", "", "", "", "", "", "")

  /** The filter callback of `searchByCriteria`: every non-empty criterion holds. */
  predicate Matches(r: Candidate, c: Criteria, parse: DateParser) {
    && (c.candidateNumber == "" || r.numBac == c.candidateNumber)
    && (c.fullName == "" || ContainsIgnoreCase(r.nomFr, c.fullName))
    && (c.examCenter == "" || r.centreFr == c.examCenter)
    && (c.wilaya == "" || r.wilayaFr == c.wilaya)
    && (c.school == "" || r.schoolFr == c.school)
    && (c.birthYear == "" || BirthYearText(r.dateNaiss, parse) == c.birthYear)
    && (c.series == "" || r.serie == c.series)
  }

  function Matcher(c: Criteria, parse: DateParser): Candidate -> bool {
    (r: Candidate) => Matches(r, c, parse)
  }

  /** `searchByCriteria`: a single pass over the data keeping the matching
      rows, which is the reference filter (see `CriteriaResult`). */
  method SearchByCriteria(data: seq<Candidate>, c: Criteria, parse: DateParser) returns (r: seq<Candidate>)
    ensures r == Filter(data, Matcher(c, parse))
  {
    r := [];
    var i := 0;
    while i < |data|
      invariant 0 <= i <= |data|
      invariant r == Filter(data[..i], Matcher(c, parse))
    {
      FilterConcat(data[..i], [data[i]], Matcher(c, parse));
      assert data[..i + 1] == data[..i] + [data[i]];
      if Matches(data[i], c, parse) {
        r := r + [data[i]];
      }
      i := i + 1;
    }
    assert data[..i] == data;
  }

  /** The rows kept are sound (each meets every non-empty criterion), complete
      (every matching row is kept, as often as it occurs) and in data order. */
  lemma CriteriaResult(data: seq<Candidate>, c: Criteria, parse: DateParser)
    ensures var r := Filter(data, Matcher(c, parse));
      && (forall x :: x in r ==> x in data && Matches(x, c, parse))
      && (forall i :: 0 <= i < |data| && Matches(data[i], c, parse) ==> data[i] in r)
      && IsSubseq(r, data)
      && (forall x :: multiset(r)[x] == if Matches(x, c, parse) then multiset(data)[x] else 0)
  {
    FilterMultiset(data, Matcher(c, parse));
  }

  /** With every criterion empty the filter returns the whole dataset, in order. */
  lemma NoCriteriaReturnsAll(data: seq<Candidate>, parse: DateParser)
    ensures Filter(data, Matcher(NoCriteria, parse)) == data
  {
    FilterAll(data, Matcher(NoCriteria, parse));
  }

  /** A set birth year excludes every row whose date does not parse. */
  lemma BirthYearExcludesUnparsed(r: Candidate, c: Criteria, parse: DateParser)
    requires c.birthYear != ""
    requires ParseDateNaiss(r.dateNaiss, parse).NoDate?
    ensures !Matches(r, c, parse)
  {
  }

  /** A row whose number cell lies outside the range of a `Date` has the
      year text "NaN": a birth-year criterion of "NaN" selects it and no other
      non-empty year does. */
  lemma NaNYearMatches(r: Candidate, y: String, parse: DateParser)
    requires r.dateNaiss.Serial? && r.dateNaiss.serial != 0.0 && !SerialInRange(r.dateNaiss.serial)
    requires y != ""
    ensures Matches(r, NoCriteria.(birthYear := y), parse) <==> y == "NaN"
  {
  }

  /** The name test is case-insensitive: changing the case of the query changes nothing. */
  lemma NameTestIgnoresCase(r: Candidate, c: Criteria, parse: DateParser)
    ensures Matches(r, c, parse) == Matches(r, c.(fullName := LowerStr(c.fullName)), parse)
  {
    LowerIdempotent(c.fullName);
    if c.fullName != "" {
      assert LowerStr(c.fullName) != "";
    } else {
      assert LowerStr(c.fullName) == "";
    }
  }

  /** `searchByCandidateNumber`: the first row with that number, or `null`. */
  function SearchByCandidateNumber(data: seq<Candidate>, q: String): (r: Option<Candidate>)
    ensures r.None? <==> forall i :: 0 <= i < |data| ==> data[i].numBac != q
    ensures r.Some? ==> r.value.numBac == q
    ensures r.Some? ==> exists i :: 0 <= i < |data| && data[i] == r.value
                               && forall j :: 0 <= j < i ==> data[j].numBac != q
  {
    if data == [] then None
    else if data[0].numBac == q then Some(data[0])
    else
      var r := SearchByCandidateNumber(data[1..], q);
      assert forall i :: 1 <= i < |data| ==> data[i] == data[1..][i - 1];
      r
  }

  /** When numbers are duplicated, the lookup returns the first row while the
      number criterion returns all of them. */
  lemma DuplicateNumbers(a: Candidate, b: Candidate, parse: DateParser)
    requires a.numBac == b.numBac == "1000"
    ensures SearchByCandidateNumber([a, b], "1000") == Some(a)
    ensures Filter([a, b], Matcher(NoCriteria.(candidateNumber := "1000"), parse)) == [a, b]
  {
    FilterAll([a, b], Matcher(NoCriteria.(candidateNumber := "1000"), parse));
  }

  // ----- the load-once cache of fetchResults -----

  /** What `fetch('/results.json')` followed by `response.json()` produced. */
  datatype LoadOutcome = Loaded(rows: seq<Candidate>) | LoadFailed

  /** The cache after the call, and what the call returned (`None` when it threw). */
  datatype Fetched = Fetched(cache: seq<Candidate>, returned: Option<seq<Candidate>>)

  function NameOf(r: Candidate): String {
    r.nomFr
  }

  /** `fetchResults`: a non-empty cache is returned as is; otherwise the file is
      loaded and sorted by `Nom_FR` (stable), and a failure leaves the cache alone. */
  function FetchResults(cache: seq<Candidate>, load: LoadOutcome): (f: Fetched)
    ensures |cache| > 0 ==> f == Fetched(cache, Some(cache))
    ensures |cache| == 0 && load.LoadFailed? ==> f == Fetched(cache, None)
    ensures |cache| == 0 && load.Loaded? ==>
      && f.returned == Some(f.cache)
      && multiset(f.cache) == multiset(load.rows)
      && SortedBy(f.cache, NameOf, Lexicographic())
      && forall name :: Filter(f.cache, KeyIs(NameOf, name)) == Filter(load.rows, KeyIs(NameOf, name))
  {
    if |cache| > 0 then Fetched(cache, Some(cache))
    else match load
      case LoadFailed => Fetched(cache, None)
      case Loaded(rows) =>
        var sorted := SortBy(rows, NameOf, Lexicographic());
        LexicographicTotal();
        SortSorted(rows, NameOf, Lexicographic());
        SortPermutes(rows, NameOf, Lexicographic());
        assert forall name :: Filter(sorted, KeyIs(NameOf, name)) == Filter(rows, KeyIs(NameOf, name)) by {
          forall name { SortStable(rows, NameOf, Lexicographic(), name); }
        }
        Fetched(sorted, Some(sorted))
  }

  /** Loading twice from an empty cache with the same file gives the same
      cache, and a second call after a successful non-empty load does not reload. */
  lemma LoadOnce(rows: seq<Candidate>, other: LoadOutcome)
    requires |rows| > 0
    ensures FetchResults(FetchResults([], Loaded(rows)).cache, other) == FetchResults([], Loaded(rows))
  {
  }
}
