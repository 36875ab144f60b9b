/** The decision logic of the search page (app/page.tsx): when a search runs
    and with which criteria, how its results are shown, the recent-number
    history, the school suggestions under the name field, the series buttons,
    clearing the form and the drop-down option lists. React state becomes
    explicit arguments and results; timers, storage and markup are left out. */
module SearchPage {
  import opened Optional
  import opened Text
  import opened Seqs
  import opened Calendar
  import opened Records
  import opened DataService
  import opened Sorting

  /** The advanced-search form, fields in the order of its state object. */
  datatype Advanced = Advanced(
    fullName: String,
    examCenter: String,
    wilaya: String,
    birthYear: String,
    series: String,
    school: String
  )

  const EmptyAdvanced := Advanced("", "", "", "", "", "")

  /** `Object.values(advancedCriteria)`. */
  function Values(a: Advanced): seq<String> {
    [a.fullName, a.examCenter, a.wilaya, a.birthYear, a.series, a.school]
  }

  predicate Blank(s: String) {
    Trim(s) == ""
  }

  /** `Object.values(advancedCriteria).some(val => val.trim() !== '')`. */
  predicate AnyFilled(a: Advanced) {
    exists i :: 0 <= i < |Values(a)| && !Blank(Values(a)[i])
  }

  /** The form handed as is to `searchByCriteria`: no candidate number, and
      fields that are blank but not empty still count as set. */
  function AsCriteria(a: Advanced): (c: Criteria)
    ensures c.candidateNumber == ""
    ensures [c.fullName, c.examCenter, c.wilaya, c.birthYear, c.series, c.school] == Values(a)
  {
    Criteria("", a.fullName, a.examCenter, a.wilaya, a.birthYear, a.school, a.series)
  }

  /** `searchByCriteria({ candidateNumber })`. */
  function ByNumber(number: String): (c: Criteria)
    ensures c.candidateNumber == number
    ensures c.(candidateNumber := "") == NoCriteria
  {
    NoCriteria.(candidateNumber := number)
  }

  // ----- handleSearch -----

  /** What the page shows after a search. */
  datatype Outcome =
    | NeedCriterion            // "Veuillez entrer un critère de recherche"
    | SearchFailed             // "Erreur lors de la recherche": the first load threw
    | NoResults                // "Aucun résultat trouvé"
    | Single(found: Candidate)
    | Multiple(all: seq<Candidate>)

  /** The results shown for the rows found: none is an error, one is shown
      alone, more are shown as a list. */
  function Dispatch(found: seq<Candidate>): (o: Outcome)
    ensures o.NoResults? <==> |found| == 0
    ensures o.Single? <==> |found| == 1
    ensures o.Multiple? <==> |found| > 1
    ensures o.Single? ==> found == [o.found]
    ensures o.Multiple? ==> o.all == found
  {
    if |found| == 0 then NoResults
    else if |found| == 1 then Single(found[0])
    else Multiple(found)
  }

  /** The rows an outcome shows. */
  function Shown(o: Outcome): seq<Candidate> {
    match o
    case Single(x) => [x]
    case Multiple(xs) => xs
    case _ => []
  }

  /** The new history: the number searched first, then the earlier numbers
      other than it, keeping five in all. */
  function UpdateHistory(number: String, history: seq<String>): (r: seq<String>)
    ensures 1 <= |r| <= 5 && r[0] == number
    ensures |r| == if 1 + |Filter(history, Other(number))| < 5 then 1 + |Filter(history, Other(number))| else 5
    ensures number !in r[1..]
    ensures IsSubseq(r[1..], history)
    ensures r[1..] <= Filter(history, Other(number))
  {
    var rest := Filter(history, Other(number));
    var r := Take([number] + rest, 5);
    assert r[1..] == rest[..|r| - 1];
    PrefixIsSubseq(rest, |r| - 1);
    SubseqTrans(r[1..], rest, history);
    assert !Other(number)(number);
    r
  }

  /** The page's load state: the `dataLoaded` flag and the module-level cache
      of the data service. */
  datatype Loading = Loading(loaded: bool, cache: seq<Candidate>)

  /** The outcome, the history and the load state after a search. */
  datatype Searched = Searched(outcome: Outcome, history: seq<String>, after: Loading)

  /** `handleSearch`: with neither a number nor any advanced field filled in
      (after trimming), an error and no search. Otherwise, before the data is
      loaded, `fetchResults` runs with the file's `load` outcome, and when it
      throws the search fails with history and load state untouched. The
      search then looks up the untrimmed number alone when it is not blank,
      else the advanced form, in the cache; only a number search enters the
      history. */
  function HandleSearch(number: String, adv: Advanced, history: seq<String>, st: Loading, load: LoadOutcome, parse: DateParser): (s: Searched)
    ensures s.outcome.NeedCriterion? <==> Blank(number) && !AnyFilled(adv)
    ensures s.outcome.SearchFailed? <==> !s.outcome.NeedCriterion? && !st.loaded && |st.cache| == 0 && load.LoadFailed?
    ensures s.history == if s.outcome.NeedCriterion? || s.outcome.SearchFailed? || Blank(number) then history else UpdateHistory(number, history)
    ensures s.outcome.NeedCriterion? || s.outcome.SearchFailed? ==> s.after == st
    ensures !s.outcome.NeedCriterion? && !s.outcome.SearchFailed? ==>
      s.after.loaded && (st.loaded || |st.cache| > 0 ==> s.after.cache == st.cache)
  {
    if Blank(number) && !AnyFilled(adv) then Searched(NeedCriterion, history, st)
    else
      var f := if st.loaded then Fetched(st.cache, Some(st.cache)) else FetchResults(st.cache, load);
      if f.returned.None? then Searched(SearchFailed, history, st)
      else
        var data := f.cache;
        if !Blank(number) then
          Searched(Dispatch(Filter(data, Matcher(ByNumber(number), parse))), UpdateHistory(number, history), Loading(true, data))
        else
          Searched(Dispatch(Filter(data, Matcher(AsCriteria(adv), parse))), history, Loading(true, data))
  }

  /** The first search reads the file: a failed read shows the search error
      and changes neither the history nor the load state; a successful one
      leaves the page loaded with the file's rows, sorted by name. */
  lemma FirstSearchLoads(number: String, adv: Advanced, history: seq<String>, rows: seq<Candidate>, parse: DateParser)
    requires !Blank(number) || AnyFilled(adv)
    ensures var s := HandleSearch(number, adv, history, Loading(false, []), LoadFailed, parse);
      s.outcome == SearchFailed && s.history == history && s.after == Loading(false, [])
    ensures var s := HandleSearch(number, adv, history, Loading(false, []), Loaded(rows), parse);
      && !s.outcome.SearchFailed?
      && s.after.loaded
      && multiset(s.after.cache) == multiset(rows)
      && SortedBy(s.after.cache, NameOf, Lexicographic())
  {
  }

  /** Once the data is loaded the file is not read again: its outcome does
      not matter. */
  lemma LoadedIgnoresFile(number: String, adv: Advanced, history: seq<String>, cache: seq<Candidate>, l1: LoadOutcome, l2: LoadOutcome, parse: DateParser)
    ensures HandleSearch(number, adv, history, Loading(true, cache), l1, parse) == HandleSearch(number, adv, history, Loading(true, cache), l2, parse)
  {
  }

  /** A number that is not blank decides the search alone: the advanced form
      is ignored. */
  lemma NumberTakesPrecedence(number: String, a1: Advanced, a2: Advanced, history: seq<String>, st: Loading, load: LoadOutcome, parse: DateParser)
    requires !Blank(number)
    ensures HandleSearch(number, a1, history, st, load, parse) == HandleSearch(number, a2, history, st, load, parse)
  {
  }

  /** A number search shows exactly the rows of the loaded data whose number
      is the one typed, spaces included, in data order; when it shows one row,
      that is the row `searchByCandidateNumber` finds. */
  lemma NumberSearchExact(number: String, adv: Advanced, history: seq<String>, st: Loading, load: LoadOutcome, parse: DateParser)
    requires !Blank(number)
    ensures var s := HandleSearch(number, adv, history, st, load, parse);
      var data := s.after.cache;
      && (forall x :: x in Shown(s.outcome) ==> x in data && x.numBac == number)
      && (!s.outcome.SearchFailed? ==> forall i :: 0 <= i < |data| && data[i].numBac == number ==> data[i] in Shown(s.outcome))
      && (!s.outcome.SearchFailed? ==> forall x: Candidate :: multiset(Shown(s.outcome))[x] == if x.numBac == number then multiset(data)[x] else 0)
      && IsSubseq(Shown(s.outcome), data)
      && (s.outcome.Single? ==> SearchByCandidateNumber(data, number) == Some(s.outcome.found))
  {
    var s := HandleSearch(number, adv, history, st, load, parse);
    if s.outcome.SearchFailed? {
      assert Shown(s.outcome) == [];
    } else {
      assert s.outcome == Dispatch(Filter(s.after.cache, Matcher(ByNumber(number), parse)));
      TrimAllSpace("");
      NumberRows(s.after.cache, number, parse);
    }
  }

  /** The criteria of a number search test the number alone. */
  lemma NumberCriterionAlone(r: Candidate, number: String, parse: DateParser)
    ensures Matches(r, ByNumber(number), parse) <==> number == "" || r.numBac == number
  {
    var c := ByNumber(number);
    assert c.fullName == "" && c.examCenter == "" && c.wilaya == "" && c.school == "" && c.birthYear == "" && c.series == "";
  }

  /** The number filter on loaded data, shown through `Dispatch`. */
  lemma NumberRows(data: seq<Candidate>, number: String, parse: DateParser)
    requires number != ""
    ensures var o := Dispatch(Filter(data, Matcher(ByNumber(number), parse)));
      && (forall x :: x in Shown(o) ==> x in data && x.numBac == number)
      && (forall i :: 0 <= i < |data| && data[i].numBac == number ==> data[i] in Shown(o))
      && (forall x: Candidate :: multiset(Shown(o))[x] == if x.numBac == number then multiset(data)[x] else 0)
      && IsSubseq(Shown(o), data)
      && (o.Single? ==> SearchByCandidateNumber(data, number) == Some(o.found))
  {
    var found := Filter(data, Matcher(ByNumber(number), parse));
    forall i | 0 <= i < |data|
      ensures Matches(data[i], ByNumber(number), parse) <==> data[i].numBac == number
    {
      NumberCriterionAlone(data[i], number, parse);
    }
    var o := Dispatch(found);
    assert Shown(o) == found;
    forall x: Candidate
      ensures multiset(found)[x] == if x.numBac == number then multiset(data)[x] else 0
    {
      CriteriaResult(data, ByNumber(number), parse);
      NumberCriterionAlone(x, number, parse);
    }
    if o.Single? {
      var first := SearchByCandidateNumber(data, number);
      assert first.Some? by {
        assert o.found in found;
      }
      var i :| 0 <= i < |data| && data[i] == first.value && forall j :: 0 <= j < i ==> data[j].numBac != number;
      assert data[i] in found;
    }
  }

  /** An advanced search shows rows of the loaded data that meet every
      criterion typed, and all of them, in data order. */
  lemma AdvancedSearchSound(number: String, adv: Advanced, history: seq<String>, st: Loading, load: LoadOutcome, parse: DateParser)
    requires Blank(number) && AnyFilled(adv)
    ensures var s := HandleSearch(number, adv, history, st, load, parse);
      var data := s.after.cache;
      && (forall x :: x in Shown(s.outcome) ==> x in data && Matches(x, AsCriteria(adv), parse))
      && (!s.outcome.SearchFailed? ==> forall i :: 0 <= i < |data| && Matches(data[i], AsCriteria(adv), parse) ==> data[i] in Shown(s.outcome))
      && (!s.outcome.SearchFailed? ==> forall x: Candidate :: multiset(Shown(s.outcome))[x] == if Matches(x, AsCriteria(adv), parse) then multiset(data)[x] else 0)
      && IsSubseq(Shown(s.outcome), data)
  {
    var s := HandleSearch(number, adv, history, st, load, parse);
    var data := s.after.cache;
    if s.outcome.SearchFailed? {
      assert Shown(s.outcome) == [];
    } else {
      var found := Filter(data, Matcher(AsCriteria(adv), parse));
      assert s.outcome == Dispatch(found);
      assert Shown(Dispatch(found)) == found;
      CriteriaResult(data, AsCriteria(adv), parse);
    }
  }

  /** Only the trimmed test gates the search: a name of spaces alone is no
      criterion, and the form then needs a number. */
  lemma SpacesAreNoCriterion(number: String, history: seq<String>, st: Loading, load: LoadOutcome, parse: DateParser)
    requires Blank(number)
    ensures HandleSearch(number, EmptyAdvanced.(fullName := "   "), history, st, load, parse).outcome == NeedCriterion
  {
    var a := EmptyAdvanced.(fullName := "   ");
    TrimAllSpace("   ");
    TrimAllSpace("");
    assert forall i :: 0 <= i < |Values(a)| ==> Values(a)[i] == "   " || Values(a)[i] == "";
  }

  // ----- the history -----

  /** Searching the same number twice in a row leaves the history as after the first. */
  lemma HistoryIdempotent(number: String, history: seq<String>)
    ensures UpdateHistory(number, UpdateHistory(number, history)) == UpdateHistory(number, history)
  {
    var h1 := UpdateHistory(number, history);
    var rest1 := Filter(h1, Other(number));
    assert h1 == [number] + h1[1..];
    FilterConcat([number], h1[1..], Other(number));
    assert Filter([number], Other(number)) == [];
    FilterAll(h1[1..], Other(number));
    assert rest1 == h1[1..];
    assert [number] + rest1 == h1;
  }

  /** A history without repeats keeps none after an update. */
  lemma HistoryNoDuplicates(number: String, history: seq<String>)
    requires NoDuplicates(history)
    ensures NoDuplicates(UpdateHistory(number, history))
  {
    var r := UpdateHistory(number, history);
    SubseqNoDuplicates(r[1..], history);
    forall i, j | 0 <= i < j < |r| ensures r[i] != r[j] {
      assert r[j] == r[1..][j - 1];
      if i > 0 { assert r[i] == r[1..][i - 1]; }
    }
  }

  /** With fewer than five other numbers, none is lost. */
  lemma HistoryKeepsShort(number: String, history: seq<String>)
    requires |Filter(history, Other(number))| < 5
    ensures UpdateHistory(number, history) == [number] + Filter(history, Other(number))
  {
  }

  // ----- suggestions -----

  /** The school test of the suggestion list. */
  function SchoolMatches(query: String): String -> bool {
    (school: String) => ContainsIgnoreCase(school, query)
  }

  /** The suggestions under the name field: only once more than two characters
      are typed, at most five schools, in list order, each containing the
      typed text whatever the case. */
  function Suggestions(query: String, schools: seq<String>): (r: seq<String>)
    ensures |query| <= 2 ==> r == []
    ensures |r| <= 5
    ensures |query| > 2 ==>
      |r| == if |Filter(schools, SchoolMatches(query))| < 5 then |Filter(schools, SchoolMatches(query))| else 5
    ensures forall s :: s in r ==> s in schools && ContainsIgnoreCase(s, query)
    ensures IsSubseq(r, schools)
  {
    if |query| > 2 then
      var all := Filter(schools, SchoolMatches(query));
      var r := Take(all, 5);
      PrefixIsSubseq(all, |r|);
      SubseqTrans(r, all, schools);
      SubseqMembers(r, all);
      r
    else []
  }

  /** The suggestions are the first matching schools: when there are five or
      fewer, all of them. */
  lemma SuggestionsFirst(query: String, schools: seq<String>)
    requires |query| > 2
    ensures Suggestions(query, schools) <= Filter(schools, SchoolMatches(query))
    ensures |Filter(schools, SchoolMatches(query))| <= 5 ==>
      forall s :: s in schools && ContainsIgnoreCase(s, query) ==> s in Suggestions(query, schools)
  {
  }

  /** Whether the suggestion box opens. */
  predicate ShowSuggestions(query: String) {
    |query| > 2
  }

  /** Clicking a suggestion puts that school name into the name field. */
  function PickSuggestion(a: Advanced, name: String): (r: Advanced)
    ensures r.fullName == name
    ensures Values(r)[1..] == Values(a)[1..]
  {
    a.(fullName := name)
  }

  // ----- series buttons and clearing -----

  /** A series button: clicking the selected series clears the choice,
      clicking another selects it; nothing else in the form changes. */
  function ToggleSeries(a: Advanced, serie: String): (r: Advanced)
    ensures a.series == serie ==> r.series == ""
    ensures a.series != serie ==> r.series == serie
    ensures r.(series := a.series) == a
  {
    a.(series := if a.series == serie then "" else serie)
  }

  /** Clicking the same button twice restores the choice, when it was empty
      or that series. */
  lemma ToggleTwice(a: Advanced, serie: String)
    requires a.series == "" || a.series == serie
    ensures ToggleSeries(ToggleSeries(a, serie), serie) == a
  {
  }

  /** `clearAdvancedCriteria`: all six fields empty, suggestions hidden. */
  function ClearAdvanced(): (r: (Advanced, seq<String>, bool))
    ensures forall i :: 0 <= i < |Values(r.0)| ==> Values(r.0)[i] == ""
    ensures r.1 == [] && !r.2
  {
    (EmptyAdvanced, [], false)
  }

  /** After clearing, a search runs exactly when a number is typed, and the
      filter then imposes no advanced criterion. */
  lemma ClearedFormNeedsNumber(number: String, history: seq<String>, st: Loading, load: LoadOutcome, data: seq<Candidate>, parse: DateParser)
    ensures var a := ClearAdvanced().0;
      && (HandleSearch(number, a, history, st, load, parse).outcome.NeedCriterion? <==> Blank(number))
      && Filter(data, Matcher(AsCriteria(a), parse)) == data
  {
    var a := ClearAdvanced().0;
    TrimAllSpace("");
    assert !AnyFilled(a);
    NoCriteriaReturnsAll(data, parse);
    assert AsCriteria(a) == NoCriteria;
  }

  // ----- option lists -----

  predicate NonEmpty(s: String) {
    s != ""
  }

  function NonEmptyTest(): String -> bool {
    (s: String) => NonEmpty(s)
  }

  /** `Array.from(new Set(values)).filter(Boolean)`: each non-empty value once,
      in order of first appearance. */
  function Options(values: seq<String>): (r: seq<String>)
    ensures NoDuplicates(r)
    ensures forall x :: x in r <==> x in values && x != ""
    ensures IsSubseq(r, values)
  {
    var d := Distinct(values);
    var r := Filter(d, NonEmptyTest());
    SubseqNoDuplicates(r, d);
    SubseqTrans(r, d, values);
    r
  }

  /** A column of the loaded data. */
  function Column(data: seq<Candidate>, field: Candidate -> String): (vs: seq<String>)
    ensures |vs| == |data|
    ensures forall i :: 0 <= i < |data| ==> vs[i] == field(data[i])
  {
    seq(|data|, i requires 0 <= i < |data| => field(data[i]))
  }

  function WilayaOf(r: Candidate): String { r.wilayaFr }
  function CentreOf(r: Candidate): String { r.centreFr }
  function SerieOf(r: Candidate): String { r.serie }
  function SchoolOf(r: Candidate): String { r.schoolFr }

  /** The four drop-down lists loaded with the data. */
  datatype OptionLists = OptionLists(wilayas: seq<String>, centres: seq<String>, series: seq<String>, schools: seq<String>)

  function LoadOptions(data: seq<Candidate>): (o: OptionLists)
    ensures NoDuplicates(o.wilayas) && NoDuplicates(o.centres) && NoDuplicates(o.series) && NoDuplicates(o.schools)
    ensures forall w :: w in o.wilayas <==> w != "" && exists i :: 0 <= i < |data| && data[i].wilayaFr == w
    ensures forall c :: c in o.centres <==> c != "" && exists i :: 0 <= i < |data| && data[i].centreFr == c
    ensures forall s :: s in o.series <==> s != "" && exists i :: 0 <= i < |data| && data[i].serie == s
    ensures forall s :: s in o.schools <==> s != "" && exists i :: 0 <= i < |data| && data[i].schoolFr == s
  {
    var ws := Column(data, WilayaOf);
    var cs := Column(data, CentreOf);
    var es := Column(data, SerieOf);
    var ss := Column(data, SchoolOf);
    assert forall w :: w in ws <==> exists i :: 0 <= i < |data| && data[i].wilayaFr == w;
    assert forall c :: c in cs <==> exists i :: 0 <= i < |data| && data[i].centreFr == c;
    assert forall s :: s in es <==> exists i :: 0 <= i < |data| && data[i].serie == s;
    assert forall s :: s in ss <==> exists i :: 0 <= i < |data| && data[i].schoolFr == s;
    OptionLists(Options(ws), Options(cs), Options(es), Options(ss))
  }
}
