/** The ranking panel (components/TopStudents.tsx): which list the active tab
    shows, its split into the podium and the rest, the language-dependent
    fields and the wilaya labels of the selector. Markup and translations
    are left out. */
module TopStudents {
  import opened Optional
  import opened Text
  import opened Seqs
  import opened Records

  /** A ranked student as published in the statistics. */
  datatype Student = Student(
    numBac: String,
    nomFr: String,
    nomAr: String,
    wilayaFr: String,
    wilayaAr: String,
    serie: String,      // SERIE
    serieFr: String,
    serieAr: String,
    schoolFr: String,
    schoolAr: String,
    moyBac: real
  )

  datatype Tab = Global | ByWilaya | BySerie

  /** `wilayaTop` as its entries in key order. */
  type WilayaTop = seq<(String, seq<Student>)>

  /** `wilayaTop[key]`, `undefined` when the key is missing. */
  function Lookup(top: WilayaTop, key: String): (r: Option<seq<Student>>)
    ensures r.Some? <==> exists i :: 0 <= i < |top| && top[i].0 == key
    ensures r.Some? ==> exists i :: 0 <= i < |top| && top[i] == (key, r.value)
  {
    if top == [] then None
    else if top[0].0 == key then Some(top[0].1)
    else
      var r := Lookup(top[1..], key);
      assert forall i :: 0 <= i < |top| - 1 ==> top[1..][i] == top[i + 1];
      r
  }

  /** The first key, the initial wilaya selection (`undefined` when there is none). */
  function FirstKey(top: WilayaTop): Option<String> {
    if top == [] then None else Some(top[0].0)
  }

  /** The wilaya tab as first opened shows the first key's list, and nothing
      when there is no key. */
  lemma InitialWilayaTab(globalTop: seq<Student>, top: WilayaTop, serie: Option<String>)
    ensures top != [] ==> CurrentData(ByWilaya, globalTop, top, FirstKey(top), serie) == top[0].1
    ensures top == [] ==> CurrentData(ByWilaya, globalTop, top, FirstKey(top), serie) == []
  {
  }

  /** `student.SERIE === selectedSerie`; an undefined selection matches nobody. */
  function SerieIs(selected: Option<String>): Student -> bool {
    (st: Student) => selected == Some(st.serie)
  }

  /** `currentData`. */
  function CurrentData(tab: Tab, globalTop: seq<Student>, wilayaTop: WilayaTop,
                       wilaya: Option<String>, serie: Option<String>): (r: seq<Student>)
    ensures tab == Global ==> r == globalTop
    ensures tab == ByWilaya ==>
      r == (if wilaya.None? then [] else Lookup(wilayaTop, wilaya.value).GetOr([]))
    ensures tab == BySerie ==>
      && |r| <= 10
      && IsSubseq(r, globalTop)
      && (forall i :: 0 <= i < |r| ==> serie == Some(r[i].serie))
      && r <= Filter(globalTop, SerieIs(serie))
      && (|r| < 10 ==> r == Filter(globalTop, SerieIs(serie)))
  {
    match tab
    case Global => globalTop
    case ByWilaya => if wilaya.None? then [] else Lookup(wilayaTop, wilaya.value).GetOr([])
    case BySerie =>
      var matching := Filter(globalTop, SerieIs(serie));
      var r := Take(matching, 10);
      PrefixIsSubseq(matching, |r|);
      SubseqTrans(r, matching, globalTop);
      assert forall i :: 0 <= i < |r| ==> r[i] in matching;
      r
  }

  /** When every wilaya's list holds only students of that wilaya, the wilaya
      tab shows only students of the selected wilaya, and nothing when the
      selection is not a key. */
  lemma WilayaTabShowsWilaya(globalTop: seq<Student>, wilayaTop: WilayaTop, w: String, serie: Option<String>)
    requires forall i, j :: 0 <= i < |wilayaTop| && 0 <= j < |wilayaTop[i].1| ==> wilayaTop[i].1[j].wilayaFr == wilayaTop[i].0
    ensures var r := CurrentData(ByWilaya, globalTop, wilayaTop, Some(w), serie);
      && (forall j :: 0 <= j < |r| ==> r[j].wilayaFr == w)
      && ((forall i :: 0 <= i < |wilayaTop| ==> wilayaTop[i].0 != w) ==> r == [])
  {
    var found := Lookup(wilayaTop, w);
    if found.Some? {
      var i :| 0 <= i < |wilayaTop| && wilayaTop[i] == (w, found.value);
      assert forall j :: 0 <= j < |found.value| ==> found.value[j] == wilayaTop[i].1[j];
    }
  }

  /** `podium`: the first three. */
  function Podium(current: seq<Student>): seq<Student> {
    Take(current, 3)
  }

  /** `otherStudents`: everything after the first three. */
  function Others(current: seq<Student>): seq<Student> {
    if |current| <= 3 then [] else current[3..]
  }

  /** The podium and the rest together are the current list, in order; the
      podium holds at most three and the rest is empty unless it is full. */
  lemma PodiumSplit(current: seq<Student>)
    ensures Podium(current) + Others(current) == current
    ensures |Podium(current)| == (if |current| < 3 then |current| else 3)
    ensures |Others(current)| > 0 ==> |Podium(current)| == 3
  {
    if |current| > 3 {
      assert current == current[..3] + current[3..];
    }
  }

  // ----- the language getters -----

  function GetName(st: Student, lang: Lang): String {
    if lang == Fr then st.nomFr else st.nomAr
  }

  function GetWilaya(st: Student, lang: Lang): String {
    if lang == Fr then st.wilayaFr else st.wilayaAr
  }

  function GetSerie(st: Student, lang: Lang): String {
    if lang == Fr then st.serieFr else st.serieAr
  }

  function GetSchool(st: Student, lang: Lang): String {
    if lang == Fr then st.schoolFr else st.schoolAr
  }

  /** All four getters read the French field exactly when the language is
      French, and the Arabic one otherwise. */
  lemma GettersFollowLanguage(st: Student, lang: Lang)
    ensures lang == Fr ==>
      (GetName(st, lang), GetWilaya(st, lang), GetSerie(st, lang), GetSchool(st, lang)) == (st.nomFr, st.wilayaFr, st.serieFr, st.schoolFr)
    ensures lang == Ar ==>
      (GetName(st, lang), GetWilaya(st, lang), GetSerie(st, lang), GetSchool(st, lang)) == (st.nomAr, st.wilayaAr, st.serieAr, st.schoolAr)
    ensures st.nomFr != st.nomAr ==> (GetName(st, lang) == st.nomFr <==> lang == Fr)
  {
  }

  /** The label of a wilaya in the selector: its key in French; in Arabic the
      first student's Arabic wilaya name, or the key when there is no student
      or that name is empty. */
  function WilayaLabel(key: String, students: seq<Student>, lang: Lang): (r: String)
    ensures key != [] ==> r != []
    ensures r == key || (lang.Ar? && |students| > 0 && r == students[0].wilayaAr)
  {
    if lang == Fr then key
    else if |students| > 0 && students[0].wilayaAr != [] then students[0].wilayaAr
    else key
  }

  /** The selector's labels, one per wilaya key in key order. */
  function WilayaLabels(top: WilayaTop, lang: Lang): (r: seq<String>)
    ensures |r| == |top|
    ensures forall i :: 0 <= i < |top| ==> r[i] == WilayaLabel(top[i].0, top[i].1, lang)
  {
    seq(|top|, i requires 0 <= i < |top| => WilayaLabel(top[i].0, top[i].1, lang))
  }

  /** In French the selector lists exactly the keys; in Arabic a label differs
      from its key only by showing an Arabic name from that wilaya's list. */
  lemma LabelsFallBack(top: WilayaTop, lang: Lang)
    ensures lang == Fr ==> forall i :: 0 <= i < |top| ==> WilayaLabels(top, lang)[i] == top[i].0
    ensures forall i :: 0 <= i < |top| ==>
      WilayaLabels(top, lang)[i] == top[i].0 ||
      (|top[i].1| > 0 && WilayaLabels(top, lang)[i] == top[i].1[0].wilayaAr != [])
  {
  }
}
