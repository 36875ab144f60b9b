/** The spreadsheet-to-JSON conversion of scripts/convert.js: date recognition
    (`parseDate`), the `dd/mm/yyyy` rewrite in front of `Date.parse`, the
    `YYYY-MM-DD` rendering (`formatDate`) and the per-record cleaning pass of
    `convertData`. Reading the workbook and writing the file are left out; a
    record is the ordered list of its `Object.entries`. */
module Convert {
  import opened Optional
  import opened Text
  import opened Seqs
  import opened Calendar

  /** The cell values a reader hands over. Numbers are exact reals; `NaNNum`
      is the number `NaN`; `DateCell` is a `Date` object, `None` when invalid. */
  datatype Cell =
    | Null
    | Undefined
    | Num(x: real)
    | NaNNum
    | Bool(b: bool)
    | Str(s: String)
    | DateCell(time: Option<int>)

  // ----- parseDate -----

  /** `isNaN(date.getTime()) ? null : date` for a date `day` days after the epoch. */
  function Checked(day: Option<int>): (r: Option<int>)
    ensures r.Some? <==> day.Some? && InTimeRange(day.value)
    ensures r.Some? ==> r == day
  {
    if day.Some? && InTimeRange(day.value) then day else None
  }

  /** `(\d{2})[\/\-](\d{2})[\/\-](\d{4})` matches at position `i` of `s`. */
  predicate MatchAt(s: String, i: nat) {
    && i + 10 <= |s|
    && IsDigit(s[i]) && IsDigit(s[i + 1])
    && (s[i + 2] == '/' || s[i + 2] == '-')
    && IsDigit(s[i + 3]) && IsDigit(s[i + 4])
    && (s[i + 5] == '/' || s[i + 5] == '-')
    && IsDigit(s[i + 6]) && IsDigit(s[i + 7]) && IsDigit(s[i + 8]) && IsDigit(s[i + 9])
  }

  /** The leftmost match at or after `i`, if any. */
  function FirstMatch(s: String, i: nat): (r: Option<nat>)
    requires i <= |s|
    ensures r.Some? ==> i <= r.value && MatchAt(s, r.value)
    ensures forall j :: i <= j < (if r.Some? then r.value else |s|) ==> !MatchAt(s, j)
    decreases |s| - i
  {
    if i == |s| then None
    else if MatchAt(s, i) then Some(i)
    else FirstMatch(s, i + 1)
  }

  /** `replace(/(\d{2})[\/\-](\d{2})[\/\-](\d{4})/, '$3-$2-$1')`: the first
      day/month/year group is rewritten as year-month-day. */
  function RewriteDate(s: String): (r: String)
    ensures |r| == |s|
  {
    match FirstMatch(s, 0)
    case None => s
    case Some(i) => RewriteAt(s, i)
  }

  /** `s` with the group at `i` written as year-month-day. */
  function RewriteAt(s: String, i: nat): (r: String)
    requires i + 10 <= |s|
    ensures |r| == |s|
  {
    s[..i] + s[i + 6..i + 10] + "-" + s[i + 3..i + 5] + "-" + s[i..i + 2] + s[i + 10..]
  }

  /** `parseDate`: null, undefined and '' give no date; a number is the epoch
      plus that many days; a `Date` is kept when valid; a string is rewritten
      and handed to `Date.parse`; anything else gives no date. */
  function ParseDate(v: Cell, parse: DateParser): (r: Option<int>)
    ensures r.Some? ==> InTimeRange(r.value)
  {
    match v
    case Null => None
    case Undefined => None
    case Str(s) => if s == "" then None else Checked(parse(RewriteDate(s)))
    case Num(x) => SerialDay(x); if SerialInRange(x) then Some(x.Floor) else None
    case NaNNum => None
    case DateCell(t) => Checked(t)
    case Bool(_) => None
  }

  /** `formatDate`: the date part of `toISOString()`. Years 0 to 9999 give
      "YYYY-MM-DD"; other years use the six-digit signed form. */
  function FormatDate(day: int): (s: String)
    ensures 0 <= YearOf(day) <= 9999 ==> s == IsoDate(day)
  {
    var y := YearOf(day);
    if 0 <= y <= 9999 then IsoDate(day)
    else
      var c := CivilFromDays(day);
      (if y < 0 then "-" else "+") + Pad(if y < 0 then -y else y, 6) + "-" + Pad(c.month, 2) + "-" + Pad(c.day, 2)
  }

  // ----- the cleaning pass -----

  predicate IsDateKey(key: String) {
    Contains(LowerStr(key), "date")
  }

  /** The value stored under a cleaned key: date columns hold the formatted
      date when one is recognised and the original value otherwise; other
      strings are trimmed; everything else is kept. */
  function CleanValue(key: String, v: Cell, parse: DateParser): (r: Cell)
  {
    if IsDateKey(key) then
      match ParseDate(v, parse)
      case Some(day) => Str(FormatDate(day))
      case None => v
    else if v.Str? then Str(Trim(v.s))
    else v
  }

  type Entry = (String, Cell)

  function KeysOf(es: seq<Entry>): (ks: seq<String>)
    ensures |ks| == |es|
    ensures forall i :: 0 <= i < |es| ==> ks[i] == es[i].0
  {
    if es == [] then [] else KeysOf(es[..|es| - 1]) + [es[|es| - 1].0]
  }

  /** Where `key` sits among the entries' keys. */
  function KeyIndex(out: seq<Entry>, key: String): (k: nat)
    requires key in KeysOf(out)
    ensures k < |out| && out[k].0 == key
    ensures forall i :: 0 <= i < k ==> out[i].0 != key
  {
    if out[0].0 == key then 0
    else
      assert key in KeysOf(out[1..]) by {
        var i :| 0 <= i < |out| && KeysOf(out)[i] == key;
        assert out[1..][i - 1].0 == key;
      }
      1 + KeyIndex(out[1..], key)
  }

  /** `cleanedItem[key] = value`: a new key is appended, an existing key keeps
      its place and takes the new value. */
  function Assign(out: seq<Entry>, key: String, v: Cell): (r: seq<Entry>)
    requires NoDuplicates(KeysOf(out))
    ensures NoDuplicates(KeysOf(r))
    ensures KeysOf(r) == if key in KeysOf(out) then KeysOf(out) else KeysOf(out) + [key]
    ensures forall i :: 0 <= i < |r| ==> r[i] == if r[i].0 == key then (key, v) else out[i]
  {
    if key in KeysOf(out) then
      var k := KeyIndex(out, key);
      var r := out[k := (key, v)];
      assert KeysOf(r) == KeysOf(out);
      r
    else
      var r := out + [(key, v)];
      assert KeysOf(r) == KeysOf(out) + [key];
      r
  }

  /** How a value is cleaned given its trimmed key. */
  type Cleaner = (String, Cell) -> Cell

  /** The loop of `convertData` over `Object.entries(item)`: each key is
      trimmed and assigned its cleaned value, in order. */
  function CleanEntries(es: seq<Entry>, clean: Cleaner): (r: seq<Entry>)
    ensures NoDuplicates(KeysOf(r))
    decreases |es|
  {
    if es == [] then []
    else
      var last := es[|es| - 1];
      var key := Trim(last.0);
      Assign(CleanEntries(es[..|es| - 1], clean), key, clean(key, last.1))
  }

  function Cleaning(parse: DateParser): Cleaner {
    (key: String, v: Cell) => CleanValue(key, v, parse)
  }

  /** The cleaned object of one record. */
  function CleanRecord(es: seq<Entry>, parse: DateParser): (r: seq<Entry>)
    ensures NoDuplicates(KeysOf(r))
  {
    CleanEntries(es, Cleaning(parse))
  }

  /** `jsonData.map(...)`: one cleaned record per input record. */
  function ConvertData(rows: seq<seq<Entry>>, parse: DateParser): (out: seq<seq<Entry>>)
    ensures |out| == |rows|
    ensures forall i :: 0 <= i < |rows| ==> out[i] == CleanRecord(rows[i], parse)
  {
    if rows == [] then [] else [CleanRecord(rows[0], parse)] + ConvertData(rows[1..], parse)
  }

  // ----- what the cleaning pass promises -----

  /** The trimmed keys of a record's entries, in order. */
  function TrimmedKeys(es: seq<Entry>): (ks: seq<String>)
    ensures |ks| == |es|
    ensures forall i :: 0 <= i < |es| ==> ks[i] == Trim(es[i].0)
  {
    if es == [] then [] else TrimmedKeys(es[..|es| - 1]) + [Trim(es[|es| - 1].0)]
  }

  /** The cleaned object has each trimmed key once, in order of first appearance. */
  lemma {:induction false} CleanKeys(es: seq<Entry>, clean: Cleaner)
    ensures KeysOf(CleanEntries(es, clean)) == Distinct(TrimmedKeys(es))
    decreases |es|
  {
    if es != [] {
      var init := es[..|es| - 1];
      var key := Trim(es[|es| - 1].0);
      CleanKeys(init, clean);
      assert TrimmedKeys(es) == TrimmedKeys(init) + [key];
      DistinctSnoc(TrimmedKeys(init), key);
    }
  }

  /** The position of the last entry whose trimmed key is `k`. */
  function LastIndex(es: seq<Entry>, k: String): (j: nat)
    requires k in TrimmedKeys(es)
    ensures j < |es| && Trim(es[j].0) == k
    ensures forall i :: j < i < |es| ==> Trim(es[i].0) != k
  {
    var n := |es| - 1;
    if Trim(es[n].0) == k then n
    else
      assert TrimmedKeys(es) == TrimmedKeys(es[..n]) + [Trim(es[n].0)];
      LastIndex(es[..n], k)
  }

  /** The cleaned entry `e` has a trimmed source key and holds the cleaned
      value of the last source entry with that key. */
  predicate FromLast(es: seq<Entry>, e: Entry, clean: Cleaner) {
    && e.0 in TrimmedKeys(es)
    && Trim(e.0) == e.0
    && e.1 == clean(e.0, es[LastIndex(es, e.0)].1)
  }

  /** Every cleaned key is a trimmed source key, and it holds the cleaned
      value of the last entry with that key: a later duplicate overwrites. */
  lemma {:induction false} CleanValues(es: seq<Entry>, clean: Cleaner)
    ensures forall i :: 0 <= i < |CleanEntries(es, clean)| ==> FromLast(es, CleanEntries(es, clean)[i], clean)
    decreases |es|
  {
    if es != [] {
      var n := |es| - 1;
      var init := es[..n];
      var key := Trim(es[n].0);
      CleanValues(init, clean);
      var r0 := CleanEntries(init, clean);
      var r := CleanEntries(es, clean);
      assert r == Assign(r0, key, clean(key, es[n].1));
      forall i | 0 <= i < |r|
        ensures FromLast(es, r[i], clean)
      {
        if r[i].0 != key {
          assert r[i] == r0[i];
          FromLastStep(es, r[i], clean);
        } else {
          FromLastHead(es, clean);
        }
      }
    }
  }

  /** An entry taken from the earlier entries stays right when the last
      entry has another key. */
  lemma FromLastStep(es: seq<Entry>, e: Entry, clean: Cleaner)
    requires es != [] && FromLast(es[..|es| - 1], e, clean) && e.0 != Trim(es[|es| - 1].0)
    ensures FromLast(es, e, clean)
  {
    var n := |es| - 1;
    assert TrimmedKeys(es) == TrimmedKeys(es[..n]) + [Trim(es[n].0)];
    var j := LastIndex(es[..n], e.0);
    assert LastIndex(es, e.0) == j;
    assert es[..n][j] == es[j];
  }

  /** The entry written for the last key is right. */
  lemma FromLastHead(es: seq<Entry>, clean: Cleaner)
    requires es != []
    ensures var key := Trim(es[|es| - 1].0);
      FromLast(es, (key, clean(key, es[|es| - 1].1)), clean)
  {
    var n := |es| - 1;
    assert TrimmedKeys(es) == TrimmedKeys(es[..n]) + [Trim(es[n].0)];
    TrimIdempotent(es[n].0);
  }

  /** A record whose keys are already trimmed and distinct keeps its keys in
      place; only its values are cleaned. */
  lemma {:induction false} CleanEntriesOfClean(es: seq<Entry>, clean: Cleaner)
    requires NoDuplicates(KeysOf(es))
    requires forall i :: 0 <= i < |es| ==> Trim(es[i].0) == es[i].0
    ensures |CleanEntries(es, clean)| == |es|
    ensures forall i :: 0 <= i < |es| ==> CleanEntries(es, clean)[i] == (es[i].0, clean(es[i].0, es[i].1))
    decreases |es|
  {
    if es != [] {
      var n := |es| - 1;
      var init := es[..n];
      LastKeyNew(es);
      CleanEntriesOfClean(init, clean);
      var r0 := CleanEntries(init, clean);
      SameKeys(r0, init);
      var key := es[n].0;
      var v := clean(key, es[n].1);
      assert CleanEntries(es, clean) == r0 + [(key, v)];
      CleanedSnoc(es, r0, clean);
    }
  }

  /** Appending the last entry, cleaned, to the cleaned earlier entries. */
  lemma CleanedSnoc(es: seq<Entry>, r0: seq<Entry>, clean: Cleaner)
    requires es != [] && |r0| == |es| - 1
    requires forall i :: 0 <= i < |r0| ==> r0[i] == (es[..|r0|][i].0, clean(es[..|r0|][i].0, es[..|r0|][i].1))
    ensures var r := r0 + [(es[|r0|].0, clean(es[|r0|].0, es[|r0|].1))];
      forall i :: 0 <= i < |es| ==> r[i] == (es[i].0, clean(es[i].0, es[i].1))
  {
    var n := |r0|;
    var r := r0 + [(es[n].0, clean(es[n].0, es[n].1))];
    forall i | 0 <= i < |es|
      ensures r[i] == (es[i].0, clean(es[i].0, es[i].1))
    {
      if i < n {
        assert es[..n][i] == es[i];
      }
    }
  }

  /** Without repeated keys, the last key is not among the earlier ones. */
  lemma LastKeyNew(es: seq<Entry>)
    requires es != [] && NoDuplicates(KeysOf(es))
    ensures NoDuplicates(KeysOf(es[..|es| - 1]))
    ensures es[|es| - 1].0 !in KeysOf(es[..|es| - 1])
  {
    NoDuplicatesInit(KeysOf(es));
  }

  /** Entries with the same keys position by position have the same key list. */
  lemma SameKeys(a: seq<Entry>, b: seq<Entry>)
    requires |a| == |b|
    requires forall i :: 0 <= i < |a| ==> a[i].0 == b[i].0
    ensures KeysOf(a) == KeysOf(b)
  {
    assert forall i :: 0 <= i < |a| ==> KeysOf(a)[i] == KeysOf(b)[i];
  }

  /** A date column value that is recognised, in a year of four digits, and
      read back by `parse` from its own "YYYY-MM-DD" form. */
  predicate Settled(key: String, v: Cell, parse: DateParser) {
    IsDateKey(key) && ParseDate(v, parse).Some? ==>
      var d := ParseDate(v, parse).value;
      0 <= YearOf(d) <= 9999 && parse(IsoDate(d)) == Some(d)
  }

  /** An ISO date string has no day/month/year group for the rewrite to turn. */
  lemma RewriteIso(n: int)
    requires 0 <= YearOf(n) <= 9999
    ensures RewriteDate(IsoDate(n)) == IsoDate(n)
  {
    var s := IsoDate(n);
    assert !MatchAt(s, 0) by {
      assert IsDigit(s[2]);
    }
    assert FirstMatch(s, 0) == None;
  }

  /** Cleaning a cleaned value changes nothing: a trimmed string is already
      trimmed, and a written date is read back as the same date. */
  lemma CleanValueIdempotent(key: String, v: Cell, parse: DateParser)
    requires Settled(key, v, parse)
    ensures CleanValue(key, CleanValue(key, v, parse), parse) == CleanValue(key, v, parse)
  {
    if IsDateKey(key) {
      if ParseDate(v, parse).Some? {
        var d := ParseDate(v, parse).value;
        RewriteIso(d);
        assert ParseDate(Str(IsoDate(d)), parse) == Some(d);
      }
    } else if v.Str? {
      TrimIdempotent(v.s);
    }
  }

  /** Converting a converted record again gives it back unchanged. */
  lemma CleanRecordIdempotent(es: seq<Entry>, parse: DateParser)
    requires forall i :: 0 <= i < |es| ==> Settled(Trim(es[i].0), es[i].1, parse)
    ensures CleanRecord(CleanRecord(es, parse), parse) == CleanRecord(es, parse)
  {
    var clean := Cleaning(parse);
    var r := CleanEntries(es, clean);
    CleanValues(es, clean);
    assert forall i :: 0 <= i < |r| ==> Trim(r[i].0) == r[i].0;
    CleanEntriesOfClean(r, clean);
    var r2 := CleanEntries(r, clean);
    forall i | 0 <= i < |r|
      ensures r2[i] == r[i]
    {
      SettledEntry(es, r[i], parse);
    }
  }

  /** A cleaned entry whose source value is settled cleans to itself. */
  lemma SettledEntry(es: seq<Entry>, e: Entry, parse: DateParser)
    requires forall i :: 0 <= i < |es| ==> Settled(Trim(es[i].0), es[i].1, parse)
    requires FromLast(es, e, Cleaning(parse))
    ensures CleanValue(e.0, e.1, parse) == e.1
  {
    var j := LastIndex(es, e.0);
    assert Settled(Trim(es[j].0), es[j].1, parse);
    CleanValueIdempotent(e.0, es[j].1, parse);
  }

  // ----- the date rewrite and recognition -----

  /** A leading "dd/mm/yyyy" (or with dashes) becomes "yyyy-mm-dd"; the rest is kept. */
  lemma RewriteLeading(d: String, m: String, y: String, a: char, b: char, rest: String)
    requires |d| == 2 && |m| == 2 && |y| == 4 && AllDigits(d) && AllDigits(m) && AllDigits(y)
    requires (a == '/' || a == '-') && (b == '/' || b == '-')
    ensures RewriteDate(d + [a] + m + [b] + y + rest) == y + "-" + m + "-" + d + rest
  {
    var s := d + [a] + m + [b] + y + rest;
    LeadingMatch(d, m, y, a, b, rest);
    assert FirstMatch(s, 0) == Some(0);
    RewriteAtStart(s);
    LeadingParts(d, m, y, a, b, rest);
  }

  lemma RewriteAtStart(s: String)
    requires |s| >= 10 && FirstMatch(s, 0) == Some(0)
    ensures RewriteDate(s) == s[6..10] + "-" + s[3..5] + "-" + s[0..2] + s[10..]
  {
    assert RewriteDate(s) == RewriteAt(s, 0);
    DropEmpty(s[..0], s[6..10], "-", s[3..5], "-", s[0..2], s[10..]);
  }

  lemma DropEmpty<T>(e: seq<T>, a: seq<T>, x: seq<T>, b: seq<T>, y: seq<T>, c: seq<T>, rest: seq<T>)
    requires e == []
    ensures e + a + x + b + y + c + rest == a + x + b + y + c + rest
  {
    assert e + a == a;
  }

  lemma LeadingMatch(d: String, m: String, y: String, a: char, b: char, rest: String)
    requires |d| == 2 && |m| == 2 && |y| == 4 && AllDigits(d) && AllDigits(m) && AllDigits(y)
    requires (a == '/' || a == '-') && (b == '/' || b == '-')
    ensures MatchAt(d + [a] + m + [b] + y + rest, 0)
  {
    LeadingParts(d, m, y, a, b, rest);
    var s := d + [a] + m + [b] + y + rest;
    assert s[0] == d[0] && s[1] == d[1] && s[3] == m[0] && s[4] == m[1];
    assert s[6] == y[0] && s[7] == y[1] && s[8] == y[2] && s[9] == y[3];
  }

  lemma LeadingParts(d: String, m: String, y: String, a: char, b: char, rest: String)
    requires |d| == 2 && |m| == 2 && |y| == 4
    ensures var s := d + [a] + m + [b] + y + rest;
      && |s| == 10 + |rest| && s[..0] == []
      && s[0..2] == d && s[2] == a && s[3..5] == m && s[5] == b && s[6..10] == y && s[10..] == rest
  {
  }

  /** A string with no day/month/year group reaches `Date.parse` unchanged. */
  lemma RewriteNoMatch(s: String)
    requires forall i :: 0 <= i < |s| ==> !MatchAt(s, i)
    ensures RewriteDate(s) == s
  {
    assert FirstMatch(s, 0).None?;
  }

  /** Only the first group is rewritten: text before it and after it is kept. */
  lemma RewriteKeeps(s: String)
    ensures FirstMatch(s, 0).Some? ==>
      var i := FirstMatch(s, 0).value;
      RewriteDate(s)[..i] == s[..i] && RewriteDate(s)[i + 10..] == s[i + 10..]
  {
  }

  /** The rendering "dd/mm/yyyy" of day `n`. */
  function DayMonthYear(n: int): (s: String)
    requires 0 <= YearOf(n) <= 9999
    ensures |s| == 10
  {
    var c := CivilFromDays(n);
    Pad(c.day, 2) + "/" + Pad(c.month, 2) + "/" + Pad(c.year, 4)
  }

  /** The example of the source: "10/07/2004" is handed to `Date.parse` as
      "2004-07-10"; in general a day written "dd/mm/yyyy" is rewritten to
      its "YYYY-MM-DD" form. */
  lemma RewriteDayMonthYear(n: int)
    requires 0 <= YearOf(n) <= 9999
    ensures RewriteDate(DayMonthYear(n)) == IsoDate(n)
  {
    var c := CivilFromDays(n);
    var d, m, y := Pad(c.day, 2), Pad(c.month, 2), Pad(c.year, 4);
    assert DayMonthYear(n) == d + ['/'] + m + ['/'] + y + [];
    RewriteLeading(d, m, y, '/', '/', []);
    assert y + "-" + m + "-" + d + [] == IsoDate(n);
  }

  /** A date column holding "dd/mm/yyyy" is written as the same day in
      "YYYY-MM-DD", when `Date.parse` reads ISO dates. */
  lemma CleanDayMonthYear(key: String, n: int, parse: DateParser)
    requires IsDateKey(key) && 0 <= YearOf(n) <= 9999 && InTimeRange(n)
    requires parse(IsoDate(n)) == Some(n)
    ensures CleanValue(key, Str(DayMonthYear(n)), parse) == Str(IsoDate(n))
  {
    RewriteDayMonthYear(n);
    assert ParseDate(Str(DayMonthYear(n)), parse) == Some(n);
  }

  /** A recognised date in a four-digit year is written so that reading it
      back as "YYYY-MM-DD" gives the same day; an unrecognised one is kept. */
  lemma CleanDateColumn(key: String, v: Cell, parse: DateParser)
    requires IsDateKey(key)
    ensures ParseDate(v, parse).None? ==> CleanValue(key, v, parse) == v
    ensures ParseDate(v, parse).Some? && 0 <= YearOf(ParseDate(v, parse).value) <= 9999 ==>
      var w := CleanValue(key, v, parse);
      w.Str? && IsoShaped(w.s) && IsoDay(w.s) == ParseDate(v, parse)
  {
    if ParseDate(v, parse).Some? && 0 <= YearOf(ParseDate(v, parse).value) <= 9999 {
      IsoRoundTrip(ParseDate(v, parse).value);
    }
  }

  /** Columns other than dates: strings are trimmed, and only strings change. */
  lemma CleanOtherColumn(key: String, v: Cell, parse: DateParser)
    requires !IsDateKey(key)
    ensures var w := CleanValue(key, v, parse);
      && (w.Str? <==> v.Str?)
      && (!v.Str? ==> w == v)
      && (v.Str? ==> Trim(w.s) == w.s && w.s == Trim(v.s))
  {
    if v.Str? {
      TrimIdempotent(v.s);
    }
  }

  /** Nothing is recognised in an empty or missing cell, in `NaN` or in a boolean. */
  lemma ParseDateEmpty(v: Cell, parse: DateParser)
    requires v.Null? || v.Undefined? || v == Str("") || v.NaNNum? || v.Bool?
    ensures ParseDate(v, parse) == None
  {
  }

  /** A serial number is the day it counts from 1899-12-30, whole days only,
      when its time value lies in the range of a `Date`. */
  lemma ParseDateSerial(x: real, parse: DateParser)
    ensures ParseDate(Num(x), parse).Some? <==> SerialInRange(x)
    ensures ParseDate(Num(x), parse).Some? ==> ParseDate(Num(x), parse).value as real <= x < ParseDate(Num(x), parse).value as real + 1.0
  {
  }
}
