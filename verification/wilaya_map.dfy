/** The bubble map of pass rates per wilaya (components/WilayaMap.tsx): the
    bubble size interpolated between the lowest and highest rate, the colour
    cycle, the localised wilaya name with its fallback, the abbreviated
    label and the selection toggle. Fetching the names and the drawing are
    left out. */
module WilayaMap {
  import opened Optional
  import opened Text
  import opened Seqs
  import opened Records

  // ----- bubble size -----

  const MinSize: real := 40.0
  const MaxSize: real := 120.0

  /** `calculateSize`: the middle size when every rate is the same, otherwise
      the linear interpolation of `taux` from [minTaux, maxTaux] onto
      [MinSize, MaxSize]. */
  function CalculateSize(taux: real, minTaux: real, maxTaux: real): real {
    if maxTaux == minTaux then (MinSize + MaxSize) / 2.0
    else MinSize + ((taux - minTaux) / (maxTaux - minTaux)) * (MaxSize - MinSize)
  }

  /** With equal extremes every bubble gets the middle size, 80. */
  lemma SizeFlat(taux: real, t: real)
    ensures CalculateSize(taux, t, t) == 80.0
  {
  }

  /** A rate within the extremes gets a size within [40, 120]; the lowest rate
      gets 40 and the highest 120 when they differ. */
  lemma SizeBounds(taux: real, minTaux: real, maxTaux: real)
    requires minTaux <= taux <= maxTaux
    ensures MinSize <= CalculateSize(taux, minTaux, maxTaux) <= MaxSize
    ensures minTaux < maxTaux ==> CalculateSize(minTaux, minTaux, maxTaux) == MinSize
    ensures minTaux < maxTaux ==> CalculateSize(maxTaux, minTaux, maxTaux) == MaxSize
  {
    if minTaux < maxTaux {
      DivBetween(taux - minTaux, maxTaux - minTaux);
    }
  }

  lemma DivBetween(n: real, d: real)
    requires 0.0 <= n <= d && d > 0.0
    ensures 0.0 <= n / d <= 1.0
  {
    assert n / d * d == n;
    assert d / d == 1.0;
  }

  /** A higher rate never gets a smaller bubble. */
  lemma SizeMonotone(a: real, b: real, minTaux: real, maxTaux: real)
    requires minTaux <= maxTaux && a <= b
    ensures CalculateSize(a, minTaux, maxTaux) <= CalculateSize(b, minTaux, maxTaux)
  {
    if minTaux < maxTaux {
      var d := maxTaux - minTaux;
      assert (a - minTaux) / d <= (b - minTaux) / d by {
        assert (b - minTaux) / d - (a - minTaux) / d == (b - a) / d;
      }
    }
  }

  /** `Math.min(...tauxValues)` and `Math.max(...tauxValues)`; `None` stands
      for the infinities an empty list gives, where no bubble is drawn. */
  function Extent(ts: seq<real>): (r: Option<(real, real)>)
    ensures r.None? <==> ts == []
    ensures r.Some? ==> r.value.0 <= r.value.1
    ensures r.Some? ==> forall i :: 0 <= i < |ts| ==> r.value.0 <= ts[i] <= r.value.1
    ensures r.Some? ==> (exists i :: 0 <= i < |ts| && ts[i] == r.value.0) && (exists j :: 0 <= j < |ts| && ts[j] == r.value.1)
  {
    if ts == [] then None
    else
      var init, last := ts[..|ts| - 1], ts[|ts| - 1];
      match Extent(init)
      case None => Some((last, last))
      case Some(e) =>
        assert forall i :: 0 <= i < |init| ==> ts[i] == init[i];
        Some((if last < e.0 then last else e.0, if last > e.1 then last else e.1))
  }

  /** Every drawn bubble gets a size in [40, 120]; the one with the lowest rate
      gets 40 and the one with the highest 120 unless all rates are equal. */
  lemma BubbleSizes(ts: seq<real>)
    requires ts != []
    ensures var e := Extent(ts).value;
      && (forall i :: 0 <= i < |ts| ==> MinSize <= CalculateSize(ts[i], e.0, e.1) <= MaxSize)
      && (e.0 < e.1 ==> (exists i :: 0 <= i < |ts| && CalculateSize(ts[i], e.0, e.1) == MinSize))
      && (e.0 < e.1 ==> (exists j :: 0 <= j < |ts| && CalculateSize(ts[j], e.0, e.1) == MaxSize))
      && (e.0 == e.1 ==> forall i :: 0 <= i < |ts| ==> CalculateSize(ts[i], e.0, e.1) == 80.0)
  {
    var e := Extent(ts).value;
    forall i | 0 <= i < |ts|
      ensures MinSize <= CalculateSize(ts[i], e.0, e.1) <= MaxSize
    {
      SizeBounds(ts[i], e.0, e.1);
    }
    if e.0 < e.1 {
      var i :| 0 <= i < |ts| && ts[i] == e.0;
      var j :| 0 <= j < |ts| && ts[j] == e.1;
      SizeBounds(ts[i], e.0, e.1);
      assert CalculateSize(ts[i], e.0, e.1) == MinSize;
      assert CalculateSize(ts[j], e.0, e.1) == MaxSize;
    }
  }

  // ----- colours -----

  /** A gradient: start and end colour. */
  type Color = (String, String)

  /** `ACCESSIBLE_COLORS`: blue, green, red, violet, gold, cyan. */
  const Palette: seq<Color> := [
    ("#4C72B0", "#2E59A2"),
    ("#55A868", "#338043"),
    ("#C44E52", "#A23540"),
    ("#8172B2", "#645497"),
    ("#CCB974", "#B09D46"),
    ("#64B5CD", "#4298B4")
  ]

  /** The `colorMapping` filled in data order, each name mapped to the
      position of its palette entry: the wilaya at index `i` gets entry
      `i % 6`, a later row with the same name overwriting. */
  function ColorMap(names: seq<String>): map<String, nat> {
    if names == [] then map[]
    else ColorMap(names[..|names| - 1])[names[|names| - 1] := (|names| - 1) % |Palette|]
  }

  /** Every name of the data has a colour, and only those names, each a
      palette position. */
  lemma {:induction false} ColorMapKeys(names: seq<String>)
    ensures forall k :: k in ColorMap(names) <==> k in names
    ensures forall k :: k in ColorMap(names) ==> ColorMap(names)[k] < |Palette|
  {
    if names != [] {
      var init := names[..|names| - 1];
      ColorMapKeys(init);
      assert names == init + [names[|names| - 1]];
    }
  }

  /** `colorMap[name] || ACCESSIBLE_COLORS[0]`: the colour a bubble is drawn with. */
  function ColorOf(m: map<String, nat>, name: String): Color {
    if name in m && m[name] < |Palette| then Palette[m[name]] else Palette[0]
  }

  /** With distinct names, the row at index `i` gets palette entry `i % 6`. */
  lemma {:induction false} ColorCycle(names: seq<String>, i: nat)
    requires NoDuplicates(names) && i < |names|
    ensures names[i] in ColorMap(names) && ColorMap(names)[names[i]] == i % 6
  {
    var init := names[..|names| - 1];
    NoDuplicatesInit(names);
    if i < |names| - 1 {
      assert init[i] == names[i];
      ColorCycle(init, i);
    }
  }

  /** Neighbouring bubbles never share a colour. */
  lemma NeighbourColors(names: seq<String>, i: nat)
    requires NoDuplicates(names) && i + 1 < |names|
    ensures ColorOf(ColorMap(names), names[i]) != ColorOf(ColorMap(names), names[i + 1])
  {
    var m := ColorMap(names);
    ColorCycle(names, i);
    ColorCycle(names, i + 1);
    ModStep(i);
    SlotColors(m, names[i], names[i + 1]);
  }

  /** Colours repeat every six bubbles. */
  lemma ColorsRepeat(names: seq<String>, i: nat)
    requires NoDuplicates(names) && i + 6 < |names|
    ensures ColorOf(ColorMap(names), names[i]) == ColorOf(ColorMap(names), names[i + 6])
  {
    var m := ColorMap(names);
    ColorCycle(names, i);
    ColorCycle(names, i + 6);
    ModStep(i);
    SlotColors(m, names[i], names[i + 6]);
  }

  /** Two names mapped to palette positions get the same colour exactly when
      the positions are the same. */
  lemma SlotColors(m: map<String, nat>, x: String, y: String)
    requires x in m && y in m && m[x] < 6 && m[y] < 6
    ensures ColorOf(m, x) == ColorOf(m, y) <==> m[x] == m[y]
  {
    if m[x] != m[y] {
      PaletteDistinct(m[x], m[y]);
    }
  }

  /** The six palette entries are different colours. */
  lemma PaletteDistinct(a: nat, b: nat)
    requires a < 6 && b < 6 && a != b
    ensures Palette[a] != Palette[b]
  {
    var x, y := Palette[a].0, Palette[b].0;
    assert x[1] != y[1] || x[2] != y[2];
  }

  lemma ModStep(i: nat)
    ensures (i + 6) % 6 == i % 6
    ensures (i + 1) % 6 != i % 6
  {
  }

  // ----- names -----

  datatype WilayaNames = WilayaNames(fr: String, ar: String)

  /** The names read from the results: each row sets its French wilaya name's
      entry, a later row overwriting an earlier one. */
  function NamesFrom(rows: seq<Candidate>): (m: map<String, WilayaNames>)
    ensures forall k :: k in m <==> exists i :: 0 <= i < |rows| && rows[i].wilayaFr == k
    ensures forall k :: k in m ==> m[k].fr == k
  {
    if rows == [] then map[]
    else
      var init, last := rows[..|rows| - 1], rows[|rows| - 1];
      var m0 := NamesFrom(init);
      assert forall i :: 0 <= i < |init| ==> init[i] == rows[i];
      m0[last.wilayaFr := WilayaNames(last.wilayaFr, last.wilayaAr)]
  }

  /** `getWilayaName`: the known name in the interface language, or the id itself. */
  function GetWilayaName(names: map<String, WilayaNames>, id: String, lang: Lang): (r: String)
    ensures id !in names ==> r == id
    ensures id in names ==> r == (if lang == Fr then names[id].fr else names[id].ar)
  {
    if id in names then (if lang == Fr then names[id].fr else names[id].ar) else id
  }

  /** With names read from the results, the French name of a wilaya is its id,
      and the Arabic one is the last row's Arabic name for it. */
  lemma FrenchNameIsId(rows: seq<Candidate>, id: String)
    ensures GetWilayaName(NamesFrom(rows), id, Fr) == id
    ensures (exists i :: 0 <= i < |rows| && rows[i].wilayaFr == id) ==>
      exists i :: 0 <= i < |rows| && rows[i].wilayaFr == id && GetWilayaName(NamesFrom(rows), id, Ar) == rows[i].wilayaAr
  {
    if exists i :: 0 <= i < |rows| && rows[i].wilayaFr == id {
      LastRowName(rows, id);
    }
  }

  lemma {:induction false} LastRowName(rows: seq<Candidate>, id: String)
    requires id in NamesFrom(rows)
    ensures exists i :: 0 <= i < |rows| && rows[i].wilayaFr == id && NamesFrom(rows)[id].ar == rows[i].wilayaAr
  {
    var init, last := rows[..|rows| - 1], rows[|rows| - 1];
    if last.wilayaFr != id {
      LastRowName(init, id);
      var i :| 0 <= i < |init| && init[i].wilayaFr == id && NamesFrom(init)[id].ar == init[i].wilayaAr;
      assert rows[i] == init[i];
    } else {
      assert rows[|rows| - 1] == last;
    }
  }

  // ----- the label under a bubble -----

  /** `name.split(' ').map(word => word.slice(0, 3)).join('.')`. */
  function Abbreviation(name: String): String {
    Join(Shortened(Split(name, ' ')), ".")
  }

  function Shortened(words: seq<String>): (r: seq<String>)
    ensures |r| == |words|
    ensures forall i :: 0 <= i < |words| ==> r[i] == Take(words[i], 3)
  {
    seq(|words|, i requires 0 <= i < |words| => Take(words[i], 3))
  }

  /** The label splits back at its dots into the first three characters (or
      fewer) of each space-separated word, in order, as long as the name holds
      no dot. */
  lemma Abbreviated(name: String)
    requires '.' !in name
    ensures var words := Split(name, ' ');
      var parts := Split(Abbreviation(name), '.');
      && |parts| == |words|
      && forall i :: 0 <= i < |words| ==>
           |parts[i]| == (if |words[i]| < 3 then |words[i]| else 3) && parts[i] == words[i][..|parts[i]|]
  {
    var words := Split(name, ' ');
    var short := Shortened(words);
    JoinSplit(name, ' ');
    forall k | 0 <= k < |short| ensures '.' !in short[k] {
      WordOfSplit(name, k);
      assert forall c :: c in short[k] ==> c in words[k];
    }
    SplitJoin(short, '.');
  }

  /** A piece of a split is a run of the string, so it holds only characters
      of the string. */
  lemma {:induction false} WordOfSplit(s: String, k: nat)
    requires k < |Split(s, ' ')|
    ensures forall c :: c in Split(s, ' ')[k] ==> c in s
    decreases |s|
  {
    var j := IndexOf(s, ' ');
    if j < |s| && k > 0 {
      WordOfSplit(s[j + 1..], k - 1);
      assert Split(s, ' ')[k] == Split(s[j + 1..], ' ')[k - 1];
    }
  }

  // ----- selection -----

  /** A click on a bubble: it deselects the selected wilaya and selects any other. */
  function Click(selected: Option<String>, name: String): (r: Option<String>)
    ensures r.None? <==> selected == Some(name)
    ensures r.Some? ==> r.value == name
  {
    if selected == Some(name) then None else Some(name)
  }

  /** Clicking the same bubble twice from nothing selected ends with nothing
      selected; two different bubbles in a row leave the second selected. */
  lemma ClickTwice(name: String, other: String)
    ensures Click(Click(None, name), name) == None
    ensures other != name ==> Click(Click(None, name), other) == Some(other)
  {
  }
}
