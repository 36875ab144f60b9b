/** The string helpers of lib/utils.ts: `cn` (class-name concatenation),
    `formatNumber` (thousands separator) and `toSlug` (URL slug). */
module Utils {
  import opened Text
  import opened Seqs

  // ----- cn -----

  /** The argument shapes `cn` accepts. Numbers are integers in this model. */
  datatype ClassValue =
    | Str(s: String)
    | Num(n: int)
    | Bool(b: bool)
    | Null
    | Undefined
    | Obj(entries: seq<(String, bool)>)
    | Arr(items: seq<ClassValue>)

  /** JavaScript truthiness: objects and arrays are truthy even when empty. */
  predicate Truthy(v: ClassValue) {
    match v
    case Str(s) => s != []
    case Num(n) => n != 0
    case Bool(b) => b
    case Null => false
    case Undefined => false
    case Obj(_) => true
    case Arr(_) => true
  }

  /** The keys of an object whose values are truthy, in entry order. */
  function TrueKeys(entries: seq<(String, bool)>): (ks: seq<String>)
    ensures forall k :: k in ks <==> exists i :: 0 <= i < |entries| && entries[i] == (k, true)
  {
    if entries == [] then []
    else
      var rest := TrueKeys(entries[1..]);
      assert forall i :: 1 <= i < |entries| ==> entries[i] == entries[1..][i - 1];
      (if entries[0].1 then [entries[0].0] else []) + rest
  }

  function NonEmpty(): String -> bool {
    (s: String) => s != []
  }

  /** What one argument pushes onto `result` in the loop of `cn`. */
  function PushedOne(v: ClassValue): seq<String>
    decreases v, 2
  {
    if !Truthy(v) then []
    else match v
      case Str(s) => [s]
      case Num(n) => [IntToString(n)]
      case Obj(es) => TrueKeys(es)
      case Arr(items) =>
        var inner := Cn(items);
        if inner != [] then [inner] else []
      case _ => []
  }

  /** The `result` array after the loop of `cn`. */
  function Pushed(inputs: seq<ClassValue>): seq<String>
    decreases inputs, 0
  {
    if inputs == [] then [] else PushedOne(inputs[0]) + Pushed(inputs[1..])
  }

  /** `cn(...inputs)`: `result.filter(Boolean).join(' ')`. */
  function Cn(inputs: seq<ClassValue>): String
    decreases inputs, 1
  {
    Join(Filter(Pushed(inputs), NonEmpty()), " ")
  }

  /** The class names one argument stands for, nested arrays flattened. */
  function TokensOne(v: ClassValue): (ts: seq<String>)
    ensures forall i :: 0 <= i < |ts| ==> ts[i] != []
    decreases v, 1
  {
    match v
    case Str(s) => if s == [] then [] else [s]
    case Num(n) => if n == 0 then [] else [IntToString(n)]
    case Obj(es) =>
      var ks := Filter(TrueKeys(es), NonEmpty());
      assert forall i :: 0 <= i < |ks| ==> ks[i] in ks;
      ks
    case Arr(items) => Tokens(items)
    case _ => []
  }

  /** The reference reading of `cn`: the non-empty class names of all inputs,
      nested arrays flattened, in argument order. */
  function Tokens(inputs: seq<ClassValue>): (ts: seq<String>)
    ensures forall i :: 0 <= i < |ts| ==> ts[i] != []
    decreases inputs, 0
  {
    if inputs == [] then [] else TokensOne(inputs[0]) + Tokens(inputs[1..])
  }

  /** Joining two lists is joining each and putting the separator between
      them when both are non-empty. */
  lemma {:induction false} JoinConcat(a: seq<String>, b: seq<String>, sep: String)
    ensures Join(a + b, sep) ==
      if a == [] then Join(b, sep)
      else if b == [] then Join(a, sep)
      else Join(a, sep) + sep + Join(b, sep)
  {
    if a == [] {
      assert a + b == b;
    } else if b == [] {
      assert a + b == a;
    } else if |a| == 1 {
      assert (a + b)[1..] == b;
    } else {
      assert (a + b)[1..] == a[1..] + b;
      JoinConcat(a[1..], b, sep);
    }
  }

  lemma JoinCongruent(a: seq<String>, b: seq<String>, c: seq<String>, d: seq<String>, sep: String)
    requires Join(a, sep) == Join(c, sep) && (a == [] <==> c == [])
    requires Join(b, sep) == Join(d, sep) && (b == [] <==> d == [])
    ensures Join(a + b, sep) == Join(c + d, sep)
  {
    JoinConcat(a, b, sep);
    JoinConcat(c, d, sep);
  }

  /** A join of non-empty strings is empty only when there is nothing to join. */
  lemma JoinEmpty(parts: seq<String>, sep: String)
    requires forall i :: 0 <= i < |parts| ==> parts[i] != []
    ensures Join(parts, sep) == [] <==> parts == []
  {
    if |parts| > 1 {
      assert Join(parts, sep) == parts[0] + sep + Join(parts[1..], sep);
    }
  }

  /** `cn` is the space-joined flat list of non-empty class names. */
  lemma {:induction false} CnTokens(inputs: seq<ClassValue>)
    ensures Cn(inputs) == Join(Tokens(inputs), " ")
    decreases inputs, 1
  {
    if inputs != [] {
      var v, rest := inputs[0], inputs[1..];
      FilterConcat(PushedOne(v), Pushed(rest), NonEmpty());
      var fHere := Filter(PushedOne(v), NonEmpty());
      var fRest := Filter(Pushed(rest), NonEmpty());
      assert Cn(inputs) == Join(fHere + fRest, " ");
      CnTokens(rest);
      assert fRest == [] <==> Tokens(rest) == [] by {
        assert forall i :: 0 <= i < |fRest| ==> fRest[i] in fRest;
        JoinEmpty(fRest, " ");
        JoinEmpty(Tokens(rest), " ");
      }
      OneAgrees(v);
      JoinCongruent(fHere, fRest, TokensOne(v), Tokens(rest), " ");
    }
  }

  /** One argument pushes, once empty strings are dropped, what its tokens join to. */
  lemma {:induction false} OneAgrees(v: ClassValue)
    ensures var f := Filter(PushedOne(v), NonEmpty());
      Join(f, " ") == Join(TokensOne(v), " ") && (f == [] <==> TokensOne(v) == [])
    decreases v, 2
  {
    match v
    case Arr(items) =>
      CnTokens(items);
      JoinEmpty(Tokens(items), " ");
      if Cn(items) != [] {
        assert Filter([Cn(items)], NonEmpty()) == [Cn(items)] by {
          FilterAll([Cn(items)], NonEmpty());
        }
      }
    case Obj(es) =>
      FilterIdempotent(TrueKeys(es), NonEmpty());
    case Str(s) =>
      if s != [] { FilterAll([s], NonEmpty()); }
    case Num(n) =>
      if n != 0 { FilterAll([IntToString(n)], NonEmpty()); }
    case _ =>
  }

  lemma {:induction false} FilterIdempotent<T(!new)>(s: seq<T>, p: T -> bool)
    ensures Filter(Filter(s, p), p) == Filter(s, p)
  {
    FilterAll(Filter(s, p), p);
  }

  lemma {:induction false} TokensConcat(a: seq<ClassValue>, b: seq<ClassValue>)
    ensures Tokens(a + b) == Tokens(a) + Tokens(b)
  {
    if a == [] {
      assert a + b == b;
    } else {
      assert (a + b)[0] == a[0] && (a + b)[1..] == a[1..] + b;
      TokensConcat(a[1..], b);
    }
  }

  lemma TokensSingle(v: ClassValue)
    ensures Tokens([v]) == TokensOne(v)
  {
    assert [v][1..] == [];
  }

  /** A falsy argument (`''`, `0`, `false`, `null`, `undefined`) contributes nothing. */
  lemma CnSkipsFalsy(a: seq<ClassValue>, v: ClassValue, b: seq<ClassValue>)
    requires !Truthy(v)
    ensures Cn(a + [v] + b) == Cn(a + b)
  {
    CnTokens(a + [v] + b);
    CnTokens(a + b);
    TokensConcat(a + [v], b);
    TokensConcat(a, [v]);
    TokensConcat(a, b);
    TokensSingle(v);
    assert TokensOne(v) == [];
    assert Tokens(a) + [] == Tokens(a);
  }

  /** The documented call: `cn('btn', ['px-4', 'py-2'], { 'bg-blue-500': true, 'text-white': false })`. */
  lemma CnExample()
    ensures Cn([Str("btn"), Arr([Str("px-4"), Str("py-2")]), Obj([("bg-blue-500", true), ("text-white", false)])])
         == "btn px-4 py-2 bg-blue-500"
  {
    var es := [("bg-blue-500", true), ("text-white", false)];
    var inner := [Str("px-4"), Str("py-2")];
    var inputs := [Str("btn"), Arr(inner), Obj(es)];
    CnTokens(inputs);
    assert TrueKeys(es) == ["bg-blue-500"] by {
      assert es[1..] == [("text-white", false)];
      assert es[1..][1..] == [];
    }
    FilterAll(["bg-blue-500"], NonEmpty());
    assert TokensOne(Obj(es)) == ["bg-blue-500"];
    assert Tokens(inner) == ["px-4", "py-2"] by {
      assert inner[1..] == [Str("py-2")];
      assert inner[1..][1..] == [];
    }
    assert inputs[1..] == [Arr(inner), Obj(es)];
    assert inputs[1..][1..] == [Obj(es)];
    assert inputs[1..][1..][1..] == [];
    assert Tokens([Obj(es)]) == ["bg-blue-500"];
    assert Tokens([Arr(inner), Obj(es)]) == ["px-4", "py-2", "bg-blue-500"];
    assert Tokens(inputs) == ["btn", "px-4", "py-2", "bg-blue-500"];
    ExampleJoin();
  }

  lemma JoinFour(a: String, b: String, c: String, d: String, sep: String)
    ensures Join([a, b, c, d], sep) == a + sep + b + sep + c + sep + d
  {
    var ts := [a, b, c, d];
    assert ts[1..] == [b, c, d] && ts[1..][1..] == [c, d] && ts[1..][1..][1..] == [d];
    assert Join([c, d], sep) == c + sep + d;
    assert Join([b, c, d], sep) == b + sep + (c + sep + d);
  }

  lemma ExampleJoin()
    ensures Join(["btn", "px-4", "py-2", "bg-blue-500"], " ") == "btn px-4 py-2 bg-blue-500"
  {
    JoinFour("btn", "px-4", "py-2", "bg-blue-500", " ");
    assert "btn" + " " + "px-4" + " " + "py-2" + " " + "bg-blue-500" == "btn px-4 py-2 bg-blue-500";
  }

  // ----- formatNumber -----

  /** `\w`: the characters a regular-expression word boundary looks at. */
  predicate IsWordChar(c: char) {
    ('a' <= c <= 'z') || ('A' <= c <= 'Z') || IsDigit(c) || c == '_'
  }

  /** Where `/\B(?=(\d{3})+(?!\d))/g` matches in `s`: not at a word boundary,
      and in front of a run of digits whose length is a positive multiple of
      three. Position 0 and the end never match: at 0 a digit would make a
      boundary, and the end has no digits after it. */
  predicate GapAt(s: String, i: nat) {
    && 0 < i < |s|
    && IsWordChar(s[i - 1]) == IsWordChar(s[i])
    && DigitRun(s, i) >= 3
    && DigitRun(s, i) % 3 == 0
  }

  /** How many decimal digits follow one another from position `i` on. */
  function DigitRun(s: String, i: nat): nat
    requires i <= |s|
    decreases |s| - i
  {
    if i < |s| && IsDigit(s[i]) then 1 + DigitRun(s, i + 1) else 0
  }

  lemma {:induction false} DigitRunToEnd(s: String, i: nat)
    requires AllDigits(s) && i <= |s|
    ensures DigitRun(s, i) == |s| - i
    decreases |s| - i
  {
    if i < |s| {
      DigitRunToEnd(s, i + 1);
    }
  }

  /** The replacement from position `i` on: a space in front of every match. */
  function SpacedFrom(s: String, i: nat): (r: String)
    requires i <= |s|
    decreases |s| - i
  {
    if i == |s| then [] else (if GapAt(s, i) then " " else "") + [s[i]] + SpacedFrom(s, i + 1)
  }

  /** `str.replace(/\B(?=(\d{3})+(?!\d))/g, " ")`. */
  function InsertSeparators(s: String): String {
    SpacedFrom(s, 0)
  }

  /** `formatNumber` on an integer: its decimal form with separators. */
  function FormatNumber(n: int): String {
    InsertSeparators(IntToString(n))
  }

  function NotSpace(): char -> bool {
    (c: char) => c != ' '
  }

  lemma {:induction false} SpacedFromDropsSpaces(s: String, i: nat)
    requires i <= |s| && ' ' !in s
    ensures Filter(SpacedFrom(s, i), NotSpace()) == s[i..]
    decreases |s| - i
  {
    if i < |s| {
      SpacedFromDropsSpaces(s, i + 1);
      var here: String := (if GapAt(s, i) then " " else "") + [s[i]];
      FilterConcat(here, SpacedFrom(s, i + 1), NotSpace());
      assert Filter(here, NotSpace()) == [s[i]] by {
        assert s[i] in s;
        FilterDropsSpace(GapAt(s, i), s[i]);
      }
      assert s[i..] == [s[i]] + s[i + 1..];
    }
  }

  lemma FilterDropsSpace(gap: bool, c: char)
    requires c != ' '
    ensures Filter((if gap then " " else "") + [c], NotSpace()) == [c]
  {
    if gap {
      assert " " + [c] == [' ', c];
      assert [' ', c][1..] == [c];
    } else {
      assert "" + [c] == [c];
    }
  }

  /** Only spaces are inserted: removing them gives back the number's decimal form. */
  lemma FormatNumberDropsSpaces(n: int)
    ensures Filter(FormatNumber(n), NotSpace()) == IntToString(n)
  {
    var s := IntToString(n);
    assert ' ' !in s by {
      if n < 0 { assert s == "-" + NatToString(-n); }
    }
    SpacedFromDropsSpaces(s, 0);
  }

  /** In a string of digits the matches are the positions a positive multiple
      of three from the end. */
  lemma GapInDigits(s: String, i: nat)
    requires AllDigits(s) && i <= |s|
    ensures GapAt(s, i) <==> 0 < i < |s| && (|s| - i) % 3 == 0
  {
    DigitRunToEnd(s, i);
  }

  /** The first group of `s`: 1 to 3 digits, so that the rest splits into threes. */
  function LeadLength(s: String): (f: nat)
    requires |s| >= 1
    ensures 1 <= f <= 3 && f <= |s| && (|s| - f) % 3 == 0
  {
    (|s| - 1) % 3 + 1
  }

  /** Three-character pieces of a string whose length is a multiple of three. */
  function Chunks3(t: String): (cs: seq<String>)
    requires |t| % 3 == 0
    ensures |cs| == |t| / 3
    ensures forall k :: 0 <= k < |cs| ==> |cs[k]| == 3 && cs[k] == t[3 * k..3 * k + 3]
  {
    if t == [] then []
    else
      var rest := Chunks3(t[3..]);
      assert forall k :: 0 <= k < |rest| ==> rest[k] == t[3 * (k + 1)..3 * (k + 1) + 3];
      [t[..3]] + rest
  }

  /** The reference grouping of a digit string: a lead of 1-3 digits, then threes. */
  function Groups(s: String): (gs: seq<String>)
    requires |s| >= 1
    ensures |gs| >= 1 && 1 <= |gs[0]| <= 3
    ensures forall k :: 1 <= k < |gs| ==> |gs[k]| == 3
  {
    var f := LeadLength(s);
    [s[..f]] + Chunks3(s[f..])
  }

  /** `" " + piece` for every piece. */
  function Prefixed(cs: seq<String>): String {
    if cs == [] then [] else " " + cs[0] + Prefixed(cs[1..])
  }

  lemma {:induction false} JoinPrefixed(x: String, cs: seq<String>)
    ensures Join([x] + cs, " ") == x + Prefixed(cs)
    decreases |cs|
  {
    if cs != [] {
      assert ([x] + cs)[1..] == cs;
      assert cs == [cs[0]] + cs[1..];
      JoinPrefixed(cs[0], cs[1..]);
    }
  }

  /** Where nothing matches, the character is copied as it is. */
  lemma CopiedOne(s: String, j: nat)
    requires AllDigits(s) && j < |s| && (j == 0 || (|s| - j) % 3 != 0)
    ensures SpacedFrom(s, j) == [s[j]] + SpacedFrom(s, j + 1)
  {
    GapInDigits(s, j);
    assert "" + [s[j]] == [s[j]];
  }

  /** Where a match is, a space goes in front of the character. */
  lemma SpacedOne(s: String, i: nat)
    requires AllDigits(s) && 0 < i < |s| && (|s| - i) % 3 == 0
    ensures SpacedFrom(s, i) == [' ', s[i]] + SpacedFrom(s, i + 1)
  {
    GapInDigits(s, i);
    assert " " + [s[i]] == [' ', s[i]];
  }

  lemma Glue<T>(x: seq<T>, y: seq<T>, z: seq<T>, p: seq<T>, q: seq<T>)
    requires x == p + y && y == q + z
    ensures x == (p + q) + z
  {
  }

  lemma ModThreeShift(n: int)
    ensures n % 3 == 2 ==> (n - 1) % 3 == 1
    ensures n % 3 == 0 ==> (n - 1) % 3 == 2
  {
  }

  lemma SliceTwo<T>(s: seq<T>, j: nat)
    requires j + 2 <= |s|
    ensures s[j..j + 2] == [s[j]] + [s[j + 1]]
  {
  }

  lemma SliceSpaced(s: String, i: nat)
    requires i + 3 <= |s|
    ensures [' ', s[i]] + s[i + 1..i + 3] == " " + s[i..][..3]
  {
  }

  /** Two non-matching positions in a row, as inside a group of three. */
  lemma CopiedTwo(s: String, j: nat)
    requires AllDigits(s) && 0 < j && j + 1 < |s| && (|s| - j) % 3 == 2
    ensures SpacedFrom(s, j) == s[j..j + 2] + SpacedFrom(s, j + 2)
  {
    ModThreeShift(|s| - j);
    CopiedOne(s, j);
    CopiedOne(s, j + 1);
    Glue(SpacedFrom(s, j), SpacedFrom(s, j + 1), SpacedFrom(s, j + 2), [s[j]], [s[j + 1]]);
    SliceTwo(s, j);
  }

  lemma SpacedTriple(s: String, i: nat)
    requires AllDigits(s) && 0 < i < |s| && (|s| - i) % 3 == 0
    ensures i + 3 <= |s|
    ensures SpacedFrom(s, i) == " " + s[i..][..3] + SpacedFrom(s, i + 3)
  {
    ModThreeShift(|s| - i);
    SpacedOne(s, i);
    CopiedTwo(s, i + 1);
    Glue(SpacedFrom(s, i), SpacedFrom(s, i + 1), SpacedFrom(s, i + 3), [' ', s[i]], s[i + 1..i + 3]);
    SliceSpaced(s, i);
  }

  /** From a match position on, every three digits are preceded by a space. */
  lemma {:induction false} SpacedTriples(s: String, i: nat)
    requires AllDigits(s) && 0 < i <= |s| && (|s| - i) % 3 == 0
    ensures SpacedFrom(s, i) == Prefixed(Chunks3(s[i..]))
    decreases |s| - i
  {
    if i < |s| {
      SpacedTriple(s, i);
      SpacedTriples(s, i + 3);
      assert s[i..][3..] == s[i + 3..];
    }
  }

  /** The lead group is copied without a separator inside it. */
  lemma LeadCopied(s: String)
    requires |s| >= 1 && AllDigits(s)
    ensures SpacedFrom(s, 0) == s[..LeadLength(s)] + SpacedFrom(s, LeadLength(s))
  {
    var f := LeadLength(s);
    CopiedOne(s, 0);
    if f == 1 {
      assert s[..1] == [s[0]];
    } else {
      ModThreeShift(|s|);
      ModThreeShift(|s| - 1);
      var g := if f == 2 then 1 else 2;
      LeadRest(s, g);
      Glue(SpacedFrom(s, 0), SpacedFrom(s, 1), SpacedFrom(s, f), [s[0]], s[1..f]);
      assert s[..f] == [s[0]] + s[1..f];
    }
  }

  /** Inside the lead group, after its first digit, nothing matches. */
  lemma LeadRest(s: String, g: nat)
    requires AllDigits(s) && 1 <= g <= 2 && g + 1 <= |s| && (|s| - 1) % 3 == g
    ensures SpacedFrom(s, 1) == s[1..g + 1] + SpacedFrom(s, g + 1)
  {
    if g == 1 {
      CopiedOne(s, 1);
      assert s[1..2] == [s[1]];
    } else {
      CopiedTwo(s, 1);
    }
  }

  /** On digits, the separators produce exactly the reference grouping. */
  lemma DigitsGrouped(s: String)
    requires |s| >= 1 && AllDigits(s)
    ensures InsertSeparators(s) == Join(Groups(s), " ")
  {
    var f := LeadLength(s);
    LeadCopied(s);
    SpacedTriples(s, f);
    JoinPrefixed(s[..f], Chunks3(s[f..]));
  }

  lemma GroupsAreDigits(s: String)
    requires |s| >= 1 && AllDigits(s)
    ensures forall k :: 0 <= k < |Groups(s)| ==> AllDigits(Groups(s)[k])
  {
    var f := LeadLength(s);
    var t := s[f..];
    assert AllDigits(s[..f]);
    forall k | 0 <= k < |Chunks3(t)| ensures AllDigits(Chunks3(t)[k]) {
      assert forall j :: 0 <= j < 3 ==> Chunks3(t)[k][j] == t[3 * k + j];
    }
  }

  /** For a non-negative integer, the separators split its digits into a lead
      group of 1 to 3 digits and groups of exactly 3. */
  lemma FormatNumberGroups(n: nat)
    ensures var gs := Split(FormatNumber(n), ' ');
      && gs == Groups(NatToString(n))
      && 1 <= |gs[0]| <= 3
      && (forall k :: 1 <= k < |gs| ==> |gs[k]| == 3 && AllDigits(gs[k]))
  {
    var s := NatToString(n);
    DigitsGrouped(s);
    var gs := Groups(s);
    GroupsAreDigits(s);
    forall k | 0 <= k < |gs| ensures ' ' !in gs[k] {
      assert !IsDigit(' ');
    }
    SplitJoin(gs, ' ');
  }

  lemma DigitsOf3500()
    ensures IntToString(3500) == "3500"
  {
    assert NatToString(3) == "3";
    assert NatToString(35) == "35";
    assert NatToString(350) == "350";
  }

  /** The documented example: `formatNumber(3500)` is "3 500". */
  lemma FormatThreeThousandFiveHundred()
    ensures FormatNumber(3500) == "3 500"
  {
    var s := NatToString(3500);
    DigitsOf3500();
    DigitsGrouped(s);
    assert LeadLength(s) == 1;
    assert s[..1] == "3" && s[1..] == "500";
    assert Chunks3("500") == ["500"] by {
      var t := "500";
      assert t[3..] == [] && t[..3] == t;
      assert Chunks3(t[3..]) == [];
      assert Chunks3(t) == [t[..3]] + Chunks3(t[3..]);
    }
    assert Groups(s) == ["3", "500"];
    assert Join(["3", "500"], " ") == "3" + " " + "500";
  }

  // ----- toSlug -----

  /** The combining diacritical marks U+0300..U+036F that the slug drops. */
  predicate IsCombiningMark(c: char) {
    '\U{0300}' <= c <= '\U{036F}'
  }

  /** The base letter canonical decomposition (NFD) gives a lower-case Latin-1
      letter that carries a diacritic; every other character is its own base. */
  function BaseLetter(c: char): (r: char)
    ensures c as int < 0xE0 ==> r == c
  {
    if '\U{00E0}' <= c <= '\U{00E5}' then 'a'
    else if c == '\U{00E7}' then 'c'
    else if '\U{00E8}' <= c <= '\U{00EB}' then 'e'
    else if '\U{00EC}' <= c <= '\U{00EF}' then 'i'
    else if c == '\U{00F1}' then 'n'
    else if '\U{00F2}' <= c <= '\U{00F6}' then 'o'
    else if '\U{00F9}' <= c <= '\U{00FC}' then 'u'
    else if c == '\U{00FD}' || c == '\U{00FF}' then 'y'
    else c
  }

  /** `normalize('NFD')` followed by `replace(/[\u0300-\u036f]/g, '')`:
      accented letters lose their accent and loose combining marks vanish. */
  function StripAccents(s: String): (r: String)
    ensures |r| <= |s|
    ensures forall i :: 0 <= i < |r| ==> !IsCombiningMark(r[i])
  {
    if s == [] then []
    else if IsCombiningMark(s[0]) then StripAccents(s[1..])
    else [BaseLetter(s[0])] + StripAccents(s[1..])
  }

  /** The characters a slug keeps: `[a-z0-9]`. */
  predicate IsSlugChar(c: char) {
    ('a' <= c <= 'z') || IsDigit(c)
  }

  predicate SlugOrDash(c: char) {
    IsSlugChar(c) || c == '-'
  }

  /** No two dashes next to each other. */
  predicate NoDoubleDash(t: String) {
    forall i :: 0 <= i < |t| - 1 ==> !(t[i] == '-' && t[i + 1] == '-')
  }

  /** What a slug looks like: `[a-z0-9-]` only, no dash at either end, no "--". */
  predicate IsSlug(t: String) {
    && (forall i :: 0 <= i < |t| ==> SlugOrDash(t[i]))
    && (t != [] ==> t[0] != '-' && t[|t| - 1] != '-')
    && NoDoubleDash(t)
  }

  /** Drops the run of non-slug characters at the front of `s`. */
  function SkipRun(s: String): (r: String)
    ensures |r| <= |s| && r == s[|s| - |r|..]
    ensures r == [] || IsSlugChar(r[0])
    ensures forall i :: 0 <= i < |s| - |r| ==> !IsSlugChar(s[i])
    ensures s != [] && !IsSlugChar(s[0]) ==> |r| < |s|
  {
    if s != [] && !IsSlugChar(s[0]) then SkipRun(s[1..]) else s
  }

  /** `replace(/[^a-z0-9]+/g, '-')`: every maximal run of other characters
      becomes one dash. */
  function Dashify(s: String): (r: String)
    ensures forall i :: 0 <= i < |r| ==> SlugOrDash(r[i])
    ensures NoDoubleDash(r)
    ensures s != [] ==> r != [] && (IsSlugChar(s[0]) ==> r[0] == s[0]) && (!IsSlugChar(s[0]) ==> r[0] == '-')
    decreases |s|
  {
    if s == [] then []
    else if IsSlugChar(s[0]) then [s[0]] + Dashify(s[1..])
    else "-" + Dashify(SkipRun(s))
  }

  /** `replace(/(^-|-$)+/g, '')` on a string without "--": drops one dash at
      the front and one at the end. */
  function StripDashes(t: String): (r: String)
    requires NoDoubleDash(t)
    ensures |r| <= |t|
  {
    var u := if t != [] && t[0] == '-' then t[1..] else t;
    if u != [] && u[|u| - 1] == '-' then u[..|u| - 1] else u
  }

  function Fold(s: String): String {
    StripAccents(LowerStr(s))
  }

  /** `toSlug`: lower-case, strip accents, turn other runs into dashes, trim dashes. */
  function ToSlug(s: String): (r: String)
    ensures IsSlug(r)
  {
    var t := Dashify(Fold(s));
    var r := StripDashes(t);
    assert IsSlug(r) by { StripDashesSlug(t); }
    r
  }

  lemma StripDashesSlug(t: String)
    requires NoDoubleDash(t) && forall i :: 0 <= i < |t| ==> SlugOrDash(t[i])
    ensures IsSlug(StripDashes(t))
  {
    var u := if t != [] && t[0] == '-' then t[1..] else t;
    assert forall i :: 0 <= i < |u| ==> SlugOrDash(u[i]);
    assert NoDoubleDash(u);
    assert u != [] ==> u[0] != '-';
    if u != [] && u[|u| - 1] == '-' {
      var r := u[..|u| - 1];
      assert r != [] ==> r[|r| - 1] == u[|u| - 2];
    }
  }

  /** A slug passes through `Dashify` unchanged: its dashes are single and
      already stand between letters and digits. */
  lemma {:induction false} DashifyFixed(t: String)
    requires forall i :: 0 <= i < |t| ==> SlugOrDash(t[i])
    requires NoDoubleDash(t)
    ensures Dashify(t) == t
    decreases |t|
  {
    if t != [] {
      var rest := t[1..];
      assert forall i :: 0 <= i < |rest| ==> SlugOrDash(rest[i]) by {
        assert forall i :: 0 <= i < |rest| ==> rest[i] == t[i + 1];
      }
      assert NoDoubleDash(rest) by {
        assert forall i :: 0 <= i < |rest| ==> rest[i] == t[i + 1];
      }
      DashifyFixed(rest);
      if !IsSlugChar(t[0]) {
        assert rest == [] || rest[0] != '-';
        assert SkipRun(t) == rest;
      }
      assert t == [t[0]] + rest;
    }
  }

  lemma {:induction false} StripAccentsFixed(t: String)
    requires forall i :: 0 <= i < |t| ==> SlugOrDash(t[i])
    ensures StripAccents(t) == t
  {
    if t != [] {
      assert forall i :: 0 <= i < |t[1..]| ==> t[1..][i] == t[i + 1];
      StripAccentsFixed(t[1..]);
      assert t == [t[0]] + t[1..];
    }
  }

  /** A slug is its own slug. */
  lemma SlugFixed(t: String)
    requires IsSlug(t)
    ensures ToSlug(t) == t
  {
    assert LowerStr(t) == t by {
      forall i | 0 <= i < |t| ensures !IsUpper(t[i]) {
        assert SlugOrDash(t[i]);
      }
    }
    StripAccentsFixed(t);
    DashifyFixed(t);
  }

  /** Applying `toSlug` to a slug changes nothing. */
  lemma ToSlugIdempotent(s: String)
    ensures ToSlug(ToSlug(s)) == ToSlug(s)
  {
    SlugFixed(ToSlug(s));
  }

  lemma {:induction false} SkipRunKeeps(s: String)
    ensures Filter(SkipRun(s), IsSlugChar) == Filter(s, IsSlugChar)
  {
    var r := SkipRun(s);
    var k := |s| - |r|;
    var skipped := s[..k];
    assert s == skipped + r;
    assert forall i :: 0 <= i < |skipped| ==> !IsSlugChar(skipped[i]) by {
      assert forall i :: 0 <= i < |skipped| ==> skipped[i] == s[i];
    }
    FilterNone(skipped, IsSlugChar);
    FilterConcat(skipped, r, IsSlugChar);
  }

  /** Turning runs into dashes keeps every letter and digit, in order. */
  lemma {:induction false} DashifyKeeps(s: String)
    ensures Filter(Dashify(s), IsSlugChar) == Filter(s, IsSlugChar)
    decreases |s|
  {
    if s != [] {
      if IsSlugChar(s[0]) {
        DashifyKeeps(s[1..]);
        FilterConcat([s[0]], Dashify(s[1..]), IsSlugChar);
      } else {
        DashifyKeeps(SkipRun(s));
        SkipRunKeeps(s);
        FilterConcat("-", Dashify(SkipRun(s)), IsSlugChar);
        assert Filter("-", IsSlugChar) == [];
      }
    }
  }

  lemma StripDashesKeeps(t: String)
    requires NoDoubleDash(t)
    ensures Filter(StripDashes(t), IsSlugChar) == Filter(t, IsSlugChar)
  {
    var u := if t != [] && t[0] == '-' then t[1..] else t;
    assert Filter(u, IsSlugChar) == Filter(t, IsSlugChar) by {
      if t != [] && t[0] == '-' {
        assert Filter(t, IsSlugChar) == Filter(t[1..], IsSlugChar);
      }
    }
    if u != [] && u[|u| - 1] == '-' {
      FilterLast(u, IsSlugChar);
    }
  }

  /** The slug holds exactly the letters and digits of the lower-cased,
      accent-free input, in their order: only the separators are rewritten. */
  lemma ToSlugKeeps(s: String)
    ensures Filter(ToSlug(s), IsSlugChar) == Filter(Fold(s), IsSlugChar)
  {
    var t := Dashify(Fold(s));
    StripDashesKeeps(t);
    DashifyKeeps(Fold(s));
  }

  lemma {:induction false} LowerConcat(a: String, b: String)
    ensures LowerStr(a + b) == LowerStr(a) + LowerStr(b)
  {
    var l, r := LowerStr(a + b), LowerStr(a) + LowerStr(b);
    assert forall i :: 0 <= i < |l| ==> l[i] == r[i] by {
      forall i | 0 <= i < |l| ensures l[i] == r[i] {
        if i < |a| { assert (a + b)[i] == a[i]; } else { assert (a + b)[i] == b[i - |a|]; }
      }
    }
  }

  /** Every character of `s` passes `p`, checked one character at a time. */
  predicate Every(s: String, p: char -> bool)
    decreases |s|
  {
    if s == [] then true else p(s[0]) && Every(s[1..], p)
  }

  lemma {:induction false} EveryAt(s: String, p: char -> bool)
    requires Every(s, p)
    ensures forall i :: 0 <= i < |s| ==> p(s[i])
    decreases |s|
  {
    if s != [] {
      EveryAt(s[1..], p);
      assert forall i :: 1 <= i < |s| ==> s[i] == s[1..][i - 1];
    }
  }

  predicate NotUpper(c: char) {
    !IsUpper(c)
  }

  predicate BelowAccented(c: char) {
    c < '\U{00E0}'
  }

  lemma {:induction false} LowerEvery(t: String)
    requires Every(t, NotUpper)
    ensures LowerStr(t) == t
    decreases |t|
  {
    if t != [] {
      LowerEvery(t[1..]);
    }
  }

  lemma {:induction false} StripAccentsConcat(a: String, b: String)
    ensures StripAccents(a + b) == StripAccents(a) + StripAccents(b)
  {
    if a != [] {
      assert (a + b)[1..] == a[1..] + b;
      StripAccentsConcat(a[1..], b);
    } else {
      assert a + b == b;
    }
  }

  /** A run of letters and digits is copied by `Dashify`. */
  lemma {:induction false} DashifyWord(w: String, rest: String)
    requires Every(w, IsSlugChar)
    ensures Dashify(w + rest) == w + Dashify(rest)
    decreases |w|
  {
    if w != [] {
      assert (w + rest)[1..] == w[1..] + rest;
      DashifyWord(w[1..], rest);
      assert w == [w[0]] + w[1..];
    } else {
      assert w + rest == rest;
    }
  }

  /** A single separator before a letter or digit becomes one dash. */
  lemma DashifySeparator(c: char, rest: String)
    requires !IsSlugChar(c) && (rest == [] || IsSlugChar(rest[0]))
    ensures Dashify([c] + rest) == "-" + Dashify(rest)
  {
    assert ([c] + rest)[1..] == rest;
  }

  lemma {:induction false} StripAccentsEvery(t: String)
    requires Every(t, BelowAccented)
    ensures StripAccents(t) == t
    decreases |t|
  {
    if t != [] {
      StripAccentsEvery(t[1..]);
    }
  }

  lemma FoldConcat(a: String, b: String)
    ensures Fold(a + b) == Fold(a) + Fold(b)
  {
    LowerConcat(a, b);
    StripAccentsConcat(LowerStr(a), LowerStr(b));
  }

  /** Lower-case ASCII text folds to itself. */
  lemma FoldPlain(w: String)
    requires Every(w, NotUpper) && Every(w, BelowAccented)
    ensures Fold(w) == w
  {
    LowerEvery(w);
    StripAccentsEvery(w);
  }

  lemma AssocFive<T>(a: seq<T>, b: seq<T>, c: seq<T>, d: seq<T>, e: seq<T>)
    ensures a + (b + (c + (d + e))) == a + b + c + d + e
  {
  }

  lemma StripDashesNone(t: String)
    requires NoDoubleDash(t) && t != [] && t[0] != '-' && t[|t| - 1] != '-'
    ensures StripDashes(t) == t
  {
  }

  /** Three words of letters and digits separated by single spaces become
      the same words separated by single dashes. */
  lemma SlugThreeWords(a: String, b: String, c: String)
    requires a != [] && Every(a, IsSlugChar)
    requires b != [] && Every(b, IsSlugChar)
    requires c != [] && Every(c, IsSlugChar)
    ensures StripDashes(Dashify(a + " " + b + " " + c)) == a + "-" + b + "-" + c
  {
    AssocFive(a, " ", b, " ", c);
    DashifyWord(a, " " + (b + (" " + c)));
    DashifySeparator(' ', b + (" " + c));
    DashifyWord(b, " " + c);
    DashifySeparator(' ', c);
    DashifyWord(c, []);
    assert c + [] == c;
    AssocFive(a, "-", b, "-", c);
    var r := a + "-" + b + "-" + c;
    var d := Dashify(a + " " + b + " " + c);
    assert d == r;
    assert d[0] == a[0] && d[|d| - 1] == c[|c| - 1];
    EveryAt(a, IsSlugChar);
    EveryAt(c, IsSlugChar);
    StripDashesNone(d);
  }

  lemma FoldCapitals()
    ensures Fold("R") == "r" && Fold("B") == "b"
  {
  }

  lemma FoldAccent()
    ensures Fold("\U{00E9}") == "e"
  {
  }

  lemma ExampleWords()
    ensures "r" + "e" + "sultats" == "resultats"
    ensures "b" + "ac" == "bac"
  {
  }

  lemma ExampleSlugText()
    ensures "resultats" + "-" + "du" + "-" + "bac" == "resultats-du-bac"
  {
  }

  lemma FoldFirstWord()
    ensures Fold("R" + "\U{00E9}" + "sultats") == "resultats"
  {
    FoldConcat("R", "\U{00E9}");
    FoldConcat("R" + "\U{00E9}", "sultats");
    FoldPlain("sultats");
    FoldCapitals();
    FoldAccent();
    ExampleWords();
  }

  /** The documented example: `toSlug('Résultats du Bac')` is "resultats-du-bac"
      (the input written as the concatenation of its pieces). */
  lemma ToSlugExample()
    ensures ToSlug("R" + "\U{00E9}" + "sultats" + " " + "du" + " " + "B" + "ac") == "resultats-du-bac"
  {
    var p3 := "R" + "\U{00E9}" + "sultats";
    var p4 := p3 + " ";
    var p5 := p4 + "du";
    var p6 := p5 + " ";
    var p7 := p6 + "B";
    FoldConcat(p3, " ");
    FoldConcat(p4, "du");
    FoldConcat(p5, " ");
    FoldConcat(p6, "B");
    FoldConcat(p7, "ac");
    FoldPlain(" ");
    FoldPlain("du");
    FoldPlain("ac");
    FoldCapitals();
    FoldFirstWord();
    ExampleWords();
    var y := "resultats" + " " + "du" + " ";
    assert y + "b" + "ac" == y + "bac" by {
      Assoc(y, "b", "ac");
    }
    SlugThreeWords("resultats", "du", "bac");
    ExampleSlugText();
  }

  lemma Assoc<T>(a: seq<T>, b: seq<T>, c: seq<T>)
    ensures a + b + c == a + (b + c)
  {
  }
}
