/** Characters and strings as the JavaScript runtime treats them: whitespace
    for `trim`, `toLowerCase` on ASCII and Latin-1, `includes`, `split`,
    `join` and `Number.prototype.toString` on integers. */
module Text {

  type String = seq<char>

  predicate IsDigit(c: char) {
    '0' <= c <= '9'
  }

  predicate AllDigits(s: String) {
    forall i :: 0 <= i < |s| ==> IsDigit(s[i])
  }

  /** The characters `String.prototype.trim` removes: the ECMAScript WhiteSpace
      and LineTerminator code points. */
  predicate IsSpace(c: char) {
    || c == ' ' || c == '\t' || c == '\n' || c == '\r' || c == '\U{000B}' || c == '\U{000C}'
    || c == '\U{00A0}' || c == '\U{1680}' || ('\U{2000}' <= c <= '\U{200A}')
    || c == '\U{2028}' || c == '\U{2029}' || c == '\U{202F}' || c == '\U{205F}'
    || c == '\U{3000}' || c == '\U{FEFF}'
  }

  predicate AllSpace(s: String) {
    forall i :: 0 <= i < |s| ==> IsSpace(s[i])
  }

  function TrimStart(s: String): (r: String)
    ensures |r| <= |s| && r == s[|s| - |r|..]
    ensures AllSpace(s[..|s| - |r|])
    ensures r == [] || !IsSpace(r[0])
  {
    if s == [] || !IsSpace(s[0]) then s
    else
      var r := TrimStart(s[1..]);
      assert s[1..][..|s| - 1 - |r|] == s[1..|s| - |r|];
      r
  }

  function TrimEnd(s: String): (r: String)
    ensures |r| <= |s| && r == s[..|r|]
    ensures AllSpace(s[|r|..])
    ensures r == [] || !IsSpace(r[|r| - 1])
  {
    if s == [] || !IsSpace(s[|s| - 1]) then s
    else
      var r := TrimEnd(s[..|s| - 1]);
      r
  }

  /** `String.prototype.trim`: leading whitespace is dropped one character at
      a time, then trailing whitespace. */
  function Trim(s: String): String
    decreases |s|
  {
    if s != [] && IsSpace(s[0]) then Trim(s[1..]) else TrimEnd(s)
  }

  /** `trim` removes only whitespace from the two ends, and leaves no whitespace there. */
  lemma TrimSpec(s: String)
    ensures exists i, j :: 0 <= i <= j <= |s| && Trim(s) == s[i..j] && AllSpace(s[..i]) && AllSpace(s[j..])
    ensures Trim(s) == [] || (!IsSpace(Trim(s)[0]) && !IsSpace(Trim(s)[|Trim(s)| - 1]))
  {
    var i, j := TrimSpan(s);
    TrimEnds(s);
  }

  /** Where the trimmed part of `s` starts and ends. */
  lemma {:induction false} TrimSpan(s: String) returns (i: nat, j: nat)
    ensures i <= j <= |s| && Trim(s) == s[i..j] && AllSpace(s[..i]) && AllSpace(s[j..])
    decreases |s|
  {
    if s != [] && IsSpace(s[0]) {
      var i', j' := TrimSpan(s[1..]);
      i, j := i' + 1, j' + 1;
      assert s[1..][i'..j'] == s[i..j];
      assert s[1..][j'..] == s[j..];
      var pre := s[..i];
      assert AllSpace(pre) by {
        forall k | 0 <= k < |pre| ensures IsSpace(pre[k]) {
          if k > 0 { assert pre[k] == s[1..][..i'][k - 1]; }
        }
      }
    } else {
      i, j := 0, |TrimEnd(s)|;
      assert s[..0] == [];
    }
  }

  /** The trimmed string neither starts nor ends with whitespace. */
  lemma {:induction false} TrimEnds(s: String)
    ensures Trim(s) == [] || (!IsSpace(Trim(s)[0]) && !IsSpace(Trim(s)[|Trim(s)| - 1]))
    decreases |s|
  {
    if s != [] && IsSpace(s[0]) {
      TrimEnds(s[1..]);
    } else {
      var r := TrimEnd(s);
      assert r == [] || r[0] == s[0];
    }
  }

  /** Trimming a trimmed string changes nothing. */
  lemma TrimIdempotent(s: String)
    ensures Trim(Trim(s)) == Trim(s)
  {
    TrimSpec(s);
    var t := Trim(s);
    if t != [] {
      assert TrimEnd(t) == t;
    }
  }

  /** A string trims to the empty string exactly when it is all whitespace. */
  lemma {:induction false} TrimEmptyIff(s: String)
    ensures Trim(s) == [] <==> AllSpace(s)
  {
    TrimSpec(s);
    if Trim(s) == [] {
      var i, j :| 0 <= i <= j <= |s| && Trim(s) == s[i..j] && AllSpace(s[..i]) && AllSpace(s[j..]);
      forall k | 0 <= k < |s| ensures IsSpace(s[k]) {
        if k < i { assert s[..i][k] == s[k]; } else { assert s[j..][k - j] == s[k]; }
      }
    }
    if AllSpace(s) {
      TrimAllSpace(s);
    }
  }

  lemma {:induction false} TrimAllSpace(s: String)
    requires AllSpace(s)
    ensures Trim(s) == []
    decreases |s|
  {
    if s != [] {
      TrimAllSpace(s[1..]);
    }
  }

  /** `toLowerCase` on one UTF-16 unit, for ASCII and Latin-1: A-Z and
      U+00C0..U+00DE (except the multiplication sign U+00D7) move up by 32;
      every other character is returned unchanged. */
  function Lower(c: char): (r: char)
    ensures IsUpper(c) ==> r as int == c as int + 32
    ensures !IsUpper(c) ==> r == c
  {
    if IsUpper(c) then (c as int + 32) as char else c
  }

  predicate IsUpper(c: char) {
    ('A' <= c <= 'Z') || ('\U{00C0}' <= c <= '\U{00DE}' && c != '\U{00D7}')
  }

  function LowerStr(s: String): (r: String)
    ensures |r| == |s|
    ensures forall i :: 0 <= i < |s| ==> r[i] == Lower(s[i])
  {
    if s == [] then [] else [Lower(s[0])] + LowerStr(s[1..])
  }

  /** Lower-casing never produces an upper-case letter, so doing it twice is doing it once. */
  lemma LowerIdempotent(s: String)
    ensures LowerStr(LowerStr(s)) == LowerStr(s)
  {
    var once := LowerStr(s);
    forall i | 0 <= i < |s| ensures LowerStr(once)[i] == once[i] {
      assert !IsUpper(Lower(s[i]));
    }
  }

  /** `String.prototype.includes`: `needle` occurs in `hay` at some offset. */
  predicate Contains(hay: String, needle: String) {
    exists i :: 0 <= i <= |hay| && OccursAt(hay, needle, i)
  }

  predicate OccursAt(hay: String, needle: String, i: nat) {
    i + |needle| <= |hay| && hay[i..i + |needle|] == needle
  }

  /** Case-insensitive containment, as `a.toLowerCase().includes(b.toLowerCase())`. */
  predicate ContainsIgnoreCase(hay: String, needle: String) {
    Contains(LowerStr(hay), LowerStr(needle))
  }

  lemma ContainsEmpty(hay: String)
    ensures Contains(hay, [])
  {
    assert OccursAt(hay, [], 0);
  }

  // ----- split / join -----

  /** Index of the first `c` in `s`, or `|s|` when there is none. */
  function IndexOf(s: String, c: char): (k: nat)
    ensures k <= |s|
    ensures forall i :: 0 <= i < k ==> s[i] != c
    ensures k < |s| ==> s[k] == c
  {
    if s == [] || s[0] == c then 0 else 1 + IndexOf(s[1..], c)
  }

  /** `String.prototype.split` with a one-character separator: always at least
      one piece, empty pieces kept. */
  function Split(s: String, sep: char): (r: seq<String>)
    ensures |r| >= 1
    ensures forall k :: 0 <= k < |r| ==> sep !in r[k]
    decreases |s|
  {
    var k := IndexOf(s, sep);
    if k == |s| then [s] else [s[..k]] + Split(s[k + 1..], sep)
  }

  /** `Array.prototype.join` on strings. */
  function Join(parts: seq<String>, sep: String): String {
    if parts == [] then []
    else if |parts| == 1 then parts[0]
    else parts[0] + sep + Join(parts[1..], sep)
  }

  /** Joining the pieces of a split gives back the string. */
  lemma {:induction false} JoinSplit(s: String, sep: char)
    ensures Join(Split(s, sep), [sep]) == s
    decreases |s|
  {
    var k := IndexOf(s, sep);
    if k < |s| {
      var rest := Split(s[k + 1..], sep);
      JoinSplit(s[k + 1..], sep);
      var parts := [s[..k]] + rest;
      assert Split(s, sep) == parts;
      assert parts[1..] == rest;
      assert Join(parts, [sep]) == s[..k] + [sep] + Join(rest, [sep]);
      assert s == s[..k] + [sep] + s[k + 1..];
    }
  }

  /** Splitting a join gives back the pieces, as long as no piece holds the separator. */
  lemma {:induction false} SplitJoin(parts: seq<String>, sep: char)
    requires |parts| >= 1
    requires forall k :: 0 <= k < |parts| ==> sep !in parts[k]
    ensures Split(Join(parts, [sep]), sep) == parts
  {
    if |parts| == 1 {
      IndexOfAbsent(parts[0], sep);
    } else {
      var s := Join(parts, [sep]);
      assert s == parts[0] + [sep] + Join(parts[1..], [sep]);
      assert s == parts[0] + ([sep] + Join(parts[1..], [sep]));
      IndexOfAt(parts[0], [sep] + Join(parts[1..], [sep]), sep);
      assert IndexOf(s, sep) == |parts[0]|;
      var k := |parts[0]|;
      assert s[..k] == parts[0];
      assert s[k + 1..] == Join(parts[1..], [sep]);
      assert Split(s, sep) == [s[..k]] + Split(s[k + 1..], sep);
      SplitJoin(parts[1..], sep);
      assert parts == [parts[0]] + parts[1..];
    }
  }

  lemma IndexOfAbsent(s: String, c: char)
    requires c !in s
    ensures IndexOf(s, c) == |s|
  {
  }

  lemma {:induction false} IndexOfAt(a: String, b: String, c: char)
    requires c !in a && b != [] && b[0] == c
    ensures IndexOf(a + b, c) == |a|
  {
    if a != [] {
      assert (a + b)[1..] == a[1..] + b;
      IndexOfAt(a[1..], b, c);
    }
  }

  // ----- integers -----

  function DigitChar(d: nat): (c: char)
    requires d < 10
    ensures IsDigit(c)
  {
    ('0' as int + d) as char
  }

  function DigitValue(c: char): nat
    requires IsDigit(c)
  {
    c as int - '0' as int
  }

  /** The value of a string of decimal digits (0 for the empty string). */
  function DigitsValue(s: String): nat
    requires AllDigits(s)
  {
    if s == [] then 0 else DigitsValue(s[..|s| - 1]) * 10 + DigitValue(s[|s| - 1])
  }

  /** The longest run of decimal digits at the start of `s`. */
  function DigitPrefix(s: String): (d: String)
    ensures |d| <= |s| && AllDigits(d) && d == s[..|d|]
    ensures |d| == |s| || !IsDigit(s[|d|])
  {
    if s != [] && IsDigit(s[0]) then [s[0]] + DigitPrefix(s[1..]) else []
  }

  lemma {:induction false} DigitPrefixOf(d: String, rest: String)
    requires AllDigits(d)
    requires rest == [] || !IsDigit(rest[0])
    ensures DigitPrefix(d + rest) == d
  {
    if d != [] {
      assert (d + rest)[1..] == d[1..] + rest;
      DigitPrefixOf(d[1..], rest);
      assert d == [d[0]] + d[1..];
    } else {
      assert d + rest == rest;
    }
  }

  /** Decimal digits of a natural number, without leading zeros. */
  function NatToString(n: nat): (r: String)
    ensures |r| >= 1 && AllDigits(r)
    ensures |r| > 1 ==> r[0] != '0'
  {
    if n < 10 then [DigitChar(n)] else NatToString(n / 10) + [DigitChar(n % 10)]
  }

  /** `Number.prototype.toString` on an integer. */
  function IntToString(n: int): (r: String)
    ensures |r| >= 1
  {
    if n < 0 then "-" + NatToString(-n) else NatToString(n)
  }

  /** Reading the digits back gives the number: `NatToString` is injective. */
  lemma {:induction false} NatToStringValue(n: nat)
    ensures DigitsValue(NatToString(n)) == n
  {
    if n >= 10 {
      var s := NatToString(n);
      assert s[..|s| - 1] == NatToString(n / 10);
      NatToStringValue(n / 10);
    }
  }

  function Pow10(k: nat): (p: nat)
    ensures p >= 1
  {
    if k == 0 then 1 else 10 * Pow10(k - 1)
  }
}
