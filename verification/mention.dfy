/** The grade band printed next to an average (utils/mentionUtils.ts). */
module Mention {
  import opened Text

  /** `getMention`: the first threshold, from the top, that the average reaches. */
  function GetMention(moyenne: real): (r: String)
    ensures moyenne >= 16.0 <==> r == "Très Bien"
    ensures 14.0 <= moyenne < 16.0 <==> r == "Bien"
    ensures 12.0 <= moyenne < 14.0 <==> r == "Assez Bien"
    ensures 10.0 <= moyenne < 12.0 <==> r == "Passable"
    ensures moyenne < 10.0 <==> r == "Ajourné"
  {
    if moyenne >= 16.0 then "Très Bien"
    else if moyenne >= 14.0 then "Bien"
    else if moyenne >= 12.0 then "Assez Bien"
    else if moyenne >= 10.0 then "Passable"
    else "Ajourné"
  }

  /** The bands from lowest to highest, and the averages that open bands 1 to 4. */
  const Bands: seq<String> := ["Ajourné", "Passable", "Assez Bien", "Bien", "Très Bien"]
  const Thresholds: seq<real> := [10.0, 12.0, 14.0, 16.0]

  /** How many of the (ascending) thresholds the average reaches. */
  function Reached(ts: seq<real>, m: real): (n: nat)
    ensures n <= |ts|
  {
    if ts == [] then 0 else (if ts[0] <= m then 1 else 0) + Reached(ts[1..], m)
  }

  /** The band of an average, counted as thresholds reached. */
  function Rank(m: real): (k: nat)
    ensures k < |Bands|
  {
    Reached(Thresholds, m)
  }

  /** `getMention` is the band indexed by the number of thresholds reached:
      the function is total and its five labels are the five bands in order. */
  lemma MentionByRank(m: real)
    ensures GetMention(m) == Bands[Rank(m)]
  {
    var t1, t2, t3: seq<real> := [12.0, 14.0, 16.0], [14.0, 16.0], [16.0];
    assert Thresholds[1..] == t1 && t1[1..] == t2 && t2[1..] == t3 && t3[1..] == [];
    var r3 := if 16.0 <= m then 1 else 0;
    var r2 := (if 14.0 <= m then 1 else 0) + r3;
    var r1 := (if 12.0 <= m then 1 else 0) + r2;
    assert Reached(t3, m) == r3;
    assert Reached(t2, m) == r2;
    assert Reached(t1, m) == r1;
    assert Rank(m) == (if 10.0 <= m then 1 else 0) + r1;
  }

  lemma {:induction false} ReachedMonotone(ts: seq<real>, a: real, b: real)
    requires a <= b
    ensures Reached(ts, a) <= Reached(ts, b)
  {
    if ts != [] {
      ReachedMonotone(ts[1..], a, b);
    }
  }

  /** A higher average never gets a lower band. */
  lemma MentionMonotone(a: real, b: real)
    requires a <= b
    ensures Rank(a) <= Rank(b)
    ensures GetMention(a) == Bands[Rank(a)] && GetMention(b) == Bands[Rank(b)]
  {
    ReachedMonotone(Thresholds, a, b);
    MentionByRank(a);
    MentionByRank(b);
  }
}
