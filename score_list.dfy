/** The document score list: an append-only list of <docid, score> entries,
    each carrying the external document id it was resolved to when the entry
    was made, and the ordering the ranking code sorts entries by. */
module ScoreLists {
  import opened Index

  /** The sign of an integer: -1, 0 or 1. */
  function Sign(x: int): int
  {
    if x < 0 then -1 else if x == 0 then 0 else 1
  }

  /** Java's narrowing `(int)` cast of a double (section 5.1.3 of the Java
      Language Specification): round toward zero, and clamp to
      Integer.MIN_VALUE .. Integer.MAX_VALUE. */
  function DoubleToInt(x: real): (r: Int32)
    ensures MaxInt as real <= x ==> r == MaxInt
    ensures x <= MinInt as real ==> r == MinInt
    ensures 0.0 <= x < MaxInt as real ==> r as real <= x < r as real + 1.0
    ensures MinInt as real < x < 0.0 ==> r as real - 1.0 < x <= r as real
    ensures 1.0 <= x ==> 1 <= r
    ensures x <= -1.0 ==> r <= -1
    ensures -1.0 < x < 1.0 ==> r == 0
  {
    if MaxInt as real <= x then MaxInt
    else if x <= MinInt as real then MinInt
    else if 0.0 <= x then x.Floor
    else -((-x).Floor)
  }

  /** Java's String.compareTo: the difference of the first pair of characters
      that differ, or else the difference of the lengths. The result is zero
      exactly when the strings are equal. */
  function JavaStringCompare(s: string, t: string): (r: int)
    ensures r == 0 <==> s == t
    decreases |s|
  {
    if |s| == 0 || |t| == 0 then |s| - |t|
    else if s[0] != t[0] then s[0] as int - t[0] as int
    else
      assert s == [s[0]] + s[1..] && t == [t[0]] + t[1..];
      JavaStringCompare(s[1..], t[1..])
  }

  /** Swapping the operands negates the result. */
  lemma {:induction false} JavaStringCompareAntisymmetric(s: string, t: string)
    ensures JavaStringCompare(t, s) == -JavaStringCompare(s, t)
    decreases |s|
  {
    if |s| > 0 && |t| > 0 && s[0] == t[0] {
      JavaStringCompareAntisymmetric(s[1..], t[1..]);
    }
  }

  /** Negative results chain: the string order is transitive. */
  lemma {:induction false} JavaStringCompareTransitive(s: string, t: string, u: string)
    requires JavaStringCompare(s, t) < 0 && JavaStringCompare(t, u) < 0
    ensures JavaStringCompare(s, u) < 0
    decreases |s|
  {
    if |s| > 0 && |t| > 0 && |u| > 0 && s[0] == t[0] && t[0] == u[0] {
      JavaStringCompareTransitive(s[1..], t[1..], u[1..]);
    }
  }

  /** One <docid, score> entry. The external id is looked up once, when the
      entry is made. */
  datatype ScoreListEntry = ScoreListEntry(docid: Int32, score: real, externDocid: string)
  {
    /** ScoreListEntry.compareTo as written: when the scores differ, the
        difference `compareEntry.score - score` cast to int; otherwise the
        external ids compared as strings. A score higher by at least one sorts
        first; scores that differ by less than one compare as equal, whatever
        the external ids; equal scores compare equal exactly when the
        external ids are equal. */
    function CompareTo(compareEntry: ScoreListEntry): (r: int)
      ensures 1.0 <= compareEntry.score - score ==> r > 0
      ensures compareEntry.score - score <= -1.0 ==> r < 0
      ensures score != compareEntry.score && -1.0 < compareEntry.score - score < 1.0 ==> r == 0
      ensures score == compareEntry.score ==> (r == 0 <==> externDocid == compareEntry.externDocid)
    {
      if score != compareEntry.score then DoubleToInt(compareEntry.score - score)
      else JavaStringCompare(externDocid, compareEntry.externDocid)
    }

    /** The ordering the comparator is meant to give: higher score first,
        equal scores by external id. It is zero exactly for entries with the
        same score and external id. */
    function CompareToIntended(compareEntry: ScoreListEntry): (r: int)
      ensures r == 0 <==> score == compareEntry.score && externDocid == compareEntry.externDocid
    {
      if score < compareEntry.score then 1
      else if compareEntry.score < score then -1
      else JavaStringCompare(externDocid, compareEntry.externDocid)
    }
  }

  /** Swapping the two entries flips the sign of the result. */
  lemma CompareToFlip(a: ScoreListEntry, b: ScoreListEntry)
    ensures Sign(b.CompareTo(a)) == -Sign(a.CompareTo(b))
  {
    JavaStringCompareAntisymmetric(a.externDocid, b.externDocid);
  }

  /** The truncation breaks the Comparable contract: x and y compare equal,
      yet they compare differently with z, so no consistent descending-score
      order exists for these three entries. */
  lemma CompareToNotConsistent()
    ensures var x, y, z := ScoreListEntry(1, 0.0, "a"), ScoreListEntry(2, 0.5, "b"), ScoreListEntry(3, 1.0, "c");
            && x.CompareTo(y) == 0
            && y.CompareTo(z) == 0
            && x.CompareTo(z) == 1
  {
  }

  /** The intended comparator is antisymmetric. */
  lemma CompareToIntendedFlip(a: ScoreListEntry, b: ScoreListEntry)
    ensures Sign(b.CompareToIntended(a)) == -Sign(a.CompareToIntended(b))
  {
    JavaStringCompareAntisymmetric(a.externDocid, b.externDocid);
  }

  /** The intended comparator is transitive: it is a total order on
      <score, external id> keys, descending by score. */
  lemma CompareToIntendedTransitive(a: ScoreListEntry, b: ScoreListEntry, c: ScoreListEntry)
    requires a.CompareToIntended(b) < 0 && b.CompareToIntended(c) < 0
    ensures a.CompareToIntended(c) < 0
  {
    if a.score == b.score == c.score {
      JavaStringCompareTransitive(a.externDocid, b.externDocid, c.externDocid);
    }
  }

  /** The intended comparator agrees with the written one wherever the
      scores are equal or differ by at least one. */
  lemma CompareToIntendedAgrees(a: ScoreListEntry, b: ScoreListEntry)
    requires a.score == b.score || b.score - a.score <= -1.0 || 1.0 <= b.score - a.score
    ensures Sign(a.CompareTo(b)) == Sign(a.CompareToIntended(b))
  {
  }

  /** A score list: entries in the order they were added. The external-id
      lookup of the index is the function `externalDocid`. */
  class ScoreList {
    const externalDocid: Int32 -> string
    var scores: seq<ScoreListEntry>

    /** Every entry carries the external id of its docid. */
    ghost predicate Valid()
      reads this
    {
      forall j :: 0 <= j < |scores| ==> scores[j].externDocid == externalDocid(scores[j].docid)
    }

    /** An empty list over the given index. */
    constructor(externalDocid: Int32 -> string)
      ensures this.externalDocid == externalDocid
      ensures scores == []
      ensures Valid()
    {
      this.externalDocid := externalDocid;
      scores := [];
    }

    /** Appends exactly one entry, carrying the docid, the score and the
        docid's external id; every earlier entry stays as it was. */
    method Add(docid: Int32, score: real)
      requires Valid()
      modifies this
      ensures Valid()
      ensures scores == old(scores) + [ScoreListEntry(docid, score, externalDocid(docid))]
      ensures GetDocid(|old(scores)|) == docid && GetDocidScore(|old(scores)|) == score
      ensures forall n :: 0 <= n < |old(scores)| ==> GetDocid(n) == old(GetDocid(n)) && GetDocidScore(n) == old(GetDocidScore(n))
    {
      scores := scores + [ScoreListEntry(docid, score, externalDocid(docid))];
    }

    /** The docid of the n-th entry. */
    function GetDocid(n: int): Int32
      reads this
      requires 0 <= n < |scores|
    {
      scores[n].docid
    }

    /** The score of the n-th entry. */
    function GetDocidScore(n: int): real
      reads this
      requires 0 <= n < |scores|
    {
      scores[n].score
    }
  }
}
