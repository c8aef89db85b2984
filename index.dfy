/** Shared infrastructure of the document-at-a-time operators: Java integers,
    the retrieval-model tag, postings, inverted lists and the measure that
    makes every cursor loop terminate. */
module Index {

  /** Integer.MAX_VALUE and Integer.MIN_VALUE. */
  const MaxInt: int := 0x7fff_ffff
  const MinInt: int := -0x8000_0000

  /** A Java `int`: internal document ids have this type. */
  type Int32 = x: int | -0x8000_0000 <= x <= 0x7fff_ffff

  /** The retrieval model an operator is evaluated under. Only the two
      boolean models are told apart by the operators; every other model
      (probabilistic, vector space, ...) is `Other`. */
  datatype RetrievalModel = UnrankedBoolean | RankedBoolean | Other

  /** Each element is larger than the one before it. */
  predicate StrictlyIncreasing(s: seq<int>)
  {
    forall j :: 0 < j < |s| ==> s[j - 1] < s[j]
  }

  /** A strictly increasing sequence orders every pair of its elements. */
  lemma {:induction false} IncreasingPair(s: seq<int>, a: int, b: int)
    requires StrictlyIncreasing(s) && 0 <= a < b < |s|
    ensures s[a] < s[b]
  {
    if a < b - 1 {
      IncreasingPair(s, a, b - 1);
    }
  }

  /** One document's occurrences of a term. */
  datatype Posting = Posting(docid: Int32, positions: seq<int>)

  /** The postings of one term in one field, ordered by docid. */
  datatype InvList = InvList(field: string, postings: seq<Posting>)
  {
    /** Docids strictly increase along the list and positions strictly
        increase inside every posting. */
    predicate Valid()
    {
      && StrictlyIncreasing(Docids())
      && (forall j :: 0 <= j < |postings| ==> StrictlyIncreasing(postings[j].positions))
    }

    /** The docids of the postings, in list order. */
    function Docids(): (ds: seq<int>)
      ensures |ds| == |postings|
      ensures forall j :: 0 <= j < |postings| ==> ds[j] == postings[j].docid
    {
      seq(|postings|, j requires 0 <= j < |postings| => postings[j].docid)
    }

    /** In a valid list every earlier posting has a smaller docid. */
    lemma DocidOrder(a: int, b: int)
      requires Valid() && 0 <= a < b < |postings|
      ensures postings[a].docid < postings[b].docid
    {
      IncreasingPair(Docids(), a, b);
    }

    function GetDocid(n: int): Int32
      requires 0 <= n < |postings|
    {
      postings[n].docid
    }

    function AppendPosting(docid: Int32, positions: seq<int>): InvList
    {
      InvList(field, postings + [Posting(docid, positions)])
    }

    /** Some posting of this list is for document `d`. */
    predicate Contains(d: int)
    {
      exists j :: 0 <= j < |postings| && postings[j].docid == d
    }
  }

  /** The lengths of the lists a vector of cursors walks over. */
  function Lengths<T>(lists: seq<seq<T>>): (lens: seq<int>)
    ensures |lens| == |lists|
    ensures forall i :: 0 <= i < |lists| ==> lens[i] == |lists[i]|
  {
    seq(|lists|, i requires 0 <= i < |lists| => |lists[i]|)
  }

  /** Cursor `cur[i]` lies inside list `i` or just past its end. */
  predicate InBounds(lens: seq<int>, cur: seq<int>)
  {
    |cur| == |lens| && forall i :: 0 <= i < |cur| ==> 0 <= cur[i] <= lens[i]
  }

  /** How many entries the cursors have yet to pass: the measure that
      decreases whenever some cursor moves forward. */
  function Remaining(lens: seq<int>, cur: seq<int>): nat
    requires InBounds(lens, cur)
  {
    if |cur| == 0 then 0 else (lens[0] - cur[0]) + Remaining(lens[1..], cur[1..])
  }

  /** Cursors that never move backwards never increase the measure, and
      strictly decrease it as soon as one of them moves. */
  lemma {:induction false} RemainingMonotone(lens: seq<int>, a: seq<int>, b: seq<int>)
    requires InBounds(lens, a) && InBounds(lens, b)
    requires forall i :: 0 <= i < |a| ==> a[i] <= b[i]
    ensures Remaining(lens, b) <= Remaining(lens, a)
    ensures (exists i :: 0 <= i < |a| && a[i] < b[i]) ==> Remaining(lens, b) < Remaining(lens, a)
  {
    if |a| > 0 {
      assert InBounds(lens[1..], a[1..]) && InBounds(lens[1..], b[1..]);
      RemainingMonotone(lens[1..], a[1..], b[1..]);
      if exists i :: 0 <= i < |a| && a[i] < b[i] {
        var i :| 0 <= i < |a| && a[i] < b[i];
        if i > 0 {
          assert a[1..][i - 1] < b[1..][i - 1];
        }
      }
    }
  }
}
