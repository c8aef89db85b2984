/** The OR operator over score lists: a document-at-a-time union that keeps,
    for every document, the best score any argument gives it.

    The merge is specified on the argument lists and a vector of cursor
    indices into them (`cur[i]` is how far list i has been consumed), the
    state the operator keeps in its `nextDoc` array. */
module OrOp {
  import opened Index
  import opened ScoreLists

  /** The entries of several score lists, one sequence per argument. */
  type Lists = seq<seq<ScoreListEntry>>

  /** One <docid, score> pair the operator emits. */
  datatype DocScore = DocScore(docid: Int32, score: real)

  /** Math.max on two scores. */
  function Max(a: real, b: real): real
  {
    if a < b then b else a
  }

  /** The entries of a list appear in strictly increasing docid order. */
  predicate SortedList(l: seq<ScoreListEntry>)
  {
    forall j :: 0 < j < |l| ==> l[j - 1].docid < l[j].docid
  }

  predicate SortedLists(lists: Lists)
  {
    forall i :: 0 <= i < |lists| ==> SortedList(lists[i])
  }

  lemma {:induction false} SortedPair(l: seq<ScoreListEntry>, a: int, b: int)
    requires SortedList(l) && 0 <= a < b < |l|
    ensures l[a].docid < l[b].docid
  {
    if a < b - 1 {
      SortedPair(l, a, b - 1);
    }
  }

  /** Emitted docids strictly increase. */
  predicate Increasing(out: seq<DocScore>)
  {
    forall m :: 0 < m < |out| ==> out[m - 1].docid < out[m].docid
  }

  /** The pairs held by a list of score-list entries. */
  function DocScores(entries: seq<ScoreListEntry>): (out: seq<DocScore>)
    ensures |out| == |entries|
  {
    if |entries| == 0 then []
    else DocScores(entries[..|entries| - 1]) + [DocScore(entries[|entries| - 1].docid, entries[|entries| - 1].score)]
  }

  /** Appending an entry appends its pair. */
  lemma DocScoresAppend(entries: seq<ScoreListEntry>, e: ScoreListEntry)
    ensures DocScores(entries + [e]) == DocScores(entries) + [DocScore(e.docid, e.score)]
  {
    assert (entries + [e])[..|entries|] == entries;
  }

  /** The entries of every argument score list. */
  function Contents(args: seq<ScoreList>): (lists: Lists)
    reads args
    ensures |lists| == |args|
  {
    if |args| == 0 then [] else Contents(args[..|args| - 1]) + [args[|args| - 1].scores]
  }

  /** List i holds the entries of argument i. */
  lemma {:induction false} ContentsAt(args: seq<ScoreList>)
    ensures forall i :: 0 <= i < |args| ==> Contents(args)[i] == args[i].scores
  {
    if |args| > 0 {
      ContentsAt(args[..|args| - 1]);
    }
  }

  /** One cursor per list, each inside its list or just past its end. */
  predicate CursorsIn(lists: Lists, cur: seq<int>)
  {
    |cur| == |lists| && forall i :: 0 <= i < |lists| ==> 0 <= cur[i] <= |lists[i]|
  }

  /** Every cursor at the start of its list. */
  function Start(lists: Lists): (cur: seq<int>)
    ensures CursorsIn(lists, cur) && forall i :: 0 <= i < |lists| ==> cur[i] == 0
  {
    seq(|lists|, i => 0)
  }

  // ---------------------------------------------------------------------
  // One pass of the merge loop.
  // ---------------------------------------------------------------------

  /** The first scan: the smallest current docid among the first `n`
      cursors that are not exhausted, starting from Integer.MAX_VALUE. */
  function MinCurrent(lists: Lists, cur: seq<int>, n: int): Int32
    requires CursorsIn(lists, cur) && 0 <= n <= |lists|
  {
    if n == 0 then MaxInt
    else
      var m := MinCurrent(lists, cur, n - 1);
      if cur[n - 1] >= |lists[n - 1]| then m
      else if lists[n - 1][cur[n - 1]].docid < m then lists[n - 1][cur[n - 1]].docid
      else m
  }

  /** The smallest current docid is at most every current docid. */
  lemma {:induction false} MinCurrentLeast(lists: Lists, cur: seq<int>, n: int)
    requires CursorsIn(lists, cur) && 0 <= n <= |lists|
    ensures forall i :: 0 <= i < n && cur[i] < |lists[i]| ==> MinCurrent(lists, cur, n) <= lists[i][cur[i]].docid
  {
    if n > 0 {
      MinCurrentLeast(lists, cur, n - 1);
    }
  }

  /** The smallest current docid is the docid under some cursor, unless
      every cursor is exhausted and it is Integer.MAX_VALUE. */
  lemma {:induction false} MinCurrentAttained(lists: Lists, cur: seq<int>, n: int)
    requires CursorsIn(lists, cur) && 0 <= n <= |lists|
    ensures var m := MinCurrent(lists, cur, n);
            || (exists i :: 0 <= i < n && cur[i] < |lists[i]| && m == lists[i][cur[i]].docid)
            || (m == MaxInt && forall i :: 0 <= i < n ==> cur[i] == |lists[i]|)
  {
    if n > 0 {
      MinCurrentAttained(lists, cur, n - 1);
    }
  }

  /** The first scan also counts the exhausted cursors among the first `n`;
      each of them costs one unit of `daatAvailable`. */
  function ExhaustedCount(lists: Lists, cur: seq<int>, n: int): (e: nat)
    requires CursorsIn(lists, cur) && 0 <= n <= |lists|
    ensures e <= n
  {
    if n == 0 then 0
    else ExhaustedCount(lists, cur, n - 1) + (if cur[n - 1] >= |lists[n - 1]| then 1 else 0)
  }

  /** Every one of the first `n` cursors is exhausted exactly when all `n`
      are counted. */
  lemma {:induction false} ExhaustedAll(lists: Lists, cur: seq<int>, n: int)
    requires CursorsIn(lists, cur) && 0 <= n <= |lists|
    ensures ExhaustedCount(lists, cur, n) == n <==> forall i :: 0 <= i < n ==> cur[i] == |lists[i]|
  {
    if n > 0 {
      ExhaustedAll(lists, cur, n - 1);
    }
  }

  /** The second scan: the maximum, starting from 0.0, of the scores of the
      first `n` cursors that sit on docid `d`. */
  function FoldScore(lists: Lists, cur: seq<int>, d: int, n: int): (s: real)
    requires CursorsIn(lists, cur) && 0 <= n <= |lists|
    ensures 0.0 <= s
  {
    if n == 0 then 0.0
    else
      var s := FoldScore(lists, cur, d, n - 1);
      if cur[n - 1] < |lists[n - 1]| && lists[n - 1][cur[n - 1]].docid == d then Max(s, lists[n - 1][cur[n - 1]].score)
      else s
  }

  /** With no cursor on docid `d`, the fold stays at 0.0. */
  lemma {:induction false} FoldScoreNone(lists: Lists, cur: seq<int>, d: int, n: int)
    requires CursorsIn(lists, cur) && 0 <= n <= |lists|
    requires forall i :: 0 <= i < n && cur[i] < |lists[i]| ==> lists[i][cur[i]].docid != d
    ensures FoldScore(lists, cur, d, n) == 0.0
  {
    if n > 0 {
      FoldScoreNone(lists, cur, d, n - 1);
    }
  }

  /** Cursor `i` after the second scan: one entry on if it sat on `d`. */
  function Step(lists: Lists, cur: seq<int>, d: int, i: int): (r: int)
    requires CursorsIn(lists, cur) && 0 <= i < |cur|
    ensures cur[i] <= r <= |lists[i]|
  {
    if cur[i] < |lists[i]| && lists[i][cur[i]].docid == d then cur[i] + 1 else cur[i]
  }

  /** The first `n` cursors after the second scan for docid `d`. */
  function AdvanceUpTo(lists: Lists, cur: seq<int>, d: int, n: int): (next: seq<int>)
    requires CursorsIn(lists, cur) && 0 <= n <= |cur|
    ensures |next| == n
  {
    if n == 0 then [] else AdvanceUpTo(lists, cur, d, n - 1) + [Step(lists, cur, d, n - 1)]
  }

  /** The cursors after the second scan for docid `d`. */
  function Advance(lists: Lists, cur: seq<int>, d: int): (next: seq<int>)
    requires CursorsIn(lists, cur)
    ensures |next| == |cur|
  {
    AdvanceUpTo(lists, cur, d, |cur|)
  }

  lemma {:induction false} AdvanceUpToAt(lists: Lists, cur: seq<int>, d: int, n: int)
    requires CursorsIn(lists, cur) && 0 <= n <= |cur|
    ensures forall i :: 0 <= i < n ==> AdvanceUpTo(lists, cur, d, n)[i] == Step(lists, cur, d, i)
  {
    if n > 0 {
      AdvanceUpToAt(lists, cur, d, n - 1);
    }
  }

  /** Cursor by cursor: the second scan moves a cursor one entry on if it
      sat on `d` and leaves it otherwise, so the cursors stay in bounds. */
  lemma AdvanceAt(lists: Lists, cur: seq<int>, d: int)
    requires CursorsIn(lists, cur)
    ensures CursorsIn(lists, Advance(lists, cur, d))
    ensures forall i :: 0 <= i < |cur| ==> Advance(lists, cur, d)[i] == Step(lists, cur, d, i)
  {
    AdvanceUpToAt(lists, cur, d, |cur|);
  }

  /** What a pass adds to the result: nothing unless the folded score is
      positive; then the score itself under ranked boolean, 1.0 under
      unranked boolean, and nothing under any other model. */
  function Emit(model: RetrievalModel, d: Int32, docScore: real): seq<DocScore>
  {
    if 0.0 < docScore then
      match model
      case RankedBoolean => [DocScore(d, docScore)]
      case UnrankedBoolean => [DocScore(d, 1.0)]
      case Other => []
    else []
  }

  /** A pass moves some cursor unless every cursor is exhausted, in which
      case it moves none. */
  lemma PassProgress(lists: Lists, cur: seq<int>)
    requires CursorsIn(lists, cur)
    ensures var next := Advance(lists, cur, MinCurrent(lists, cur, |lists|));
            && CursorsIn(lists, next)
            && (ExhaustedCount(lists, cur, |lists|) < |lists| ==>
                  Remaining(Lengths(lists), next) < Remaining(Lengths(lists), cur))
            && (ExhaustedCount(lists, cur, |lists|) == |lists| ==> next == cur)
  {
    var d := MinCurrent(lists, cur, |lists|);
    var next := Advance(lists, cur, d);
    MinCurrentAttained(lists, cur, |lists|);
    ExhaustedAll(lists, cur, |lists|);
    AdvanceAt(lists, cur, d);
    RemainingMonotone(Lengths(lists), cur, next);
    if ExhaustedCount(lists, cur, |lists|) < |lists| {
      var i :| 0 <= i < |lists| && cur[i] < |lists[i]| && d == lists[i][cur[i]].docid;
      assert cur[i] < next[i];
    }
  }

  // ---------------------------------------------------------------------
  // The merge loop as written, and as evidently intended.
  // ---------------------------------------------------------------------

  /** QryopSlOr.evaluateBoolean's loop as written: each pass subtracts the
      number of exhausted cursors from `avail`, whether or not an earlier
      pass already counted them, and the loop stops once `avail` is no
      longer positive. */
  function OrRun(model: RetrievalModel, lists: Lists, cur: seq<int>, avail: int): seq<DocScore>
    requires CursorsIn(lists, cur) && avail <= |lists|
    decreases Remaining(Lengths(lists), cur), avail
  {
    if avail <= 0 then []
    else
      var d := MinCurrent(lists, cur, |lists|);
      PassProgress(lists, cur);
      Emit(model, d, FoldScore(lists, cur, d, |lists|))
        + OrRun(model, lists, Advance(lists, cur, d), avail - ExhaustedCount(lists, cur, |lists|))
  }

  /** A pass over cursors that are all exhausted emits nothing. */
  lemma NothingLeftEmitsNothing(model: RetrievalModel, lists: Lists, cur: seq<int>)
    requires CursorsIn(lists, cur)
    ensures ExhaustedCount(lists, cur, |lists|) == |lists| ==>
              Emit(model, MinCurrent(lists, cur, |lists|), FoldScore(lists, cur, MinCurrent(lists, cur, |lists|), |lists|)) == []
  {
    ExhaustedAll(lists, cur, |lists|);
    if ExhaustedCount(lists, cur, |lists|) == |lists| {
      FoldScoreNone(lists, cur, MinCurrent(lists, cur, |lists|), |lists|);
    }
  }

  /** The loop as written emits at most one entry per posting its cursors
      still have to pass. */
  lemma {:induction false} OrRunLength(model: RetrievalModel, lists: Lists, cur: seq<int>, avail: int)
    requires CursorsIn(lists, cur) && avail <= |lists|
    ensures |OrRun(model, lists, cur, avail)| <= Remaining(Lengths(lists), cur)
    decreases Remaining(Lengths(lists), cur), avail
  {
    if 0 < avail {
      var d := MinCurrent(lists, cur, |lists|);
      PassProgress(lists, cur);
      NothingLeftEmitsNothing(model, lists, cur);
      OrRunLength(model, lists, Advance(lists, cur, d), avail - ExhaustedCount(lists, cur, |lists|));
    }
  }

  /** One pass of the loop as written, spelled out. */
  lemma OrRunStep(model: RetrievalModel, lists: Lists, cur: seq<int>, avail: int)
    requires CursorsIn(lists, cur) && 0 < avail <= |lists|
    ensures var d := MinCurrent(lists, cur, |lists|);
            && CursorsIn(lists, Advance(lists, cur, d))
            && OrRun(model, lists, cur, avail)
               == Emit(model, d, FoldScore(lists, cur, d, |lists|))
                  + OrRun(model, lists, Advance(lists, cur, d), avail - ExhaustedCount(lists, cur, |lists|))
  {
    PassProgress(lists, cur);
  }

  /** The loop invariant of the operator: `out` has been emitted, and the
      loop from cursors `cur` with `avail` left emits the rest of `total`. */
  predicate Pending(model: RetrievalModel, lists: Lists, out: seq<DocScore>, cur: seq<int>, avail: int, total: seq<DocScore>)
  {
    CursorsIn(lists, cur) && avail <= |lists| && out + OrRun(model, lists, cur, avail) == total
  }

  /** How much of the lists the cursors have still to pass. */
  function Progress(lists: Lists, cur: seq<int>): nat
  {
    if CursorsIn(lists, cur) then Remaining(Lengths(lists), cur) else 0
  }

  /** The loop invariant survives one pass. */
  lemma OrRunLoopStep(model: RetrievalModel, out: seq<DocScore>, lists: Lists, cur: seq<int>, avail: int, total: seq<DocScore>)
    requires Pending(model, lists, out, cur, avail, total) && 0 < avail
    ensures var d := MinCurrent(lists, cur, |lists|);
            Pending(model, lists, out + Emit(model, d, FoldScore(lists, cur, d, |lists|)), Advance(lists, cur, d),
                    avail - ExhaustedCount(lists, cur, |lists|), total)
  {
    OrRunStep(model, lists, cur, avail);
    var d := MinCurrent(lists, cur, |lists|);
    var head := Emit(model, d, FoldScore(lists, cur, d, |lists|));
    var tail := OrRun(model, lists, Advance(lists, cur, d), avail - ExhaustedCount(lists, cur, |lists|));
    AppendAssoc(out, head, tail);
  }

  /** Concatenation of emitted entries is associative. */
  lemma AppendAssoc(a: seq<DocScore>, b: seq<DocScore>, c: seq<DocScore>)
    ensures a + b + c == a + (b + c)
  {
  }

  /** Each pass makes progress: the cursors pass some entry, or, with every
      cursor exhausted, they stay and `avail` drops. */
  lemma PassDecreases(lists: Lists, cur: seq<int>, avail: int)
    requires CursorsIn(lists, cur) && 0 < avail <= |lists|
    ensures var next := Advance(lists, cur, MinCurrent(lists, cur, |lists|));
            || Progress(lists, next) < Progress(lists, cur)
            || (next == cur && avail - ExhaustedCount(lists, cur, |lists|) < avail)
  {
    PassProgress(lists, cur);
  }

  /** The merge loop as intended: passes continue until every cursor is
      exhausted. */
  function OrUnion(model: RetrievalModel, lists: Lists, cur: seq<int>): seq<DocScore>
    requires CursorsIn(lists, cur)
    decreases Remaining(Lengths(lists), cur)
  {
    if ExhaustedCount(lists, cur, |lists|) == |lists| then []
    else
      var d := MinCurrent(lists, cur, |lists|);
      PassProgress(lists, cur);
      Emit(model, d, FoldScore(lists, cur, d, |lists|)) + OrUnion(model, lists, Advance(lists, cur, d))
  }

  /** The intended loop emits at most one entry per posting its cursors
      still have to pass. */
  lemma {:induction false} OrUnionLength(model: RetrievalModel, lists: Lists, cur: seq<int>)
    requires CursorsIn(lists, cur)
    ensures |OrUnion(model, lists, cur)| <= Remaining(Lengths(lists), cur)
    decreases Remaining(Lengths(lists), cur)
  {
    if ExhaustedCount(lists, cur, |lists|) < |lists| {
      var d := MinCurrent(lists, cur, |lists|);
      PassProgress(lists, cur);
      OrUnionLength(model, lists, Advance(lists, cur, d));
    }
  }

  /** The loop invariant of the corrected operator: `out` has been emitted,
      the union from cursors `cur` emits the rest of `total`, and the loop
      only stops once every cursor is exhausted. */
  predicate UnionPending(model: RetrievalModel, lists: Lists, out: seq<DocScore>, cur: seq<int>, avail: int, total: seq<DocScore>)
  {
    && CursorsIn(lists, cur)
    && (avail <= 0 ==> ExhaustedCount(lists, cur, |lists|) == |lists|)
    && out + OrUnion(model, lists, cur) == total
  }

  /** A pass that starts from a full `avail` keeps the corrected invariant:
      afterwards `avail` counts the cursors that were still unexhausted. */
  lemma UnionLoopStep(model: RetrievalModel, out: seq<DocScore>, lists: Lists, cur: seq<int>, avail: int, total: seq<DocScore>)
    requires UnionPending(model, lists, out, cur, avail, total)
    ensures var d := MinCurrent(lists, cur, |lists|);
            var next := Advance(lists, cur, d);
            var avail' := |lists| - ExhaustedCount(lists, cur, |lists|);
            && UnionPending(model, lists, out + Emit(model, d, FoldScore(lists, cur, d, |lists|)), next, avail', total)
            && (Progress(lists, next) < Progress(lists, cur) || (next == cur && avail' == 0))
  {
    var d := MinCurrent(lists, cur, |lists|);
    var next := Advance(lists, cur, d);
    var head := Emit(model, d, FoldScore(lists, cur, d, |lists|));
    PassProgress(lists, cur);
    if ExhaustedCount(lists, cur, |lists|) == |lists| {
      ExhaustedAll(lists, cur, |lists|);
      FoldScoreNone(lists, cur, d, |lists|);
      assert head == [];
      assert out + head == out;
    } else {
      assert OrUnion(model, lists, cur) == head + OrUnion(model, lists, next);
      AppendAssoc(out, head, OrUnion(model, lists, next));
    }
  }

  // ---------------------------------------------------------------------
  // Reference definition of the union's scores.
  // ---------------------------------------------------------------------

  /** The best score a list gives docid `d`, or 0.0 when none is higher. */
  function ScoreAt(l: seq<ScoreListEntry>, d: int): (s: real)
    ensures 0.0 <= s
  {
    if |l| == 0 then 0.0
    else Max(if l[0].docid == d then l[0].score else 0.0, ScoreAt(l[1..], d))
  }

  /** The best score the first `n` lists give docid `d`, or 0.0 when none is
      higher. */
  function MaxScore(lists: Lists, d: int, n: int): (s: real)
    requires 0 <= n <= |lists|
    ensures 0.0 <= s
  {
    if n == 0 then 0.0 else Max(MaxScore(lists, d, n - 1), ScoreAt(lists[n - 1], d))
  }

  /** Some list has an entry for docid `d`. */
  predicate InSome(lists: Lists, d: int)
  {
    exists i, j :: 0 <= i < |lists| && 0 <= j < |lists[i]| && lists[i][j].docid == d
  }

  /** A list whose docids all lie above `d` gives `d` nothing. */
  lemma {:induction false} ScoreAtAbove(l: seq<ScoreListEntry>, d: int)
    requires forall j :: 0 <= j < |l| ==> d < l[j].docid
    ensures ScoreAt(l, d) == 0.0
  {
    if |l| > 0 {
      ScoreAtAbove(l[1..], d);
    }
  }

  /** A positive list score comes from an entry for `d`. */
  lemma {:induction false} ScoreAtPositive(l: seq<ScoreListEntry>, d: int)
    requires 0.0 < ScoreAt(l, d)
    ensures exists j :: 0 <= j < |l| && l[j].docid == d
  {
    if l[0].docid != d || ScoreAt(l[1..], d) == ScoreAt(l, d) {
      ScoreAtPositive(l[1..], d);
      var j :| 0 <= j < |l[1..]| && l[1..][j].docid == d;
      assert l[j + 1].docid == d;
    }
  }

  /** A positive score for `d` comes from an entry for `d`. */
  lemma {:induction false} MaxScorePositive(lists: Lists, d: int, n: int)
    requires 0 <= n <= |lists| && 0.0 < MaxScore(lists, d, n)
    ensures InSome(lists, d)
  {
    if MaxScore(lists, d, n - 1) == MaxScore(lists, d, n) {
      MaxScorePositive(lists, d, n - 1);
    } else {
      ScoreAtPositive(lists[n - 1], d);
      var j :| 0 <= j < |lists[n - 1]| && lists[n - 1][j].docid == d;
    }
  }

  /** In a sorted list whose entries before `c` all lie below `d` and whose
      entry at `c` does not, only the entry at `c` can give `d` a score. */
  lemma {:induction false} ScoreAtCursor(l: seq<ScoreListEntry>, c: int, d: int)
    requires SortedList(l) && 0 <= c <= |l|
    requires forall j :: 0 <= j < c ==> l[j].docid < d
    requires c < |l| ==> d <= l[c].docid
    ensures ScoreAt(l, d) == if c < |l| && l[c].docid == d then Max(l[c].score, 0.0) else 0.0
  {
    if c > 0 {
      assert SortedList(l[1..]);
      ScoreAtCursor(l[1..], c - 1, d);
    } else if |l| > 0 {
      forall j | 0 <= j < |l[1..]|
        ensures d < l[1..][j].docid
      {
        SortedPair(l, 0, j + 1);
      }
      ScoreAtAbove(l[1..], d);
    }
  }

  /** Every entry the cursors have passed has a docid of at most `lo`. */
  predicate Passed(lists: Lists, cur: seq<int>, lo: int)
    requires CursorsIn(lists, cur)
  {
    forall i, j :: 0 <= i < |lists| && 0 <= j < cur[i] ==> lists[i][j].docid <= lo
  }

  /** Every current docid lies above `lo`. */
  predicate Ahead(lists: Lists, cur: seq<int>, lo: int)
    requires CursorsIn(lists, cur)
  {
    forall i :: 0 <= i < |lists| && cur[i] < |lists[i]| ==> lo < lists[i][cur[i]].docid
  }

  /** When the cursors have passed only docids below `d` and every current
      docid is at least `d`, the second scan's fold for `d` is the reference
      score of `d`: sorted lists keep every entry for `d` under a cursor. */
  lemma {:induction false} FoldIsMaxScore(lists: Lists, cur: seq<int>, d: int, n: int)
    requires SortedLists(lists) && CursorsIn(lists, cur) && 0 <= n <= |lists| && Passed(lists, cur, d - 1)
    requires forall i :: 0 <= i < n && cur[i] < |lists[i]| ==> d <= lists[i][cur[i]].docid
    ensures FoldScore(lists, cur, d, n) == MaxScore(lists, d, n)
  {
    if n > 0 {
      FoldIsMaxScore(lists, cur, d, n - 1);
      ScoreAtCursor(lists[n - 1], cur[n - 1], d);
    }
  }

  /** Passing the entries for `m` keeps every passed docid at most `lo`
      when `m` is. */
  lemma PassedAfter(lists: Lists, cur: seq<int>, m: int, lo: int)
    requires CursorsIn(lists, cur) && Passed(lists, cur, lo) && m <= lo
    ensures CursorsIn(lists, Advance(lists, cur, m)) && Passed(lists, Advance(lists, cur, m), lo)
  {
    var next := Advance(lists, cur, m);
    AdvanceAt(lists, cur, m);
    forall i, j | 0 <= i < |lists| && 0 <= j < next[i]
      ensures lists[i][j].docid <= lo
    {
      if j == cur[i] {
        assert lists[i][cur[i]].docid == m;
      }
    }
  }

  // ---------------------------------------------------------------------
  // Soundness and completeness of the intended union; the loop as written
  // emits a prefix of it.
  // ---------------------------------------------------------------------

  /** A pair the operator may emit for lists `lists`: its docid has a
      positive best score, and its score is that best score (ranked) or 1.0
      (unranked). */
  predicate SoundPair(model: RetrievalModel, lists: Lists, e: DocScore)
  {
    && model != Other
    && 0.0 < MaxScore(lists, e.docid, |lists|)
    && e.score == (if model == RankedBoolean then MaxScore(lists, e.docid, |lists|) else 1.0)
  }

  /** Emitted pairs above `lo`, in increasing docid order, each sound. */
  predicate SoundAbove(model: RetrievalModel, lists: Lists, out: seq<DocScore>, lo: int)
  {
    && Increasing(out)
    && forall m :: 0 <= m < |out| ==> lo < out[m].docid && SoundPair(model, lists, out[m])
  }

  /** A pass handles a docid above `lo`, and afterwards everything passed
      lies at or below it and every current docid above it. */
  lemma PassKeeps(lists: Lists, cur: seq<int>, lo: int)
    requires SortedLists(lists) && CursorsIn(lists, cur) && Passed(lists, cur, lo) && Ahead(lists, cur, lo)
    requires ExhaustedCount(lists, cur, |lists|) < |lists|
    ensures var d := MinCurrent(lists, cur, |lists|);
            var next := Advance(lists, cur, d);
            && lo < d && CursorsIn(lists, next) && Passed(lists, next, d) && Ahead(lists, next, d)
  {
    var d := MinCurrent(lists, cur, |lists|);
    var next := Advance(lists, cur, d);
    MinCurrentAttained(lists, cur, |lists|);
    MinCurrentLeast(lists, cur, |lists|);
    ExhaustedAll(lists, cur, |lists|);
    AdvanceAt(lists, cur, d);
    PassedAfter(lists, cur, d, d);
    forall i | 0 <= i < |lists| && next[i] < |lists[i]|
      ensures d < lists[i][next[i]].docid
    {
      if next[i] != cur[i] {
        SortedPair(lists[i], cur[i], next[i]);
      }
    }
  }

  /** A sound pair for `d` followed by sound pairs above `d` is sound above
      any bound below `d`. */
  lemma ConcatSound(model: RetrievalModel, lists: Lists, head: seq<DocScore>, tail: seq<DocScore>, lo: int, d: int)
    requires lo < d && SoundAbove(model, lists, tail, d)
    requires |head| <= 1 && forall m :: 0 <= m < |head| ==> head[m].docid == d && SoundPair(model, lists, head[m])
    ensures SoundAbove(model, lists, head + tail, lo)
  {
    var out := head + tail;
    forall m | 0 <= m < |out|
      ensures lo < out[m].docid && SoundPair(model, lists, out[m])
    {
      if m >= |head| {
        assert out[m] == tail[m - |head|];
      }
    }
    forall m | 0 < m < |out|
      ensures out[m - 1].docid < out[m].docid
    {
      if m > |head| {
        assert out[m - 1] == tail[m - 1 - |head|] && out[m] == tail[m - |head|];
      } else {
        assert out[m] == tail[0];
      }
    }
  }

  /** What a pass emits is sound for the docid it handles. */
  lemma HeadSound(model: RetrievalModel, lists: Lists, cur: seq<int>, lo: int)
    requires SortedLists(lists) && CursorsIn(lists, cur) && Passed(lists, cur, lo) && lo < MinCurrent(lists, cur, |lists|)
    ensures var d := MinCurrent(lists, cur, |lists|);
            var head := Emit(model, d, FoldScore(lists, cur, d, |lists|));
            |head| <= 1 && forall m :: 0 <= m < |head| ==> head[m].docid == d && SoundPair(model, lists, head[m])
  {
    var d := MinCurrent(lists, cur, |lists|);
    MinCurrentLeast(lists, cur, |lists|);
    FoldIsMaxScore(lists, cur, d, |lists|);
  }

  /** Everything the intended union emits from sorted lists, once the
      cursors have passed only docids up to `lo` and sit above it, is sound,
      above `lo`, and in increasing docid order. */
  lemma {:induction false} OrUnionSoundFrom(model: RetrievalModel, lists: Lists, cur: seq<int>, lo: int)
    requires SortedLists(lists) && CursorsIn(lists, cur) && Passed(lists, cur, lo) && Ahead(lists, cur, lo)
    ensures SoundAbove(model, lists, OrUnion(model, lists, cur), lo)
    decreases Remaining(Lengths(lists), cur)
  {
    if ExhaustedCount(lists, cur, |lists|) < |lists| {
      var d := MinCurrent(lists, cur, |lists|);
      var next := Advance(lists, cur, d);
      PassProgress(lists, cur);
      PassKeeps(lists, cur, lo);
      OrUnionSoundFrom(model, lists, next, d);
      HeadSound(model, lists, cur, lo);
      ConcatSound(model, lists, Emit(model, d, FoldScore(lists, cur, d, |lists|)), OrUnion(model, lists, next), lo, d);
    }
  }

  /** Every docid some list gives a positive score, and which the cursors
      have not yet passed, is emitted by the intended union. */
  lemma {:induction false} OrUnionCompleteFrom(model: RetrievalModel, lists: Lists, cur: seq<int>, d: int)
    requires SortedLists(lists) && CursorsIn(lists, cur) && Passed(lists, cur, d - 1)
    requires model != Other && 0.0 < MaxScore(lists, d, |lists|)
    ensures exists t :: 0 <= t < |OrUnion(model, lists, cur)| && OrUnion(model, lists, cur)[t].docid == d
    decreases Remaining(Lengths(lists), cur)
  {
    var m := MinCurrent(lists, cur, |lists|);
    MinCurrentLeast(lists, cur, |lists|);
    if ExhaustedCount(lists, cur, |lists|) == |lists| || d < m {
      // No cursor sits on `d`, yet every entry for `d` would be under one.
      ExhaustedAll(lists, cur, |lists|);
      FoldIsMaxScore(lists, cur, d, |lists|);
      FoldScoreNone(lists, cur, d, |lists|);
      assert false;
    } else if d == m {
      FoldIsMaxScore(lists, cur, d, |lists|);
      assert OrUnion(model, lists, cur)[0].docid == d;
    } else {
      var next := Advance(lists, cur, m);
      PassProgress(lists, cur);
      PassedAfter(lists, cur, m, d - 1);
      OrUnionCompleteFrom(model, lists, next, d);
      var head := Emit(model, m, FoldScore(lists, cur, m, |lists|));
      var tail := OrUnion(model, lists, next);
      assert OrUnion(model, lists, cur) == head + tail;
      var t :| 0 <= t < |tail| && tail[t].docid == d;
      assert OrUnion(model, lists, cur)[|head| + t] == tail[t];
    }
  }

  /** The intended union emits exactly the docids some argument gives a
      positive score, in increasing order, each with the best such score
      (ranked) or 1.0 (unranked). */
  lemma OrUnionCorrect(model: RetrievalModel, lists: Lists)
    requires SortedLists(lists) && model != Other
    ensures var out := OrUnion(model, lists, Start(lists));
            && Increasing(out)
            && (forall t :: 0 <= t < |out| ==> InSome(lists, out[t].docid) && SoundPair(model, lists, out[t]))
            && forall d :: 0.0 < MaxScore(lists, d, |lists|) ==> exists t :: 0 <= t < |out| && out[t].docid == d
  {
    var out := OrUnion(model, lists, Start(lists));
    OrUnionSoundFrom(model, lists, Start(lists), MinInt - 1);
    forall t | 0 <= t < |out|
      ensures InSome(lists, out[t].docid)
    {
      MaxScorePositive(lists, out[t].docid, |lists|);
    }
    forall d | 0.0 < MaxScore(lists, d, |lists|)
      ensures exists t :: 0 <= t < |out| && out[t].docid == d
    {
      OrUnionCompleteFrom(model, lists, Start(lists), d);
    }
  }

  lemma PrefixConcat(head: seq<DocScore>, a: seq<DocScore>, b: seq<DocScore>)
    requires a <= b
    ensures head + a <= head + b
  {
    assert forall m :: 0 <= m < |a| ==> (head + a)[|head| + m] == a[m] && (head + b)[|head| + m] == b[m];
  }

  /** The loop as written emits a prefix of what the intended union emits:
      it can stop early, never differ. */
  lemma {:induction false} OrRunPrefix(model: RetrievalModel, lists: Lists, cur: seq<int>, avail: int)
    requires CursorsIn(lists, cur) && avail <= |lists|
    ensures OrRun(model, lists, cur, avail) <= OrUnion(model, lists, cur)
    decreases Remaining(Lengths(lists), cur), avail
  {
    if 0 < avail {
      var d := MinCurrent(lists, cur, |lists|);
      var next := Advance(lists, cur, d);
      var avail' := avail - ExhaustedCount(lists, cur, |lists|);
      OrRunStep(model, lists, cur, avail);
      PassProgress(lists, cur);
      var head := Emit(model, d, FoldScore(lists, cur, d, |lists|));
      if ExhaustedCount(lists, cur, |lists|) < |lists| {
        OrRunPrefix(model, lists, next, avail');
        assert OrUnion(model, lists, cur) == head + OrUnion(model, lists, next);
        PrefixConcat(head, OrRun(model, lists, next, avail'), OrUnion(model, lists, next));
      } else {
        ExhaustedAll(lists, cur, |lists|);
        FoldScoreNone(lists, cur, d, |lists|);
        assert OrRun(model, lists, next, avail') == [];
      }
    }
  }

  /** What QryopSlOr.evaluateBoolean emits is sound: increasing docids, each
      in some argument with a positive best score, scored by that best score
      (ranked) or 1.0 (unranked). */
  lemma OrRunSound(model: RetrievalModel, lists: Lists)
    requires SortedLists(lists) && model != Other
    ensures var out := OrRun(model, lists, Start(lists), |lists|);
            && Increasing(out)
            && forall t :: 0 <= t < |out| ==> InSome(lists, out[t].docid) && SoundPair(model, lists, out[t])
  {
    OrRunPrefix(model, lists, Start(lists), |lists|);
    OrUnionCorrect(model, lists);
  }

  /** Under any model other than the two boolean ones nothing is emitted. */
  lemma {:induction false} OrRunOtherEmpty(lists: Lists, cur: seq<int>, avail: int)
    requires CursorsIn(lists, cur) && avail <= |lists|
    ensures OrRun(Other, lists, cur, avail) == []
    decreases Remaining(Lengths(lists), cur), avail
  {
    if 0 < avail {
      OrRunStep(Other, lists, cur, avail);
      PassProgress(lists, cur);
      var d := MinCurrent(lists, cur, |lists|);
      OrRunOtherEmpty(lists, Advance(lists, cur, d), avail - ExhaustedCount(lists, cur, |lists|));
    }
  }

  /** The lists of the early-stop example: A = [1] and B = [1, 2, 3, 4],
      every entry scored 1.0. */
  function DropsTailLists(): Lists
  {
    var a, b := ScoreListEntry(1, 1.0, "d1"), ScoreListEntry(2, 1.0, "d2");
    var c, e := ScoreListEntry(3, 1.0, "d3"), ScoreListEntry(4, 1.0, "d4");
    [[a], [a, b, c, e]]
  }

  /** In the example, the first pass finds both cursors on docid 1, none
      exhausted, and moves both on. */
  lemma DropsTailFirst()
    ensures var lists := DropsTailLists();
            && Start(lists) == [0, 0]
            && MinCurrent(lists, [0, 0], 2) == 1 && ExhaustedCount(lists, [0, 0], 2) == 0
            && FoldScore(lists, [0, 0], 1, 2) == 1.0 && Advance(lists, [0, 0], 1) == [1, 1]
  {
    var lists: Lists := DropsTailLists();
    assert Start(lists) == [0, 0];
    assert MinCurrent(lists, [0, 0], 1) == 1 && ExhaustedCount(lists, [0, 0], 1) == 0;
    assert Step(lists, [0, 0], 1, 0) == 1 && Step(lists, [0, 0], 1, 1) == 1;
    assert FoldScore(lists, [0, 0], 1, 1) == 1.0 && AdvanceUpTo(lists, [0, 0], 1, 1) == [1];
  }

  /** In the example, a pass from cursors [1, k] (A exhausted, B on docid
      k + 1) counts one exhausted cursor, folds 1.0 for docid k + 1 and
      moves B on. */
  lemma DropsTailPass(k: int)
    requires 1 <= k <= 3
    ensures var lists := DropsTailLists();
            && CursorsIn(lists, [1, k])
            && MinCurrent(lists, [1, k], 2) == k + 1 && ExhaustedCount(lists, [1, k], 2) == 1
            && FoldScore(lists, [1, k], k + 1, 2) == 1.0 && Advance(lists, [1, k], k + 1) == [1, k + 1]
  {
    var lists: Lists := DropsTailLists();
    assert |lists[0]| == 1 && [1, k][0] == 1 && lists[1][k].docid == k + 1;
    assert MinCurrent(lists, [1, k], 0) == MaxInt && ExhaustedCount(lists, [1, k], 0) == 0;
    assert MinCurrent(lists, [1, k], 1) == MaxInt && ExhaustedCount(lists, [1, k], 1) == 1;
    assert FoldScore(lists, [1, k], k + 1, 1) == 0.0;
    assert AdvanceUpTo(lists, [1, k], k + 1, 1) == [1];
  }

  /** In the example, the loop as written stops after docid 3. */
  lemma DropsTailRun()
    ensures var lists := DropsTailLists();
            OrRun(RankedBoolean, lists, Start(lists), 2) == [DocScore(1, 1.0), DocScore(2, 1.0), DocScore(3, 1.0)]
  {
    var lists: Lists := DropsTailLists();
    DropsTailFirst();
    DropsTailPass(1);
    DropsTailPass(2);
    assert OrRun(RankedBoolean, lists, [1, 3], 0) == [];
    assert OrRun(RankedBoolean, lists, [1, 2], 1) == [DocScore(3, 1.0)];
    assert OrRun(RankedBoolean, lists, [1, 1], 2) == [DocScore(2, 1.0), DocScore(3, 1.0)];
  }

  /** In the example, the intended loop goes on to docid 4 and stops once
      both cursors are exhausted. */
  lemma DropsTailUnion()
    ensures var lists := DropsTailLists();
            OrUnion(RankedBoolean, lists, Start(lists)) == [DocScore(1, 1.0), DocScore(2, 1.0), DocScore(3, 1.0), DocScore(4, 1.0)]
  {
    var lists: Lists := DropsTailLists();
    DropsTailFirst();
    DropsTailPass(1);
    DropsTailPass(2);
    DropsTailPass(3);
    assert ExhaustedCount(lists, [1, 4], 1) == 1 && ExhaustedCount(lists, [1, 4], 2) == 2;
    assert OrUnion(RankedBoolean, lists, [1, 4]) == [];
    assert OrUnion(RankedBoolean, lists, [1, 3]) == [DocScore(4, 1.0)];
    assert OrUnion(RankedBoolean, lists, [1, 2]) == [DocScore(3, 1.0), DocScore(4, 1.0)];
    assert OrUnion(RankedBoolean, lists, [1, 1]) == [DocScore(2, 1.0), DocScore(3, 1.0), DocScore(4, 1.0)];
  }

  /** The early stop loses entries: with A = [1] and B = [1, 2, 3, 4], all
      scored 1.0, the loop as written emits 1, 2 and 3 and never reaches 4,
      which the intended union emits. */
  lemma OrRunDropsTail()
    ensures var lists := DropsTailLists();
            && OrRun(RankedBoolean, lists, Start(lists), |lists|) != OrUnion(RankedBoolean, lists, Start(lists))
            && OrRun(RankedBoolean, lists, Start(lists), |lists|) == [DocScore(1, 1.0), DocScore(2, 1.0), DocScore(3, 1.0)]
            && OrUnion(RankedBoolean, lists, Start(lists)) == [DocScore(1, 1.0), DocScore(2, 1.0), DocScore(3, 1.0), DocScore(4, 1.0)]
  {
    DropsTailRun();
    DropsTailUnion();
  }

  // ---------------------------------------------------------------------
  // The operator.
  // ---------------------------------------------------------------------

  /** The first scan of a pass: the smallest current docid, and
      `daatAvailable` less one for every exhausted cursor. */
  method ScanSmallest(args: seq<ScoreList>, nextDoc: array<int>, daatAvailable: int, ghost lists: Lists)
    returns (minDocid: Int32, daatAvailable': int)
    requires Contents(args) == lists && CursorsIn(lists, nextDoc[..])
    ensures minDocid == MinCurrent(lists, nextDoc[..], |lists|)
    ensures daatAvailable' == daatAvailable - ExhaustedCount(lists, nextDoc[..], |lists|)
  {
    ContentsAt(args);
    minDocid := MaxInt;
    daatAvailable' := daatAvailable;
    for i := 0 to nextDoc.Length
      invariant minDocid == MinCurrent(lists, nextDoc[..], i)
      invariant daatAvailable' == daatAvailable - ExhaustedCount(lists, nextDoc[..], i)
    {
      if nextDoc[i] >= |args[i].scores| {
        daatAvailable' := daatAvailable' - 1;
        continue;
      }
      minDocid := if args[i].GetDocid(nextDoc[i]) < minDocid then args[i].GetDocid(nextDoc[i]) else minDocid;
    }
  }

  /** The second scan of a pass: every cursor on `minDocid` moves one entry
      on, and the best of their scores is folded into `docScore`. */
  method PassDocid(args: seq<ScoreList>, nextDoc: array<int>, minDocid: Int32, ghost lists: Lists)
    returns (docScore: real)
    requires Contents(args) == lists && CursorsIn(lists, nextDoc[..])
    modifies nextDoc
    ensures CursorsIn(lists, old(nextDoc[..])) && nextDoc[..] == Advance(lists, old(nextDoc[..]), minDocid)
    ensures docScore == FoldScore(lists, old(nextDoc[..]), minDocid, |lists|)
  {
    ContentsAt(args);
    ghost var cur := nextDoc[..];
    docScore := 0.0;
    for i := 0 to nextDoc.Length
      invariant forall j :: 0 <= j < i ==> nextDoc[j] == Step(lists, cur, minDocid, j)
      invariant forall j :: i <= j < |args| ==> nextDoc[j] == cur[j]
      invariant docScore == FoldScore(lists, cur, minDocid, i)
    {
      if nextDoc[i] >= |args[i].scores| {
        continue;
      }
      if args[i].GetDocid(nextDoc[i]) == minDocid {
        docScore := Max(docScore, args[i].GetDocidScore(nextDoc[i]));
        nextDoc[i] := nextDoc[i] + 1;
      }
    }
    AdvanceAt(lists, cur, minDocid);
  }

  /** The end of a pass: a positive folded score is added to the result,
      as itself under ranked boolean and as 1.0 under unranked boolean. */
  method AddMatch(result: ScoreList, model: RetrievalModel, minDocid: Int32, docScore: real)
    requires result.Valid()
    modifies result
    ensures result.Valid()
    ensures DocScores(result.scores) == DocScores(old(result.scores)) + Emit(model, minDocid, docScore)
  {
    if 0.0 < docScore {
      if model == RankedBoolean {
        result.Add(minDocid, docScore);
        DocScoresAppend(old(result.scores), result.scores[|result.scores| - 1]);
      } else if model == UnrankedBoolean {
        result.Add(minDocid, 1.0);
        DocScoresAppend(old(result.scores), result.scores[|result.scores| - 1]);
      }
    }
  }

  /** One pass of the merge loop: the two scans and the add, which leave
      the cursors, `daatAvailable` and the result as `OrRun` steps them. */
  method Pass(model: RetrievalModel, args: seq<ScoreList>, nextDoc: array<int>, daatAvailable: int, result: ScoreList,
              ghost lists: Lists)
    returns (daatAvailable': int)
    requires Contents(args) == lists && CursorsIn(lists, nextDoc[..]) && result.Valid() && result !in args
    modifies nextDoc, result
    ensures Contents(args) == lists && result.Valid()
    ensures var cur := old(nextDoc[..]);
            var d := MinCurrent(lists, cur, |lists|);
            && CursorsIn(lists, cur)
            && nextDoc[..] == Advance(lists, cur, d)
            && daatAvailable' == daatAvailable - ExhaustedCount(lists, cur, |lists|)
            && DocScores(result.scores) == DocScores(old(result.scores)) + Emit(model, d, FoldScore(lists, cur, d, |lists|))
  {
    var minDocid;
    minDocid, daatAvailable' := ScanSmallest(args, nextDoc, daatAvailable, lists);
    var docScore := PassDocid(args, nextDoc, minDocid, lists);
    AddMatch(result, model, minDocid, docScore);
  }

  /** A fresh cursor array, every cursor at the start of its list. */
  method NewCursors(n: int, ghost lists: Lists) returns (nextDoc: array<int>)
    requires n == |lists|
    ensures fresh(nextDoc) && nextDoc[..] == Start(lists)
  {
    nextDoc := new int[n](_ => 0);
    assert nextDoc[..] == Start(lists);
  }

  /** The merge loop of QryopSlOr.evaluateBoolean: passes until
      `daatAvailable` is used up, after which the result holds all that
      the loop emits. */
  method Passes(model: RetrievalModel, args: seq<ScoreList>, nextDoc: array<int>, daatAvailable: int, result: ScoreList,
                ghost lists: Lists, ghost total: seq<DocScore>)
    requires Contents(args) == lists && result.Valid() && result !in args
    requires Pending(model, lists, DocScores(result.scores), nextDoc[..], daatAvailable, total)
    modifies nextDoc, result
    ensures result.Valid() && DocScores(result.scores) == total
  {
    var daatAvailable := daatAvailable;
    while daatAvailable > 0
      invariant result.Valid() && Contents(args) == lists
      invariant Pending(model, lists, DocScores(result.scores), nextDoc[..], daatAvailable, total)
      decreases Progress(lists, nextDoc[..]), daatAvailable
    {
      ghost var cur := nextDoc[..];
      ghost var avail := daatAvailable;
      ghost var before := DocScores(result.scores);
      daatAvailable := Pass(model, args, nextDoc, daatAvailable, result, lists);
      OrRunLoopStep(model, before, lists, cur, avail, total);
      PassDecreases(lists, cur, avail);
    }
  }

  /** The merge loop as evidently intended: `daatAvailable` is set back to
      the number of arguments before each pass, so that a pass leaves it
      equal to the number of cursors that were not yet exhausted. */
  method UnionPasses(model: RetrievalModel, args: seq<ScoreList>, nextDoc: array<int>, daatAvailable: int, result: ScoreList,
                     ghost lists: Lists, ghost total: seq<DocScore>)
    requires Contents(args) == lists && result.Valid() && result !in args
    requires UnionPending(model, lists, DocScores(result.scores), nextDoc[..], daatAvailable, total)
    modifies nextDoc, result
    ensures result.Valid() && DocScores(result.scores) == total
  {
    var daatAvailable := daatAvailable;
    while daatAvailable > 0
      invariant result.Valid() && Contents(args) == lists
      invariant UnionPending(model, lists, DocScores(result.scores), nextDoc[..], daatAvailable, total)
      decreases Progress(lists, nextDoc[..]), daatAvailable
    {
      ghost var cur := nextDoc[..];
      ghost var before := DocScores(result.scores);
      UnionLoopStep(model, before, lists, cur, daatAvailable, total);
      daatAvailable := Pass(model, args, nextDoc, |args|, result, lists);
    }
    assert OrUnion(model, lists, nextDoc[..]) == [];
    assert DocScores(result.scores) + [] == DocScores(result.scores);
  }

  /** QryopSlOr.evaluateBoolean with the early stop corrected: the new
      score list holds the whole union of the arguments, as `OrUnion`
      describes it. */
  method EvaluateBooleanCorrected(model: RetrievalModel, args: seq<ScoreList>, externalDocid: Int32 -> string)
    returns (result: ScoreList)
    ensures fresh(result) && result.Valid() && result.externalDocid == externalDocid
    ensures DocScores(result.scores) == OrUnion(model, Contents(args), Start(Contents(args)))
  {
    ghost var lists := Contents(args);
    result := new ScoreList(externalDocid);
    var daatSize := |args|;
    var nextDoc := NewCursors(daatSize, lists);
    UnionPasses(model, args, nextDoc, daatSize, result, lists, OrUnion(model, lists, Start(lists)));
  }

  /** QryopSlOr.evaluateBoolean: one cursor per argument in `nextDoc`,
      all at the start, and `daatAvailable` as many as there are arguments.
      The new score list holds exactly what `OrRun` describes for the
      argument lists. */
  method EvaluateBoolean(model: RetrievalModel, args: seq<ScoreList>, externalDocid: Int32 -> string)
    returns (result: ScoreList)
    ensures fresh(result) && result.Valid() && result.externalDocid == externalDocid
    ensures DocScores(result.scores) == OrRun(model, Contents(args), Start(Contents(args)), |args|)
  {
    ghost var lists := Contents(args);
    result := new ScoreList(externalDocid);
    var daatSize := |args|;
    var nextDoc := NewCursors(daatSize, lists);
    Passes(model, args, nextDoc, daatSize, result, lists, OrRun(model, lists, Start(lists), daatSize));
  }

  /** QryopSlOr.evaluate: only the two boolean models are evaluated; any
      other model gets no result (null). The boolean evaluation is the
      corrected one, whose result `OrUnionCorrect` characterises. */
  method Evaluate(model: RetrievalModel, args: seq<ScoreList>, externalDocid: Int32 -> string)
    returns (result: ScoreList?)
    ensures result == null <==> model == Other
    ensures result != null ==>
              && fresh(result) && result.Valid()
              && DocScores(result.scores) == OrUnion(model, Contents(args), Start(Contents(args)))
  {
    if model == UnrankedBoolean || model == RankedBoolean {
      result := EvaluateBooleanCorrected(model, args, externalDocid);
    } else {
      result := null;
    }
  }

  /** QryopSlOr.getDefaultScore: a document the operator does not match
      scores 0.0 under every model. */
  function DefaultScore(model: RetrievalModel, docid: int): (s: real)
    ensures s == 0.0
  {
    if model == UnrankedBoolean then 0.0 else 0.0
  }
}
