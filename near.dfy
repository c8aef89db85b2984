/** The NEAR/n operator (QryopIlNear): a document-at-a-time intersection of
    k >= 2 inverted lists of one field, followed, for every document common
    to all of them, by a search for windows in which the k terms occur in
    argument order with every consecutive gap at most n. */
module NearOp {
  import opened Index

  // ---------------------------------------------------------------------
  // Specification of a match

  /** Chain indices `c[0..|c|)` pick one position per argument (an index into
      `P[t]`) such that every picked position is at least the previous one and
      at most `n` beyond it. */
  ghost predicate Links(P: seq<seq<int>>, n: int, c: seq<int>)
  {
    && |c| <= |P|
    && (forall t :: 0 <= t < |c| ==> 0 <= c[t] < |P[t]|)
    && (forall t :: 1 <= t < |c| ==> P[t - 1][c[t - 1]] <= P[t][c[t]] <= P[t - 1][c[t - 1]] + n)
  }

  /** A complete chain: one linked position for every argument. */
  ghost predicate IsChain(P: seq<seq<int>>, n: int, c: seq<int>)
  {
    |c| == |P| && Links(P, n, c)
  }

  /** Index `s[t]` lies inside `P[t]` or just past its end. */
  ghost predicate IndicesIn(P: seq<seq<int>>, s: seq<int>)
  {
    |s| == |P| && forall t :: 0 <= t < |s| ==> 0 <= s[t] <= |P[t]|
  }

  /** Chain `a` lies strictly before chain (or index vector) `b` in every
      argument, so the two share no position. */
  ghost predicate Precedes(a: seq<int>, b: seq<int>)
  {
    |a| == |b| && forall t :: 0 <= t < |a| ==> a[t] < b[t]
  }

  /** Argument `l` has position `pos` in document `d`. */
  ghost predicate OccursAt(l: InvList, d: int, pos: int)
  {
    exists j :: 0 <= j < |l.postings| && l.postings[j].docid == d && pos in l.postings[j].positions
  }

  /** `w` is a NEAR/n window of document `d`: the t-th position is an
      occurrence of argument t and consecutive positions are non-decreasing
      and at most `n` apart. */
  ghost predicate NearWindow(args: seq<InvList>, d: int, n: int, w: seq<int>)
  {
    && |w| == |args|
    && (forall t :: 0 <= t < |w| ==> OccursAt(args[t], d, w[t]))
    && (forall t :: 1 <= t < |w| ==> w[t - 1] <= w[t] <= w[t - 1] + n)
  }

  /** A posting NEAR/n may produce: at least one position, positions strictly
      increasing, and each position the start of a window of its document. */
  ghost predicate IsNearPosting(args: seq<InvList>, n: int, p: Posting)
  {
    && |p.positions| > 0
    && StrictlyIncreasing(p.positions)
    && forall u :: 0 <= u < |p.positions| ==>
         exists w :: NearWindow(args, p.docid, n, w) && |w| > 0 && w[0] == p.positions[u]
  }

  /** Every argument has a posting for document `d`. */
  predicate InEveryList(args: seq<InvList>, d: int)
  {
    forall i :: 0 <= i < |args| ==> args[i].Contains(d)
  }

  /** What the operator demands of its arguments once they are evaluated:
      at least two inverted lists, all in argument 0's field, all valid and
      none empty. */
  predicate WellFormedArgs(args: seq<InvList>)
  {
    && |args| >= 2
    && forall i :: 0 <= i < |args| ==>
         args[i].Valid() && |args[i].postings| > 0 && args[i].field == args[0].field
  }

  function ListLengths(args: seq<InvList>): (lens: seq<int>)
    ensures |lens| == |args|
    ensures forall i :: 0 <= i < |args| ==> lens[i] == |args[i].postings|
  {
    seq(|args|, i requires 0 <= i < |args| => |args[i].postings|)
  }

  /** The positions lists of the postings the cursors `cur` sit on. */
  function PositionsAt(args: seq<InvList>, cur: seq<int>): (P: seq<seq<int>>)
    requires |cur| == |args|
    requires forall i :: 0 <= i < |args| ==> 0 <= cur[i] < |args[i].postings|
    ensures |P| == |args|
    ensures forall i :: 0 <= i < |args| ==> P[i] == args[i].postings[cur[i]].positions
  {
    seq(|args|, i requires 0 <= i < |args| && 0 <= cur[i] < |args[i].postings| =>
      args[i].postings[cur[i]].positions)
  }

  // ---------------------------------------------------------------------
  // getSmallestCurrentDocid

  /** The smallest docid under the cursors, or Integer.MAX_VALUE when there
      are no cursors. */
  method SmallestCurrentDocid(args: seq<InvList>, nextDoc: array<int>) returns (nextDocid: Int32)
    requires nextDoc.Length == |args|
    requires forall i :: 0 <= i < |args| ==> 0 <= nextDoc[i] < |args[i].postings|
    ensures forall i :: 0 <= i < |args| ==> nextDocid <= args[i].postings[nextDoc[i]].docid
    ensures |args| == 0 ==> nextDocid == MaxInt
    ensures |args| > 0 ==> exists i :: 0 <= i < |args| && nextDocid == args[i].postings[nextDoc[i]].docid
  {
    nextDocid := MaxInt;
    for i := 0 to |args|
      invariant forall t :: 0 <= t < i ==> nextDocid <= args[t].postings[nextDoc[t]].docid
      invariant i == 0 ==> nextDocid == MaxInt
      invariant i > 0 ==> exists t :: 0 <= t < i && nextDocid == args[t].postings[nextDoc[t]].docid
    {
      if nextDocid > args[i].GetDocid(nextDoc[i]) {
        nextDocid := args[i].GetDocid(nextDoc[i]);
      }
    }
  }

  // ---------------------------------------------------------------------
  // Position level: the search as a function

  /** The first index at or after `j` whose position is not below
      `curPos`, or the end of `p`. */
  function SkipTo(p: seq<int>, j: int, curPos: int): (u: int)
    requires 0 <= j <= |p|
    ensures j <= u <= |p|
    ensures u < |p| ==> curPos <= p[u]
    decreases |p| - j
  {
    if j < |p| && p[j] < curPos then SkipTo(p, j + 1, curPos) else j
  }

  /** How one walk along arguments 1..k-1 from an anchor ended. */
  datatype WalkOutcome =
    | Exhausted   // some argument has no position left at or after the chain
    | Broken      // a link was too far; the previous argument's index moved on
    | Matched     // every argument linked: a full chain

  /** The outcome of a walk and the position indices it leaves. */
  datatype Walk = Walk(outcome: WalkOutcome, idx: seq<int>)

  /** The walk from argument `i` on, `curPos` being the position linked for
      argument i-1: skip argument i's positions below `curPos`; out of
      positions, the walk is exhausted; within `n`, link and go on; too far,
      move argument i-1's index on and stop. */
  function WalkFrom(P: seq<seq<int>>, n: int, idx: seq<int>, i: int, curPos: int): Walk
    requires 1 <= i <= |P| && IndicesIn(P, idx) && idx[i - 1] < |P[i - 1]|
    decreases |P| - i
  {
    if i == |P| then Walk(Matched, idx)
    else
      var u := SkipTo(P[i], idx[i], curPos);
      if u == |P[i]| then Walk(Exhausted, idx[i := u])
      else if P[i][u] - curPos <= n then WalkFrom(P, n, idx[i := u], i + 1, P[i][u])
      else Walk(Broken, idx[i := u][i - 1 := idx[i - 1] + 1])
  }

  /** A walk only moves indices forward and keeps them in range; a broken
      walk moves one of them. */
  lemma {:induction false} WalkForward(P: seq<seq<int>>, n: int, idx: seq<int>, i: int, curPos: int)
    requires 1 <= i <= |P| && IndicesIn(P, idx) && idx[i - 1] < |P[i - 1]|
    ensures var w := WalkFrom(P, n, idx, i, curPos);
            && IndicesIn(P, w.idx)
            && (forall t :: 0 <= t < |P| ==> idx[t] <= w.idx[t])
            && (w.outcome == Broken ==> exists t :: 0 <= t < |P| && idx[t] < w.idx[t])
    decreases |P| - i
  {
    if i < |P| {
      var u := SkipTo(P[i], idx[i], curPos);
      if u < |P[i]| && P[i][u] - curPos <= n {
        WalkForward(P, n, idx[i := u], i + 1, P[i][u]);
      } else if u < |P[i]| {
        assert WalkFrom(P, n, idx, i, curPos).idx[i - 1] == idx[i - 1] + 1;
      }
    }
  }

  /** Walk end `w` left argument t (t >= 1) out of positions and every later
      index where `idx` had it. */
  ghost predicate ExhaustedAt(P: seq<seq<int>>, idx: seq<int>, w: seq<int>, t: int)
  {
    && |idx| == |w| == |P| && 1 <= t < |P| && w[t] == |P[t]|
    && (forall s :: t < s < |P| ==> w[s] == idx[s])
  }

  /** Walk end `w` broke at argument t (t >= 1): argument t's position lies
      more than `n` beyond the position linked for argument t-1, whose index
      has moved one past that linked position (so beyond where `idx` had it),
      and every later index is where `idx` had it. */
  ghost predicate BrokenAt(P: seq<seq<int>>, n: int, idx: seq<int>, w: seq<int>, t: int)
  {
    && |idx| == |w| == |P| && 1 <= t < |P|
    && 0 <= idx[t - 1] < w[t - 1] <= |P[t - 1]| && 0 <= w[t] < |P[t]|
    && n < P[t][w[t]] - P[t - 1][w[t - 1] - 1]
    && (forall s :: t < s < |P| ==> w[s] == idx[s])
  }

  /** Walk end `w` keeps the indices of arguments before i as `idx` has
      them and links every argument from i on to its predecessor. */
  ghost predicate LinkedFrom(P: seq<seq<int>>, n: int, idx: seq<int>, w: seq<int>, i: int)
  {
    && |idx| == |w| == |P| && 1 <= i <= |P| && 0 <= w[i - 1] < |P[i - 1]|
    && (forall t :: 0 <= t < i ==> w[t] == idx[t])
    && (forall t :: i <= t < |P| ==> 0 <= w[t] < |P[t]|)
    && (forall t :: i <= t < |P| ==> P[t - 1][w[t - 1]] <= P[t][w[t]] <= P[t - 1][w[t - 1]] + n)
  }

  /** One step of a walk from argument i < k, spelled out. */
  lemma WalkFromStep(P: seq<seq<int>>, n: int, idx: seq<int>, i: int, curPos: int)
    requires 1 <= i < |P| && IndicesIn(P, idx) && idx[i - 1] < |P[i - 1]|
    ensures var u := SkipTo(P[i], idx[i], curPos);
            && (u == |P[i]| ==> WalkFrom(P, n, idx, i, curPos) == Walk(Exhausted, idx[i := u]))
            && (u < |P[i]| && P[i][u] - curPos <= n ==>
                  IndicesIn(P, idx[i := u])
                  && WalkFrom(P, n, idx, i, curPos) == WalkFrom(P, n, idx[i := u], i + 1, P[i][u]))
            && (u < |P[i]| && n < P[i][u] - curPos ==>
                  WalkFrom(P, n, idx, i, curPos) == Walk(Broken, idx[i := u][i - 1 := idx[i - 1] + 1]))
  {
  }

  /** An exhausted walk ran some argument at or after i out of positions. */
  lemma {:induction false} WalkExhausted(P: seq<seq<int>>, n: int, idx: seq<int>, i: int, curPos: int)
    requires 1 <= i <= |P| && IndicesIn(P, idx) && idx[i - 1] < |P[i - 1]|
    ensures var w := WalkFrom(P, n, idx, i, curPos);
            w.outcome == Exhausted ==> exists t :: i <= t && ExhaustedAt(P, idx, w.idx, t)
    decreases |P| - i
  {
    if i < |P| {
      var w := WalkFrom(P, n, idx, i, curPos);
      var u := SkipTo(P[i], idx[i], curPos);
      WalkFromStep(P, n, idx, i, curPos);
      if u == |P[i]| {
        assert ExhaustedAt(P, idx, w.idx, i);
      } else if P[i][u] - curPos <= n && w.outcome == Exhausted {
        var idx2 := idx[i := u];
        WalkExhausted(P, n, idx2, i + 1, P[i][u]);
        var t :| i + 1 <= t && ExhaustedAt(P, idx2, w.idx, t);
        assert ExhaustedAt(P, idx, w.idx, t);
      }
    }
  }

  /** A broken walk stopped at a link too far, `curPos` being the position
      linked for argument i-1. */
  lemma {:induction false} WalkBroken(P: seq<seq<int>>, n: int, idx: seq<int>, i: int, curPos: int)
    requires 1 <= i <= |P| && IndicesIn(P, idx) && idx[i - 1] < |P[i - 1]|
    requires curPos == P[i - 1][idx[i - 1]]
    ensures var w := WalkFrom(P, n, idx, i, curPos);
            w.outcome == Broken ==> exists t :: i <= t && BrokenAt(P, n, idx, w.idx, t)
    decreases |P| - i
  {
    if i < |P| {
      var w := WalkFrom(P, n, idx, i, curPos);
      var u := SkipTo(P[i], idx[i], curPos);
      WalkFromStep(P, n, idx, i, curPos);
      if u < |P[i]| && P[i][u] - curPos <= n {
        if w.outcome == Broken {
          var idx2 := idx[i := u];
          WalkBroken(P, n, idx2, i + 1, P[i][u]);
          var t :| i + 1 <= t && BrokenAt(P, n, idx2, w.idx, t);
          assert BrokenAt(P, n, idx, w.idx, t);
        }
      } else if u < |P[i]| {
        assert BrokenAt(P, n, idx, w.idx, i);
      }
    }
  }

  /** A matched walk linked every argument from i on, `curPos` being the
      position linked for argument i-1. */
  lemma {:induction false} WalkLinked(P: seq<seq<int>>, n: int, idx: seq<int>, i: int, curPos: int)
    requires 1 <= i <= |P| && IndicesIn(P, idx) && idx[i - 1] < |P[i - 1]|
    requires curPos == P[i - 1][idx[i - 1]]
    ensures var w := WalkFrom(P, n, idx, i, curPos);
            w.outcome == Matched ==> LinkedFrom(P, n, idx, w.idx, i)
    decreases |P| - i
  {
    if i < |P| {
      var w := WalkFrom(P, n, idx, i, curPos);
      var u := SkipTo(P[i], idx[i], curPos);
      WalkFromStep(P, n, idx, i, curPos);
      if u < |P[i]| && P[i][u] - curPos <= n && w.outcome == Matched {
        var idx2 := idx[i := u];
        WalkLinked(P, n, idx2, i + 1, P[i][u]);
        var c := w.idx;
        assert c[i] == u && c[i - 1] == idx[i - 1];
        forall t | i <= t < |P|
          ensures P[t - 1][c[t - 1]] <= P[t][c[t]] <= P[t - 1][c[t - 1]] + n
        {
          if t == i {
            assert P[t - 1][c[t - 1]] == curPos;
          }
        }
      }
    }
  }

  /** What the outcome of walk `w` from indices `idx` means. */
  ghost predicate WalkMeaning(P: seq<seq<int>>, n: int, idx: seq<int>, w: Walk)
  {
    && (w.outcome == Exhausted ==> exists t :: ExhaustedAt(P, idx, w.idx, t))
    && (w.outcome == Broken ==> exists t :: BrokenAt(P, n, idx, w.idx, t))
    && (w.outcome == Matched ==> IsChain(P, n, w.idx) && 0 < |P| == |idx| && w.idx[0] == idx[0])
  }

  /** The walk from an anchor: an exhausted walk ran some argument out of
      positions; a broken walk found a link too far and moved the previous
      argument's index one past its linked position; a matched walk is a
      full chain from the anchor. */
  lemma WalkOutcomes(P: seq<seq<int>>, n: int, idx: seq<int>)
    requires |P| >= 2 && IndicesIn(P, idx) && idx[0] < |P[0]|
    ensures WalkMeaning(P, n, idx, WalkFrom(P, n, idx, 1, P[0][idx[0]]))
  {
    var w := WalkFrom(P, n, idx, 1, P[0][idx[0]]);
    WalkExhausted(P, n, idx, 1, P[0][idx[0]]);
    WalkBroken(P, n, idx, 1, P[0][idx[0]]);
    WalkLinked(P, n, idx, 1, P[0][idx[0]]);
    if w.outcome == Matched {
      assert LinkedFrom(P, n, idx, w.idx, 1);
    }
  }

  /** Bumping every index of a full chain runs some argument out of
      positions. */
  predicate RunsOut(P: seq<seq<int>>, link: seq<int>)
    requires |link| == |P|
  {
    exists t :: 0 <= t < |P| && |P[t]| <= link[t] + 1
  }

  /** Every index one further on. */
  function Inc(s: seq<int>): seq<int>
  {
    seq(|s|, t requires 0 <= t < |s| => s[t] + 1)
  }

  /** The position loop of QryopIlNear.java:106-159 from index vector `idx`,
      the anchors `vp` recorded so far: stop when argument 0 is out of
      positions or a walk is exhausted; after a broken walk retry from the
      indices it left; after a full chain record its anchor and bump every
      index, stopping if some argument runs out. */
  function MatchFrom(P: seq<seq<int>>, n: int, idx: seq<int>, vp: seq<int>): seq<int>
    requires |P| >= 2 && IndicesIn(P, idx)
    decreases Remaining(Lengths(P), idx)
  {
    if |P[0]| <= idx[0] then vp
    else
      var anchor := P[0][idx[0]];
      var w := WalkFrom(P, n, idx, 1, anchor);
      WalkForward(P, n, idx, 1, anchor);
      if w.outcome == Exhausted then vp
      else if w.outcome == Broken then
        RemainingMonotone(Lengths(P), idx, w.idx);
        MatchFrom(P, n, w.idx, vp)
      else if RunsOut(P, w.idx) then vp + [anchor]
      else
        RemainingMonotone(Lengths(P), idx, Inc(w.idx));
        MatchFrom(P, n, Inc(w.idx), vp + [anchor])
  }

  /** The anchors the position search records in a document whose
      arguments have positions `P`. */
  function Anchors(P: seq<seq<int>>, n: int): seq<int>
    requires |P| >= 2
  {
    MatchFrom(P, n, Zeros(|P|), [])
  }

  /** Every index at the start of its list. */
  function Zeros(k: nat): seq<int>
  {
    seq(k, t => 0)
  }

  /** One round of the position loop, spelled out. */
  lemma MatchFromStep(P: seq<seq<int>>, n: int, idx: seq<int>, vp: seq<int>)
    requires |P| >= 2 && IndicesIn(P, idx) && idx[0] < |P[0]|
    ensures var anchor := P[0][idx[0]];
            var w := WalkFrom(P, n, idx, 1, anchor);
            && IndicesIn(P, w.idx)
            && (w.outcome == Exhausted ==> MatchFrom(P, n, idx, vp) == vp)
            && (w.outcome == Broken ==> MatchFrom(P, n, idx, vp) == MatchFrom(P, n, w.idx, vp))
            && (w.outcome == Matched && RunsOut(P, w.idx) ==> MatchFrom(P, n, idx, vp) == vp + [anchor])
            && (w.outcome == Matched && !RunsOut(P, w.idx) ==>
                  IndicesIn(P, Inc(w.idx)) && MatchFrom(P, n, idx, vp) == MatchFrom(P, n, Inc(w.idx), vp + [anchor]))
  {
    WalkForward(P, n, idx, 1, P[0][idx[0]]);
  }

  // ---------------------------------------------------------------------
  // Position level: the loops

  /** Moves argument i's index past every position smaller than curPos
      (the skip at the head of each link; equal positions are kept). */
  method SkipBefore(P: seq<seq<int>>, positionIdx: array<int>, i: int, curPos: int)
    requires positionIdx.Length == |P| && 0 <= i < |P|
    requires IndicesIn(P, positionIdx[..])
    modifies positionIdx
    ensures IndicesIn(P, positionIdx[..])
    ensures positionIdx[..] == old(positionIdx[..])[i := SkipTo(P[i], old(positionIdx[i]), curPos)]
    ensures forall u :: old(positionIdx[i]) <= u < positionIdx[i] ==> P[i][u] < curPos
  {
    ghost var start := positionIdx[..];
    while |P[i]| > positionIdx[i] && P[i][positionIdx[i]] < curPos
      invariant IndicesIn(P, positionIdx[..])
      invariant forall t :: 0 <= t < |P| && t != i ==> positionIdx[t] == old(positionIdx[t])
      invariant old(positionIdx[i]) <= positionIdx[i]
      invariant SkipTo(P[i], positionIdx[i], curPos) == SkipTo(P[i], old(positionIdx[i]), curPos)
      invariant forall u :: old(positionIdx[i]) <= u < positionIdx[i] ==> P[i][u] < curPos
      decreases |P[i]| - positionIdx[i]
    {
      positionIdx[i] := positionIdx[i] + 1;
    }
    assert positionIdx[..] == start[i := positionIdx[i]];
  }

  /** After a full chain `link`, moves every argument's index one past the
      position it contributed, stopping at the first argument whose
      positions run out (then `exhausted` holds). */
  method BumpChain(P: seq<seq<int>>, positionIdx: array<int>, ghost link: seq<int>) returns (exhausted: bool)
    requires positionIdx.Length == |P| == |link| && |P| > 0
    requires forall t :: 0 <= t < |P| ==> 0 <= link[t] < |P[t]| && positionIdx[t] == link[t]
    modifies positionIdx
    ensures IndicesIn(P, positionIdx[..])
    ensures positionIdx[0] == link[0] + 1
    ensures forall t :: 0 <= t < |P| ==> link[t] <= positionIdx[t]
    ensures exhausted <==> RunsOut(P, link)
    ensures !exhausted ==> positionIdx[..] == Inc(link) && Precedes(link, positionIdx[..])
    ensures exhausted ==>
              exists j :: 0 <= j < |P| && positionIdx[j] == |P[j]|
                && (forall t :: 0 <= t <= j ==> positionIdx[t] == link[t] + 1)
                && (forall t :: j < t < |P| ==> positionIdx[t] == link[t])
  {
    exhausted := false;
    var j := 0;
    while j < |P|
      invariant 0 <= j <= |P|
      invariant forall t :: 0 <= t < j ==> positionIdx[t] == link[t] + 1 < |P[t]|
      invariant forall t :: j <= t < |P| ==> positionIdx[t] == link[t]
    {
      positionIdx[j] := positionIdx[j] + 1;
      if |P[j]| <= positionIdx[j] {
        exhausted := true;
        return;
      }
      j := j + 1;
    }
    assert positionIdx[..] == Inc(link);
  }

  /** One pass of the position loop: starting from argument 0's current
      position, link arguments 1..k-1 in turn, as `WalkFrom` describes. A
      link takes the argument's first position not below `curPos` if it lies
      within `nearN` of it. A full chain is returned in `link` (one index per
      argument, each equal to that argument's index now) with `anchor` its
      argument-0 position; an exhausted walk leaves some argument out of
      positions; a broken walk moves the previous argument's index one past
      the position it linked and leaves the later arguments alone. */
  method WalkChain(P: seq<seq<int>>, nearN: int, positionIdx: array<int>)
    returns (outcome: WalkOutcome, anchor: int, ghost link: seq<int>, ghost start: seq<int>)
    requires |P| >= 2 && positionIdx.Length == |P|
    requires IndicesIn(P, positionIdx[..]) && positionIdx[0] < |P[0]|
    modifies positionIdx
    ensures start == old(positionIdx[..])
    ensures IndicesIn(P, positionIdx[..])
    ensures Walk(outcome, positionIdx[..]) == WalkFrom(P, nearN, start, 1, P[0][start[0]])
    ensures WalkMeaning(P, nearN, start, Walk(outcome, positionIdx[..]))
    ensures forall t :: 0 <= t < |P| ==> old(positionIdx[t]) <= positionIdx[t]
    ensures outcome == Broken ==> exists t :: 0 <= t < |P| && old(positionIdx[t]) < positionIdx[t]
    ensures outcome == Matched ==>
              && IsChain(P, nearN, link)
              && anchor == P[0][old(positionIdx[0])]
              && link == positionIdx[..]
  {
    start := positionIdx[..];
    var curPos := P[0][positionIdx[0]];
    anchor := curPos;
    ghost var whole := WalkFrom(P, nearN, start, 1, anchor);
    WalkOutcomes(P, nearN, start);
    WalkForward(P, nearN, start, 1, anchor);
    link := start;
    var i := 1;
    var stop := false;
    outcome := Matched;
    while !stop && i < |P|
      invariant 1 <= i <= |P|
      invariant IndicesIn(P, positionIdx[..])
      invariant !stop ==> positionIdx[i - 1] < |P[i - 1]| && curPos == P[i - 1][positionIdx[i - 1]]
                          && WalkFrom(P, nearN, positionIdx[..], i, curPos) == whole
      invariant stop ==> Walk(outcome, positionIdx[..]) == whole
      invariant !stop ==> outcome == Matched
      decreases |P| - i, !stop
    {
      stop, outcome, curPos := LinkStep(P, nearN, positionIdx, i, curPos);
      if !stop {
        i := i + 1;
      }
    }
    link := positionIdx[..];
  }

  /** One link of the walk at argument i, `curPos` being the position linked
      for argument i-1: skip argument i's positions below it; then stop
      exhausted, stop broken (moving argument i-1's index on), or link and
      return argument i's position. */
  method LinkStep(P: seq<seq<int>>, nearN: int, positionIdx: array<int>, i: int, curPos: int)
    returns (stop: bool, outcome: WalkOutcome, next: int)
    requires positionIdx.Length == |P| && 1 <= i < |P|
    requires IndicesIn(P, positionIdx[..]) && positionIdx[i - 1] < |P[i - 1]|
    modifies positionIdx
    ensures IndicesIn(P, positionIdx[..])
    ensures stop ==> Walk(outcome, positionIdx[..]) == WalkFrom(P, nearN, old(positionIdx[..]), i, curPos)
    ensures !stop ==>
              && outcome == Matched && positionIdx[i] < |P[i]| && next == P[i][positionIdx[i]]
              && WalkFrom(P, nearN, positionIdx[..], i + 1, next) == WalkFrom(P, nearN, old(positionIdx[..]), i, curPos)
  {
    WalkFromStep(P, nearN, positionIdx[..], i, curPos);
    ghost var pre := positionIdx[..];
    SkipBefore(P, positionIdx, i, curPos);
    next := curPos;
    if |P[i]| <= positionIdx[i] {
      return true, Exhausted, next;
    }
    if P[i][positionIdx[i]] - curPos <= nearN {
      return false, Matched, P[i][positionIdx[i]];
    }
    // the chain breaks: retry with the previous argument's next position
    positionIdx[i - 1] := positionIdx[i - 1] + 1;
    assert positionIdx[..] == pre[i := SkipTo(P[i], pre[i], curPos)][i - 1 := pre[i - 1] + 1];
    return true, Broken, next;
  }

  /** The matches recorded so far: one chain per anchor, each anchor the
      argument-0 position of its chain, successive chains strictly later in
      every argument. */
  ghost predicate Found(P: seq<seq<int>>, nearN: int, validPositions: seq<int>, chains: seq<seq<int>>)
  {
    && |P| > 0
    && |chains| == |validPositions|
    && (forall m :: 0 <= m < |chains| ==> IsChain(P, nearN, chains[m]) && validPositions[m] == P[0][chains[m][0]])
    && (forall a, b :: 0 <= a < b < |chains| ==> Precedes(chains[a], chains[b]))
  }

  /** Every recorded chain lies strictly before the index vector `idx`. */
  ghost predicate AllBefore(chains: seq<seq<int>>, idx: seq<int>)
  {
    forall a :: 0 <= a < |chains| ==> Precedes(chains[a], idx)
  }

  /** Indices that only move forward stay after every recorded chain. */
  lemma AllBeforeForward(chains: seq<seq<int>>, a: seq<int>, b: seq<int>)
    requires AllBefore(chains, a) && |a| == |b| && forall t :: 0 <= t < |a| ==> a[t] <= b[t]
    ensures AllBefore(chains, b)
  {
  }

  /** A chain before `idx` and after every recorded chain can be recorded. */
  lemma FoundAppend(P: seq<seq<int>>, nearN: int, validPositions: seq<int>, chains: seq<seq<int>>,
                    link: seq<int>, anchor: int, idx: seq<int>)
    requires Found(P, nearN, validPositions, chains) && AllBefore(chains, link)
    requires IsChain(P, nearN, link) && anchor == P[0][link[0]]
    ensures Found(P, nearN, validPositions + [anchor], chains + [link])
    ensures Precedes(link, idx) ==> AllBefore(chains + [link], idx)
  {
    var chains' := chains + [link];
    forall a, b | 0 <= a < b < |chains'|
      ensures Precedes(chains'[a], chains'[b])
    {
      if b < |chains| {
        assert chains'[a] == chains[a] && chains'[b] == chains[b];
      } else {
        assert chains'[a] == chains[a] && chains'[b] == link;
      }
    }
    forall a | 0 <= a < |chains'| && Precedes(link, idx)
      ensures Precedes(chains'[a], idx)
    {
      if a < |chains| {
        assert chains'[a] == chains[a];
        assert Precedes(chains[a], link);
      }
    }
  }

  /** The position search of one candidate document; `P[t]` is argument t's
      positions list there. It records exactly the anchors `Anchors`
      describes. Every recorded anchor starts a chain, and the chains of
      successive matches use strictly later positions of every argument, so
      no position serves two matches. The search is not complete: a broken
      link advances the previous argument only, so some windows are never
      tried. */
  method MatchPositions(P: seq<seq<int>>, nearN: int) returns (validPositions: seq<int>, ghost chains: seq<seq<int>>)
    requires |P| >= 2
    ensures validPositions == Anchors(P, nearN)
    ensures |chains| == |validPositions|
    ensures forall m :: 0 <= m < |validPositions| ==> validPositions[m] in P[0]
    ensures forall m :: 0 <= m < |chains| ==>
              IsChain(P, nearN, chains[m]) && validPositions[m] == P[0][chains[m][0]]
    ensures forall a, b :: 0 <= a < b < |chains| ==> Precedes(chains[a], chains[b])
  {
    var k := |P|;
    var positionIdx := new int[k](_ => 0);
    assert positionIdx[..] == Zeros(k);
    var positionAvailable := k;
    validPositions, chains := [], [];
    while positionAvailable == k
      invariant positionAvailable <= k
      invariant IndicesIn(P, positionIdx[..]) && InBounds(Lengths(P), positionIdx[..])
      invariant Found(P, nearN, validPositions, chains)
      invariant positionAvailable == k ==> AllBefore(chains, positionIdx[..])
      invariant positionAvailable == k ==> MatchFrom(P, nearN, positionIdx[..], validPositions) == Anchors(P, nearN)
      invariant positionAvailable < k ==> validPositions == Anchors(P, nearN)
      decreases Remaining(Lengths(P), positionIdx[..]), positionAvailable
    {
      if |P[0]| <= positionIdx[0] {
        break;
      }
      var exhausted;
      exhausted, validPositions, chains := MatchRound(P, nearN, positionIdx, validPositions, chains);
      if exhausted {
        positionAvailable := positionAvailable - 1;
      }
    }
  }

  /** One round of the position loop from argument 0's current position:
      walk a chain; after a full chain record its anchor and bump every
      index. `exhausted` says some argument ran out of positions. */
  method MatchRound(P: seq<seq<int>>, nearN: int, positionIdx: array<int>,
                    validPositions: seq<int>, ghost chains: seq<seq<int>>)
    returns (exhausted: bool, vp: seq<int>, ghost cs: seq<seq<int>>)
    requires |P| >= 2 && positionIdx.Length == |P|
    requires IndicesIn(P, positionIdx[..]) && positionIdx[0] < |P[0]|
    requires Found(P, nearN, validPositions, chains) && AllBefore(chains, positionIdx[..])
    modifies positionIdx
    ensures IndicesIn(P, positionIdx[..]) && InBounds(Lengths(P), positionIdx[..])
    ensures Found(P, nearN, vp, cs)
    ensures Remaining(Lengths(P), positionIdx[..]) <= Remaining(Lengths(P), old(positionIdx[..]))
    ensures exhausted ==> vp == MatchFrom(P, nearN, old(positionIdx[..]), validPositions)
    ensures !exhausted ==>
              && AllBefore(cs, positionIdx[..])
              && MatchFrom(P, nearN, positionIdx[..], vp) == MatchFrom(P, nearN, old(positionIdx[..]), validPositions)
              && Remaining(Lengths(P), positionIdx[..]) < Remaining(Lengths(P), old(positionIdx[..]))
  {
    ghost var before := positionIdx[..];
    MatchFromStep(P, nearN, before, validPositions);
    var outcome, anchor, link, start := WalkChain(P, nearN, positionIdx);
    AllBeforeForward(chains, before, positionIdx[..]);
    vp, cs := validPositions, chains;
    exhausted := false;
    match outcome {
      case Exhausted =>
        exhausted := true;
      case Broken =>
      case Matched =>
        exhausted, vp, cs := RecordChain(P, nearN, positionIdx, validPositions, chains, link, anchor);
    }
    RemainingMonotone(Lengths(P), before, positionIdx[..]);
  }

  /** After a full chain `link`: record its anchor and bump every index
      past the chain; `exhausted` says some argument ran out. */
  method RecordChain(P: seq<seq<int>>, nearN: int, positionIdx: array<int>,
                     validPositions: seq<int>, ghost chains: seq<seq<int>>, ghost link: seq<int>, anchor: int)
    returns (exhausted: bool, vp: seq<int>, ghost cs: seq<seq<int>>)
    requires |P| >= 2 && positionIdx.Length == |P| && positionIdx[..] == link
    requires Found(P, nearN, validPositions, chains) && AllBefore(chains, link)
    requires IsChain(P, nearN, link) && anchor == P[0][link[0]]
    modifies positionIdx
    ensures IndicesIn(P, positionIdx[..])
    ensures vp == validPositions + [anchor] && Found(P, nearN, vp, cs)
    ensures forall t :: 0 <= t < |P| ==> link[t] <= positionIdx[t]
    ensures exhausted <==> RunsOut(P, link)
    ensures !exhausted ==> positionIdx[..] == Inc(link) && AllBefore(cs, positionIdx[..])
  {
    FoundAppend(P, nearN, validPositions, chains, link, anchor, Inc(link));
    exhausted := BumpChain(P, positionIdx, link);
    vp := validPositions + [anchor];
    cs := chains + [link];
  }

  // ---------------------------------------------------------------------
  // Document level: the result as a function

  /** The positions of document `d` in postings `ps` from index `j` on: those
      of the first posting for `d`, none if there is none. */
  function PositionsFrom(ps: seq<Posting>, j: nat, d: int): seq<int>
    decreases |ps| - j
  {
    if j >= |ps| then []
    else if ps[j].docid == d then ps[j].positions
    else PositionsFrom(ps, j + 1, d)
  }

  /** In a valid list, the positions found for the docid of posting `c` are
      that posting's. */
  lemma {:induction false} PositionsFromAt(l: InvList, j: nat, c: int)
    requires l.Valid() && j <= c < |l.postings|
    ensures PositionsFrom(l.postings, j, l.postings[c].docid) == l.postings[c].positions
    decreases c - j
  {
    if j < c {
      l.DocidOrder(j, c);
      PositionsFromAt(l, j + 1, c);
    }
  }

  /** Every argument's positions in document `d`. */
  function DocPositions(args: seq<InvList>, d: int): (P: seq<seq<int>>)
    ensures |P| == |args|
  {
    if |args| == 0 then [] else [PositionsFrom(args[0].postings, 0, d)] + DocPositions(args[1..], d)
  }

  /** Argument i's entry of `DocPositions` is its positions in `d`. */
  lemma {:induction false} DocPositionsAt(args: seq<InvList>, d: int)
    ensures |DocPositions(args, d)| == |args|
    ensures forall i :: 0 <= i < |args| ==> DocPositions(args, d)[i] == PositionsFrom(args[i].postings, 0, d)
  {
    if |args| > 0 {
      DocPositionsAt(args[1..], d);
      forall i | 1 <= i < |args|
        ensures DocPositions(args, d)[i] == PositionsFrom(args[i].postings, 0, d)
      {
        assert args[1..][i - 1] == args[i];
      }
    }
  }

  /** With every cursor on document `d`, the positions under the cursors are
      the arguments' positions in `d`. */
  lemma PositionsAtDoc(args: seq<InvList>, cur: seq<int>, d: int)
    requires WellFormedArgs(args) && |cur| == |args|
    requires forall i :: 0 <= i < |args| ==>
               0 <= cur[i] < |args[i].postings| && args[i].postings[cur[i]].docid == d
    ensures PositionsAt(args, cur) == DocPositions(args, d)
  {
    DocPositionsAt(args, d);
    forall i | 0 <= i < |args|
      ensures PositionsAt(args, cur)[i] == DocPositions(args, d)[i]
    {
      PositionsFromAt(args[i], 0, cur[i]);
    }
  }

  /** The posting NEAR/n produces for document `d`: the anchors of its
      windows, when `d` is in every argument and has at least one. */
  function NearPostingFor(args: seq<InvList>, n: int, d: Int32): seq<Posting>
    requires |args| >= 2
  {
    if !InEveryList(args, d) then []
    else
      var anchors := Anchors(DocPositions(args, d), n);
      if |anchors| > 0 then [Posting(d, anchors)] else []
  }

  /** The postings NEAR/n produces for the first `j` documents of argument 0,
      in argument 0's order. */
  function NearSpec(args: seq<InvList>, n: int, j: int): seq<Posting>
    requires |args| >= 2 && 0 <= j <= |args[0].postings|
  {
    if j == 0 then []
    else NearSpec(args, n, j - 1) + NearPostingFor(args, n, args[0].postings[j - 1].docid)
  }

  /** The result of NEAR/n over `args`. */
  function NearPostings(args: seq<InvList>, n: int): seq<Posting>
    requires |args| >= 2
  {
    NearSpec(args, n, |args[0].postings|)
  }

  /** Membership in the first `j` documents' postings, stated without the
      recursion. */
  lemma {:induction false} NearSpecMember(args: seq<InvList>, n: int, j: int, p: Posting)
    requires |args| >= 2 && 0 <= j <= |args[0].postings|
    ensures p in NearSpec(args, n, j) <==>
              && (exists u :: 0 <= u < j && args[0].postings[u].docid == p.docid)
              && InEveryList(args, p.docid)
              && p.positions == Anchors(DocPositions(args, p.docid), n)
              && |p.positions| > 0
  {
    if j > 0 {
      NearSpecMember(args, n, j - 1, p);
    }
  }

  /** A posting is in the result exactly when its document is in every
      argument and its positions are that document's anchors, of which there
      is at least one. */
  lemma NearPostingsMember(args: seq<InvList>, n: int, p: Posting)
    requires |args| >= 2
    ensures p in NearPostings(args, n) <==>
              && InEveryList(args, p.docid)
              && p.positions == Anchors(DocPositions(args, p.docid), n)
              && |p.positions| > 0
  {
    NearSpecMember(args, n, |args[0].postings|, p);
  }

  /** Documents of argument 0 from `j` on that argument `e` lacks add
      nothing. */
  lemma {:induction false} NearSpecTail(args: seq<InvList>, n: int, j: int, k: int, e: int)
    requires |args| >= 2 && 0 <= j <= k <= |args[0].postings| && 0 <= e < |args|
    requires forall u :: j <= u < |args[0].postings| ==> !args[e].Contains(args[0].postings[u].docid)
    ensures NearSpec(args, n, k) == NearSpec(args, n, j)
    decreases k
  {
    if j < k {
      NearSpecSkip(args, n, k, e);
      NearSpecTail(args, n, j, k - 1, e);
    }
  }

  /** Argument 0's document k-1, missing from argument `e`, adds nothing. */
  lemma NearSpecSkip(args: seq<InvList>, n: int, k: int, e: int)
    requires |args| >= 2 && 0 < k <= |args[0].postings| && 0 <= e < |args|
    requires !args[e].Contains(args[0].postings[k - 1].docid)
    ensures NearSpec(args, n, k) == NearSpec(args, n, k - 1)
  {
    NotEverywhere(args, n, args[0].postings[k - 1].docid, e);
  }

  /** A document missing from some argument yields no posting. */
  lemma NotEverywhere(args: seq<InvList>, n: int, d: Int32, e: int)
    requires |args| >= 2 && 0 <= e < |args| && !args[e].Contains(d)
    ensures NearPostingFor(args, n, d) == []
  {
  }
  /** Every anchor `MatchFrom` records starts a chain, and the chains of
      successive anchors use strictly later positions of every argument. */
  lemma {:induction false} MatchFromFound(P: seq<seq<int>>, n: int, idx: seq<int>, vp: seq<int>,
                                          chains: seq<seq<int>>) returns (cs: seq<seq<int>>)
    requires |P| >= 2 && IndicesIn(P, idx)
    requires Found(P, n, vp, chains) && AllBefore(chains, idx)
    ensures Found(P, n, MatchFrom(P, n, idx, vp), cs)
    decreases Remaining(Lengths(P), idx)
  {
    cs := chains;
    if idx[0] < |P[0]| {
      var anchor := P[0][idx[0]];
      var w := WalkFrom(P, n, idx, 1, anchor);
      MatchFromStep(P, n, idx, vp);
      WalkOutcomes(P, n, idx);
      WalkForward(P, n, idx, 1, anchor);
      AllBeforeForward(chains, idx, w.idx);
      if w.outcome == Broken {
        RemainingMonotone(Lengths(P), idx, w.idx);
        cs := MatchFromFound(P, n, w.idx, vp, chains);
      } else if w.outcome == Matched {
        FoundAppend(P, n, vp, chains, w.idx, anchor, Inc(w.idx));
        cs := chains + [w.idx];
        if !RunsOut(P, w.idx) {
          RemainingMonotone(Lengths(P), idx, Inc(w.idx));
          cs := MatchFromFound(P, n, Inc(w.idx), vp + [anchor], cs);
        }
      }
    }
  }

  /** The index of argument `l`'s posting for document `d`. */
  ghost function PostingIndex(l: InvList, d: int): (j: int)
    requires l.Contains(d)
    ensures 0 <= j < |l.postings| && l.postings[j].docid == d
  {
    var j :| 0 <= j < |l.postings| && l.postings[j].docid == d; j
  }

  /** The posting produced for document `d`, if any, is for `d`, which is
      in every argument, and is made of window anchors. */
  lemma NearPostingForIsNear(args: seq<InvList>, n: int, d: Int32)
    requires WellFormedArgs(args)
    ensures forall p :: p in NearPostingFor(args, n, d) ==>
              p.docid == d && InEveryList(args, d) && IsNearPosting(args, n, p)
  {
    if InEveryList(args, d) {
      var P := DocPositions(args, d);
      var anchors := Anchors(P, n);
      if |anchors| > 0 {
        var cur := seq(|args|, i requires 0 <= i < |args| && args[i].Contains(d) => PostingIndex(args[i], d));
        PositionsAtDoc(args, cur, d);
        var chains := MatchFromFound(P, n, Zeros(|P|), [], []);
        AnchorsStartWindows(args, cur, d, n, anchors, chains);
      }
    }
  }

  /** The postings for the first `j` documents of argument 0 form a result
      list of NEAR/n, all for documents up to argument 0's `j`-th. */
  lemma {:induction false} NearSpecValid(args: seq<InvList>, n: int, j: int)
    requires WellFormedArgs(args) && 0 <= j <= |args[0].postings|
    ensures NearResult(args, n, InvList(args[0].field, NearSpec(args, n, j)))
    ensures forall m :: 0 <= m < |NearSpec(args, n, j)| ==>
              0 < j && NearSpec(args, n, j)[m].docid <= args[0].postings[j - 1].docid
  {
    if j > 0 {
      NearSpecValid(args, n, j - 1);
      var d := args[0].postings[j - 1].docid;
      var r, q := NearSpec(args, n, j - 1), NearPostingFor(args, n, d);
      NearPostingForIsNear(args, n, d);
      if j > 1 {
        args[0].DocidOrder(j - 2, j - 1);
      }
      NearAppend(args, n, r, q, d);
    }
  }

  /** Appending the posting for a document `d` beyond every docid of a
      result list keeps it one. */
  lemma NearAppend(args: seq<InvList>, n: int, r: seq<Posting>, q: seq<Posting>, d: Int32)
    requires WellFormedArgs(args) && NearResult(args, n, InvList(args[0].field, r))
    requires forall m :: 0 <= m < |r| ==> r[m].docid < d
    requires |q| <= 1 && forall p :: p in q ==> p.docid == d && InEveryList(args, d) && IsNearPosting(args, n, p)
    ensures NearResult(args, n, InvList(args[0].field, r + q))
    ensures forall m :: 0 <= m < |r + q| ==> (r + q)[m].docid <= d
  {
    var ps := r + q;
    forall m | 0 <= m < |ps|
      ensures InEveryList(args, ps[m].docid) && IsNearPosting(args, n, ps[m]) && ps[m].docid <= d
      ensures StrictlyIncreasing(ps[m].positions)
    {
      if m < |r| {
        assert ps[m] == r[m];
      } else {
        assert ps[m] == q[m - |r|] && q[m - |r|] in q;
      }
    }
    forall k | 0 < k < |ps|
      ensures ps[k - 1].docid < ps[k].docid
    {
      assert ps[k - 1] == r[k - 1];
      if k < |r| {
        assert ps[k] == r[k];
      } else {
        assert ps[k] == q[0] && q[0] in q;
      }
    }
  }


  // ---------------------------------------------------------------------
  // Document level: the loops

  /** The chains found in a candidate document, on which every cursor sits,
      turn into a posting whose positions start NEAR/n windows. */
  lemma AnchorsStartWindows(args: seq<InvList>, cur: seq<int>, d: Int32, n: int,
                            validPositions: seq<int>, chains: seq<seq<int>>)
    requires WellFormedArgs(args)
    requires |cur| == |args|
    requires forall i :: 0 <= i < |args| ==>
               0 <= cur[i] < |args[i].postings| && args[i].postings[cur[i]].docid == d
    requires |validPositions| > 0 && |chains| == |validPositions|
    requires forall m :: 0 <= m < |chains| ==>
               IsChain(PositionsAt(args, cur), n, chains[m]) &&
               validPositions[m] == PositionsAt(args, cur)[0][chains[m][0]]
    requires forall a, b :: 0 <= a < b < |chains| ==> Precedes(chains[a], chains[b])
    ensures IsNearPosting(args, n, Posting(d, validPositions))
  {
    forall u | 0 < u < |validPositions|
      ensures validPositions[u - 1] < validPositions[u]
    {
      assert Precedes(chains[u - 1], chains[u]);
      assert chains[u - 1][0] < chains[u][0];
      assert args[0].Valid();
      IncreasingPair(args[0].postings[cur[0]].positions, chains[u - 1][0], chains[u][0]);
    }
    forall u | 0 <= u < |validPositions|
      ensures exists w :: NearWindow(args, d, n, w) && |w| > 0 && w[0] == validPositions[u]
    {
      ChainWindow(args, cur, d, n, chains[u]);
    }
  }

  /** The positions a chain picks, in a document on which every cursor sits,
      form a NEAR/n window of that document starting at the chain's anchor. */
  lemma ChainWindow(args: seq<InvList>, cur: seq<int>, d: Int32, n: int, c: seq<int>)
    requires |args| >= 2 && |cur| == |args|
    requires forall i :: 0 <= i < |args| ==>
               0 <= cur[i] < |args[i].postings| && args[i].postings[cur[i]].docid == d
    requires IsChain(PositionsAt(args, cur), n, c)
    ensures exists w :: NearWindow(args, d, n, w) && |w| > 0 && w[0] == PositionsAt(args, cur)[0][c[0]]
  {
    var P := PositionsAt(args, cur);
    var k := |args|;
    var w := seq(k, t requires 0 <= t < k => if 0 <= c[t] < |P[t]| then P[t][c[t]] else 0);
    forall t | 0 <= t < k
      ensures OccursAt(args[t], d, w[t])
    {
      assert w[t] == args[t].postings[cur[t]].positions[c[t]];
    }
    assert NearWindow(args, d, n, w);
  }

  /** Cursor `s[i]` lies inside argument i's postings or just past them. */
  predicate CursorsIn(args: seq<InvList>, s: seq<int>)
  {
    |s| == |args| && forall i :: 0 <= i < |s| ==> 0 <= s[i] <= |args[i].postings|
  }

  /** Every cursor sits on an entry of its list. */
  predicate OnEntries(args: seq<InvList>, s: seq<int>)
  {
    |s| == |args| && forall i :: 0 <= i < |args| ==> 0 <= s[i] < |args[i].postings|
  }

  /** Some cursor has run off the end of its list. */
  predicate SomeExhausted(args: seq<InvList>, s: seq<int>)
  {
    |s| == |args| && exists i :: 0 <= i < |args| && s[i] == |args[i].postings|
  }

  /** No cursor of `s'` is behind its counterpart in `s`. */
  predicate Forward(s: seq<int>, s': seq<int>)
  {
    |s| == |s'| && forall i :: 0 <= i < |s| ==> s[i] <= s'[i]
  }

  /** Some cursor of `s'` is ahead of its counterpart in `s`. */
  predicate MovedOn(s: seq<int>, s': seq<int>)
  {
    |s| == |s'| && exists i :: 0 <= i < |s| && s[i] < s'[i]
  }

  /** Every cursor `s[i]` sits on a posting for document `d`. */
  predicate AllOn(args: seq<InvList>, s: seq<int>, d: int)
  {
    |s| == |args| && forall i :: 0 <= i < |args| ==> 0 <= s[i] < |args[i].postings| && args[i].postings[s[i]].docid == d
  }

  /** Is every cursor on `nextDocid`? Each cursor in turn is first moved past
      smaller docids; the scan stops after the first cursor that is off
      `nextDocid` or exhausted (then `exhausted` holds). `stop` counts the
      cursors scanned; the others stay where they were. */
  method CheckCandidate(args: seq<InvList>, nextDoc: array<int>, nextDocid: Int32)
    returns (findNextDocid: bool, exhausted: bool, ghost stop: int)
    requires nextDoc.Length == |args|
    requires forall i :: 0 <= i < |args| ==> 0 <= nextDoc[i] < |args[i].postings|
    modifies nextDoc
    ensures CursorsIn(args, nextDoc[..])
    ensures forall i :: 0 <= i < |args| ==> old(nextDoc[i]) <= nextDoc[i]
    ensures forall i, u :: 0 <= i < |args| && old(nextDoc[i]) <= u < nextDoc[i] ==>
              args[i].postings[u].docid < nextDocid
    ensures 0 <= stop <= |args|
    ensures forall i :: 0 <= i < stop ==>
              nextDoc[i] == |args[i].postings| || nextDocid <= args[i].postings[nextDoc[i]].docid
    ensures forall i :: stop <= i < |args| ==> nextDoc[i] == old(nextDoc[i])
    ensures forall i :: 0 <= i < stop - 1 ==>
              nextDoc[i] < |args[i].postings| && args[i].postings[nextDoc[i]].docid == nextDocid
    ensures stop < |args| ==>
              0 < stop && (nextDoc[stop - 1] == |args[stop - 1].postings|
                           || args[stop - 1].postings[nextDoc[stop - 1]].docid != nextDocid)
    ensures exhausted <==> 0 < stop && nextDoc[stop - 1] == |args[stop - 1].postings|
    ensures exhausted ==> exists i :: 0 <= i < |args| && nextDoc[i] == |args[i].postings|
    ensures !exhausted ==> forall i :: 0 <= i < |args| ==> nextDoc[i] < |args[i].postings|
    ensures findNextDocid <==> AllOn(args, nextDoc[..], nextDocid)
  {
    findNextDocid, exhausted := true, false;
    var i := 0;
    stop := 0;
    while i < |args|
      invariant 0 <= i <= |args| && findNextDocid && !exhausted && stop == i
      invariant forall t :: 0 <= t < |args| ==> old(nextDoc[t]) <= nextDoc[t] < |args[t].postings|
      invariant forall t :: i <= t < |args| ==> nextDoc[t] == old(nextDoc[t])
      invariant forall t, u :: 0 <= t < |args| && old(nextDoc[t]) <= u < nextDoc[t] ==>
                  args[t].postings[u].docid < nextDocid
      invariant forall t :: 0 <= t < i ==> args[t].postings[nextDoc[t]].docid == nextDocid
    {
      SkipBelow(args, nextDoc, i, nextDocid);
      stop := i + 1;
      if nextDoc[i] < |args[i].postings| && args[i].GetDocid(nextDoc[i]) != nextDocid {
        findNextDocid := false;
      }
      if nextDoc[i] >= |args[i].postings| {
        exhausted := true;
        findNextDocid := false;
        break;
      }
      if !findNextDocid {
        break;
      }
      i := i + 1;
    }
  }

  /** The inner scan of `CheckCandidate`: move cursor `i` over every entry
      whose docid is below `nextDocid`, stopping past the end of its list or
      at a docid no smaller. No other cursor moves. */
  method SkipBelow(args: seq<InvList>, nextDoc: array<int>, i: int, nextDocid: Int32)
    requires nextDoc.Length == |args| && CursorsIn(args, nextDoc[..]) && 0 <= i < |args|
    modifies nextDoc
    ensures CursorsIn(args, nextDoc[..])
    ensures forall t :: 0 <= t < |args| && t != i ==> nextDoc[t] == old(nextDoc[t])
    ensures old(nextDoc[i]) <= nextDoc[i]
    ensures forall u :: old(nextDoc[i]) <= u < nextDoc[i] ==> args[i].postings[u].docid < nextDocid
    ensures nextDoc[i] == |args[i].postings| || nextDocid <= args[i].postings[nextDoc[i]].docid
  {
    while nextDoc[i] < |args[i].postings| && args[i].GetDocid(nextDoc[i]) < nextDocid
      invariant CursorsIn(args, nextDoc[..])
      invariant forall t :: 0 <= t < |args| && t != i ==> nextDoc[t] == old(nextDoc[t])
      invariant old(nextDoc[i]) <= nextDoc[i]
      invariant forall u :: old(nextDoc[i]) <= u < nextDoc[i] ==> args[i].postings[u].docid < nextDocid
      decreases |args[i].postings| - nextDoc[i]
    {
      nextDoc[i] := nextDoc[i] + 1;
    }
  }

  /** The inner scan of `AdvancePast`: move cursor `i` over every entry whose
      docid is at most `nextDocid`, stopping past the end of its list or at a
      larger docid. No other cursor moves. */
  method SkipPast(args: seq<InvList>, nextDoc: array<int>, i: int, nextDocid: Int32)
    requires nextDoc.Length == |args| && CursorsIn(args, nextDoc[..]) && 0 <= i < |args|
    modifies nextDoc
    ensures CursorsIn(args, nextDoc[..])
    ensures forall t :: 0 <= t < |args| && t != i ==> nextDoc[t] == old(nextDoc[t])
    ensures old(nextDoc[i]) <= nextDoc[i]
    ensures forall u :: old(nextDoc[i]) <= u < nextDoc[i] ==> args[i].postings[u].docid <= nextDocid
    ensures nextDoc[i] == |args[i].postings| || nextDocid < args[i].postings[nextDoc[i]].docid
  {
    while nextDoc[i] < |args[i].postings| && args[i].GetDocid(nextDoc[i]) <= nextDocid
      invariant CursorsIn(args, nextDoc[..])
      invariant forall t :: 0 <= t < |args| && t != i ==> nextDoc[t] == old(nextDoc[t])
      invariant old(nextDoc[i]) <= nextDoc[i]
      invariant forall u :: old(nextDoc[i]) <= u < nextDoc[i] ==> args[i].postings[u].docid <= nextDocid
      decreases |args[i].postings| - nextDoc[i]
    {
      nextDoc[i] := nextDoc[i] + 1;
    }
  }

  /** Moves every cursor in turn past `nextDocid`, stopping after the first
      cursor that runs off its list (then `exhausted` holds). `stop` counts
      the cursors moved; the others stay where they were. */
  method AdvancePast(args: seq<InvList>, nextDoc: array<int>, nextDocid: Int32)
    returns (exhausted: bool, ghost stop: int, ghost before: seq<int>)
    requires nextDoc.Length == |args| && CursorsIn(args, nextDoc[..])
    modifies nextDoc
    ensures before == old(nextDoc[..])
    ensures Advanced(args, before, nextDoc[..], nextDocid, stop)
    ensures exhausted <==> 0 < stop && nextDoc[stop - 1] == |args[stop - 1].postings|
    ensures !exhausted ==> stop == |args|
  {
    before := nextDoc[..];
    exhausted := false;
    var i := 0;
    stop := 0;
    while i < |args|
      invariant 0 <= i <= |args| && !exhausted && stop == i
      invariant CursorsIn(args, nextDoc[..])
      invariant forall t :: 0 <= t < |args| ==> old(nextDoc[t]) <= nextDoc[t]
      invariant forall t :: i <= t < |args| ==> nextDoc[t] == old(nextDoc[t])
      invariant forall t, u :: 0 <= t < |args| && old(nextDoc[t]) <= u < nextDoc[t] ==>
                  args[t].postings[u].docid <= nextDocid
      invariant forall t :: 0 <= t < i ==>
                  nextDoc[t] < |args[t].postings| && nextDocid < args[t].postings[nextDoc[t]].docid
    {
      SkipPast(args, nextDoc, i, nextDocid);
      stop := i + 1;
      if nextDoc[i] >= |args[i].postings| {
        exhausted := true;
        break;
      }
      i := i + 1;
    }
    forall t | 0 <= t < |args|
      ensures before[t] <= nextDoc[..][t]
      ensures forall u :: before[t] <= u < nextDoc[..][t] ==> args[t].postings[u].docid <= nextDocid
      ensures t < stop ==> nextDoc[..][t] == |args[t].postings| || nextDocid < args[t].postings[nextDoc[..][t]].docid
      ensures t < stop - 1 ==> nextDoc[..][t] < |args[t].postings|
      ensures stop <= t ==> nextDoc[..][t] == before[t]
    {
      assert before[t] == old(nextDoc[t]) && nextDoc[..][t] == nextDoc[t];
    }
  }

  /** What the result list of NEAR/n is: in argument 0's field, valid,
      every document in every argument, every posting made of window
      anchors. */
  ghost predicate NearResult(args: seq<InvList>, n: int, r: InvList)
    requires |args| > 0
  {
    && r.field == args[0].field
    && r.Valid()
    && forall m :: 0 <= m < |r.postings| ==>
         InEveryList(args, r.postings[m].docid) && IsNearPosting(args, n, r.postings[m])
  }

  /** The last entry each cursor has passed has a smaller docid than every
      entry under a cursor: the lists being sorted, no document below the
      cursors is left to examine (`PassedBelow`). */
  ghost predicate Behind(args: seq<InvList>, s: seq<int>)
    requires CursorsIn(args, s)
  {
    forall i, j {:trigger PassedDocid(args, s, i), CursorDocid(args, s, j)} ::
      0 <= i < |args| && 0 < s[i] && 0 <= j < |args| && s[j] < |args[j].postings| ==>
        PassedDocid(args, s, i) < CursorDocid(args, s, j)
  }

  /** The docid of the last entry cursor `s[i]` has passed. */
  function PassedDocid(args: seq<InvList>, s: seq<int>, i: int): Int32
    requires CursorsIn(args, s) && 0 <= i < |args| && 0 < s[i]
  {
    args[i].postings[s[i] - 1].docid
  }

  /** The docid under cursor `s[j]`. */
  function CursorDocid(args: seq<InvList>, s: seq<int>, j: int): Int32
    requires CursorsIn(args, s) && 0 <= j < |args| && s[j] < |args[j].postings|
  {
    args[j].postings[s[j]].docid
  }

  /** Under `Behind`, every entry argument `e` has passed lies below the
      entry under cursor `j`. */
  lemma PassedBelow(args: seq<InvList>, s: seq<int>, e: int, j: int)
    requires WellFormedArgs(args) && CursorsIn(args, s) && Behind(args, s)
    requires 0 <= e < |args| && 0 <= j < |args| && s[j] < |args[j].postings|
    ensures forall u :: 0 <= u < s[e] ==> args[e].postings[u].docid < args[j].postings[s[j]].docid
  {
    if 0 < s[e] {
      assert PassedDocid(args, s, e) < CursorDocid(args, s, j);
    }
    forall u | 0 <= u < s[e] - 1
      ensures args[e].postings[u].docid < args[e].postings[s[e] - 1].docid
    {
      args[e].DocidOrder(u, s[e] - 1);
    }
  }

  /** A docid strictly between a valid list's passed entries and the entry
      under its cursor is not in the list. */
  lemma NotInList(l: InvList, c: int, d: int)
    requires l.Valid() && 0 <= c < |l.postings|
    requires forall u :: 0 <= u < c ==> l.postings[u].docid < d
    requires d < l.postings[c].docid
    ensures !l.Contains(d)
  {
    forall j | c < j < |l.postings|
      ensures d < l.postings[j].docid
    {
      l.DocidOrder(c, j);
    }
  }

  /** A valid list's cursor on docid `d` that moves past entries no larger
      than `d`, stopping past the end or at a larger docid, moves exactly
      one entry. */
  lemma PassOne(l: InvList, c: int, c': int, d: int)
    requires l.Valid() && 0 <= c < |l.postings| && l.postings[c].docid == d
    requires c <= c' <= |l.postings|
    requires forall u :: c <= u < c' ==> l.postings[u].docid <= d
    requires c' == |l.postings| || d < l.postings[c'].docid
    ensures c' == c + 1
  {
    if c + 1 < c' {
      l.DocidOrder(c, c + 1);
    }
  }

  /** The position search of a candidate document `d`, on which every cursor
      `cur` sits: exactly the anchors of `d`'s windows, each the start of a
      NEAR/n window, and `d` is in every argument. */
  method SearchDocument(args: seq<InvList>, nearN: int, cur: seq<int>, d: Int32) returns (validPositions: seq<int>)
    requires WellFormedArgs(args) && |cur| == |args|
    requires forall i :: 0 <= i < |args| ==>
               0 <= cur[i] < |args[i].postings| && args[i].postings[cur[i]].docid == d
    ensures InEveryList(args, d)
    ensures validPositions == Anchors(DocPositions(args, d), nearN)
    ensures |validPositions| > 0 ==> IsNearPosting(args, nearN, Posting(d, validPositions))
  {
    var P := PositionsAt(args, cur);
    PositionsAtDoc(args, cur, d);
    ghost var chains;
    validPositions, chains := MatchPositions(P, nearN);
    if |validPositions| > 0 {
      AnchorsStartWindows(args, cur, d, nearN, validPositions, chains);
    }
    forall i | 0 <= i < |args|
      ensures args[i].Contains(d)
    {
      assert args[i].postings[cur[i]].docid == d;
    }
  }

  /** The first half of a round: test whether every cursor sits on
      `nextDocid` and, if so, search that document's positions and append
      its posting, if any. Nothing else is appended. */
  method ExamineCandidate(args: seq<InvList>, nearN: int, nextDoc: array<int>, result: InvList, nextDocid: Int32)
    returns (result': InvList, exhausted: bool, ghost stop: int)
    requires WellFormedArgs(args) && nextDoc.Length == |args|
    requires forall i :: 0 <= i < |args| ==> 0 <= nextDoc[i] < |args[i].postings|
    modifies nextDoc
    ensures CursorsIn(args, nextDoc[..])
    ensures forall i :: 0 <= i < |args| ==> old(nextDoc[i]) <= nextDoc[i]
    ensures forall i, u :: 0 <= i < |args| && old(nextDoc[i]) <= u < nextDoc[i] ==>
              args[i].postings[u].docid < nextDocid
    ensures 0 <= stop <= |args|
    ensures forall i :: 0 <= i < stop ==>
              nextDoc[i] == |args[i].postings| || nextDocid <= args[i].postings[nextDoc[i]].docid
    ensures forall i :: stop <= i < |args| ==> nextDoc[i] == old(nextDoc[i])
    ensures forall i :: 0 <= i < stop - 1 ==>
              nextDoc[i] < |args[i].postings| && args[i].postings[nextDoc[i]].docid == nextDocid
    ensures stop < |args| ==>
              0 < stop && (nextDoc[stop - 1] == |args[stop - 1].postings|
                           || args[stop - 1].postings[nextDoc[stop - 1]].docid != nextDocid)
    ensures exhausted <==> 0 < stop && nextDoc[stop - 1] == |args[stop - 1].postings|
    ensures exhausted ==> exists i :: 0 <= i < |args| && nextDoc[i] == |args[i].postings|
    ensures !exhausted ==> forall i :: 0 <= i < |args| ==> nextDoc[i] < |args[i].postings|
    ensures AllOn(args, nextDoc[..], nextDocid) ==>
              result'.postings == result.postings + NearPostingFor(args, nearN, nextDocid)
    ensures !AllOn(args, nextDoc[..], nextDocid) ==> result' == result
    ensures result'.field == result.field
  {
    result' := result;
    var findNextDocid;
    findNextDocid, exhausted, stop := CheckCandidate(args, nextDoc, nextDocid);
    if findNextDocid {
      var validPositions := SearchDocument(args, nearN, nextDoc[..], nextDocid);
      if |validPositions| > 0 {
        result' := result'.AppendPosting(nextDocid, validPositions);
      }
    }
  }

  /** One round of the document loop: take the smallest current docid,
      examine it, then move every cursor past it. `daatAvailable` drops by
      one for each scan that ran a cursor off its list. While no cursor is
      exhausted the result holds the postings of argument 0's documents
      before its cursor; once one is, it holds them all. */
  method DocumentPass(args: seq<InvList>, nearN: int, nextDoc: array<int>, result: InvList, daatAvailable: int)
    returns (result': InvList, daatAvailable': int)
    requires WellFormedArgs(args) && nextDoc.Length == |args|
    requires OnEntries(args, nextDoc[..]) && Behind(args, nextDoc[..])
    requires result.postings == NearSpec(args, nearN, nextDoc[0])
    modifies nextDoc
    ensures CursorsIn(args, nextDoc[..]) && Forward(old(nextDoc[..]), nextDoc[..])
    ensures daatAvailable' <= daatAvailable
    ensures result.postings <= result'.postings
    ensures daatAvailable' == daatAvailable ==>
              && MovedOn(old(nextDoc[..]), nextDoc[..])
              && OnEntries(args, nextDoc[..]) && Behind(args, nextDoc[..])
              && result'.postings == NearSpec(args, nearN, nextDoc[0])
    ensures daatAvailable' < daatAvailable ==>
              SomeExhausted(args, nextDoc[..]) && result'.postings == NearPostings(args, nearN)
    ensures result'.field == result.field
  {
    daatAvailable' := daatAvailable;
    ghost var start := nextDoc[..];
    forall i | 0 <= i < |args|
      ensures 0 <= nextDoc[i] < |args[i].postings|
    {
      assert nextDoc[i] == start[i];
    }
    var nextDocid := SmallestCurrentDocid(args, nextDoc);
    ghost var i0 :| 0 <= i0 < |args| && nextDocid == args[i0].postings[nextDoc[i0]].docid;
    assert nextDocid == CursorDocid(args, start, i0);
    var exhausted;
    result', exhausted := ExamineSmallest(args, nearN, nextDoc, result, nextDocid);
    if exhausted {
      daatAvailable' := daatAvailable' - 1;
    }
    exhausted := PassCandidate(args, nearN, nextDoc, result'.postings, nextDocid);
    if exhausted {
      daatAvailable' := daatAvailable' - 1;
    }
  }

  /** `d` is the smallest docid under the cursors `s`, all on entries. */
  ghost predicate IsSmallest(args: seq<InvList>, s: seq<int>, d: int)
  {
    && OnEntries(args, s)
    && (forall i :: 0 <= i < |args| ==> d <= CursorDocid(args, s, i))
    && (exists i :: 0 <= i < |args| && d == CursorDocid(args, s, i))
  }

  /** The second half of a round: `AdvancePast` on the smallest docid under
      the cursors, with what it means for the result `r` built so far. */
  method PassCandidate(args: seq<InvList>, nearN: int, nextDoc: array<int>, r: seq<Posting>, nextDocid: Int32)
    returns (exhausted: bool)
    requires WellFormedArgs(args) && nextDoc.Length == |args|
    requires IsSmallest(args, nextDoc[..], nextDocid) && Behind(args, nextDoc[..])
    requires args[0].postings[nextDoc[0]].docid == nextDocid ==>
               r == NearSpec(args, nearN, nextDoc[0]) + NearPostingFor(args, nearN, nextDocid)
    requires args[0].postings[nextDoc[0]].docid != nextDocid ==> r == NearSpec(args, nearN, nextDoc[0])
    modifies nextDoc
    ensures CursorsIn(args, nextDoc[..]) && Forward(old(nextDoc[..]), nextDoc[..])
    ensures !exhausted ==>
              && MovedOn(old(nextDoc[..]), nextDoc[..])
              && OnEntries(args, nextDoc[..]) && Behind(args, nextDoc[..])
              && r == NearSpec(args, nearN, nextDoc[0])
    ensures exhausted ==> SomeExhausted(args, nextDoc[..]) && r == NearPostings(args, nearN)
  {
    ghost var stop, start;
    exhausted, stop, start := AdvancePast(args, nextDoc, nextDocid);
    PassHead(args, nearN, start, nextDoc[..], nextDocid, stop, r);
    PassedUpTo(args, start, nextDoc[..], nextDocid, stop);
    if exhausted {
      PassExhausted(args, nearN, start, nextDoc[..], nextDocid, stop);
    }
    if !exhausted {
      ghost var i0 :| 0 <= i0 < |args| && nextDocid == CursorDocid(args, start, i0);
      assert start[i0] < nextDoc[..][i0];
    }
  }

  /** `ExamineCandidate` on the smallest docid under the cursors moves no
      cursor, exhausts none, and appends the posting of that docid exactly
      when argument 0's cursor is on it. */
  method ExamineSmallest(args: seq<InvList>, nearN: int, nextDoc: array<int>, result: InvList, nextDocid: Int32)
    returns (result': InvList, exhausted: bool)
    requires WellFormedArgs(args) && nextDoc.Length == |args|
    requires IsSmallest(args, nextDoc[..], nextDocid) && Behind(args, nextDoc[..])
    modifies nextDoc
    ensures nextDoc[..] == old(nextDoc[..]) && !exhausted
    ensures args[0].postings[nextDoc[0]].docid == nextDocid ==>
              result'.postings == result.postings + NearPostingFor(args, nearN, nextDocid)
    ensures args[0].postings[nextDoc[0]].docid != nextDocid ==> result'.postings == result.postings
    ensures result'.field == result.field
  {
    ghost var start := nextDoc[..];
    forall i | 0 <= i < |args|
      ensures 0 <= nextDoc[i] < |args[i].postings|
    {
      assert nextDoc[i] == start[i];
    }
    ghost var stop;
    result', exhausted, stop := ExamineCandidate(args, nearN, nextDoc, result, nextDocid);
    NothingBelow(args, start, nextDoc[..], nextDocid);
    CandidateStep(args, nearN, start, nextDocid, result.postings, result'.postings);
  }

  /** A scan from `s` that passes only docids below `d`, when no docid under
      `s` is below `d`, moves no cursor. */
  lemma NothingBelow(args: seq<InvList>, s: seq<int>, s': seq<int>, d: int)
    requires IsSmallest(args, s, d) && |s'| == |args|
    requires forall i :: 0 <= i < |args| ==> s[i] <= s'[i] <= |args[i].postings|
    requires forall i, u :: 0 <= i < |args| && s[i] <= u < s'[i] ==> args[i].postings[u].docid < d
    ensures s' == s
  {
    forall i | 0 <= i < |args|
      ensures s'[i] == s[i]
    {
      assert d <= CursorDocid(args, s, i);
      if s[i] < s'[i] {
        assert false;
      }
    }
  }

  /** Examining docid `d`, the smallest under the cursors `s`, appends the
      posting of `d` when argument 0's cursor is on it and nothing
      otherwise. */
  lemma CandidateStep(args: seq<InvList>, n: int, s: seq<int>, d: Int32, before: seq<Posting>, after: seq<Posting>)
    requires WellFormedArgs(args) && IsSmallest(args, s, d) && Behind(args, s)
    requires AllOn(args, s, d) ==> after == before + NearPostingFor(args, n, d)
    requires !AllOn(args, s, d) ==> after == before
    ensures args[0].postings[s[0]].docid == d ==> after == before + NearPostingFor(args, n, d)
    ensures args[0].postings[s[0]].docid != d ==> after == before
  {
    if args[0].postings[s[0]].docid == d && !AllOn(args, s, d) {
      var e :| 0 <= e < |args| && args[e].postings[s[e]].docid != d;
      assert d <= CursorDocid(args, s, e);
      PassedBelow(args, s, e, 0);
      NotInList(args[e], s[e], d);
      NotEverywhere(args, n, d, e);
    }
  }

  /** Moving the cursors from `s` to `s'` past docid `d`, the smallest under
      `s`: argument 0's cursor passes `d`'s posting if it was on it, so the
      result `r` built so far is the postings of argument 0's documents
      before its new cursor. */
  lemma PassHead(args: seq<InvList>, n: int, s: seq<int>, s': seq<int>, d: Int32, stop: int, r: seq<Posting>)
    requires PassFrame(args, s, s', d, stop)
    requires args[0].postings[s[0]].docid == d ==> r == NearSpec(args, n, s[0]) + NearPostingFor(args, n, d)
    requires args[0].postings[s[0]].docid != d ==> r == NearSpec(args, n, s[0])
    ensures r == NearSpec(args, n, s'[0])
  {
    if args[0].postings[s[0]].docid == d {
      PassOne(args[0], s[0], s'[0], d);
    } else {
      assert d <= CursorDocid(args, s, 0);
      assert s'[0] == s[0];
    }
  }

  /** After that move, once the last cursor moved is exhausted, none of
      argument 0's documents from its new cursor on can be in every
      argument: nothing is left to add. */
  lemma PassExhausted(args: seq<InvList>, n: int, s: seq<int>, s': seq<int>, d: Int32, stop: int)
    requires PassFrame(args, s, s', d, stop)
    requires s'[stop - 1] == |args[stop - 1].postings|
    ensures NearPostings(args, n) == NearSpec(args, n, s'[0])
  {
    PassedUpTo(args, s, s', d, stop);
    PassTail(args, n, s'[0], d, stop - 1);
  }

  /** What moving the cursors from `s` to `s'` past docid `d`, the smallest
      under `s`, guarantees: each cursor passes entries no larger than `d`,
      the first `stop` stop past the end or beyond `d`, the rest stay, and
      the scan stops early only at an exhausted cursor. */
  ghost predicate PassFrame(args: seq<InvList>, s: seq<int>, s': seq<int>, d: Int32, stop: int)
  {
    && WellFormedArgs(args) && IsSmallest(args, s, d) && Behind(args, s)
    && Advanced(args, s, s', d, stop)
    && 0 < stop
    && (stop < |args| ==> s'[stop - 1] == |args[stop - 1].postings|)
  }

  /** What `AdvancePast` does to the cursors, from `s` to `s'`: each moves
      forward over entries no larger than `d`; the first `stop` end beyond
      `d`, the last of them possibly past the end of its list instead; the
      rest stay. */
  ghost predicate Advanced(args: seq<InvList>, s: seq<int>, s': seq<int>, d: int, stop: int)
  {
    && CursorsIn(args, s) && CursorsIn(args, s')
    && (forall i :: 0 <= i < |args| ==> s[i] <= s'[i])
    && (forall i, u :: 0 <= i < |args| && s[i] <= u < s'[i] ==> args[i].postings[u].docid <= d)
    && 0 <= stop <= |args|
    && (forall i :: 0 <= i < stop ==> s'[i] == |args[i].postings| || d < args[i].postings[s'[i]].docid)
    && (forall i :: 0 <= i < stop - 1 ==> s'[i] < |args[i].postings|)
    && (forall i :: stop <= i < |args| ==> s'[i] == s[i])
  }

  /** After the pass every entry passed is no larger than `d`, and while no
      cursor is exhausted the cursors are `Behind`. */
  lemma PassedUpTo(args: seq<InvList>, s: seq<int>, s': seq<int>, d: Int32, stop: int)
    requires PassFrame(args, s, s', d, stop)
    ensures forall i, u :: 0 <= i < |args| && 0 <= u < s'[i] ==> args[i].postings[u].docid <= d
    ensures s'[stop - 1] < |args[stop - 1].postings| ==> OnEntries(args, s') && Behind(args, s')
  {
    var j0 :| 0 <= j0 < |args| && d == CursorDocid(args, s, j0);
    forall i | 0 <= i < |args|
      ensures forall u :: 0 <= u < s'[i] ==> args[i].postings[u].docid <= d
    {
      PassedBelow(args, s, i, j0);
    }
  }

  /** Once argument `e` holds only docids up to `d` and argument 0's cursor
      `c` is past `d`, no document of argument 0 from `c` on is in argument
      `e`, so nothing is left to add. */
  lemma PassTail(args: seq<InvList>, n: int, c: int, d: Int32, e: int)
    requires WellFormedArgs(args) && 0 <= e < |args| && 0 <= c <= |args[0].postings|
    requires c < |args[0].postings| ==> d < args[0].postings[c].docid
    requires forall u :: 0 <= u < |args[e].postings| ==> args[e].postings[u].docid <= d
    ensures NearPostings(args, n) == NearSpec(args, n, c)
  {
    forall u | c <= u < |args[0].postings|
      ensures !args[e].Contains(args[0].postings[u].docid)
    {
      if c < u {
        args[0].DocidOrder(c, u);
      }
    }
    NearSpecTail(args, n, c, |args[0].postings|, e);
  }

  /** QryopIlNear.evaluate: intersect the arguments document by document and
      keep, for every common document, the anchors of its NEAR/n windows.
      The result is exactly `NearPostings`: a valid inverted list of argument
      0's field whose documents occur in every argument and whose positions
      each start a window. `nextDoc` is the cursor array as the loop leaves
      it, before the cursors are freed: the loop stops as soon as one cursor
      is exhausted. */
  method Evaluate(args: seq<InvList>, nearN: int) returns (result: InvList, nextDoc: array<int>)
    requires WellFormedArgs(args)
    ensures result.field == args[0].field
    ensures result.Valid()
    ensures result.postings == NearPostings(args, nearN)
    ensures forall m :: 0 <= m < |result.postings| ==> InEveryList(args, result.postings[m].docid)
    ensures forall m :: 0 <= m < |result.postings| ==> IsNearPosting(args, nearN, result.postings[m])
    ensures nextDoc.Length == |args| && CursorsIn(args, nextDoc[..]) && SomeExhausted(args, nextDoc[..])
  {
    var daatSize := |args|;
    result := InvList(args[0].field, []);
    nextDoc := new int[daatSize](_ => 0);
    var daatAvailable := daatSize;
    while daatAvailable == daatSize
      invariant daatAvailable <= daatSize
      invariant CursorsIn(args, nextDoc[..]) && InBounds(ListLengths(args), nextDoc[..])
      invariant daatAvailable == daatSize ==>
                  && OnEntries(args, nextDoc[..]) && Behind(args, nextDoc[..])
                  && result.postings == NearSpec(args, nearN, nextDoc[0])
      invariant daatAvailable < daatSize ==>
                  SomeExhausted(args, nextDoc[..]) && result.postings == NearPostings(args, nearN)
      invariant result.field == args[0].field
      decreases Remaining(ListLengths(args), nextDoc[..]), daatAvailable
    {
      ghost var start := nextDoc[..];
      result, daatAvailable := DocumentPass(args, nearN, nextDoc, result, daatAvailable);
      RemainingMonotone(ListLengths(args), start, nextDoc[..]);
    }
    NearSpecValid(args, nearN, |args[0].postings|);
  }
}
