/**
 * The result of matching a grammar at a position: a span node for a success,
 * or a failure that records where matching stopped and what was expected there,
 * together with the rule that merges two failures into one diagnostic.
 */
module ParserResults {
  import opened Wrappers

  /** A successful match of the span [idx, idx + length) with its sub-matches in order. */
  datatype AstNode = AstNode(idx: nat, length: nat, children: seq<AstNode>)

  /** An unsuccessful match at position idx, listing the expected tokens. */
  datatype Failure = Failure(idx: nat, expectedTokens: seq<string>)

  /** The two kinds of parser result. */
  datatype ParserResult = Matched(node: AstNode) | Failed(failure: Failure)

  /** The two-argument node constructor: a span without children. */
  function Leaf(idx: nat, length: nat): (n: AstNode)
    ensures n.idx == idx && n.length == length && |n.children| == 0
  {
    AstNode(idx, length, [])
  }

  /** The single-token failure constructor. */
  function Expecting(idx: nat, token: string): (f: Failure)
    ensures f.idx == idx && |f.expectedTokens| == 1 && f.expectedTokens[0] == token
  {
    Failure(idx, [token])
  }

  /** Whether a result is a successful match. */
  predicate IsMatched(r: ParserResult)
    ensures IsMatched(r) <==> r.Matched?
  {
    match r
    case Matched(_) => true
    case Failed(_) => false
  }

  /** The position a result reports: the start of a match or the place of a failure. */
  function Idx(r: ParserResult): nat
  {
    match r
    case Matched(n) => n.idx
    case Failed(f) => f.idx
  }

  /** The part of the input that a node spans. */
  function Substring(n: AstNode, text: string): (s: string)
    requires n.idx + n.length <= |text|
    ensures |s| == n.length
    ensures forall k :: 0 <= k < n.length ==> s[k] == text[n.idx + k]
  {
    text[n.idx..n.idx + n.length]
  }

  /**
   * Merges two optional failures into one representative failure: the one
   * further into the input wins; at the same position the expected tokens
   * are concatenated, those of e1 first.
   */
  function Merge(e1: Option<Failure>, e2: Option<Failure>): (r: Option<Failure>)
    ensures r.None? <==> e1.None? && e2.None?
    ensures r.Some? && e1.Some? ==> r.value.idx >= e1.value.idx
    ensures r.Some? && e2.Some? ==> r.value.idx >= e2.value.idx
    ensures r.Some? ==>
      (r == e1 || r == e2 ||
       (e1.Some? && e2.Some? && r.value.expectedTokens == e1.value.expectedTokens + e2.value.expectedTokens))
    ensures r.Some? ==>
              r.value.idx == (if e1.None? then e2.value.idx
                              else if e2.None? then e1.value.idx
                              else if e1.value.idx >= e2.value.idx then e1.value.idx
                              else e2.value.idx)
  {
    if e1.None? then e2
    else if e2.None? || e1.value.idx > e2.value.idx then e1
    else if e1.value.idx < e2.value.idx then e2
    else Some(Failure(e1.value.idx, e1.value.expectedTokens + e2.value.expectedTokens))
  }

  /** An absent failure is a neutral element of the merge. */
  lemma MergeAbsent(e: Option<Failure>)
    ensures Merge(None, e) == e && Merge(e, None) == e
  {
  }

  /** With different positions the failure with the greater position is returned unchanged. */
  lemma MergeDifferentPositions(f1: Failure, f2: Failure)
    requires f1.idx != f2.idx
    ensures Merge(Some(f1), Some(f2)) == if f1.idx > f2.idx then Some(f1) else Some(f2)
  {
  }

  /** At equal positions a new failure carries both token lists, in encounter order. */
  lemma MergeEqualPositions(f1: Failure, f2: Failure)
    requires f1.idx == f2.idx
    ensures Merge(Some(f1), Some(f2)) == Some(Failure(f1.idx, f1.expectedTokens + f2.expectedTokens))
  {
  }

  /** Merging is associative, so a run of merges does not depend on how it is grouped. */
  lemma MergeAssociative(e1: Option<Failure>, e2: Option<Failure>, e3: Option<Failure>)
    ensures Merge(Merge(e1, e2), e3) == Merge(e1, Merge(e2, e3))
  {
    if e1.Some? && e2.Some? && e3.Some? && e1.value.idx == e2.value.idx == e3.value.idx {
      var t1, t2, t3 := e1.value.expectedTokens, e2.value.expectedTokens, e3.value.expectedTokens;
      assert (t1 + t2) + t3 == t1 + (t2 + t3);
    }
  }

  /** The left fold of Merge over a list of failures, starting from an absent failure. */
  function MergeAll(fs: seq<Failure>): (r: Option<Failure>)
    ensures r.None? <==> fs == []
  {
    if fs == [] then None else Merge(MergeAll(fs[..|fs| - 1]), Some(fs[|fs| - 1]))
  }

  /** The greatest position among a non-empty list of failures. */
  function MaxIdx(fs: seq<Failure>): (m: nat)
    requires fs != []
    ensures forall k :: 0 <= k < |fs| ==> fs[k].idx <= m
    ensures exists k :: 0 <= k < |fs| && fs[k].idx == m
  {
    if |fs| == 1 then fs[0].idx
    else
      var m' := MaxIdx(fs[..|fs| - 1]);
      assert forall k :: 0 <= k < |fs| - 1 ==> fs[..|fs| - 1][k] == fs[k];
      if fs[|fs| - 1].idx > m' then fs[|fs| - 1].idx else m'
  }

  /** The expected tokens of the failures at position p, in list order. */
  function TokensAt(fs: seq<Failure>, p: nat): seq<string>
  {
    if fs == [] then []
    else TokensAt(fs[..|fs| - 1], p) + (if fs[|fs| - 1].idx == p then fs[|fs| - 1].expectedTokens else [])
  }

  lemma {:induction false} TokensAtAbove(fs: seq<Failure>, p: nat)
    requires forall k :: 0 <= k < |fs| ==> fs[k].idx < p
    ensures TokensAt(fs, p) == []
  {
    if fs != [] {
      assert forall k :: 0 <= k < |fs| - 1 ==> fs[..|fs| - 1][k] == fs[k];
      TokensAtAbove(fs[..|fs| - 1], p);
    }
  }

  /**
   * Folding Merge over failures yields the furthest position reached, with the
   * expected tokens of exactly the failures at that position, in order.
   */
  lemma {:induction false} MergeAllFurthest(fs: seq<Failure>)
    requires fs != []
    ensures MergeAll(fs) == Some(Failure(MaxIdx(fs), TokensAt(fs, MaxIdx(fs))))
  {
    var last := fs[|fs| - 1];
    var init := fs[..|fs| - 1];
    if init == [] {
      assert MergeAll(fs) == Merge(MergeAll([]), Some(last)) == Some(last);
      assert MaxIdx(fs) == last.idx;
      assert TokensAt(fs, last.idx) == TokensAt(init, last.idx) + last.expectedTokens;
      assert TokensAt(fs, last.idx) == last.expectedTokens;
      assert last == Failure(last.idx, last.expectedTokens);
    } else {
      MergeAllFurthest(init);
      var m := MaxIdx(init);
      assert forall k :: 0 <= k < |init| ==> init[k] == fs[k];
      if last.idx > m {
        TokensAtAbove(init, last.idx);
        assert MaxIdx(fs) == last.idx;
        assert TokensAt(fs, last.idx) == TokensAt(init, last.idx) + last.expectedTokens;
        assert MergeAll(fs) == Merge(MergeAll(init), Some(last)) == Some(last);
        assert TokensAt(fs, last.idx) == last.expectedTokens;
      } else if last.idx < m {
        assert MaxIdx(fs) == m;
        assert TokensAt(fs, m) == TokensAt(init, m) + [];
        assert MergeAll(fs) == Merge(MergeAll(init), Some(last));
        assert MergeAll(fs) == MergeAll(init);
        assert MergeAll(init) == Some(Failure(m, TokensAt(init, m)));
        assert TokensAt(fs, m) == TokensAt(init, m);
      } else {
        assert MaxIdx(fs) == m;
        assert TokensAt(fs, m) == TokensAt(init, m) + last.expectedTokens;
        assert MergeAll(fs) == Merge(MergeAll(init), Some(last));
      }
    }
  }
}
