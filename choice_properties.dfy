/**
 * What a choice computes, in terms of the matches of its children:
 * the first child that does not fail, or the merge of all the failures.
 */
module ChoiceProperties {
  import opened Wrappers
  import opened ParserResults
  import opened Grammars

  /** Every one of the first |fs| children fails at idx, with failure fs[k]. */
  ghost predicate AllFail(children: seq<Grammar>, text: string, idx: nat, fs: seq<Failure>)
  {
    |fs| <= |children| &&
    forall k :: 0 <= k < |fs| ==>
      WellFormed(children[k]) && MatchAt(children[k], text, idx) == Normal(Failed(fs[k]))
  }

  /** What a choice returns once a child does not fail: a fatal error, or the win wrapped in a node. */
  function ChoiceWin(o: Outcome, idx: nat): Outcome
    requires !FailedOutcome(o)
  {
    if o.Fatal? then o else Normal(Matched(AstNode(idx, o.result.node.length, [o.result.node])))
  }

  lemma MergeAllSnoc(fs: seq<Failure>, f: Failure)
    ensures MergeAll(fs + [f]) == Merge(MergeAll(fs), Some(f))
  {
    assert (fs + [f])[..|fs|] == fs;
  }

  lemma {:induction false} MatchAltSteps(g: Grammar, text: string, idx: nat, fs: seq<Failure>)
      returns (all: seq<Failure>)
    requires g.Alt? && WellFormed(g) && |fs| <= |g.children|
    requires AllFail(g.children, text, idx, fs)
    ensures AllFail(g.children, text, idx, all) && fs <= all
    ensures |all| == |g.children| ==>
      MatchAlt(g, text, idx, |fs|, MergeAll(fs)) == Normal(Failed(MergeAll(all).value))
    ensures |all| < |g.children| ==>
      var o := MatchAt(g.children[|all|], text, idx);
      !FailedOutcome(o) && MatchAlt(g, text, idx, |fs|, MergeAll(fs)) == ChoiceWin(o, idx)
    decreases |g.children| - |fs|
  {
    var i := |fs|;
    if i == |g.children| {
      all := fs;
    } else {
      var res := MatchAt(g.children[i], text, idx);
      if FailedOutcome(res) {
        var f := res.result.failure;
        MergeAllSnoc(fs, f);
        var fs' := fs + [f];
        assert AllFail(g.children, text, idx, fs') by {
          forall k | 0 <= k < i ensures fs'[k] == fs[k] { }
        }
        all := MatchAltSteps(g, text, idx, fs');
      } else {
        all := fs;
      }
    }
  }

  /**
   * A choice tries every child at the same position in order. The first child
   * that does not fail decides: a success is wrapped in a node of the same span,
   * and no later child is tried. If all fail, the failures are merged in order.
   */
  lemma AltOutcome(children: seq<Grammar>, text: string, idx: nat) returns (fs: seq<Failure>)
    requires WellFormed(Alt(children))
    ensures AllFail(children, text, idx, fs)
    ensures |fs| == |children| ==> MatchAt(Alt(children), text, idx) == Normal(Failed(MergeAll(fs).value))
    ensures |fs| < |children| ==>
      var o := MatchAt(children[|fs|], text, idx);
      !FailedOutcome(o) && MatchAt(Alt(children), text, idx) == ChoiceWin(o, idx)
  {
    fs := MatchAltSteps(Alt(children), text, idx, []);
  }

  /** The first success after failures only wins, wrapped in a node of its own span. */
  lemma AltFirstSuccess(children: seq<Grammar>, text: string, idx: nat, fs: seq<Failure>)
    requires WellFormed(Alt(children))
    requires AllFail(children, text, idx, fs) && |fs| < |children|
    requires Succeeded(MatchAt(children[|fs|], text, idx))
    ensures var n := MatchAt(children[|fs|], text, idx).result.node;
      MatchAt(Alt(children), text, idx) == Normal(Matched(AstNode(idx, n.length, [n])))
  {
    var all := AltOutcome(children, text, idx);
  }

  /**
   * When every child fails, the choice fails at the furthest position any child
   * reached, expecting the tokens of the children that failed there, in order.
   */
  lemma AltAllFail(children: seq<Grammar>, text: string, idx: nat, fs: seq<Failure>)
    requires WellFormed(Alt(children))
    requires AllFail(children, text, idx, fs) && |fs| == |children|
    ensures MatchAt(Alt(children), text, idx) == Normal(Failed(MergeAll(fs).value))
    ensures MatchAt(Alt(children), text, idx) == Normal(Failed(Failure(MaxIdx(fs), TokensAt(fs, MaxIdx(fs)))))
  {
    var all := AltOutcome(children, text, idx);
    assert all == fs;
    MergeAllFurthest(fs);
  }
}
