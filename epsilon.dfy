/**
 * What the structural hasEpsilon rules mean for matching: a grammar that
 * matches without consuming input has them, and a grammar without
 * repetitions that has them succeeds wherever input is left or none is.
 */
module EpsilonProperties {
  import opened Wrappers
  import opened ParserResults
  import opened Grammars
  import opened SequenceProperties
  import opened ChoiceProperties
  import opened RepetitionProperties
  import opened MatchPositions

  /** A success that consumed nothing is only possible for a grammar with an epsilon rule. */
  lemma {:induction false} EmptyMatchHasEpsilon(g: Grammar, text: string, idx: nat)
    requires WellFormed(g) && Succeeded(MatchAt(g, text, idx))
    requires MatchAt(g, text, idx).result.node.length == 0
    ensures HasEpsilon(g)
    decreases g, 1
  {
    match g
    case Text(_) =>
    case Dot =>
    case Cat(children) => CatEmptyMatch(children, text, idx);
    case Alt(children) =>
      var fs := AltOutcome(children, text, idx);
      assert children[|fs|] in children;
      EmptyMatchHasEpsilon(children[|fs|], text, idx);
    case Quant(min, max, child) =>
      QuantMatched(min, max, child, text, idx);
      var ns := MatchAt(g, text, idx).result.node.children;
      SumLengthsZero(ns);
      RepeatMatchAt(child, text, idx, ns, 0);
      assert ns[..0] == [];
      EmptyMatchHasEpsilon(child, text, idx);
  }

  lemma CatEmptyMatch(children: seq<Grammar>, text: string, idx: nat)
    requires WellFormed(Cat(children)) && Succeeded(MatchAt(Cat(children), text, idx))
    requires MatchAt(Cat(children), text, idx).result.node.length == 0
    ensures HasEpsilon(Cat(children))
    decreases Cat(children), 0
  {
    CatMatched(children, text, idx);
    var ns := MatchAt(Cat(children), text, idx).result.node.children;
    SumLengthsZero(ns);
    forall k | 0 <= k < |children| ensures HasEpsilon(children[k]) {
      SequenceMatchAt(children, text, idx, ns, k);
      SumLengthsPrefix(ns, k);
      assert children[k] in children;
      EmptyMatchHasEpsilon(children[k], text, idx + SumLengths(ns[..k]));
    }
  }

  /** A grammar without repetitions that has an epsilon rule succeeds at any position up to the end. */
  lemma {:induction false} EpsilonMatches(g: Grammar, text: string, idx: nat)
    requires WellFormed(g) && QuantFree(g) && HasEpsilon(g) && idx <= |text|
    ensures Succeeded(MatchAt(g, text, idx))
    decreases g, 1
  {
    match g
    case Text(_) =>
    case Cat(children) => CatEpsilonMatches(children, text, idx);
    case Alt(children) => AltEpsilonMatches(children, text, idx);
  }

  lemma CatEpsilonMatches(children: seq<Grammar>, text: string, idx: nat)
    requires WellFormed(Cat(children)) && QuantFree(Cat(children)) && HasEpsilon(Cat(children))
    requires idx <= |text|
    ensures Succeeded(MatchAt(Cat(children), text, idx))
    decreases Cat(children), 0
  {
    var nodes := CatOutcome(children, text, idx);
    if |nodes| < |children| {
      if nodes != [] {
        var j := |nodes| - 1;
        SequenceMatchAt(children, text, idx, nodes, j);
        assert children[j] in children;
        Positions(children[j], text, idx + SumLengths(nodes[..j]));
      }
      assert children[|nodes|] in children;
      EpsilonMatches(children[|nodes|], text, idx + SumLengths(nodes));
      assert false;
    }
  }

  lemma AltEpsilonMatches(children: seq<Grammar>, text: string, idx: nat)
    requires WellFormed(Alt(children)) && QuantFree(Alt(children)) && HasEpsilon(Alt(children))
    requires idx <= |text|
    ensures Succeeded(MatchAt(Alt(children), text, idx))
    decreases Alt(children), 0
  {
    var fs := AltOutcome(children, text, idx);
    if |fs| == |children| {
      var k :| 0 <= k < |children| && HasEpsilon(children[k]);
      assert children[k] in children;
      EpsilonMatches(children[k], text, idx);
      assert false;
    }
    assert children[|fs|] in children;
    NeverFatal(children[|fs|], text, idx);
  }

  /**
   * At the end of the input a grammar without repetitions succeeds exactly
   * when the hasEpsilon rules say it can match the empty string.
   */
  lemma EpsilonAtEnd(g: Grammar, text: string)
    requires WellFormed(g) && QuantFree(g)
    ensures HasEpsilon(g) <==> Succeeded(MatchAt(g, text, |text|))
  {
    if HasEpsilon(g) {
      EpsilonMatches(g, text, |text|);
    }
    if Succeeded(MatchAt(g, text, |text|)) {
      Positions(g, text, |text|);
      EmptyMatchHasEpsilon(g, text, |text|);
    }
  }
}
