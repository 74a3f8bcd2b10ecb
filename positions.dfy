/**
 * Where matches start and end: a success starts where it was asked to, a
 * failure never lies before the start, and a grammar without repetitions
 * never reaches past the end of the input nor raises the fatal error.
 */
module MatchPositions {
  import opened Wrappers
  import opened ParserResults
  import opened Grammars
  import opened SequenceProperties
  import opened ChoiceProperties
  import opened RepetitionProperties

  /** The grammar has no repetition anywhere. */
  predicate QuantFree(g: Grammar)
  {
    match g
    case Text(_) => true
    case Dot => true
    case Cat(cs) => forall i :: 0 <= i < |cs| ==> QuantFree(cs[i])
    case Alt(cs) => forall i :: 0 <= i < |cs| ==> QuantFree(cs[i])
    case Quant(_, _, _) => false
  }

  /**
   * A success's node starts at idx; a failure lies at idx or beyond; and a
   * success of a grammar without repetitions ends within the input.
   */
  lemma {:induction false} Positions(g: Grammar, text: string, idx: nat)
    requires WellFormed(g)
    ensures Succeeded(MatchAt(g, text, idx)) ==> MatchAt(g, text, idx).result.node.idx == idx
    ensures Succeeded(MatchAt(g, text, idx)) && QuantFree(g) ==>
      idx + MatchAt(g, text, idx).result.node.length <= |text|
    ensures FailedOutcome(MatchAt(g, text, idx)) ==> MatchAt(g, text, idx).result.failure.idx >= idx
    decreases g, 1
  {
    match g
    case Text(_) =>
    case Dot =>
    case Cat(children) => CatPositions(children, text, idx);
    case Alt(children) => AltPositions(children, text, idx);
    case Quant(min, max, child) => QuantPositions(min, max, child, text, idx);
  }

  lemma CatPositions(children: seq<Grammar>, text: string, idx: nat)
    requires WellFormed(Cat(children))
    ensures Succeeded(MatchAt(Cat(children), text, idx)) ==> MatchAt(Cat(children), text, idx).result.node.idx == idx
    ensures Succeeded(MatchAt(Cat(children), text, idx)) && QuantFree(Cat(children)) ==>
      idx + MatchAt(Cat(children), text, idx).result.node.length <= |text|
    ensures FailedOutcome(MatchAt(Cat(children), text, idx)) ==>
      MatchAt(Cat(children), text, idx).result.failure.idx >= idx
    decreases Cat(children), 0
  {
    var nodes := CatOutcome(children, text, idx);
    if |nodes| == |children| {
      var j := |nodes| - 1;
      SequenceMatchAt(children, text, idx, nodes, j);
      assert children[j] in children;
      Positions(children[j], text, idx + SumLengths(nodes[..j]));
      assert SumLengths(nodes) == SumLengths(nodes[..j]) + nodes[j].length;
    } else {
      assert children[|nodes|] in children;
      Positions(children[|nodes|], text, idx + SumLengths(nodes));
    }
  }

  lemma AltPositions(children: seq<Grammar>, text: string, idx: nat)
    requires WellFormed(Alt(children))
    ensures Succeeded(MatchAt(Alt(children), text, idx)) ==> MatchAt(Alt(children), text, idx).result.node.idx == idx
    ensures Succeeded(MatchAt(Alt(children), text, idx)) && QuantFree(Alt(children)) ==>
      idx + MatchAt(Alt(children), text, idx).result.node.length <= |text|
    ensures FailedOutcome(MatchAt(Alt(children), text, idx)) ==>
      MatchAt(Alt(children), text, idx).result.failure.idx >= idx
    decreases Alt(children), 0
  {
    var fs := AltOutcome(children, text, idx);
    if |fs| == |children| {
      forall k | 0 <= k < |fs| ensures fs[k].idx >= idx {
        assert children[k] in children;
        Positions(children[k], text, idx);
      }
      AltAllFail(children, text, idx, fs);
      var k :| 0 <= k < |fs| && fs[k].idx == MaxIdx(fs);
    } else {
      assert children[|fs|] in children;
      Positions(children[|fs|], text, idx);
    }
  }

  lemma QuantPositions(min: int, max: int, child: Grammar, text: string, idx: nat)
    requires WellFormed(Quant(min, max, child))
    ensures Succeeded(MatchAt(Quant(min, max, child), text, idx)) ==>
      MatchAt(Quant(min, max, child), text, idx).result.node.idx == idx
    ensures FailedOutcome(MatchAt(Quant(min, max, child), text, idx)) ==>
      MatchAt(Quant(min, max, child), text, idx).result.failure.idx >= idx
    decreases Quant(min, max, child), 0
  {
    var o := MatchAt(Quant(min, max, child), text, idx);
    if Succeeded(o) {
      QuantMatched(min, max, child, text, idx);
      var ns := o.result.node.children;
      RepeatMatchAt(child, text, idx, ns, 0);
      assert ns[..0] == [];
      Positions(child, text, idx);
    } else if FailedOutcome(o) {
      var nodes := QuantFailed(min, max, child, text, idx);
      Positions(child, text, idx + SumLengths(nodes));
    }
  }

  /**
   * Matching from the start of the input, a repetition's length field is the
   * number of characters it consumed, as for every other grammar.
   */
  lemma QuantFromStart(min: int, max: int, child: Grammar, text: string)
    requires WellFormed(Quant(min, max, child)) && Succeeded(MatchAt(Quant(min, max, child), text, 0))
    ensures var n := MatchAt(Quant(min, max, child), text, 0).result.node;
      n.idx == 0 && n.length == SumLengths(n.children)
  {
    QuantMatched(min, max, child, text, 0);
    QuantPositions(min, max, child, text, 0);
  }

  /** Only a repetition raises the fatal error. */
  lemma {:induction false} NeverFatal(g: Grammar, text: string, idx: nat)
    requires WellFormed(g) && QuantFree(g)
    ensures !MatchAt(g, text, idx).Fatal?
    decreases g
  {
    match g
    case Text(_) =>
    case Dot =>
    case Cat(children) =>
      var nodes := CatOutcome(children, text, idx);
      if |nodes| < |children| {
        assert children[|nodes|] in children;
        NeverFatal(children[|nodes|], text, idx + SumLengths(nodes));
      }
    case Alt(children) =>
      var fs := AltOutcome(children, text, idx);
      if |fs| < |children| {
        assert children[|fs|] in children;
        NeverFatal(children[|fs|], text, idx);
      }
  }
}
