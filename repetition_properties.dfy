/**
 * What a repetition computes, in terms of the matches of its child:
 * a greedy contiguous run, ended by max or by the first child outcome that is not a success.
 */
module RepetitionProperties {
  import opened Wrappers
  import opened ParserResults
  import opened Grammars
  import opened SequenceProperties

  /** The nodes are contiguous matches of the child, starting at start. */
  ghost predicate RepeatMatch(child: Grammar, text: string, start: nat, nodes: seq<AstNode>)
    requires WellFormed(child)
    decreases |nodes|
  {
    nodes != [] ==>
      var j := |nodes| - 1;
      RepeatMatch(child, text, start, nodes[..j]) &&
      MatchAt(child, text, start + SumLengths(nodes[..j])) == Normal(Matched(nodes[j]))
  }

  /** No repetition so far triggered the infinite-loop error. */
  predicate NoZeroLengthUnbounded(max: int, nodes: seq<AstNode>)
  {
    max == IntMax ==> forall k :: 0 <= k < |nodes| ==> nodes[k].length > 0
  }

  lemma NoZeroLengthSnoc(max: int, nodes: seq<AstNode>, n: AstNode)
    requires NoZeroLengthUnbounded(max, nodes) && (max == IntMax ==> n.length > 0)
    ensures NoZeroLengthUnbounded(max, nodes + [n])
  {
    assert forall k :: 0 <= k < |nodes| ==> (nodes + [n])[k] == nodes[k];
  }

  lemma RepeatMatchSnoc(child: Grammar, text: string, start: nat, nodes: seq<AstNode>, n: AstNode)
    requires WellFormed(child) && RepeatMatch(child, text, start, nodes)
    requires MatchAt(child, text, start + SumLengths(nodes)) == Normal(Matched(n))
    ensures RepeatMatch(child, text, start, nodes + [n])
  {
    assert (nodes + [n])[..|nodes|] == nodes;
  }

  /** Every repetition is the child's match where the previous repetitions end. */
  lemma {:induction false} RepeatMatchAt(child: Grammar, text: string, start: nat, nodes: seq<AstNode>, k: nat)
    requires WellFormed(child) && RepeatMatch(child, text, start, nodes) && k < |nodes|
    ensures MatchAt(child, text, start + SumLengths(nodes[..k])) == Normal(Matched(nodes[k]))
    decreases |nodes|
  {
    var j := |nodes| - 1;
    if k < j {
      RepeatMatchAt(child, text, start, nodes[..j], k);
      assert nodes[..j][..k] == nodes[..k];
    }
  }

  /**
   * How a repetition ends at position pos after the successful run `all` (of
   * at most max repetitions), given the outcome `next` of the next attempt.
   */
  function QuantFinish(g: Grammar, pos: nat, all: seq<AstNode>, next: Outcome): Outcome
    requires g.Quant? && 0 < g.min < g.max && |all| <= g.max
  {
    if |all| == g.max then Normal(Matched(AstNode(all[0].idx, pos, all)))
    else if next.Fatal? then next
    else if next.result.Matched? then Fatal(InfiniteLoopMessage)
    else if |all| < g.min then next
    else Normal(Matched(AstNode(all[0].idx, pos, all)))
  }

  /** The loop does not go on after the child's outcome o. */
  predicate Stops(g: Grammar, o: Outcome)
    requires g.Quant?
  {
    Succeeded(o) ==> o.result.node.length == 0 && g.max == IntMax
  }

  /** One step of the repetition loop, when the child's outcome does not stop it. */
  lemma MatchQuantNext(g: Grammar, text: string, pos: nat, nodes: seq<AstNode>, res: Outcome)
    requires g.Quant? && WellFormed(g) && |nodes| < g.max
    requires res == MatchAt(g.child, text, pos) && !Stops(g, res)
    ensures MatchQuant(g, text, pos, nodes) ==
      MatchQuant(g, text, pos + res.result.node.length, nodes + [res.result.node])
  {
  }

  /** The loop's successful repetitions, from the run `nodes` until it stops. */
  lemma {:induction false} MatchQuantRun(g: Grammar, text: string, start: nat, nodes: seq<AstNode>, pos: nat)
      returns (all: seq<AstNode>, end: nat)
    requires g.Quant? && WellFormed(g) && |nodes| <= g.max
    requires RepeatMatch(g.child, text, start, nodes) && NoZeroLengthUnbounded(g.max, nodes)
    requires pos == start + SumLengths(nodes)
    ensures RepeatMatch(g.child, text, start, all) && NoZeroLengthUnbounded(g.max, all)
    ensures nodes <= all && |all| <= g.max && end == start + SumLengths(all)
    ensures |all| < g.max ==> Stops(g, MatchAt(g.child, text, end))
    ensures MatchQuant(g, text, pos, nodes) == MatchQuant(g, text, end, all)
    decreases g.max - |nodes|
  {
    all, end := nodes, pos;
    if |nodes| < g.max {
      var res := MatchAt(g.child, text, pos);
      if !Stops(g, res) {
        var n := res.result.node;
        SumLengthsSnoc(nodes, n);
        RepeatMatchSnoc(g.child, text, start, nodes, n);
        var ns := nodes + [n];
        NoZeroLengthSnoc(g.max, nodes, n);
        MatchQuantNext(g, text, pos, nodes, res);
        all, end := MatchQuantRun(g, text, start, ns, pos + n.length);
      }
    }
  }

  /** Once the loop stops, its result is decided by the next attempt alone. */
  lemma MatchQuantStop(g: Grammar, text: string, pos: nat, nodes: seq<AstNode>)
    requires g.Quant? && WellFormed(g) && |nodes| <= g.max
    requires |nodes| < g.max ==> Stops(g, MatchAt(g.child, text, pos))
    ensures MatchQuant(g, text, pos, nodes) == QuantFinish(g, pos, nodes, MatchAt(g.child, text, pos))
  {
  }

  /**
   * A repetition matches its child greedily from idx, each repetition where the
   * previous one ended, until max repetitions or until the child does not succeed.
   */
  lemma QuantOutcome(min: int, max: int, child: Grammar, text: string, idx: nat)
      returns (nodes: seq<AstNode>, next: Outcome)
    requires WellFormed(Quant(min, max, child))
    ensures |nodes| <= max && RepeatMatch(child, text, idx, nodes) && NoZeroLengthUnbounded(max, nodes)
    ensures next == MatchAt(child, text, idx + SumLengths(nodes))
    ensures |nodes| < max ==> Stops(Quant(min, max, child), next)
    ensures MatchAt(Quant(min, max, child), text, idx) ==
      QuantFinish(Quant(min, max, child), idx + SumLengths(nodes), nodes, next)
  {
    var end;
    nodes, end := MatchQuantRun(Quant(min, max, child), text, idx, [], idx);
    next := MatchAt(child, text, end);
    MatchQuantStop(Quant(min, max, child), text, end, nodes);
  }

  /**
   * A successful repetition has between min and max contiguous children; it
   * stopped early only because the child failed next. Its length field holds
   * the final position idx + (consumed length), as the source computes it.
   */
  lemma QuantMatched(min: int, max: int, child: Grammar, text: string, idx: nat)
    requires WellFormed(Quant(min, max, child)) && Succeeded(MatchAt(Quant(min, max, child), text, idx))
    ensures var n := MatchAt(Quant(min, max, child), text, idx).result.node;
      min <= |n.children| <= max && n.idx == n.children[0].idx &&
      n.length == idx + SumLengths(n.children) &&
      RepeatMatch(child, text, idx, n.children) &&
      (|n.children| < max ==> FailedOutcome(MatchAt(child, text, idx + SumLengths(n.children))))
  {
    var nodes, next := QuantOutcome(min, max, child, text, idx);
  }

  /** A repetition fails only when its child fails before min repetitions; the child's failure is returned. */
  lemma QuantFailed(min: int, max: int, child: Grammar, text: string, idx: nat) returns (nodes: seq<AstNode>)
    requires WellFormed(Quant(min, max, child)) && FailedOutcome(MatchAt(Quant(min, max, child), text, idx))
    ensures |nodes| < min && RepeatMatch(child, text, idx, nodes)
    ensures MatchAt(child, text, idx + SumLengths(nodes)) == MatchAt(Quant(min, max, child), text, idx)
  {
    var next;
    nodes, next := QuantOutcome(min, max, child, text, idx);
  }

  /**
   * A repetition raises the infinite-loop error only when it is unbounded
   * (max is Integer.MAX_VALUE) and its child matched the empty string;
   * every other fatal outcome comes from the child itself.
   */
  lemma QuantFatal(min: int, max: int, child: Grammar, text: string, idx: nat) returns (nodes: seq<AstNode>)
    requires WellFormed(Quant(min, max, child)) && MatchAt(Quant(min, max, child), text, idx).Fatal?
    ensures |nodes| < max && RepeatMatch(child, text, idx, nodes)
    ensures var o := MatchAt(child, text, idx + SumLengths(nodes));
      (o.Fatal? && MatchAt(Quant(min, max, child), text, idx) == o) ||
      (Succeeded(o) && o.result.node.length == 0 && max == IntMax &&
       MatchAt(Quant(min, max, child), text, idx) == Fatal(InfiniteLoopMessage))
  {
    var next;
    nodes, next := QuantOutcome(min, max, child, text, idx);
  }
}
