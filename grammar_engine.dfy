/**
 * The match engine as the source runs it: a recursive method whose sequence,
 * choice and repetition cases are loops. Each call is proved to produce exactly
 * what the matching rules in Grammars prescribe.
 */
module GrammarEngine {
  import opened Wrappers
  import opened ParserResults
  import opened Grammars

  /** The public entry point: match the whole grammar from the start of the input. */
  method Match(g: Grammar, text: string) returns (r: Outcome)
    requires WellFormed(g)
    ensures r == MatchAt(g, text, 0)
  {
    r := MatchFrom(g, text, 0);
  }

  /** Matching g at position idx, one grammar variant per case. */
  method MatchFrom(g: Grammar, text: string, idx: nat) returns (r: Outcome)
    requires WellFormed(g)
    ensures r == MatchAt(g, text, idx)
    decreases g
  {
    match g {
      case Text(s) =>
        r := Normal(TextMatch(s, text, idx));
      case Dot =>
        r := Normal(DotMatch(text, idx));
      case Cat(children) =>
        var length: nat := 0;
        var nodes: seq<AstNode> := [];
        for i := 0 to |children|
          invariant |nodes| == i
          invariant MatchCat(g, text, idx, i, length, nodes) == MatchAt(g, text, idx)
        {
          var res := MatchFrom(children[i], text, idx + length);
          if !Succeeded(res) {
            return res;
          }
          nodes := nodes + [res.result.node];
          length := length + res.result.node.length;
        }
        r := Normal(Matched(AstNode(idx, length, nodes)));
      case Alt(children) =>
        var failedRes: Option<Failure> := None;
        for i := 0 to |children|
          invariant i > 0 ==> failedRes.Some?
          invariant MatchAlt(g, text, idx, i, failedRes) == MatchAt(g, text, idx)
        {
          var res := MatchFrom(children[i], text, idx);
          match res {
            case Fatal(_) =>
              return res;
            case Normal(Matched(node)) =>
              return Normal(Matched(AstNode(idx, node.length, [node])));
            case Normal(Failed(failure)) =>
              failedRes := Merge(failedRes, Some(failure));
          }
        }
        r := Normal(Failed(failedRes.value));
      case Quant(min, max, child) =>
        var nodes: seq<AstNode> := [];
        var pos: nat := idx;
        while |nodes| < max
          invariant |nodes| <= max
          invariant MatchQuant(g, text, pos, nodes) == MatchAt(g, text, idx)
          decreases max - |nodes|
        {
          var res := MatchFrom(child, text, pos);
          match res {
            case Fatal(_) =>
              return res;
            case Normal(Matched(node)) =>
              nodes := nodes + [node];
              pos := pos + node.length;
              if node.length == 0 && max == IntMax {
                return Fatal(InfiniteLoopMessage);
              }
            case Normal(Failed(_)) =>
              if |nodes| < min {
                return res;
              }
              break;
          }
        }
        r := Normal(Matched(AstNode(nodes[0].idx, pos, nodes)));
    }
  }
}
