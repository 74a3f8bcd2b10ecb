/**
 * The grammar variants of the match engine and their matching rules, written as
 * functions. Each combinator whose Java code is a loop has a helper function that
 * takes the loop's state as parameters; the methods in GrammarEngine run the loops
 * and are proved equal to these functions.
 */
module Grammars {
  import opened Wrappers
  import opened ParserResults

  /** Java's Integer.MAX_VALUE: a repetition bound that stands for "unbounded". */
  const IntMax: nat := 0x7fff_ffff

  const AnyCharToken: string := "any char"
  const InfiniteLoopMessage: string := "infinite loop after infinite epsilon match"

  datatype Grammar =
    | Text(s: string)
    | Dot
    | Cat(children: seq<Grammar>)
    | Alt(children: seq<Grammar>)
    | Quant(min: int, max: int, child: Grammar)

  /**
   * What a match call produces: a parser result, or the fatal error that the
   * Java code raises as an IllegalStateException and that no combinator catches.
   */
  datatype Outcome = Normal(result: ParserResult) | Fatal(message: string)

  /** The outcome is an ordinary success. */
  predicate Succeeded(o: Outcome) { o.Normal? && o.result.Matched? }

  /** The outcome is an ordinary failure. */
  predicate FailedOutcome(o: Outcome) { o.Normal? && o.result.Failed? }

  /**
   * The constructors' assertions: sequences and choices have at least one
   * child, and a repetition has 0 < min < max (max at most Integer.MAX_VALUE).
   */
  predicate WellFormed(g: Grammar)
  {
    match g
    case Text(_) => true
    case Dot => true
    case Cat(cs) => |cs| > 0 && forall i :: 0 <= i < |cs| ==> WellFormed(cs[i])
    case Alt(cs) => |cs| > 0 && forall i :: 0 <= i < |cs| ==> WellFormed(cs[i])
    case Quant(min, max, c) => 0 < min < max <= IntMax && WellFormed(c)
  }

  /** A second termination component: how many loop steps a node may take. */
  function Width(g: Grammar): nat
  {
    match g
    case Cat(cs) => |cs| + 1
    case Alt(cs) => |cs| + 1
    case Quant(_, max, _) => if max < 0 then 0 else max + 1
    case _ => 0
  }

  /** A literal matches when it is a prefix of the input from idx on. */
  function TextMatch(s: string, text: string, idx: nat): (r: ParserResult)
    ensures r.Matched? <==> idx <= |text| && s <= text[idx..]
    ensures r.Matched? ==> r.node == Leaf(idx, |s|)
    ensures r.Failed? ==> r.failure == Expecting(idx, s)
  {
    var endIdx := idx + |s|;
    if endIdx <= |text| && text[idx..endIdx] == s then Matched(Leaf(idx, |s|))
    else Failed(Expecting(idx, s))
  }

  /** The wildcard matches one character whenever one is left. */
  function DotMatch(text: string, idx: nat): (r: ParserResult)
    ensures r.Matched? <==> idx < |text|
    ensures r.Matched? ==> r.node == Leaf(idx, 1)
    ensures r.Failed? ==> r.failure == Expecting(idx, AnyCharToken)
  {
    if idx < |text| then Matched(Leaf(idx, 1)) else Failed(Expecting(idx, AnyCharToken))
  }

  /** Matching grammar g against the input from position idx on. */
  function MatchAt(g: Grammar, text: string, idx: nat): Outcome
    requires WellFormed(g)
    decreases g, Width(g)
  {
    match g
    case Text(s) => Normal(TextMatch(s, text, idx))
    case Dot => Normal(DotMatch(text, idx))
    case Cat(_) => MatchCat(g, text, idx, 0, 0, [])
    case Alt(_) => MatchAlt(g, text, idx, 0, None)
    case Quant(_, _, _) => MatchQuant(g, text, idx, [])
  }

  /**
   * The sequence loop after i children have matched, consuming `length`
   * characters in all and producing `nodes`.
   */
  function MatchCat(g: Grammar, text: string, idx: nat, i: nat, length: nat, nodes: seq<AstNode>): Outcome
    requires g.Cat? && WellFormed(g) && i <= |g.children|
    decreases g, |g.children| - i
  {
    if i == |g.children| then Normal(Matched(AstNode(idx, length, nodes)))
    else
      var res := MatchAt(g.children[i], text, idx + length);
      if Succeeded(res) then
        MatchCat(g, text, idx, i + 1, length + res.result.node.length, nodes + [res.result.node])
      else res
  }

  /**
   * The choice loop after the first i children have failed, their failures
   * merged into failedRes.
   */
  function MatchAlt(g: Grammar, text: string, idx: nat, i: nat, failedRes: Option<Failure>): Outcome
    requires g.Alt? && WellFormed(g) && i <= |g.children|
    requires i > 0 ==> failedRes.Some?
    decreases g, |g.children| - i
  {
    if i == |g.children| then Normal(Failed(failedRes.value))
    else
      match MatchAt(g.children[i], text, idx)
      case Fatal(m) => Fatal(m)
      case Normal(Matched(node)) => Normal(Matched(AstNode(idx, node.length, [node])))
      case Normal(Failed(failure)) => MatchAlt(g, text, idx, i + 1, Merge(failedRes, Some(failure)))
  }

  /**
   * The repetition loop, now at position pos after the repetitions `nodes`.
   * As in the source, the node it returns records the final position, not the
   * number of characters consumed, in its length field.
   */
  function MatchQuant(g: Grammar, text: string, pos: nat, nodes: seq<AstNode>): Outcome
    requires g.Quant? && WellFormed(g) && |nodes| <= g.max
    decreases g, g.max - |nodes|
  {
    if |nodes| < g.max then
      match MatchAt(g.child, text, pos)
      case Fatal(m) => Fatal(m)
      case Normal(Matched(node)) =>
        if node.length == 0 && g.max == IntMax then Fatal(InfiniteLoopMessage)
        else MatchQuant(g, text, pos + node.length, nodes + [node])
      case Normal(Failed(failure)) =>
        if |nodes| < g.min then Normal(Failed(failure))
        else Normal(Matched(AstNode(nodes[0].idx, pos, nodes)))
    else Normal(Matched(AstNode(nodes[0].idx, pos, nodes)))
  }

  /** Whether g can match without consuming input, by the structural rules. */
  predicate HasEpsilon(g: Grammar)
  {
    match g
    case Text(s) => |s| == 0
    case Dot => false
    case Cat(cs) => forall i :: 0 <= i < |cs| ==> HasEpsilon(cs[i])
    case Alt(cs) => exists i :: 0 <= i < |cs| && HasEpsilon(cs[i])
    case Quant(min, _, c) => min == 0 || HasEpsilon(c)
  }
}
