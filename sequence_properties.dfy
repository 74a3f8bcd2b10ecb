/**
 * What a sequence computes, in terms of the matches of its children:
 * contiguous runs of child matches and the first child that does not succeed.
 */
module SequenceProperties {
  import opened Wrappers
  import opened ParserResults
  import opened Grammars

  /** The total length of a run of nodes. */
  function SumLengths(ns: seq<AstNode>): nat
  {
    if ns == [] then 0 else SumLengths(ns[..|ns| - 1]) + ns[|ns| - 1].length
  }

  lemma SumLengthsSnoc(ns: seq<AstNode>, n: AstNode)
    ensures SumLengths(ns + [n]) == SumLengths(ns) + n.length
  {
    assert (ns + [n])[..|ns|] == ns;
  }

  /** A zero total length means that every node is empty. */
  lemma {:induction false} SumLengthsZero(ns: seq<AstNode>)
    requires SumLengths(ns) == 0
    ensures forall k :: 0 <= k < |ns| ==> ns[k].length == 0
  {
    if ns != [] {
      SumLengthsZero(ns[..|ns| - 1]);
      assert forall k :: 0 <= k < |ns| - 1 ==> ns[..|ns| - 1][k] == ns[k];
    }
  }

  /** Each node of a prefix starts no later than the prefix's total length. */
  lemma {:induction false} SumLengthsPrefix(ns: seq<AstNode>, k: nat)
    requires k <= |ns|
    ensures SumLengths(ns[..k]) <= SumLengths(ns)
    decreases |ns|
  {
    if k < |ns| {
      assert ns[..|ns| - 1][..k] == ns[..k];
      SumLengthsPrefix(ns[..|ns| - 1], k);
    } else {
      assert ns[..k] == ns;
    }
  }

  /**
   * nodes[k] is what children[k] matches right where the earlier nodes end,
   * for every k < |nodes|: the nodes are contiguous matches of a prefix of the children.
   */
  ghost predicate SequenceMatch(children: seq<Grammar>, text: string, start: nat, nodes: seq<AstNode>)
    decreases |nodes|
  {
    |nodes| <= |children| &&
    (nodes != [] ==>
      var j := |nodes| - 1;
      SequenceMatch(children, text, start, nodes[..j]) &&
      WellFormed(children[j]) &&
      MatchAt(children[j], text, start + SumLengths(nodes[..j])) == Normal(Matched(nodes[j])))
  }

  lemma SequenceMatchSnoc(children: seq<Grammar>, text: string, start: nat, nodes: seq<AstNode>, n: AstNode)
    requires SequenceMatch(children, text, start, nodes) && |nodes| < |children|
    requires WellFormed(children[|nodes|])
    requires MatchAt(children[|nodes|], text, start + SumLengths(nodes)) == Normal(Matched(n))
    ensures SequenceMatch(children, text, start, nodes + [n])
  {
    assert (nodes + [n])[..|nodes|] == nodes;
  }

  /** Every node of a contiguous run is the match of its child at its own offset. */
  lemma {:induction false} SequenceMatchAt(children: seq<Grammar>, text: string, start: nat,
                                           nodes: seq<AstNode>, k: nat)
    requires SequenceMatch(children, text, start, nodes) && k < |nodes|
    ensures WellFormed(children[k])
    ensures MatchAt(children[k], text, start + SumLengths(nodes[..k])) == Normal(Matched(nodes[k]))
    decreases |nodes|
  {
    var j := |nodes| - 1;
    if k < j {
      SequenceMatchAt(children, text, start, nodes[..j], k);
      assert nodes[..j][..k] == nodes[..k];
    }
  }

  /** Two contiguous runs over the same children agree wherever both are defined. */
  lemma {:induction false} SequenceMatchUnique(children: seq<Grammar>, text: string, start: nat,
                                               a: seq<AstNode>, b: seq<AstNode>)
    requires SequenceMatch(children, text, start, a) && SequenceMatch(children, text, start, b)
    requires |a| <= |b|
    ensures a == b[..|a|]
    decreases |b|
  {
    if |a| < |b| {
      var j := |b| - 1;
      assert b[..j][..|a|] == b[..|a|];
      SequenceMatchUnique(children, text, start, a, b[..j]);
    } else if a != [] {
      var j := |a| - 1;
      SequenceMatchUnique(children, text, start, a[..j], b[..j]);
      assert b[..j][..j] == b[..j];
      assert a[..j] == b[..j];
      assert MatchAt(children[j], text, start + SumLengths(b[..j])) == Normal(Matched(a[j]));
      assert a == a[..j] + [a[j]];
      assert b == b[..j] + [b[j]];
      assert b[..|a|] == b;
    }
  }

  /** One step of the sequence loop, when child i succeeds. */
  lemma MatchCatNext(g: Grammar, text: string, idx: nat, i: nat, len: nat, nodes: seq<AstNode>, res: Outcome)
    requires g.Cat? && WellFormed(g) && i < |g.children|
    requires res == MatchAt(g.children[i], text, idx + len) && Succeeded(res)
    ensures MatchCat(g, text, idx, i, len, nodes) ==
      MatchCat(g, text, idx, i + 1, len + res.result.node.length, nodes + [res.result.node])
  {
  }

  /** The sequence loop stops at a child i that does not succeed, with that child's outcome. */
  lemma MatchCatStop(g: Grammar, text: string, idx: nat, i: nat, len: nat, nodes: seq<AstNode>, res: Outcome)
    requires g.Cat? && WellFormed(g) && i < |g.children|
    requires res == MatchAt(g.children[i], text, idx + len) && !Succeeded(res)
    ensures MatchCat(g, text, idx, i, len, nodes) == res
  {
  }

  /**
   * The run of matches the sequence loop builds from the run `nodes`: it goes
   * on until no child is left or a child does not succeed.
   */
  lemma {:induction false} CatRun(children: seq<Grammar>, text: string, idx: nat, nodes: seq<AstNode>, len: nat)
      returns (all: seq<AstNode>, total: nat)
    requires WellFormed(Cat(children)) && SequenceMatch(children, text, idx, nodes) && len == SumLengths(nodes)
    ensures SequenceMatch(children, text, idx, all) && nodes <= all && total == SumLengths(all)
    ensures |all| < |children| ==> !Succeeded(MatchAt(children[|all|], text, idx + total))
    decreases |children| - |nodes|
  {
    all, total := nodes, len;
    if |nodes| < |children| {
      var res := MatchAt(children[|nodes|], text, idx + len);
      if Succeeded(res) {
        var n := res.result.node;
        SumLengthsSnoc(nodes, n);
        SequenceMatchSnoc(children, text, idx, nodes, n);
        all, total := CatRun(children, text, idx, nodes + [n], len + n.length);
      }
    }
  }

  /**
   * A sequence tries its children in order, each where the previous one ended.
   * It returns the outcome of the first child that does not succeed, unchanged;
   * when all succeed it spans their total length with all of them as children.
   */
  lemma CatOutcome(children: seq<Grammar>, text: string, idx: nat) returns (nodes: seq<AstNode>)
    requires WellFormed(Cat(children))
    ensures SequenceMatch(children, text, idx, nodes)
    ensures |nodes| == |children| ==>
      MatchAt(Cat(children), text, idx) == Normal(Matched(AstNode(idx, SumLengths(nodes), nodes)))
    ensures |nodes| < |children| ==>
      var o := MatchAt(children[|nodes|], text, idx + SumLengths(nodes));
      !Succeeded(o) && MatchAt(Cat(children), text, idx) == o
  {
    var total;
    nodes, total := CatRun(children, text, idx, [], 0);
    CatReaches(Cat(children), text, idx, nodes);
    if |nodes| < |children| {
      var o := MatchAt(children[|nodes|], text, idx + total);
      MatchCatStop(Cat(children), text, idx, |nodes|, total, nodes, o);
    }
  }

  /** A successful sequence match: contiguous children spanning exactly the node. */
  lemma CatMatched(children: seq<Grammar>, text: string, idx: nat)
    requires WellFormed(Cat(children)) && Succeeded(MatchAt(Cat(children), text, idx))
    ensures var n := MatchAt(Cat(children), text, idx).result.node;
      n.idx == idx && |n.children| == |children| && n.length == SumLengths(n.children) &&
      SequenceMatch(children, text, idx, n.children)
  {
    var nodes := CatOutcome(children, text, idx);
  }

  /** Conversely, children that all match contiguously make the sequence match. */
  lemma CatAllMatch(children: seq<Grammar>, text: string, idx: nat, nodes: seq<AstNode>)
    requires WellFormed(Cat(children))
    requires SequenceMatch(children, text, idx, nodes) && |nodes| == |children|
    ensures MatchAt(Cat(children), text, idx) == Normal(Matched(AstNode(idx, SumLengths(nodes), nodes)))
  {
    CatReaches(Cat(children), text, idx, nodes);
  }

  /** The sequence loop, started at the first child, reaches the end of any contiguous run of its children. */
  lemma {:induction false} CatReaches(g: Grammar, text: string, idx: nat, run: seq<AstNode>)
    requires g.Cat? && WellFormed(g) && SequenceMatch(g.children, text, idx, run)
    ensures MatchCat(g, text, idx, 0, 0, []) == MatchCat(g, text, idx, |run|, SumLengths(run), run)
    decreases |run|
  {
    if run != [] {
      var j := |run| - 1;
      var prev := run[..j];
      CatReaches(g, text, idx, prev);
      var res := MatchAt(g.children[j], text, idx + SumLengths(prev));
      MatchCatNext(g, text, idx, j, SumLengths(prev), prev, res);
      assert prev + [run[j]] == run;
    }
  }

  /** The first child that does not succeed decides the sequence's outcome, unchanged. */
  lemma CatFirstFailure(children: seq<Grammar>, text: string, idx: nat, prefix: seq<AstNode>, o: Outcome)
    requires WellFormed(Cat(children))
    requires SequenceMatch(children, text, idx, prefix) && |prefix| < |children|
    requires o == MatchAt(children[|prefix|], text, idx + SumLengths(prefix)) && !Succeeded(o)
    ensures MatchAt(Cat(children), text, idx) == o
  {
    CatReaches(Cat(children), text, idx, prefix);
    MatchCatStop(Cat(children), text, idx, |prefix|, SumLengths(prefix), prefix, o);
  }
}
