/**
 * The standard reduce functions, which compute a node's tags from the matched
 * text, the node and the tags already produced for its children.
 */
module ReduceFunctions {
  import opened Wrappers
  import opened ParserResults
  import opened SnocLists

  /** A reduce function other than the identity, which is represented by None. */
  datatype ReduceFunction<!T> =
    | AppendTags(ts: seq<T>)
    | ReplaceTags(ts: seq<T>)
    | FoldTags(t0: T, f: (T, T) -> T)

  /** identity(): no reduce function at all. */
  function Identity<T>(): Option<ReduceFunction<T>>
  {
    None
  }

  /** The left fold of f over s, starting from acc, taking the elements front to back. */
  function FoldLeft<T>(f: (T, T) -> T, acc: T, s: seq<T>): T
    decreases |s|
  {
    if s == [] then acc else FoldLeft(f, f(acc, s[0]), s[1..])
  }

  /**
   * What reduce returns: the identity leaves the tags as they are, append
   * adds ts after them, replace returns ts, and foldl a single folded tag.
   */
  function Reduced<T>(rf: Option<ReduceFunction<T>>, text: string, node: AstNode, tags: seq<T>): seq<T>
  {
    match rf
    case None => tags
    case Some(AppendTags(ts)) => tags + ts
    case Some(ReplaceTags(ts)) => ts
    case Some(FoldTags(t0, f)) => [FoldLeft(f, t0, tags)]
  }

  /**
   * append(ts).reduce: snocs each element of ts onto the tags, leaving the
   * given list alone; with no ts the given list itself comes back, whatever
   * state it is in.
   */
  method AppendReduce<T>(ts: seq<T>, text: string, node: AstNode, tags: AnyList<T>) returns (res: AnyList<T>)
    requires ts != [] ==> Describes(tags, Elements(tags))
    ensures Describes(tags, Elements(tags)) ==>
      Describes(res, Reduced(Some(AppendTags(ts)), text, node, Elements(tags)))
    ensures ts == [] ==> res == tags
    ensures ts != [] ==> res.Fast? && fresh(res.list)
  {
    res := tags;
    for k := 0 to |ts|
      invariant Describes(tags, Elements(tags)) ==> Describes(res, Elements(tags) + ts[..k])
      invariant k == 0 ==> res == tags
      invariant k > 0 ==> res.Fast? && fresh(res.list)
    {
      var cell := FastSnocList.SnocOnto(res, ts[k]);
      assert ts[..k + 1] == ts[..k] + [ts[k]];
      res := Fast(cell);
    }
    assert ts[..|ts|] == ts;
  }

  /** foldl(t0, f).reduce: folds f over the tags from t0 and returns the result alone. */
  method FoldlReduce<T>(t0: T, f: (T, T) -> T, text: string, node: AstNode, tags: seq<T>) returns (res: seq<T>)
    ensures res == Reduced(Some(FoldTags(t0, f)), text, node, tags)
  {
    var tcur := t0;
    for k := 0 to |tags|
      invariant FoldLeft(f, tcur, tags[k..]) == FoldLeft(f, t0, tags)
    {
      assert tags[k..][1..] == tags[k + 1..];
      tcur := f(tcur, tags[k]);
    }
    res := [tcur];
  }

  /** Folding over one more element applies f once more, last: the fold runs left to right. */
  lemma {:induction false} FoldLeftSnoc<T>(f: (T, T) -> T, acc: T, s: seq<T>, x: T)
    ensures FoldLeft(f, acc, s + [x]) == f(FoldLeft(f, acc, s), x)
    decreases |s|
  {
    if s == [] {
      assert [] + [x] == [x];
    } else {
      assert (s + [x])[1..] == s[1..] + [x];
      FoldLeftSnoc(f, f(acc, s[0]), s[1..], x);
    }
  }

  /** foldl on no tags gives [t0]; on two tags a and b it gives [f(f(t0, a), b)]. */
  lemma FoldlSmallCases<T>(t0: T, f: (T, T) -> T, text: string, node: AstNode, a: T, b: T)
    ensures Reduced(Some(FoldTags(t0, f)), text, node, []) == [t0]
    ensures Reduced(Some(FoldTags(t0, f)), text, node, [a, b]) == [f(f(t0, a), b)]
  {
    assert [a, b][1..] == [b] && [b][1..] == [];
    assert FoldLeft(f, t0, [a, b]) == FoldLeft(f, f(t0, a), [b]);
  }

  /** append keeps every earlier tag in place and puts ts after them, in order. */
  lemma AppendKeepsTags<T>(ts: seq<T>, text: string, node: AstNode, tags: seq<T>)
    ensures var r := Reduced(Some(AppendTags(ts)), text, node, tags);
      |r| == |tags| + |ts| && r[..|tags|] == tags && r[|tags|..] == ts
  {
  }

  /** replace returns ts whatever the text, the node and the tags. */
  lemma ReplaceIgnoresInput<T>(ts: seq<T>, text: string, node: AstNode, tags: seq<T>)
    ensures Reduced(Some(ReplaceTags(ts)), text, node, tags) == ts
  {
  }

  /** The identity reduce function leaves the tags unchanged. */
  lemma IdentityKeepsTags<T>(text: string, node: AstNode, tags: seq<T>)
    ensures Reduced(Identity(), text, node, tags) == tags
  {
  }
}
