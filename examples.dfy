/**
 * Concrete matches: the cases the repository's unit tests assert for text,
 * wildcards, sequences and choices, and two cases of the repetition rules.
 * Each proof walks the loop of the combinator one step at a time.
 */
module GrammarExamples {
  import opened Wrappers
  import opened ParserResults
  import opened Grammars

  lemma TextExamples()
    ensures Succeeded(MatchAt(Text("foo"), "foo", 0))
    ensures Succeeded(MatchAt(Text("foo"), "fooo", 0))
    ensures MatchAt(Text("foo"), "fo", 0) == Normal(Failed(Failure(0, ["foo"])))
    ensures !HasEpsilon(Text("foo"))
  {
  }

  lemma DotExamples()
    ensures Succeeded(MatchAt(Dot, "a", 0)) && Succeeded(MatchAt(Dot, "aa", 0))
    ensures MatchAt(Dot, "", 0) == Normal(Failed(Failure(0, [AnyCharToken])))
    ensures !HasEpsilon(Dot)
  {
  }

  /** The sequence a, bb, c matches "abbc" with one leaf per child. */
  lemma CatMatchExample()
    ensures MatchAt(Cat([Text("a"), Text("bb"), Text("c")]), "abbc", 0) ==
      Normal(Matched(AstNode(0, 4, [Leaf(0, 1), Leaf(1, 2), Leaf(3, 1)])))
  {
    var g := Cat([Text("a"), Text("bb"), Text("c")]);
    var s := "abbc";
    assert s[0..1] == "a" && s[1..3] == "bb" && s[3..4] == "c";
    assert MatchAt(Text("a"), s, 0) == Normal(Matched(Leaf(0, 1)));
    assert MatchAt(Text("bb"), s, 1) == Normal(Matched(Leaf(1, 2)));
    assert MatchAt(Text("c"), s, 3) == Normal(Matched(Leaf(3, 1)));
    assert [] + [Leaf(0, 1)] == [Leaf(0, 1)];
    assert [Leaf(0, 1)] + [Leaf(1, 2)] == [Leaf(0, 1), Leaf(1, 2)];
    assert [Leaf(0, 1), Leaf(1, 2)] + [Leaf(3, 1)] == [Leaf(0, 1), Leaf(1, 2), Leaf(3, 1)];
    assert MatchCat(g, s, 0, 2, 3, [Leaf(0, 1), Leaf(1, 2)])
        == MatchCat(g, s, 0, 3, 4, [Leaf(0, 1), Leaf(1, 2), Leaf(3, 1)]);
    assert MatchCat(g, s, 0, 1, 1, [Leaf(0, 1)]) == MatchCat(g, s, 0, 2, 3, [Leaf(0, 1), Leaf(1, 2)]);
    assert MatchCat(g, s, 0, 0, 0, []) == MatchCat(g, s, 0, 1, 1, [Leaf(0, 1)]);
    assert MatchAt(g, s, 0) == MatchCat(g, s, 0, 0, 0, []);
  }

  /** Input after the sequence's match is left alone. */
  lemma CatPrefixExample()
    ensures MatchAt(Cat([Text("a"), Text("bb"), Text("c")]), "abbccd", 0) ==
      Normal(Matched(AstNode(0, 4, [Leaf(0, 1), Leaf(1, 2), Leaf(3, 1)])))
  {
    var g := Cat([Text("a"), Text("bb"), Text("c")]);
    var s := "abbccd";
    assert s[0..1] == "a" && s[1..3] == "bb" && s[3..4] == "c";
    assert MatchAt(Text("a"), s, 0) == Normal(Matched(Leaf(0, 1)));
    assert MatchAt(Text("bb"), s, 1) == Normal(Matched(Leaf(1, 2)));
    assert MatchAt(Text("c"), s, 3) == Normal(Matched(Leaf(3, 1)));
    assert [] + [Leaf(0, 1)] == [Leaf(0, 1)];
    assert [Leaf(0, 1)] + [Leaf(1, 2)] == [Leaf(0, 1), Leaf(1, 2)];
    assert [Leaf(0, 1), Leaf(1, 2)] + [Leaf(3, 1)] == [Leaf(0, 1), Leaf(1, 2), Leaf(3, 1)];
    assert MatchCat(g, s, 0, 2, 3, [Leaf(0, 1), Leaf(1, 2)])
        == MatchCat(g, s, 0, 3, 4, [Leaf(0, 1), Leaf(1, 2), Leaf(3, 1)]);
    assert MatchCat(g, s, 0, 1, 1, [Leaf(0, 1)]) == MatchCat(g, s, 0, 2, 3, [Leaf(0, 1), Leaf(1, 2)]);
    assert MatchCat(g, s, 0, 0, 0, []) == MatchCat(g, s, 0, 1, 1, [Leaf(0, 1)]);
    assert MatchAt(g, s, 0) == MatchCat(g, s, 0, 0, 0, []);
  }

  /** The first child that fails decides: "abb" runs out where c is expected, at 3. */
  lemma CatFailureExample()
    ensures MatchAt(Cat([Text("a"), Text("bb"), Text("c")]), "abb", 0) == Normal(Failed(Failure(3, ["c"])))
  {
    var g := Cat([Text("a"), Text("bb"), Text("c")]);
    var s := "abb";
    assert s[0..1] == "a" && s[1..3] == "bb";
    assert MatchAt(Text("a"), s, 0) == Normal(Matched(Leaf(0, 1)));
    assert MatchAt(Text("bb"), s, 1) == Normal(Matched(Leaf(1, 2)));
    assert MatchAt(Text("c"), s, 3) == Normal(Failed(Failure(3, ["c"])));
    assert [] + [Leaf(0, 1)] == [Leaf(0, 1)];
    assert [Leaf(0, 1)] + [Leaf(1, 2)] == [Leaf(0, 1), Leaf(1, 2)];
    assert MatchCat(g, s, 0, 1, 1, [Leaf(0, 1)]) == MatchCat(g, s, 0, 2, 3, [Leaf(0, 1), Leaf(1, 2)]);
    assert MatchCat(g, s, 0, 0, 0, []) == MatchCat(g, s, 0, 1, 1, [Leaf(0, 1)]);
    assert MatchAt(g, s, 0) == MatchCat(g, s, 0, 0, 0, []);
  }

  lemma CatEpsilonExamples()
    ensures !HasEpsilon(Cat([Text("a"), Text("bb"), Text("c")]))
    ensures !HasEpsilon(Cat([Text("foo"), Text("")]))
  {
    assert [Text("a"), Text("bb"), Text("c")][0] == Text("a");
    assert [Text("foo"), Text("")][0] == Text("foo");
  }

  /** The choice a | b c | d returns the first alternative that matches, wrapped. */
  lemma AltMatchExamples()
    ensures MatchAt(Alt([Text("a"), Cat([Text("b"), Text("c")]), Text("d")]), "a", 0) ==
      Normal(Matched(AstNode(0, 1, [Leaf(0, 1)])))
    ensures MatchAt(Alt([Text("a"), Cat([Text("b"), Text("c")]), Text("d")]), "bc", 0) ==
      Normal(Matched(AstNode(0, 2, [AstNode(0, 2, [Leaf(0, 1), Leaf(1, 1)])])))
    ensures MatchAt(Alt([Text("a"), Cat([Text("b"), Text("c")]), Text("d")]), "do", 0) ==
      Normal(Matched(AstNode(0, 1, [Leaf(0, 1)])))
  {
    var bc := Cat([Text("b"), Text("c")]);
    var g := Alt([Text("a"), bc, Text("d")]);
    assert MatchAt(g, "a", 0) == MatchAlt(g, "a", 0, 0, None);
    assert "a"[0..1] == "a";
    assert MatchAt(Text("a"), "a", 0) == Normal(Matched(Leaf(0, 1)));

    assert "bc"[0..1] == "b" && "bc"[1..2] == "c" && "bc"[0..1] != "a";
    assert [] + [Leaf(0, 1)] == [Leaf(0, 1)];
    assert [Leaf(0, 1)] + [Leaf(1, 1)] == [Leaf(0, 1), Leaf(1, 1)];
    assert MatchCat(bc, "bc", 0, 1, 1, [Leaf(0, 1)]) == MatchCat(bc, "bc", 0, 2, 2, [Leaf(0, 1), Leaf(1, 1)]);
    assert MatchCat(bc, "bc", 0, 0, 0, []) == MatchCat(bc, "bc", 0, 1, 1, [Leaf(0, 1)]);
    assert MatchAt(bc, "bc", 0) == Normal(Matched(AstNode(0, 2, [Leaf(0, 1), Leaf(1, 1)])));
    assert MatchAlt(g, "bc", 0, 0, None) == MatchAlt(g, "bc", 0, 1, Some(Failure(0, ["a"])));
    assert MatchAt(g, "bc", 0) == MatchAlt(g, "bc", 0, 0, None);

    assert "do"[0..1] == "d" && "do"[0..1] != "a" && "do"[0..1] != "b";
    assert bc.children[0] == Text("b") && TextMatch("b", "do", 0) == Failed(Failure(0, ["b"]));
    assert MatchAt(bc.children[0], "do", 0) == Normal(Failed(Failure(0, ["b"])));
    assert MatchCat(bc, "do", 0, 0, 0, []) == Normal(Failed(Failure(0, ["b"])));
    assert MatchAt(bc, "do", 0) == Normal(Failed(Failure(0, ["b"])));
    assert MatchAlt(g, "do", 0, 0, None) == MatchAlt(g, "do", 0, 1, Some(Failure(0, ["a"])));
    assert MatchAlt(g, "do", 0, 1, Some(Failure(0, ["a"]))) == MatchAlt(g, "do", 0, 2, Some(Failure(0, ["a", "b"])));
    assert MatchAt(g, "do", 0) == MatchAlt(g, "do", 0, 0, None);
  }

  /** Every alternative fails at 0 on "e": their expected tokens are merged in order. */
  lemma AltFailureAtStartExample()
    ensures MatchAt(Alt([Text("a"), Cat([Text("b"), Text("c")]), Text("d")]), "e", 0) ==
      Normal(Failed(Failure(0, ["a", "b", "d"])))
  {
    var bc := Cat([Text("b"), Text("c")]);
    var g := Alt([Text("a"), bc, Text("d")]);
    assert "e"[0..1] == "e" && "e"[0] == 'e';
    assert "a"[0] == 'a' && "b"[0] == 'b' && "d"[0] == 'd';
    assert "e"[0..1] != "a" && "e"[0..1] != "b" && "e"[0..1] != "d";
    assert bc.children[0] == Text("b") && TextMatch("b", "e", 0) == Failed(Failure(0, ["b"]));
    assert MatchAt(bc.children[0], "e", 0) == Normal(Failed(Failure(0, ["b"])));
    assert MatchCat(bc, "e", 0, 0, 0, []) == Normal(Failed(Failure(0, ["b"])));
    assert MatchAt(bc, "e", 0) == Normal(Failed(Failure(0, ["b"])));
    assert MatchAlt(g, "e", 0, 0, None) == MatchAlt(g, "e", 0, 1, Some(Failure(0, ["a"])));
    assert ["a"] + ["b"] == ["a", "b"] && ["a", "b"] + ["d"] == ["a", "b", "d"];
    assert MatchAlt(g, "e", 0, 1, Some(Failure(0, ["a"]))) == MatchAlt(g, "e", 0, 2, Some(Failure(0, ["a", "b"])));
    assert MatchAlt(g, "e", 0, 2, Some(Failure(0, ["a", "b"])))
        == MatchAlt(g, "e", 0, 3, Some(Failure(0, ["a", "b", "d"])));
    assert MatchAt(g, "e", 0) == MatchAlt(g, "e", 0, 0, None);
  }

  /** On "be" the sequence b c got furthest: its failure at 1 wins the merge alone. */
  lemma AltFurthestFailureExample()
    ensures MatchAt(Alt([Text("a"), Cat([Text("b"), Text("c")]), Text("d")]), "be", 0) ==
      Normal(Failed(Failure(1, ["c"])))
  {
    var bc := Cat([Text("b"), Text("c")]);
    var g := Alt([Text("a"), bc, Text("d")]);
    assert "be"[1] == 'e' && "be"[0..1] == "b" && "be"[0..1] != "a" && "be"[0..1] != "d" && "be"[1..2] != "c";
    assert [] + [Leaf(0, 1)] == [Leaf(0, 1)];
    assert MatchCat(bc, "be", 0, 1, 1, [Leaf(0, 1)]) == Normal(Failed(Failure(1, ["c"])));
    assert MatchCat(bc, "be", 0, 0, 0, []) == MatchCat(bc, "be", 0, 1, 1, [Leaf(0, 1)]);
    assert MatchAt(bc, "be", 0) == Normal(Failed(Failure(1, ["c"])));
    assert MatchAlt(g, "be", 0, 0, None) == MatchAlt(g, "be", 0, 1, Some(Failure(0, ["a"])));
    assert MatchAlt(g, "be", 0, 1, Some(Failure(0, ["a"]))) == MatchAlt(g, "be", 0, 2, Some(Failure(1, ["c"])));
    assert MatchAlt(g, "be", 0, 2, Some(Failure(1, ["c"]))) == MatchAlt(g, "be", 0, 3, Some(Failure(1, ["c"])));
    assert MatchAt(g, "be", 0) == MatchAlt(g, "be", 0, 0, None);
  }

  lemma AltEpsilonExamples()
    ensures !HasEpsilon(Alt([Text("a"), Cat([Text("b"), Text("c")]), Text("d")]))
    ensures HasEpsilon(Alt([Text("foo"), Text("")]))
  {
    var cs := [Text("a"), Cat([Text("b"), Text("c")]), Text("d")];
    assert !HasEpsilon(cs[1]) by {
      assert [Text("b"), Text("c")][0] == Text("b");
    }
    assert forall i :: 0 <= i < |cs| ==> !HasEpsilon(cs[i]) by {
      forall i | 0 <= i < |cs| ensures !HasEpsilon(cs[i]) {
        assert i == 0 || i == 1 || i == 2;
      }
    }
    assert [Text("foo"), Text("")][1] == Text("");
  }

  /**
   * Because a repetition reports its final position as its length, a
   * repetition that does not start at 0 makes the enclosing sequence look
   * for its next child too far on: a, b{1,2}, c does not match "abc".
   */
  lemma QuantInsideCat()
    ensures MatchAt(Quant(1, 2, Text("b")), "abc", 1) == Normal(Matched(AstNode(1, 2, [Leaf(1, 1)])))
    ensures MatchAt(Cat([Text("a"), Quant(1, 2, Text("b")), Text("c")]), "abc", 0) ==
      Normal(Failed(Failure(3, ["c"])))
  {
    var q := Quant(1, 2, Text("b"));
    var g := Cat([Text("a"), q, Text("c")]);
    var s := "abc";
    assert s[0..1] == "a" && s[1..2] == "b" && s[2] == 'c' && s[2..3] != "b";
    assert MatchAt(Text("b"), s, 1) == Normal(Matched(Leaf(1, 1)));
    assert MatchAt(Text("b"), s, 2) == Normal(Failed(Failure(2, ["b"])));
    assert [] + [Leaf(1, 1)] == [Leaf(1, 1)];
    assert MatchQuant(q, s, 2, [Leaf(1, 1)]) == Normal(Matched(AstNode(1, 2, [Leaf(1, 1)])));
    assert MatchQuant(q, s, 1, []) == MatchQuant(q, s, 2, [Leaf(1, 1)]);
    assert MatchAt(q, s, 1) == MatchQuant(q, s, 1, []);
    assert [] + [Leaf(0, 1)] == [Leaf(0, 1)];
    assert [Leaf(0, 1)] + [AstNode(1, 2, [Leaf(1, 1)])] == [Leaf(0, 1), AstNode(1, 2, [Leaf(1, 1)])];
    assert MatchAt(Text("c"), s, 3) == Normal(Failed(Failure(3, ["c"])));
    assert MatchCat(g, s, 0, 1, 1, [Leaf(0, 1)])
        == MatchCat(g, s, 0, 2, 3, [Leaf(0, 1), AstNode(1, 2, [Leaf(1, 1)])]);
    assert MatchCat(g, s, 0, 0, 0, []) == MatchCat(g, s, 0, 1, 1, [Leaf(0, 1)]);
    assert MatchAt(g, s, 0) == MatchCat(g, s, 0, 0, 0, []);
  }

  /** An unbounded repetition of a child that matches the empty string is fatal. */
  lemma UnboundedEmptyRepetition()
    ensures MatchAt(Quant(1, IntMax, Text("")), "x", 0) == Fatal(InfiniteLoopMessage)
  {
  }
}
