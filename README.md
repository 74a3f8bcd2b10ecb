# javapeg in Dafny

javapeg is a small Java library of PEG (parsing expression grammar)
combinators. A grammar is a tree of five kinds of node:

- a literal text;
- the wildcard `Dot`, which matches any one character;
- a sequence `Cat` of children;
- an ordered choice `Alt` of children;
- a bounded repetition `Quant(min, max, child)`.

Matching a grammar at a position of the input gives one of two results:

- an `AstNode(idx, length, children)`, a tree of spans;
- a `Failure(idx, expectedTokens)`.

When every alternative of a choice fails, their failures are merged so that
the failure that got furthest into the input wins. A structural `hasEpsilon`
rule says whether a grammar can match the empty string.

The library has two more pieces:

- `FastSnocList`, an append-optimised list. It is a chain of cells that the
  library turns into a flat list when an operation needs one.
- The standard reduce functions, which compute a node's tags from its
  children's tags.

The project models these pieces in twelve files:

| file | module | what it holds |
|---|---|---|
| `wrappers.dfy` | `Wrappers` | `Option`, which stands for Java's nullable references |
| `parser_result.dfy` | `ParserResults` | the result values and the failure merge, with its laws |
| `grammar.dfy` | `Grammars` | the grammar datatype, the matching rules as functions, and `HasEpsilon` |
| `grammar_engine.dfy` | `GrammarEngine` | the engine as the source runs it, with loops |
| `sequence_properties.dfy`, `choice_properties.dfy`, `repetition_properties.dfy` | `SequenceProperties`, `ChoiceProperties`, `RepetitionProperties` | what each combinator's result is |
| `positions.dfy` | `MatchPositions` | where a result lies |
| `epsilon.dfy` | `EpsilonProperties` | what `hasEpsilon` means for matching |
| `examples.dfy` | `GrammarExamples` | the cases the repository's unit tests check, and two repetition cases |
| `snoc_list.dfy` | `SnocLists` | the list as a class over its mutable fields: a ghost `Contents` and a `Repr` footprint |
| `reduce.dfy` | `ReduceFunctions` | the reduce functions |

The engine's methods are proved to produce exactly what the matching
functions in `Grammars` prescribe. The lemmas then say what those functions
mean.

Matching cannot throw in the model. The `IllegalStateException` that an
unbounded repetition raises on an empty match becomes the outcome
`Fatal(message)`, and every combinator passes it through.

The Java `assert`s in the grammar constructors become the predicate
`WellFormed`:

- a sequence or choice has at least one child;
- a repetition has `0 < min < max`.

Positions are unbounded naturals.

A repetition's result node stores the position where it ended in its length
field, not the number of characters it consumed. The model follows the code
here. Two consequences are proved:

- `QuantFromStart`: from position 0 the length field is the length consumed.
- `QuantInsideCat`: a sequence that contains a repetition not at position 0
  looks for its next child too far on.

Because of this quirk, `hasEpsilon` can hold while a match fails, e.g.
`Cat[Alt[a, ""], Quant(1, 2, ""), ""]` on `"a"`. An unbounded repetition of
an epsilon child, such as `Quant(1, Integer.MAX_VALUE, "")`, also has
`hasEpsilon` and yet is fatal. `EpsilonMatches` and `EpsilonAtEnd` are
therefore stated for grammars without repetitions. `EmptyMatchHasEpsilon`
holds for every grammar.

## Model

| member | source | states |
|---|---|---|
| `ParserResults.Leaf` | src/main/java/uy/com/netlabs/javapeg/ParserResult.java:26-30 | the two-argument node has the given position and length and no children |
| `ParserResults.Expecting` | src/main/java/uy/com/netlabs/javapeg/ParserResult.java:81-85 | the single-token failure carries exactly that token, at that position |
| `ParserResults.IsMatched` | src/main/java/uy/com/netlabs/javapeg/ParserResult.java:51-104 | true exactly for a node (52-54), false exactly for a failure (101-104) |
| `ParserResults.Idx` | src/main/java/uy/com/netlabs/javapeg/ParserResult.java:39-41 | getIdx: the start of a node (39-41) or the position of a failure (93-95) |
| `ParserResults.Substring` | src/main/java/uy/com/netlabs/javapeg/ParserResult.java:56-58 | for a span inside the text, the result has the node's length and its k-th character is the text's character at idx + k |
| `ParserResults.Merge` | src/main/java/uy/com/netlabs/javapeg/ParserResult.java:113-126 | absent only when both inputs are; its position is at least each present input's; it is one of the inputs or both token lists concatenated, so nothing is invented |
| `ParserResults.MergeAbsent` | src/main/java/uy/com/netlabs/javapeg/ParserResult.java:114-117 | merging with an absent failure returns the other one |
| `ParserResults.MergeDifferentPositions` | src/main/java/uy/com/netlabs/javapeg/ParserResult.java:116-120 | at different positions the further failure comes back unchanged |
| `ParserResults.MergeEqualPositions` | src/main/java/uy/com/netlabs/javapeg/ParserResult.java:121-125 | at equal positions the result is a new failure there, with e1's tokens followed by e2's |
| `ParserResults.MergeAssociative` | src/main/java/uy/com/netlabs/javapeg/ParserResult.java:113-126 | merging is associative |
| `ParserResults.MergeAll` | src/main/java/uy/com/netlabs/javapeg/Grammar.java:161-169 | the left fold of merge from null over a list of failures is absent exactly when the list is empty |
| `ParserResults.MergeAllFurthest` | src/main/java/uy/com/netlabs/javapeg/ParserResult.java:113-126 | folding merge over failures gives the greatest position, with the tokens of exactly the failures at that position, in order |
| `Grammars.TextMatch` | src/main/java/uy/com/netlabs/javapeg/Grammar.java:80-87 | a literal s matches exactly when idx + \|s\| is within the text and s is a prefix of the rest; a success is a childless node (idx, \|s\|); a failure is at idx, expecting s |
| `Grammars.DotMatch` | src/main/java/uy/com/netlabs/javapeg/Grammar.java:98-104 | the wildcard matches exactly when idx < \|text\|, with length 1; otherwise it fails at idx, expecting "any char" |
| `Grammars.WellFormed` | src/main/java/uy/com/netlabs/javapeg/Grammar.java:112-199 | the constructor asserts: a sequence (118) or choice (156) has a child, a repetition has 0 < min < max (197-198); required of every child too |
| `Grammars.MatchAt` | src/main/java/uy/com/netlabs/javapeg/Grammar.java:80-223 | match(text, idx) by kind of grammar: text and wildcard through their leaf rules, the three combinators through their loops |
| `Grammars.MatchCat` | src/main/java/uy/com/netlabs/javapeg/Grammar.java:122-137 | the sequence loop from child i with length consumed so far and the nodes so far: a child that does not succeed ends it with its outcome, and past the last child it gives AstNode(idx, length, nodes) |
| `Grammars.MatchAlt` | src/main/java/uy/com/netlabs/javapeg/Grammar.java:160-175 | the choice loop from child i with the failures merged so far: a success becomes AstNode(idx, length, [node]), a fatal outcome passes through, and a failure is merged in; past the last child it gives the merged failure |
| `Grammars.MatchQuant` | src/main/java/uy/com/netlabs/javapeg/Grammar.java:202-223 | the repetition loop: the child is matched from the position reached until max matches; a zero-length match of an unbounded repetition is fatal; a failure before min matches is returned, after min the loop ends with AstNode(first idx, end position, nodes) |
| `Grammars.HasEpsilon` | src/main/java/uy/com/netlabs/javapeg/Grammar.java:89-229 | the five hasEpsilon rules: text when empty (89-92), never the wildcard (106-109), a sequence when every child has it (139-147), a choice when some child has it (177-185), a repetition when min is 0 or its child has it (226-229) |
| `GrammarEngine.Match` | src/main/java/uy/com/netlabs/javapeg/Grammar.java:26-28 | the public match(text) is matching at position 0 |
| `GrammarEngine.MatchFrom` | src/main/java/uy/com/netlabs/javapeg/Grammar.java:80-223 | the recursive matcher and its sequence, choice and repetition loops produce exactly the outcome of the matching rules |
| `SequenceProperties.SequenceMatchAt` | src/main/java/uy/com/netlabs/javapeg/Grammar.java:125-131 | in a run of sequence matches, child k matched at start plus the lengths of the nodes before it |
| `SequenceProperties.SequenceMatchUnique` | src/main/java/uy/com/netlabs/javapeg/Grammar.java:125-131 | two runs of sequence matches over the same children and text agree on every child both cover |
| `SequenceProperties.MatchCatNext` | src/main/java/uy/com/netlabs/javapeg/Grammar.java:125-131 | when child i succeeds, the loop goes on at the next child from where that match ended, with its node appended |
| `SequenceProperties.MatchCatStop` | src/main/java/uy/com/netlabs/javapeg/Grammar.java:126-128 | when child i does not succeed, the loop returns that child's outcome unchanged |
| `SequenceProperties.CatRun` | src/main/java/uy/com/netlabs/javapeg/Grammar.java:125-131 | from any run of matches the loop extends it to a longer run that ends at the last child or at a child that does not succeed |
| `SequenceProperties.CatReaches` | src/main/java/uy/com/netlabs/javapeg/Grammar.java:123-131 | the loop started at the first child passes through the end of every run of sequence matches, with its total length and its nodes |
| `SequenceProperties.CatOutcome` | src/main/java/uy/com/netlabs/javapeg/Grammar.java:122-137 | a sequence either matches every child in order and returns AstNode(idx, sum of lengths, the nodes), or returns unchanged the outcome of the first child that does not succeed |
| `SequenceProperties.CatMatched` | src/main/java/uy/com/netlabs/javapeg/Grammar.java:136 | a sequence's success starts at idx and has one child node per child grammar; its length is their total length |
| `SequenceProperties.CatAllMatch` | src/main/java/uy/com/netlabs/javapeg/Grammar.java:125-136 | if every child matches in turn, the sequence returns the node of those matches |
| `SequenceProperties.CatFirstFailure` | src/main/java/uy/com/netlabs/javapeg/Grammar.java:126-128 | if some children match in turn and the next one does not succeed, that child's outcome is the sequence's |
| `ChoiceProperties.MergeAllSnoc` | src/main/java/uy/com/netlabs/javapeg/Grammar.java:169 | each failure is merged into the accumulated failure, so the accumulator is the left fold of merge over the failures so far |
| `ChoiceProperties.MatchAltSteps` | src/main/java/uy/com/netlabs/javapeg/Grammar.java:162-174 | the choice loop from any state extends its run of failures; it ends with the merged failure of all children, or with the first child that did not fail |
| `ChoiceProperties.AltOutcome` | src/main/java/uy/com/netlabs/javapeg/Grammar.java:160-175 | a choice returns the first non-failing child's outcome (a success wrapped in a node at idx), or the merge of all its children's failures |
| `ChoiceProperties.AltFirstSuccess` | src/main/java/uy/com/netlabs/javapeg/Grammar.java:164-166 | after failures of the earlier children, a succeeding child's node n gives AstNode(idx, n.length, [n]) and later children are not consulted |
| `ChoiceProperties.AltAllFail` | src/main/java/uy/com/netlabs/javapeg/Grammar.java:167-174 | when every child fails, the choice fails at the furthest of their positions, with the tokens of the failures there, in child order |
| `RepetitionProperties.MatchQuantNext` | src/main/java/uy/com/netlabs/javapeg/Grammar.java:205-212 | when the child's outcome does not stop the loop, the loop goes on from where that match ended, with its node appended |
| `RepetitionProperties.MatchQuantRun` | src/main/java/uy/com/netlabs/javapeg/Grammar.java:204-212 | the repetition loop keeps matching the child from the position reached, until max matches or a child outcome that is not a non-empty success (a zero-length one stops it only when max is unbounded) |
| `RepetitionProperties.MatchQuantStop` | src/main/java/uy/com/netlabs/javapeg/Grammar.java:204-223 | once the loop stops, the result is decided by the repetitions so far and the child's last outcome |
| `RepetitionProperties.QuantOutcome` | src/main/java/uy/com/netlabs/javapeg/Grammar.java:202-223 | a repetition is a run of at most max child matches, each at the end of the previous, followed by the stopping rules |
| `RepetitionProperties.QuantMatched` | src/main/java/uy/com/netlabs/javapeg/Grammar.java:202-223 | a success has between min and max child matches in a run from idx; its idx is the first child's and its length field is the final position; below max, the child failed where the run ended and that failure was discarded |
| `RepetitionProperties.QuantFailed` | src/main/java/uy/com/netlabs/javapeg/Grammar.java:213-216 | a repetition fails only when the child fails after fewer than min matches, and then returns that child failure |
| `RepetitionProperties.QuantFatal` | src/main/java/uy/com/netlabs/javapeg/Grammar.java:205-212 | a fatal repetition either passes on the child's fatal outcome or met a zero-length child match with max = Integer.MAX_VALUE |
| `MatchPositions.Positions` | src/main/java/uy/com/netlabs/javapeg/Grammar.java:80-223 | a success's node starts at idx; a failure lies at idx or beyond; without repetitions a success ends within the input |
| `MatchPositions.CatPositions` | src/main/java/uy/com/netlabs/javapeg/Grammar.java:122-137 | the same three facts for a sequence |
| `MatchPositions.AltPositions` | src/main/java/uy/com/netlabs/javapeg/Grammar.java:160-175 | the same three facts for a choice |
| `MatchPositions.QuantPositions` | src/main/java/uy/com/netlabs/javapeg/Grammar.java:202-223 | a repetition's success starts at idx and its failure lies at idx or beyond |
| `MatchPositions.QuantFromStart` | src/main/java/uy/com/netlabs/javapeg/Grammar.java:222-223 | from position 0 a repetition's length field equals the total length of its matches |
| `MatchPositions.NeverFatal` | src/main/java/uy/com/netlabs/javapeg/Grammar.java:210-212 | a grammar without repetitions never produces the fatal outcome |
| `EpsilonProperties.EmptyMatchHasEpsilon` | src/main/java/uy/com/netlabs/javapeg/Grammar.java:89-229 | a success of length 0 is only possible for a grammar with hasEpsilon |
| `EpsilonProperties.CatEmptyMatch` | src/main/java/uy/com/netlabs/javapeg/Grammar.java:139-147 | a sequence that matches empty has hasEpsilon, because every child then matched empty |
| `EpsilonProperties.EpsilonMatches` | src/main/java/uy/com/netlabs/javapeg/Grammar.java:89-185 | a grammar without repetitions that has hasEpsilon succeeds at every position up to the end of the input |
| `EpsilonProperties.CatEpsilonMatches` | src/main/java/uy/com/netlabs/javapeg/Grammar.java:139-147 | the same for a sequence, whose children all have hasEpsilon |
| `EpsilonProperties.AltEpsilonMatches` | src/main/java/uy/com/netlabs/javapeg/Grammar.java:177-185 | the same for a choice, one of whose children has hasEpsilon |
| `EpsilonProperties.EpsilonAtEnd` | src/main/java/uy/com/netlabs/javapeg/Grammar.java:89-185 | without repetitions: hasEpsilon holds exactly when the grammar succeeds at the end of the input |
| `GrammarExamples.TextExamples` | src/test/java/uy/com/netlabs/javapeg/GrammarTest.java:32-38 | "foo" matches "foo" and "fooo", fails on "fo" at 0 expecting "foo", and has no epsilon |
| `GrammarExamples.DotExamples` | src/test/java/uy/com/netlabs/javapeg/GrammarTest.java:40-46 | Dot matches "a" and "aa", fails on "" expecting "any char", and has no epsilon |
| `GrammarExamples.CatMatchExample` | src/test/java/uy/com/netlabs/javapeg/GrammarTest.java:48-54 | a·bb·c matches "abbc" as AstNode(0, 4) with the three leaves |
| `GrammarExamples.CatPrefixExample` | src/test/java/uy/com/netlabs/javapeg/GrammarTest.java:55 | a·bb·c matches the prefix "abbc" of "abbccd" |
| `GrammarExamples.CatFailureExample` | src/test/java/uy/com/netlabs/javapeg/GrammarTest.java:56-62 | a·bb·c fails on "abb" at 3, expecting exactly ["c"] |
| `GrammarExamples.CatEpsilonExamples` | src/test/java/uy/com/netlabs/javapeg/GrammarTest.java:63-67 | a·bb·c and foo·"" have no epsilon |
| `GrammarExamples.AltMatchExamples` | src/test/java/uy/com/netlabs/javapeg/GrammarTest.java:70-81 | a \| b·c \| d matches "a", "bc" and "do", each result wrapping the winning child's node |
| `GrammarExamples.AltFailureAtStartExample` | src/test/java/uy/com/netlabs/javapeg/GrammarTest.java:82-84 | on "e" every alternative fails at 0, and the merge gives Failure(0, ["a", "b", "d"]) |
| `GrammarExamples.AltFurthestFailureExample` | src/test/java/uy/com/netlabs/javapeg/GrammarTest.java:85-91 | on "be" the failure of b·c at 1 wins the merge: Failure(1, ["c"]) |
| `GrammarExamples.AltEpsilonExamples` | src/test/java/uy/com/netlabs/javapeg/GrammarTest.java:93-97 | a \| b·c \| d has no epsilon; foo \| "" has one |
| `GrammarExamples.QuantInsideCat` | src/main/java/uy/com/netlabs/javapeg/Grammar.java:209-223 | b{1,2} at 1 on "abc" gives AstNode(1, 2, ...), length field = end position; so a·b{1,2}·c fails on "abc" at 3, expecting "c" |
| `GrammarExamples.UnboundedEmptyRepetition` | src/main/java/uy/com/netlabs/javapeg/Grammar.java:210-212 | an unbounded repetition of "" is fatal with the infinite-loop message |
| `SnocLists.FastSnocList.Cell` | src/main/java/uy/com/netlabs/javapeg/util/FastSnocList.java:31-35 | the private constructor builds an unflattened cell with the given length, init and last element, whose contents are init's followed by that element |
| `SnocLists.FastSnocList.SnocOnto` | src/main/java/uy/com/netlabs/javapeg/util/FastSnocList.java:243-245 | the static snoc returns a fresh valid list of init's elements followed by last, with size init.size() + 1; init is not modified |
| `SnocLists.FastSnocList.Snoc` | src/main/java/uy/com/netlabs/javapeg/util/FastSnocList.java:239-241 | the instance snoc returns a fresh list of this list's contents followed by last, built on this list |
| `SnocLists.FastSnocList.Size` | src/main/java/uy/com/netlabs/javapeg/util/FastSnocList.java:38-43 | the size, flattened or not, is the number of elements |
| `SnocLists.FastSnocList.IsEmpty` | src/main/java/uy/com/netlabs/javapeg/util/FastSnocList.java:46-51 | as written: right on a flattened list; on an unflattened list, which is never empty, it reports empty |
| `SnocLists.FastSnocList.IsEmptyCorrected` | src/main/java/uy/com/netlabs/javapeg/util/FastSnocList.java:46-51 | as intended: true exactly when there are no elements |
| `SnocLists.FastSnocList.FlattenList` | src/main/java/uy/com/netlabs/javapeg/util/FastSnocList.java:53-75 | the flat list equals the contents; a flattened list is left unchanged, so a second call does nothing; afterwards init and lastElement are cleared |
| `SnocLists.Materialise` | src/main/java/uy/com/netlabs/javapeg/util/FastSnocList.java:57-71 | the buffer filled from the last element, the chain walked backwards and the root list copied to the front holds exactly the list's elements |
| `SnocLists.CellStep` | src/main/java/uy/com/netlabs/javapeg/util/FastSnocList.java:68-70 | a cell of the chain holds the last of its elements in lastElement and the others in its init |
| `SnocLists.CopyPrefix` | src/main/java/uy/com/netlabs/javapeg/util/FastSnocList.java:61-66 | copying a root list writes its elements to positions 0.. and leaves the rest of the buffer alone |
| `SnocLists.FastSnocList.Add` | src/main/java/uy/com/netlabs/javapeg/util/FastSnocList.java:101-111 | add(e) appends e and returns true; unflattened, the old state moves to a fresh cell holding the earlier elements, the size grows by one and the last element is e |
| `SnocLists.FastSnocList.AddAll` | src/main/java/uy/com/netlabs/javapeg/util/FastSnocList.java:126-134 | appends the elements of c in order; the result is true on the chain path, and on the flat path only when c is not empty |
| `SnocLists.FastSnocList.AddAllAt` | src/main/java/uy/com/netlabs/javapeg/util/FastSnocList.java:137-146 | as written: appends c at the end for every index |
| `SnocLists.FastSnocList.InsertAllAt` | src/main/java/uy/com/netlabs/javapeg/util/FastSnocList.java:137-146 | as intended: inserts c before position index; an index outside 0..size is refused |
| `SnocLists.FastSnocList.AddAllFlat` | src/main/java/uy/com/netlabs/javapeg/util/FastSnocList.java:127-128 | the flat list's addAll appends c and reports whether c was non-empty |
| `SnocLists.FastSnocList.Clear` | src/main/java/uy/com/netlabs/javapeg/util/FastSnocList.java:161-163 | clear() leaves an empty flat list, size 0, with the chain fields untouched |
| `SnocLists.FastSnocList.Get` | src/main/java/uy/com/netlabs/javapeg/util/FastSnocList.java:166-175 | get(index) is the element at index, or None for an index out of range (the exception); the last element of an unflattened list is read without flattening; every other read leaves the list flattened |
| `SnocLists.FastSnocList.Set` | src/main/java/uy/com/netlabs/javapeg/util/FastSnocList.java:178-189 | set(index, e) returns the old element and replaces it, or is None and changes nothing out of range; the last element of an unflattened list is replaced in place without flattening |
| `SnocLists.FastSnocList.AddAt` | src/main/java/uy/com/netlabs/javapeg/util/FastSnocList.java:192-201 | as written: unflattened with index = size - 1, the element goes after the last one; any other index inserts before position index, or is refused outside 0..size |
| `SnocLists.FastSnocList.InsertAt` | src/main/java/uy/com/netlabs/javapeg/util/FastSnocList.java:192-201 | as intended: the element is inserted before position index for every index in 0..size; other indices are refused |
| `SnocLists.FastSnocList.InsertFlat` | src/main/java/uy/com/netlabs/javapeg/util/FastSnocList.java:193-194 | the flat list's add(index, e) inserts before index, or refuses an index outside 0..size |
| `SnocLists.ElementAt` | src/main/java/uy/com/netlabs/javapeg/util/FastSnocList.java:167-168 | the flat list's get is the element at index, or None exactly when index is out of range |
| `SnocLists.AppendIsNotInsertBeforeLast` | src/main/java/uy/com/netlabs/javapeg/util/FastSnocList.java:195-196 | appending x differs from inserting x before the last element whenever x is not that element |
| `SnocLists.AppendIsNotInsertAll` | src/main/java/uy/com/netlabs/javapeg/util/FastSnocList.java:140-144 | appending c differs from inserting it before an existing position whenever c's first element differs from the element there |
| `SnocLists.IsEmptyWitness` | src/main/java/uy/com/netlabs/javapeg/util/FastSnocList.java:50 | snoc([], 7) holds one element, yet isEmpty() returns true and the intended version returns false |
| `SnocLists.AddAtWitness` | src/main/java/uy/com/netlabs/javapeg/util/FastSnocList.java:195-196 | on snoc([], 1), add(0, 2) gives [1, 2], where inserting gives [2, 1] |
| `ReduceFunctions.Identity` | src/main/java/uy/com/netlabs/javapeg/ReduceFunction.java:23-25 | identity() is the null reduce function, None |
| `ReduceFunctions.FoldLeft` | src/main/java/uy/com/netlabs/javapeg/ReduceFunction.java:52-56 | the foldl loop's accumulator: f applied to the accumulator and each tag in turn, front to back |
| `ReduceFunctions.Reduced` | src/main/java/uy/com/netlabs/javapeg/ReduceFunction.java:21-61 | what each reduce body returns: the tags for the null function, tags then ts for append, ts for replace, the singleton fold for foldl |
| `ReduceFunctions.AppendReduce` | src/main/java/uy/com/netlabs/javapeg/ReduceFunction.java:27-37 | append(ts).reduce returns a valid list of the tags followed by ts in order; with no ts it returns the given list itself, and otherwise a fresh list; the given list is not modified |
| `ReduceFunctions.FoldlReduce` | src/main/java/uy/com/netlabs/javapeg/ReduceFunction.java:49-61 | foldl(t0, f).reduce returns the singleton of the left fold of f over the tags from t0 |
| `ReduceFunctions.FoldLeftSnoc` | src/main/java/uy/com/netlabs/javapeg/ReduceFunction.java:53-56 | the fold runs left to right: one more tag applies f once more, last |
| `ReduceFunctions.FoldlSmallCases` | src/main/java/uy/com/netlabs/javapeg/ReduceFunction.java:52-60 | foldl on no tags gives [t0], and on [a, b] gives [f(f(t0, a), b)] |
| `ReduceFunctions.AppendKeepsTags` | src/main/java/uy/com/netlabs/javapeg/ReduceFunction.java:31-35 | append's result has size \|tags\| + \|ts\|, and the tags stay in front with ts after them |
| `ReduceFunctions.ReplaceIgnoresInput` | src/main/java/uy/com/netlabs/javapeg/ReduceFunction.java:40-46 | replace(ts).reduce is ts whatever the text, the node and the tags |
| `ReduceFunctions.IdentityKeepsTags` | src/main/java/uy/com/netlabs/javapeg/ReduceFunction.java:23-25 | identity() is the absent reduce function, which leaves the tags as they are |

## Left out

- Options, the WARNING_* constants and getTag/setTag: unused, empty or trivial accessors.
- The hasEpsilon memo and proxy machinery: no subclass calls the proxy, so the cache is never set. Only the structural rules are modelled, as `HasEpsilon`.
- The IllegalStateException("invalid match response type") branches: a closed datatype makes them unreachable.
- Strings: the text is a sequence of Unicode characters, whereas Java's String.length, substring and positions count UTF-16 code units. On text with characters outside the Basic Multilingual Plane, positions, lengths and the wildcard differ: Java's Dot matches each half of a surrogate pair, the model matches the whole character once.
- Integer overflow in position arithmetic, and the Java array and list sizing in the matchers: positions are unbounded.
- The toString methods: diagnostic formatting only.
- The FastSnocList methods that only flatten and then delegate to ArrayList: contains, iterator, toArray, remove, containsAll, removeAll, retainAll, indexOf, lastIndexOf, listIterator and subList. Note that retainAll calls removeAll.
- FlattenList: the source allocates its buffer as new ArrayList(len), which has size 0, so its first set would throw. The model uses a buffer of length len, as evidently intended.
- Sharing of FastSnocList cells: an outer list's flattenList reads the fields `init` and `lastElement` of the cells it is built on (FastSnocList.java:68-70). Flattening a shared cell clears those fields, so lists built on it break. `add` on an unflattened shared cell (FastSnocList.java:106-109) moves its old state into a new cell below it and puts the new element in its place, so a list built on it reads the new element in the cell's place and the cell's old element and those of the chain cells below it one position lower. With a root list of two or more elements, the root copy then overwrites the lowest of these, so the list loses the element of its lowest chain cell and keeps the root's in place. With a root of at most one element, it loses its first element instead. `set(len - 1, e)` (FastSnocList.java:182-186) rewrites the cell's last element in place, so every list built on it silently changes its element at that position. `clear` replaces only the flat list and leaves the chain fields alone, so in Java the lists built on a cleared cell keep their contents. The model still excludes it: `Valid` requires every chain cell to be unflattened, and after `clear` a cell counts as flattened. Framing by `Repr` keeps shared cells unchanged. Lists broken or changed by shared mutation are not modelled.
- SnocOnto, FastSnocList.Snoc, ReduceFunctions.AppendReduce: each requires every FastSnocList it snocs onto to be unflattened. AppendReduce does not require it when ts is empty, since it then returns the tags untouched. Snoccing onto a flattened list builds a list whose later flattening reads the cleared fields.
- Substring: requires the node to lie inside the text, so the StringIndexOutOfBoundsException of String.substring is not modelled. A repetition node that does not start at 0 can hit that exception, because its length field holds its end position.
- An ordinary list at the root of a chain is taken as a snapshot of its elements. Later changes to that Java list are not modelled.
- Get, Set, AddAt: IndexOutOfBoundsException is modelled as a None or false result after the same state change. No exception propagates.
- AddAll, AddAllAt, InsertAllAt, AddAllFlat: the collection c is taken as a sequence of its elements. In Java, iterating a FastSnocList argument (FastSnocList.java:130 through iterator at :84-86) or copying it with ArrayList.addAll (:128, :139, :144 through toArray at :90-92) flattens it, with the consequences for lists built on it given in the sharing line above. `l.addAll(l)` on an unflattened l is not modelled: the loop flattens l, each add then takes the flat path while the iterator is live, and the second step throws ConcurrentModificationException after one element has been appended.
- FoldlReduce: the tags are taken as a sequence. Iterating a FastSnocList flattens it first, and that is not modelled. f is a total function without side effects.
- The meaning of a null reduce function: its callers are not part of this model. Following the comment at ReduceFunction.java:24, `Reduced` leaves the tags unchanged for it.
- The grammar features the test file uses but the source does not define: ranges, negative look-ahead, references, `with` and left-recursion detection. The Function2 and Pair utility classes are not part of this model.

## Findings

| source | as written | input that shows it | evidently intended | confidence | as-written member | corrected member |
|---|---|---|---|---|---|---|
| src/main/java/uy/com/netlabs/javapeg/util/FastSnocList.java:50 | an unflattened list answers isEmpty() with len != 0 | snoc([], 7).isEmpty() is true for a one-element list (`SnocLists.IsEmptyWitness`) | len == 0 | high, not executed | `SnocLists.FastSnocList.IsEmpty` | `SnocLists.FastSnocList.IsEmptyCorrected` |
| src/main/java/uy/com/netlabs/javapeg/util/FastSnocList.java:195-196 | add(len - 1, e) on an unflattened list appends e | on snoc([], 1), add(0, 2) gives [1, 2] (`SnocLists.AddAtWitness`, `SnocLists.AppendIsNotInsertBeforeLast`) | insert before the last element, giving [2, 1]; only index == len appends | high, not executed | `SnocLists.FastSnocList.AddAt` | `SnocLists.FastSnocList.InsertAt` |
| src/main/java/uy/com/netlabs/javapeg/util/FastSnocList.java:137-146 | addAll(index, c) appends c in every branch | on [1, 2], addAll(0, [3]) gives [1, 2, 3] (`SnocLists.AppendIsNotInsertAll`) | insert c before index and refuse an index outside 0..size, giving [3, 1, 2] | high, not executed | `SnocLists.FastSnocList.AddAllAt` | `SnocLists.FastSnocList.InsertAllAt` |
