# Verified models of the algorithms of ivl

The repository is a collection of self-contained C++ algorithms. This project restates them in Dafny, with the
same branches, constants and error conditions, and proves what they are for. `dafny verify dfyconfig.toml` checks everything.

| Algorithm | Dafny files | What is proved |
|---|---|---|
| Strongly connected components | Digraph, Scc | two nodes get one colour if and only if they reach each other, although the switch falls through and low-links of finished children are merged as well |
| In-place FFT | Rings, GrayCode, Fft, FftInverse | the Gray-code walk is the bit reversal, the levels compute the transform over every commutative ring, and the inverse root undoes it up to the length; exactly the lengths up to 2^30 get that far |
| Grammar compiler and its parser | Grammar, GrammarCompiler, GrammarParser, GrammarMatches, GrammarTheorem, LeftRecursion, GrammarProgram | from the definitions as read to the declarations, every name keeps its language; which declarations still try themselves first; the parser matches and fails as declarative rules say, and what it accepts can be derived |
| AVL tree | AvlSpec, AvlHeap | contents up to equivalence, order, exact depths and balance over every run, on the heap as on values; the contract assertions never fire; logarithmic height |
| Segment-tree allocator | SegTreeSpec, SegTreeOrders, SegTreeArray | every call is the tree function; over every run in any order, the free cells are those that no live block covers if and only if no call walks into the mark of another block; in stack order none does, a request fails if and only if nothing aligned fits, it gets the first place that fits, and a give restores the array exactly, stale cells included |
| Translation phases 2 and 3 | Splicing, SplicedFiles, PpTokens, Lexer, Literals, TopLevel, LongestMatch | the spliced text and its two inverse maps; every token is the longest that could be read at its place, but for header names and two digraph exceptions; the tokens partition the text, are the only ones that do, and print it back; raw literals undo the splicing |
| BLAKE3 tree mode | Blake3 | the in-place merge is the left-full tree of section 2.1 (Tree Structure) of the BLAKE3 paper; what every compression is given, so that the hash is the only expression built like that from the input |
| Polynomials and rationals | Polynomials, Divisibility, PolynomialObjects | exact division, the gcd loop with its termination, canonical lowest terms |
| Smaller cores | Families, Grundy, Incrementer, WavFile, WavChannels | enumeration of union-closed families, memoised Grundy values, the compile-time counter, WAV files with lists anywhere, and channels |

Code that updates objects or arrays in place is a class, or a method over arrays, and is proved equal to a
function of the old state; the theorems are about those functions. The bodies of some loops are methods of their own.
C++ exceptions, failing assertions, accesses out of bounds, divisions by zero, signed overflows, undefined shifts and
loops without an end are results (`None`, `Thrown`, `Stuck`, `AssertionFailed`, `OutOfBounds`, `DivisionByZero`,
`Overflow`, `UndefinedShift`, `Endless`). Arith holds powers of two and facts about division, Wrappers the option type.
Every lemma turns automatic induction off, so that the proof is what its body says.

Where the code and what it says of itself differ, the model follows the code:

- The level size of `fft` is a 32-bit unsigned number that is doubled; for a length of 2^31 it becomes 0 (`Fft.DoublingWraps`) and is divided by. It passes the length, and the transform is computed, if and only if the length is at most 2^30 (`Fft.LevelLoopEnds`). From 2^32 on the 32-bit index of the first walk never equals the length (`Fft.WalkEnds`); when it comes back to 0 the shift is by 32, which is undefined (`Fft.WalkWraps`). The comment asks for a `len`-th root of unity; what is used is that its (`len` / 2)-th power is -1.
- Left recursion is removed where a row begins with the name itself. It stays in a list of itself, behind an option at the beginning of a row (`LeftRecursion.OnlyTheseStay`, `LeftRecursion.OptionStays`), and through other definitions (`LeftRecursion.DetourStays`).
- A terminal or keyword that begins with a blank never matches, since blanks are skipped before it is looked for (`GrammarMatches.ParseMeaning`).
- The second half of the root test of the component search always holds (`Scc.LeaveTest`).
- `give` at a place beyond the tree never ends (`SegTreeArray.WalkReturns`).
- A segment tree marks the cells beyond the requested leaf count as free like the others.
- `modify` keeps walking down when nothing is left to mark. That is harmless for positive lengths and gives in stack order. In other orders it can free cells of a live block, on a give (`SegTreeOrders.OutOfOrderExample`) and on a later take (`SegTreeOrders.LaterTakeExample`); `SegTreeOrders.AnyOrder` says exactly when, for every run, and `SegTreeSpec.TakeNothing` when a request for nothing is harmless.
- Dividing a smaller polynomial by a larger one answers zero without any check (`PolynomialObjects.DivisionOutcome`, `PolynomialObjects.SilentZeroExample`).
- A directive on the first line of a file is recognised as a context for header names only if whitespace or a comment stands before it (`PpTokens.FirstLineDirective`, `PpTokens.FirstLineExample`).
- `load` adds up the announced size in 32 bits (`WavFile.SaveThenLoad`).
- `channel_merge` compares rates after a 32-bit multiplication, so that channels with different rates can pass its assertions (`WavChannels.MergeThenSplit`, `WavChannels.RatesWrapExample`). The product of block size and channel count is signed and can overflow, empty blocks make it run forever, and partial blocks make it copy out of bounds, unless a single channel is one byte short, where the terminator of the string is copied onto that of the result (`WavChannels.ChannelMerge`, `WavChannels.TerminatorExample`).

## Model

| member | source | states |
|---|---|---|
| Scc.SCC | ivl/graphs/scc.hpp:18-86 | for every well-formed graph the answer has one colour per component: equal colours if and only if the nodes reach each other, colours are exactly 0 to a count, and no edge leads to a larger colour |
| Scc.Engine.Process | ivl/graphs/scc.hpp:44-77 | one call visits everything reachable that was not visited, keeps all earlier components and the stack below, and leaves the search invariant |
| Scc.AllDone | ivl/graphs/scc.hpp:80-85 | the invariant with nothing running and everything visited is the answer |
| Scc.KnownSuccessor | ivl/graphs/scc.hpp:52-61 | an edge to a node that was already seen, on the stack or finished, keeps the invariant of the running call |
| Scc.NewSuccessor | ivl/graphs/scc.hpp:53-58 | merging the low-link pair of a child after its call is harmless even when the child's component is already closed |
| Scc.Stay | ivl/graphs/scc.hpp:64-67 | a node that is no root leaves the stack to an ancestor that it reaches |
| Scc.ComponentMutual | ivl/graphs/scc.hpp:66-76 | what lies on the stack from a root upwards is mutually reachable |
| Scc.LeaveTest | ivl/graphs/scc.hpp:64-67 | the root test holds if and only if the low-link is the node's own time; the half about the upper end never decides |
| Digraph.DirectedGraph.AddEdge | ivl/graphs/graph.hpp:15 | exactly one successor is appended and all other lists stay |
| Fft.Fft | ivl/algos/fft.hpp:11-62 | for every commutative ring, power-of-two length and e with e^(len/2) = -1: up to length 2^30 the output is the discrete transform of the input at e, at 2^31 the call divides by zero, and from 2^32 on it shifts by 32 |
| Fft.BitReverse | ivl/algos/fft.hpp:16-25 | the Gray-code walk reaches its end if and only if the length is at most 2^31, and then leaves in every cell the entry whose index has the reversed bits |
| Fft.WalkEnds | ivl/algos/fft.hpp:19 | some 32-bit index of the walk equals the length 2^k if and only if k is at most 31 |
| Fft.WalkWraps | ivl/algos/fft.hpp:19-21 | the first index that is 0, at which the shift is by 32, comes after 2^32 - 1 steps |
| Fft.DoublingWraps | ivl/algos/fft.hpp:47 | the input on which the loop over the levels fails: doubling the level size 2^31 gives 0, which never exceeds the length |
| Fft.LevelLoopEnds | ivl/algos/fft.hpp:47 | some 32-bit level size exceeds the length 2^k if and only if k is at most 30 |
| Fft.Butterfly | ivl/algos/fft.hpp:51-59 | one butterfly turns the transforms of the even and odd halves of a block into two entries of the transform of the block |
| Fft.Powers | ivl/algos/fft.hpp:42-45 | the table holds the powers of e |
| GrayCode.GrayStep | ivl/algos/fft.hpp:20-21 | toggling the bit of the trailing zeros of a step turns one Gray code into the next |
| GrayCode.RevStep | ivl/algos/fft.hpp:20-22 | toggling the mirrored bit keeps the second index the bit reversal of the first |
| GrayCode.WalkIsFresh | ivl/algos/fft.hpp:19-24 | no cell of the output is written twice |
| GrayCode.WalkCovers | ivl/algos/fft.hpp:19-24 | every cell of the output is written |
| FftInverse.InverseTransform | ivl/algos/fft.hpp:9-12 | transforming with e and then with its inverse multiplies every entry by the length |
| FftInverse.RoundTrip | ivl/algos/fft.hpp:9-62 | the same for the two calls in a row on arrays, which both return if and only if the length is at most 2^30 |
| GrammarTheorem.CompilePreservesMeaning | ivl/cpp-parser/parse_latex_exe.cpp:580-707 | whatever entities are written by hand beside them, every name derives the same strings from the declarations that are written as from the definitions |
| GrammarTheorem.CompiledParserIsSound | ivl/cpp-parser/grammar_utils.hpp:99-225 | what the parser for the compiled declarations and the entities written by hand consumes is derivable from the definitions |
| GrammarProgram.ProgramPreservesMeaning | ivl/cpp-parser/parse_latex_exe.cpp:709-741 | the same from the definitions as read, "one of" definitions included and new-line skipped, to the output of the whole program |
| GrammarProgram.ProgramParserIsSound | ivl/cpp-parser/doit.cpp:15-62 | what the parser of that program consumes is derivable from the definitions as read |
| GrammarProgram.NormalizationPreservesMeaning | ivl/cpp-parser/parse_latex_exe.cpp:270-310 | whatever mentions a "one of" definition, at any depth, derives the same strings before and after it is normalised |
| GrammarProgram.Translate | ivl/cpp-parser/parse_latex_exe.cpp:729-741 | the loop over the definitions writes the declarations of all of them, without new-line, or stops where an assertion fails |
| GrammarProgram.NewLineIsGiven | ivl/cpp-parser/doit.cpp:24-52 | new-line, which is not compiled, derives exactly the ends of lines |
| GrammarTheorem.PlainMeansSource | ivl/cpp-parser/parse_latex_exe.cpp:654-704 | a definition read as alternatives of rows derives what the definition says, with options, terminals and keywords |
| GrammarTheorem.EntitiesRelated | ivl/cpp-parser/parse_latex_exe.cpp:592-704 | every definition is written in one of three shapes, as it stands, as a list or split at its left recursion, and helper entities are mentioned nowhere else |
| GrammarTheorem.RenamingIsInjective | ivl/cpp-parser/parse_latex_exe.cpp:572-576 | names without underscores stay different after renaming |
| Grammar.SameLanguage | ivl/cpp-parser/parse_latex_exe.cpp:592-651 | environments related entity by entity derive the same strings, also where the recursion runs through other entities |
| Grammar.Forward | ivl/cpp-parser/parse_latex_exe.cpp:592-651 | a parse tree over the definitions can be rebuilt with the same yield over the rewritten declarations |
| Grammar.Backward | ivl/cpp-parser/parse_latex_exe.cpp:592-651 | and the other way round |
| GrammarCompiler.DumpAsCpp | ivl/cpp-parser/parse_latex_exe.cpp:580-707 | the loops compute the declarations, or stop where an assertion fails |
| LeftRecursion.OnlyTheseStay | ivl/cpp-parser/parse_latex_exe.cpp:592-651 | a declaration tries itself before anything is consumed if and only if its definition is a list of itself, or none of its rows begins with the name while some row has it in an option, or behind a list of no words, at its beginning |
| LeftRecursion.StartTries | ivl/cpp-parser/parse_latex_exe.cpp:623-651 | a definition that is no list and has a row that begins with its name is written in three parts; its own declaration tries the start and nothing else, and the start tries it again only behind an option or no words |
| LeftRecursion.ListItemMeaning | ivl/cpp-parser/parse_latex_exe.cpp:592-620 | lists are recognised in exactly five shapes: the rows b and b x, or b and x b, in either order, and the single row b opt(x) |
| LeftRecursion.CompileStops | ivl/cpp-parser/parse_latex_exe.cpp:580-651 | an assertion stops the program if and only if some definition has no rows or an empty row, or is no list and has a row that is its name alone or no row to start with |
| LeftRecursion.OptionStays | ivl/cpp-parser/parse_latex_exe.cpp:623-651 | x = opt(x) "a" stays left-recursive |
| LeftRecursion.DetourStays | ivl/cpp-parser/parse_latex_exe.cpp:623-651 | x = y "a" and y = x "b" are written as they stand and try each other first |
| GrammarCompiler.SplitRows | ivl/cpp-parser/parse_latex_exe.cpp:639-647 | rows that begin with the term go to the continuation without their first element, all others to the start, in order |
| GrammarCompiler.NormalizeOneOf | ivl/cpp-parser/parse_latex_exe.cpp:270-310 | the nested loops compute the one-word rows, or stop where an assertion fails |
| GrammarCompiler.OneOfMeaning | ivl/cpp-parser/parse_latex_exe.cpp:270-310 | a normalised "one of" name derives exactly the spellings of the listed words |
| GrammarCompiler.NormalizedExactly | ivl/cpp-parser/parse_latex_exe.cpp:270-310 | the normalisation succeeds if and only if only terminal commands are listed, on texts and keywords, and gives every listed element its own row, in order, keywords as keywords |
| GrammarParser.ParseIsSound | ivl/cpp-parser/grammar_utils.hpp:99-225 | whatever any combinator accepts is a parse tree that yields the consumed prefix |
| GrammarMatches.ParseMeaning | ivl/cpp-parser/grammar_utils.hpp:99-225 | each combinator accepts and rejects exactly what its rule says: options are taken wherever they match, lists go on as long as their item matches, sequences fail where a part fails behind the parts before it, one alternative alone may match, a word fails if and only if no prefix is blanks and the word |
| GrammarMatches.OneMatch | ivl/cpp-parser/grammar_utils.hpp:99-225 | whatever the nesting allowed, at one place a combinator matches in one way at most |
| GrammarMatches.MatchOrFail | ivl/cpp-parser/grammar_utils.hpp:99-225 | and where it matches it does not fail |
| GrammarParser.ChooseMeaning | ivl/cpp-parser/grammar_utils.hpp:104-135 | an alternative succeeds if and only if exactly one candidate matched, and fails softly if and only if none did |
| GrammarParser.AlternativesInAnyOrder | ivl/cpp-parser/grammar_utils.hpp:103-135 | the order of the alternatives does not change the outcome |
| GrammarParser.MoreFuel | ivl/cpp-parser/doit.cpp:80-102 | an outcome does not depend on the bound on nesting under which it was reached |
| GrammarParser.TryList | ivl/cpp-parser/grammar_utils.hpp:184-203 | the loop computes the list of items, with the minimum count |
| GrammarParser.TryAnd | ivl/cpp-parser/grammar_utils.hpp:138-166 | the fold computes the parts one after another |
| GrammarParser.KeepOnly | ivl/cpp-parser/grammar_utils.hpp:106-134 | the fold keeps the only match and stops at a second one |
| GrammarParser.TryWord | ivl/cpp-parser/grammar_utils.hpp:205-225 | blanks other than new-lines may stand before a terminal or keyword and are counted |
| GrammarParser.TryNewLine | ivl/cpp-parser/doit.cpp:39-47 | the same for a new-line |
| AvlHeap.AvlTree.Insert | ivl/avl_tree/default.hpp:119-130 | for every weak order the object becomes the value tree with the value inserted: ordered, balanced, with exact depths, and holding the old values and, if none is equivalent to it, the new one; whatever it owns more is new |
| AvlHeap.AvlTree.Erase | ivl/avl_tree/default.hpp:146-166 | the same with the values equivalent to the argument removed; it owns nothing more |
| AvlHeap.Perform | ivl/avl_tree/default.hpp:119-166 | any run of insertions and removals on one object ends in the tree of the run on values, holds exactly the values stored, and one equivalent to x if and only if one is present |
| AvlHeap.RotateNode | ivl/avl_tree/default.hpp:61-71 | relinking the owned nodes is the rotation of the value tree, for either side |
| AvlHeap.Fix | ivl/avl_tree/default.hpp:107-117 | rebalancing in place is the value function, and its final assertion holds |
| AvlHeap.StealFirstFrom | ivl/avl_tree/default.hpp:132-144 | takes the first value out of the owned tree |
| AvlSpec.RunContents | ivl/avl_tree/default.hpp:119-166 | for every weak order and run of insertions and removals the tree is balanced, ordered, and holds exactly the values that went in when no equivalent one was present and were not removed since |
| AvlSpec.StrongRunContents | ivl/avl_tree/default.hpp:119-166 | where only equal values are equivalent, those are the values whose last operation was an insertion |
| AvlSpec.InsertContents | ivl/avl_tree/default.hpp:119-130 | insertion keeps the order and adds exactly the value, or nothing if an equivalent one is there |
| AvlSpec.EraseContents | ivl/avl_tree/default.hpp:146-166 | removal keeps the order and removes exactly what is equivalent to the value |
| AvlSpec.StealFirstContents | ivl/avl_tree/default.hpp:132-144 | the value taken is the least one and only it is removed |
| AvlSpec.FixBalances | ivl/avl_tree/default.hpp:107-117 | a node with balanced children whose depths differ by at most two becomes balanced by one or two rotations |
| AvlSpec.AvlPassesCheck | ivl/avl_tree/default.hpp:73-82 | a balanced tree passes the check to every depth |
| AvlSpec.DeepCheckIsAvl | ivl/avl_tree/default.hpp:73-82 | a check that goes deeper than the tree accepts only balanced trees with exact depths |
| AvlSpec.SizeBound | ivl/avl_tree/default.hpp:73-82 | a balanced tree of height h holds at least Fib(h + 2) - 1 values |
| AvlSpec.HeightIsLogarithmic | ivl/avl_tree/default.hpp:119-166 | after every run two to the power of half the height is at most the size plus one |
| SegTreeArray.SegmentTree.TakeBlock | ivl/alloc/segment_tree.hpp:87-109 | in any state and for any request, zero included: fails if and only if the second summary of the root is smaller, is otherwise the tree function with a place inside, and leaves all summaries within the length. While the cells are right it fails if and only if no aligned interval has a long enough free prefix, answers the first place where one begins, keeps them right if and only if its walk meets no mark of another block, and a request for nothing changes nothing if and only if no inner node of the left spine is marked; in stack order they stay right |
| SegTreeArray.SegmentTree.GiveBlock | ivl/alloc/segment_tree.hpp:111-127 | in any state it ends if and only if the place is inside, and then it is the tree function. While the cells are right, giving back any live block frees exactly its cells, and keeps them right, if and only if the walk after its end meets no node that another block marked. In stack order, giving back the last block leaves the node array exactly as it was before the block was taken |
| SegTreeArray.SegmentTree.constructor | ivl/alloc/segment_tree.hpp:45-54 | builds, in a new array, the tree in which every cell is free, of the least sufficient power of two |
| SegTreeArray.WalkReturns | ivl/alloc/segment_tree.hpp:111-124 | the walk of a give reaches the end of its loop if and only if the place is inside the tree |
| SegTreeArray.Perform | ivl/alloc/segment_tree.hpp:45-127 | any run in stack order on one object ends with the tree and the live blocks of the run on trees, so the theorems on runs hold for the array |
| SegTreeArray.PerformAny | ivl/alloc/segment_tree.hpp:45-127 | any run of takes and gives in any order on one object ends with the tree and the live blocks of the run on trees |
| SegTreeArray.CoherentSummariesFit | ivl/alloc/segment_tree.hpp:21-33 | no summary exceeds the number of cells, so that 32 bits hold them |
| SegTreeArray.SegmentTree.ModifyFrom | ivl/alloc/segment_tree.hpp:66-85 | the loop over idx, lo, hi and leftlen with the refresh is the recursive marking |
| SegTreeArray.ModifiedIsModify | ivl/alloc/segment_tree.hpp:66-85 | marking in the heap-ordered array is marking in the tree it stands for, and touches nothing outside the subtree |
| SegTreeSpec.RunIsSafe | ivl/alloc/segment_tree.hpp:87-127 | over every run in stack order live blocks are inside, pairwise disjoint, and a cell is free if and only if no live block covers it |
| SegTreeSpec.StepKeepsReachable | ivl/alloc/segment_tree.hpp:87-127 | each take and each give in stack order keeps the chain of trees behind the live blocks |
| SegTreeSpec.GiveUndoesTake | ivl/alloc/segment_tree.hpp:66-127 | a give restores every summary that the matching take changed, also below nodes whose mark was never pushed down |
| SegTreeSpec.TakeTakes | ivl/alloc/segment_tree.hpp:87-109 | a take finds free cells and uses exactly those |
| SegTreeSpec.TakeIsLeftmost | ivl/alloc/segment_tree.hpp:87-109 | no aligned interval that begins before the place answered has enough free cells at its beginning |
| SegTreeSpec.LeftFreeMeaning | ivl/alloc/segment_tree.hpp:21-33 | the first summary is the length of the free prefix |
| SegTreeSpec.MaxFreeMeaning | ivl/alloc/segment_tree.hpp:21-33 | the second summary reaches n if and only if some interval of the halving hierarchy has a free prefix of n cells |
| SegTreeSpec.TakeNothing | ivl/alloc/segment_tree.hpp:67-85 | taking no cells changes nothing if and only if no inner node of the left spine is marked as a whole |
| SegTreeOrders.GiveOutOfOrder | ivl/alloc/segment_tree.hpp:67-127 | after every run in stack order, for every live block: giving it back next frees exactly its cells if and only if the walk after its end meets no node that another block marked |
| SegTreeSpec.TakeKeepsCoherent | ivl/alloc/segment_tree.hpp:87-109 | whatever calls came before, every node is a mark or the rebuild of its children, and a request that the root admits is answered with a place inside |
| SegTreeOrders.OutOfOrderExample | ivl/alloc/segment_tree.hpp:67-127 | with eight cells, taking 4 and 2 and giving the first block back makes the second read as free |
| SegTreeOrders.LaterTakeExample | ivl/alloc/segment_tree.hpp:67-127 | with sixteen cells, a take after a give out of order makes a live block read as free |
| SegTreeOrders.AnyOrder | ivl/alloc/segment_tree.hpp:66-127 | for every run of takes and gives in any order, requests for nothing included: after each call a cell is free if and only if no live block covers it, if and only if no call meets a mark of another block; and then live blocks are inside, pairwise disjoint and carry their marks |
| SegTreeOrders.StepFaithful | ivl/alloc/segment_tree.hpp:66-127 | from every state that is right, one call keeps all of that or makes a cell wrong, as its walk meets no mark of another block or does |
| Splicing.PlaceKeepsOrder | ivl/cpp-parser/spliced_cxx_file.hpp:48-85 | characters that are not spliced away keep their order and their value |
| Splicing.PlaceIsInjective | ivl/cpp-parser/spliced_cxx_file.hpp:48-85 | no two of them share a place |
| Splicing.EveryPlaceIsTaken | ivl/cpp-parser/spliced_cxx_file.hpp:48-67 | every character of the spliced text has an origin |
| Splicing.LineDropped | ivl/cpp-parser/spliced_cxx_file.hpp:141-163 | the last backslash of a line, followed by whitespace only, is where the splice of that line begins |
| SplicedFiles.Splice | ivl/cpp-parser/spliced_cxx_file.hpp:133-176 | the text is the input without its splices and with a final new-line; it throws if and only if the file ends inside a splice |
| SplicedFiles.ToOrigin | ivl/cpp-parser/spliced_cxx_file.hpp:48-67 | finds the origin of every position but the synthesised new-line |
| SplicedFiles.FromOrigin | ivl/cpp-parser/spliced_cxx_file.hpp:69-85 | finds the place of a character if and only if it is not spliced away |
| TopLevel.TopLevelParse | ivl/cpp-parser/pp_tokens.hpp:529-661 | it throws if and only if an alternative chosen on the way does or none stands; otherwise the tokens divide the whole text, each is what the first alternative that stands at its place makes of it, with header names tried as the tokens before it say, and no other tokens are that |
| TopLevel.TokensAreUnique | ivl/cpp-parser/pp_tokens.hpp:529-661 | two lists of tokens that fit the text up to the same place are equal |
| TopLevel.ReadOrStuck | ivl/cpp-parser/pp_tokens.hpp:626-661 | where the whole text has fitting tokens, no alternative chosen on the way fails |
| LongestMatch.MaximalMunch | ivl/cpp-parser/pp_tokens.hpp:626-651 | a token is a header name if and only if these are tried and one stands here, the sign of a digraph exception where its lookahead holds, and else the longest comment, run of blanks, pp-number, operator, word or literal that could be read here, and the only one of its length |
| LongestMatch.TokensAreLongest | ivl/cpp-parser/pp_tokens.hpp:626-661 | so it is with every token of a file |
| LongestMatch.FailsMeaning | ivl/cpp-parser/pp_tokens.hpp:626-651 | reading throws if and only if, no header name being taken, a comment is not closed, a literal opens and is spoiled, or nothing can be read and no quote stands here |
| TopLevel.HeaderTriedMeaning | ivl/cpp-parser/pp_tokens.hpp:556-624 | header names are tried behind include, embed and import at the beginning of a line, and behind the parenthesis of __has_include and __has_embed in a line that begins with #if, #elif or #embed |
| TopLevel.ParseToken | ivl/cpp-parser/pp_tokens.hpp:626-651 | the alternatives in order: which one is taken is decided by what stands here, and the one taken either makes its token or throws |
| TopLevel.PrintingRestores | ivl/cpp-parser/pp_tokens.hpp:664-716 | without raw literals, printing the tokens one after another gives the spliced text back |
| TopLevel.ShouldTryHeaderName | ivl/cpp-parser/pp_tokens.hpp:556-624 | the contexts in which a header name is tried |
| TopLevel.ConditionalMeaning | ivl/cpp-parser/pp_tokens.hpp:583-615 | the state reached after a list of tokens, in terms of the significant tokens of the last line |
| Literals.ParseRawLiteral | ivl/cpp-parser/pp_tokens.hpp:450-527 | tried if and only if a prefix, R and a quote stand here; between the quotes the original holds exactly delimiter, payload and the first closing delimiter, and lexing resumes behind the place of the closing quote, further on; it throws only if the original holds no raw literal there |
| Literals.ParseQuoted | ivl/cpp-parser/pp_tokens.hpp:372-447 | tried if and only if a prefix and the quote stand here; accepted are basic characters, the listed escapes and, in strings, hexadecimal escapes as long as they go, then the closing quote and the suffix that is no operator; otherwise something else stands before the closing quote |
| Literals.QuotedIsText | ivl/cpp-parser/pp_tokens.hpp:683-712 | such a literal spells what it consumed |
| Literals.RawPrintsOriginal | ivl/cpp-parser/pp_tokens.hpp:664-712 | printing a raw literal gives the original between its quotes, with the splicing undone, and the spliced text around it |
| Lexer.ParseSymbolic | ivl/cpp-parser/pp_tokens.hpp:62-82 | takes the longest operator of the table that stands here, or none stands here |
| Lexer.ParseDigraphException1 | ivl/cpp-parser/pp_tokens.hpp:84-90 | the exception for `<::` holds if and only if neither `:` nor `>` follows |
| Lexer.ParseIdentifierOrWorded | ivl/cpp-parser/pp_tokens.hpp:358-370 | matches if and only if a letter or underscore stands here, takes the maximal run of word characters and tells operators from identifiers |
| Lexer.ParsePpNumber | ivl/cpp-parser/pp_tokens.hpp:170-202 | takes the longest text that the grammar of pp-numbers derives, and matches if and only if there is one |
| Lexer.ParseWhitespace | ivl/cpp-parser/pp_tokens.hpp:151-160 | takes a maximal run of whitespace other than new-lines |
| Lexer.ParseMultiLineComment | ivl/cpp-parser/pp_tokens.hpp:124-134 | ends at the first closing mark behind the opening one |
| Lexer.ParseHeaderName | ivl/cpp-parser/pp_tokens.hpp:316-332 | matches if and only if a header name stands here, and ends at the first closing character, on the same line |
| PpTokens.TokensEndWith | ivl/cpp-parser/pp_tokens.hpp:532-555 | answers yes if and only if the significant tokens end in the context, or are all of it but the leading new-line and something skippable begins the file |
| PpTokens.FirstLineDirective | ivl/cpp-parser/pp_tokens.hpp:532-555 | on the first line, a directive is such a context if and only if something skippable stands before it |
| PpTokens.FirstLineExample | ivl/cpp-parser/pp_tokens.hpp:532-555 | `#include` at the very start of a file is no such context, and is one behind a blank |
| Blake3.Hash | ivl/crypto/blake3.hpp:152-171 | the chunk loop and the in-place doubling merge give the value of the recursive tree |
| Blake3.CompressChain | ivl/crypto/blake3.hpp:116-140 | the loop over the blocks gives the value of the chunk |
| Blake3.HashIsDetermined | ivl/crypto/blake3.hpp:116-171 | a value is the hash of an input if and only if its chunks are those of the input under their own counters and every compression is right: CHUNK_START only on the one that starts from IV, CHUNK_END only on the outermost of a chunk, ROOT only at the top, blocks full but the last, padded with zeros; pairs from IV with PARENT, counter 0 and length 64, the left part a power of two and not smaller than the right |
| Blake3.JoinRuns | ivl/crypto/blake3.hpp:164-170 | two neighbouring runs of one level are the subtrees of the tree over both, whose left part is the largest power of two below the count |
| Blake3.HashIsWellFormed | ivl/crypto/blake3.hpp:116-171 | for every input exactly one compression has ROOT and it is the outermost, chunk i is compressed with counter i, and the bytes compressed are the input |
| Blake3.HashIsInjective | ivl/crypto/blake3.hpp:152-171 | different inputs never have the same expression of compressions |
| GrayCode.XorSibling | ivl/crypto/blake3.hpp:165-168 | toggling the bit of a right child gives its left sibling |
| PolynomialObjects.Gcd | ivl/experiments/poly.cpp:110-121 | the loop ends, and its answer divides both arguments, is a combination of them, and is monic unless an argument was empty |
| PolynomialObjects.Divide | ivl/experiments/poly.cpp:86-105 | for a dividend that is not smaller, the assertion holds if and only if the divisor divides it, and then the quotient is exact; otherwise the answer is zero |
| PolynomialObjects.DivisionOutcome | ivl/experiments/poly.cpp:86-105 | the assertion fires if and only if a not smaller dividend is no multiple; the quotient is silently wrong if and only if the dividend is smaller and not zero |
| PolynomialObjects.SilentZeroExample | ivl/experiments/poly.cpp:86-105 | 1 divided by x is zero without an assertion |
| PolynomialObjects.Rational.Trim | ivl/experiments/poly.cpp:140-147 | both divisions are exact, and the fraction keeps its value, is in lowest terms, so that only constants divide both parts, and has a monic denominator |
| PolynomialObjects.Multiply | ivl/experiments/poly.cpp:62-70 | the double loop computes the product |
| PolynomialObjects.Polynomial.SubAssign | ivl/experiments/poly.cpp:50-55 | coefficient by coefficient, trimmed, also when the operand is the object itself |
| PolynomialObjects.Polynomial.MulAssign | ivl/experiments/poly.cpp:72 | the product, also when the operand is the object itself |
| PolynomialObjects.Plus | ivl/experiments/poly.cpp:45-48 | the sum as a new polynomial, with both operands as they were |
| PolynomialObjects.Minus | ivl/experiments/poly.cpp:57-60 | the difference as a new polynomial, with both operands as they were |
| Divisibility.GcdIsGreatest | ivl/experiments/poly.cpp:110-121 | every common divisor divides a combination of the two |
| Divisibility.CoprimeMeaning | ivl/experiments/poly.cpp:140-147 | polynomials of which one is a combination have only constants as common divisors |
| Divisibility.TopCancels | ivl/experiments/poly.cpp:114-118 | subtracting the multiple by the top coefficients, which is no full remainder, makes the polynomial smaller |
| Divisibility.FollowsStep | ivl/experiments/poly.cpp:113-119 | one pass of the gcd loop keeps combinations and common divisors |
| Divisibility.ReductionIsCanonical | ivl/experiments/poly.cpp:134-147 | fractions of the same value have the same representation once trimmed |
| Divisibility.MulIsConvolution | ivl/experiments/poly.cpp:62-70 | coefficient k of the product is the sum of the products whose indices add up to k |
| Polynomials.MulAssociates | ivl/experiments/poly.cpp:62-70 | multiplication is associative |
| Polynomials.ProductSize | ivl/experiments/poly.cpp:62-70 | sizes and top coefficients of products of trimmed polynomials |
| Families.Generate | ivl/frankl/family.hpp:63-85 | lists every union-closed family over n atoms once and nothing else |
| Families.SplitAtTop | ivl/frankl/family.hpp:76-82 | a family is union-closed if and only if its halves without and with the last atom are and are compatible |
| Families.AreCompatible | ivl/frankl/family.hpp:55-61 | the loops over both iterators decide compatibility |
| Families.AddSet | ivl/frankl/bla.cpp:95-96 | the scan that sets bits of what it scans adds exactly the unions with the new set |
| Families.ExtensionIsClosed | ivl/frankl/bla.cpp:84-101 | the result is union-closed and the least such family with the old members and the new set |
| Grundy.Grundifier.Grundify | ivl/game-theory/impartial.hpp:23-46 | with any cache filled by earlier calls the value is that of the recursion without a cache |
| Grundy.LeastMissing | ivl/game-theory/impartial.hpp:32-45 | the marks and the search find the least missing value, and the throw behind them is not reached |
| Grundy.ZeroIffLosing | ivl/game-theory/impartial.hpp:23-46 | the value is zero if and only if the player to move loses |
| Incrementer.Counter.Get | ivl/edg-reflection/incrementer.hpp:37-48 | returns the number of advances |
| Incrementer.Counter.Advance | ivl/edg-reflection/incrementer.hpp:50-56 | completes exactly one class, which was not complete before |
| Incrementer.AdvanceAddsCell | ivl/edg-reflection/incrementer.hpp:50-56 | the cells after k + 1 advances are those after k and one new one |
| WavFile.SaveThenLoad | ivl/audio/wav.hpp:30-163 | load undoes save if and only if the file is smaller than 2^32 bytes |
| WavFile.Load | ivl/audio/wav.hpp:30-115 | succeeds with p if and only if the bytes are a header with the right size and complete chunks that, lists of any length left out, are one with the format and one with the data of p, in either order |
| WavFile.ListsAreSkipped | ivl/audio/wav.hpp:66-84 | a list of any bytes put between two chunks, before or behind them, with the size adjusted, leaves a file for the same payload below 2^32 bytes |
| WavFile.OrderIsFree | ivl/audio/wav.hpp:66-107 | two neighbouring chunks may change places |
| WavFile.LittleDigits | ivl/audio/wav.hpp:48-52 | numbers are stored low byte first |
| WavFile.Save | ivl/audio/wav.hpp:117-163 | the bytes written, with the lengths patched in and truncated |
| WavChannels.SplitThenMerge | ivl/audio/wav.hpp:165-216 | merging the channels gives back every payload that can be split, and every other one divides by zero or fails an assertion in the split |
| WavChannels.ChannelSplit | ivl/audio/wav.hpp:165-186 | divides by zero, fails an assertion or ends, each under its exact condition in the order of the assertions; channel j holds its share of every block, in order |
| WavChannels.ChannelByte | ivl/audio/wav.hpp:179-184 | byte r of block q of channel j is byte j * b + r of block q of all channels |
| WavChannels.ChannelMerge | ivl/audio/wav.hpp:188-216 | overflows if and only if a product of block size and channel count does before an assertion fails; fails if and only if an assertion does; otherwise does not end if and only if blocks are empty and data are not, copies out of bounds if and only if the data are no whole blocks and no single channel lacks one byte, and else interleaves the channels |
| WavChannels.TerminatorExample | ivl/audio/wav.hpp:208-214 | a single channel that lacks one byte of a whole block comes back whole |
| WavChannels.MergeThenSplit | ivl/audio/wav.hpp:165-216 | splitting merged channels of whole blocks gives them back if and only if no rate times the number of channels reaches 2^32 |
| WavChannels.RatesWrapExample | ivl/audio/wav.hpp:188-216 | two channels with different rates that pass the assertions and do not come back |

## Left out

- Scc.SCC: times and colours are unbounded; in the source they are 32-bit, and never exceed the number of nodes, which is 32-bit as well.
- SegTreeArray.SegmentTree.GiveBlock: once a call has met a mark of another block, or after the give of a block that is not live, the later states are only known to be what the tree functions make of them.
- GrammarTheorem.CompilePreservesMeaning: assumes what a C++ compiler would reject or confuse otherwise: one declaration per name, names that renaming keeps apart, options with one argument, and entities written by hand that are words or new-lines.
- GrammarCompiler.DumpAsCpp: the declarations are terms instead of text, so the quoting of raw strings is not modelled; elements for which the source writes UnimplementedTODO derive nothing.
- GrammarParser.ParseIsSound: the parser is greedy, so not everything that can be derived is accepted; GrammarMatches.ParseMeaning says what is. Recursion through entities has a fuel bound, which GrammarParser.MoreFuel shows to be immaterial; a repetition of something empty, which would not end, is the outcome Stuck.
- Blake3.Hash: the compression function is abstract: a hash value is the expression of compressions, so its rounds, the truncation of its result and the keyed modes are not modelled.
- PolynomialObjects.Gcd: coefficients are real numbers in place of exact rationals; both are fields with exact arithmetic.
- Families.AddSet: the random choice of the set, the history of seen families and the restart of the generator.
- Grundy.Grundifier.Grundify: games in which every play ends, as otherwise the recursion does not.
- SplicedFiles.Splice: pointers are offsets, and the two maps are one ordered list of runs; messages for diagnostics are left out.
- TopLevel.TopLevelParse: placemarkers and the kinds of character that the lexer does not recognise yet.
- `segment_tree2.hpp`, the packed variant of the allocator, and `small_ptr_allocator.hpp`.
- `concat_texts` and the other passes over LaTeX text, and the parser of LaTeX itself.
- `Family::operator<=>`, which compares N of the 2^N bits, and the experiments on random families.
- Sampling to floating point in `wav.hpp`, and everything else on floating point.
- System calls, builds, reflection, user interfaces and the generated data of the grammar.
