# SCL in Baumslag–Solitar groups: the word and turn-graph utilities

This project models `utils.py` of SCLGBS. That program computes stable commutator length in the Baumslag–Solitar groups BS(m,l) = ⟨a, t | t a^m T = a^l⟩. Words are strings over `a`, `A` (a⁻¹), `t` and `T` (t⁻¹). The model proves, in Dafny, what the utilities do to the words they handle. It covers the shape of the results (tightness, the a-run bound of the normal form, cyclic reduction), the t-exponent sum they keep, idempotence, and the invariants of their loops. It does not prove that a result is equal or conjugate to the input in the group; see Left out.

- **Words** (`words.dfy`):
  - the t-exponent sum `TExp` and the t-length `TLen`;
  - free reduction, as the specification function `Reduce` and the method `Tighten` proved against it;
  - the inverse of a word;
  - the split of a word at its t-letters (`Pieces`, `TShape`).
- **NormalForms** (`normal_form.dfy`):
  - `normal_form`: the word, once tightened, is cut into blocks (an a-run followed by a t-run).
  - The first block whose a-run is at least the modulus of its t-letter is rewritten. Its a-letters move past the t-letter by the relator, and the function starts again.
  - `NF` is the specification function and `NormalForm` the recursive method proved equal to it.
  - Since the source's recursion has no proved bound, both take a step budget (`fuel`). They return `None` when it runs out.
- **CyclicForms** (`cyclic.dfy`): `cyclic_normal`.
  - First the matching end letters are stripped. Then the passes of the main loop run while the word has t-letters.
  - `CN` is the corrected function, `CNAsWritten` the function as the code has it (see Findings), and `CyclicNormal` the method proved equal to `CN`.
  - A loop state is a word in normal form that is tight up to its last t-letter. Stripping produces one, and every pass keeps it. So the word `CN` returns is cyclically reduced, in normal form, and has the t-exponent sum of its input.
- **WordTests** (`predicates.dfy`): `is_alternating` and `has_extremal_surface`, as methods with their loops.
- **TurnGraphs** (`turn_graph.dfy`):
  - the turn graph record, with its vertex count, edge list, turn degrees and turn types, and the method that builds it;
  - `dual_edge`;
  - `dual_edge_basis`, which keeps one edge of each dual pair.
- **Cycles** (`cycles.dfy`):
  - the degree and type of a cycle and of a weighted cycle sum;
  - `mod_value` with its greatest common divisor.
- **EdgeCounts** (`edge_counts.dfy`):
  - the edges of a path, and how often a path uses an edge;
  - the edge dictionary and `dict_nv`;
  - the step of `X_variable_list` that handles one weight vector: the divisibility test and the edge dictionary of the cycle sum.

A vertex is an `int`, an edge a pair `(int, int)` and a cycle a `seq<int>` whose first and last vertices are equal. An edge dictionary is a list of (edge, count) pairs in insertion order.

## Model

| member | source | states |
|---|---|---|
| Words.TExp | utils.py:31-33 | The t-exponent sum lies between minus and plus the t-length. |
| Words.TLen | utils.py:37-39 | The t-length is at most the length of the word. |
| Words.TConcat | utils.py:31-39 | The t-exponent sum and the t-length of a concatenation are the sums of the parts. |
| Words.TLenZero | utils.py:37-39 | The t-length is zero exactly when the word has no t-letter. |
| Words.Tighten | utils.py:43-55 | The loop returns the free reduction of the word. The result has no adjacent inverse pair, and its t-exponent sum is that of the input. |
| Words.Reduce | utils.py:43-55 | Free reduction never lengthens a word. |
| Words.ReduceParity | utils.py:43-55 | Free reduction removes letters in pairs: the word is its reduction plus 2k letters for some k. |
| Words.ReduceKeepsPrefix | utils.py:43-55 | Tightening a tight word followed by a-letters leaves every letter up to a chosen t-letter in place. |
| Words.ReduceAfterT | utils.py:43-55 | Tightening a tight word that ends with a t-letter, followed by a-letters, keeps that word and adds only a-letters after it. |
| Words.TightPower | utils.py:43-55 | A tight word without t-letters repeats one letter, so it is a power of a or of A. |
| Words.ReduceIsTight | utils.py:43-55 | Free reduction always yields a word without an adjacent inverse pair. |
| Words.ReduceOfTight | utils.py:43-55 | A word without an adjacent inverse pair is its own reduction. |
| Words.ReduceIdempotent | utils.py:43-55 | Tightening twice gives the same word as tightening once. |
| Words.ReduceTExp | utils.py:43-55 | Tightening keeps the t-exponent sum. |
| Words.ReduceTLen | utils.py:43-55 | Tightening never adds t-letters. |
| Words.ReduceLetters | utils.py:43-55 | Every letter of the reduced word occurs in the input. |
| Words.ReduceConcat | utils.py:43-55 | Reducing u+v is the same as reducing (reduced u)+v. |
| Words.CancelPair | utils.py:51-52 | Deleting an adjacent inverse pair anywhere in a word does not change its reduction. |
| Words.Inverse | utils.py:59-61 | The inverse has the word's length, and its letter i is the swapped letter \|w\|−1−i of the word. |
| Words.InverseInverse | utils.py:59-61 | The inverse of the inverse is the word itself. |
| Words.InverseConcat | utils.py:59-61 | The inverse of u+v is inverse(v)+inverse(u). |
| Words.InverseT | utils.py:59-61 | Inversion keeps the t-length and negates the t-exponent sum. |
| Words.ReduceWordInverse | utils.py:59-61 | A word followed by its inverse reduces to the empty word. |
| Words.PiecesJoin | utils.py:187 | Putting the t-letters back between the pieces of a split word gives the word again. |
| Words.PiecesHaveNoT | utils.py:187 | No piece of a split word holds a t-letter. |
| NormalForms.BlocksShape | utils.py:105-116 | The blocks (a-run, t-run) of a word concatenate back to the word. Only the last block has an empty t-run, and every block after the first has a nonempty a-run, so each t-run reaches up to the next a-letter. |
| NormalForms.RemIsMod | utils.py:130-135 | The a-letters left in place are the a-run length minus q*r, with q its integer quotient by r. |
| NormalForms.MovedCountIsProduct | utils.py:130-134 | The number of moved letters is q*s. |
| NormalForms.RewriteT | utils.py:135 | Rewriting a block keeps the t-exponent sum and t-length of the whole word. |
| NormalForms.NormalForm | utils.py:99-140 | The recursive method returns exactly the specification function `NF`, whose properties the NF rows below state. |
| NormalForms.NFTight | utils.py:140 | A normal form has no adjacent inverse pair. |
| NormalForms.NFTExp | utils.py:99-140 | The normal form keeps the t-exponent sum of its input. |
| NormalForms.NFIsWord | utils.py:99-140 | The normal form of a word over a, A, t, T is again such a word. |
| NormalForms.InNormalFormSlice | utils.py:101-103 | Every piece of a word in normal form is in normal form. |
| NormalForms.InNormalFormTail | utils.py:101-103 | A word in normal form followed by a-letters is in normal form. |
| NormalForms.NFInNormalForm | utils.py:101-103 | In the result, every a-run before a t-letter is shorter than that letter's modulus (\|l\| before t, \|m\| before T). |
| NormalForms.NoViolationIff | utils.py:126 | A word's blocks have no violating block exactly when the word satisfies the normal-form bound. |
| NormalForms.NFWithoutT | utils.py:117-119 | A word whose reduction has no t-letter has that reduction as its normal form. |
| NormalForms.NFFixpoint | utils.py:99-140 | `normal_form` returns a word unchanged exactly when the word is tight and in normal form. |
| NormalForms.NFIdempotent | utils.py:99-140 | The normal form of a normal form is itself. |
| CyclicForms.StripShape | utils.py:70-71 | After stripping, the word is nonempty and tight, and its first and last letters are no longer inverse. Every stripped pair was an inverse pair. |
| CyclicForms.StripInNormalForm | utils.py:70-71 | Stripping keeps a word in normal form. |
| CyclicForms.StripState | utils.py:70-71 | Stripping a nonempty tight normal form gives a loop state: a word over the alphabet in normal form that is tight up to its last t-letter. |
| CyclicForms.StripTExp | utils.py:70-71 | Stripping keeps the t-exponent sum. |
| CyclicForms.StripEnds | utils.py:70-71 | The stripping loop returns `Strip` of its input. |
| CyclicForms.RotateCounts | utils.py:74-77 | Moving the leading a-run to the end keeps every letter count, so it keeps the t-exponent sum and the t-length. |
| CyclicForms.PreparedProps | utils.py:74-78 | The rotated and tightened word is tight, keeps the t-exponent sum and has no more t-letters. |
| CyclicForms.LastTSpec | utils.py:79 | The located t-letter is the last one, and it is absent exactly when the t-length is zero. |
| CyclicForms.LastTAppend | utils.py:79 | Appending a-letters does not move the last t-letter. |
| CyclicForms.RotationsFirstT | utils.py:74-77 | In a loop state with t-letters, the two rotating loops move exactly the a-letters in front of the first t-letter to the end. |
| CyclicForms.PreparedState | utils.py:73-78 | Rotating and tightening a loop state with t-letters gives a word in normal form that starts with a t-letter. |
| CyclicForms.NextState | utils.py:86-93 | The word a continuing pass builds is a loop state again. |
| CyclicForms.RemIsPercent | utils.py:86 | The remainder test is Python's `%` on the a-run length. |
| CyclicForms.StepShrinks | utils.py:72-94 | Every pass of `CycStep` that continues removes at least one t-letter, so the main loop ends. |
| CyclicForms.StepCrashIff | utils.py:79-93 | The corrected pass `CycStep` raises exactly when the prepared word has no t-letter; an empty a-run after the last t-letter does not raise. |
| CyclicForms.StepCrashIffAsWritten | utils.py:79-93 | The pass as written, `CycStepAsWritten`, also raises whenever the prepared word ends with a t-letter different from its first letter. |
| CyclicForms.PassFromT | utils.py:86-93 | A continuing pass whose prepared word starts with a t-letter keeps the t-exponent sum and removes at least two t-letters. |
| CyclicForms.StepNext | utils.py:72-93 | From a loop state, a continuing pass keeps the t-exponent sum, removes at least two t-letters and leaves a loop state. |
| CyclicForms.StopState | utils.py:79-94 | A pass that stops on a loop state returns a cyclically reduced word in normal form with the state's t-exponent sum. |
| CyclicForms.ReducedWithoutT | utils.py:72-95 | A loop state without t-letters, tightened, is a cyclically reduced word in normal form with the same t-exponent sum. |
| CyclicForms.CycLoopState | utils.py:72-95 | Every word the corrected main loop returns from a loop state is cyclically reduced, in normal form, and has the state's t-exponent sum. |
| CyclicForms.CyclicNormal | utils.py:65-95 | The method returns exactly the corrected specification function `CN`, whose properties the CN rows state. |
| CyclicForms.CNCyclicallyReduced | utils.py:65-95 | Whenever the corrected `CN` returns a word h, h is cyclically reduced (its first letter is not the inverse of its last), h is in normal form, and h has the t-exponent sum of g. |
| CyclicForms.CNTight | utils.py:65-95 | The corrected cyclic normal form has no adjacent inverse pair. |
| CyclicForms.CNAgrees | utils.py:65-95 | Relates `CNAsWritten` to `CN`: whenever the code as written returns a word, the corrected function returns that word's reduction. Whenever the corrected function crashes, so does the code. |
| CyclicForms.FindingNotTight | utils.py:72-95 | `cyclic_normal("tATaa", 2, 2)` returns "Aaa" as written, which is not tight; the corrected function returns "a". |
| CyclicForms.FindingCrash | utils.py:90-92 | `cyclic_normal("tAAtaTTaaa", 2, 3)` raises as written; the corrected function returns "a". |
| WordTests.RunCountTLen | utils.py:151-156 | The number of t-runs is at most the t-length, with equality exactly when every t-run is a single letter. |
| WordTests.IsAlternating | utils.py:144-160 | The result is true exactly when the t-exponent sum is zero, the t-letters stand alone and their signs alternate. A nonzero exponent sum gives false and a word without t-letters gives true. |
| WordTests.HasExtremalSurface | utils.py:164-182 | False without t-letters. Otherwise true exactly when r·(odd signed a-run sum) = −s·(even signed a-run sum), with (r,s) = (l,m) for a word starting with t and (m,l) otherwise. |
| TurnGraphs.TurnType | utils.py:205-212 | Type 0 exactly for tt or TT, 1 exactly for tT, 2 exactly for Tt. |
| TurnGraphs.BuildTurnGraph | utils.py:186-219 | One vertex per t-letter; each degree is the signed length of the a-run at the turn (the end and start runs joined for turn 0). Each type follows the two t-letters around the turn. The edges, without repeats, are exactly the pairs j→i whose t-letters are inverse. |
| TurnGraphs.DualEdge | utils.py:223-226 | Both ends of the dual edge are vertices 0 to nv−1, since Python's `%` with a positive modulus is never negative. |
| TurnGraphs.DualDual | utils.py:223-226 | The dual of the dual edge is the edge itself. |
| TurnGraphs.DualIsEdge | utils.py:214-226 | The dual of a turn-graph edge is a turn-graph edge. |
| TurnGraphs.BasisRemove | utils.py:234-237 | Removing the dual of the current edge keeps the invariant of the basis loop. |
| TurnGraphs.DualEdgeBasis | utils.py:230-238 | The result is a repeat-free subset of the edges that never holds an edge together with its distinct dual. It keeps every self-dual edge, and every edge is in it or has its dual in it. |
| Cycles.SumAlongConcat | utils.py:245-246 | Summing degrees along two vertex lists one after the other gives the sum of the two sums. |
| Cycles.CycleDegree | utils.py:242-247 | The loop returns the sum of the turn degrees over the cycle's vertices, the closing repeat excluded. |
| Cycles.DegreeRotate | utils.py:242-247 | Starting a cycle at another vertex does not change its degree. |
| Cycles.DegreeJoin | utils.py:242-247 | The degree of two cycles joined at a common vertex is the sum of their degrees. |
| Cycles.CycleSumDegree | utils.py:251-255 | The loop returns the weighted sum of the cycle degrees. |
| Cycles.DotUnit | utils.py:251-255 | The degree of the unit weight vector at cycle i is that cycle's degree. |
| Cycles.DotAdd | utils.py:251-255 | The degree of a cycle sum is additive in the weights. |
| Cycles.CycleType | utils.py:259-265 | The result is the type of the first turn when all the cycle's turns share it, and 0 (mixed) otherwise. |
| Cycles.TypeJoin | utils.py:259-265 | Two joined cycles have their common type when they agree, and are mixed otherwise. |
| Cycles.CycleSumType | utils.py:269-277 | The loop returns the scan of the type over the cycles with nonzero weight. |
| Cycles.SumTypeMeaning | utils.py:269-277 | The result is −1 when every weight is zero. Otherwise it is the type of the first weighted cycle when all weighted cycles share it, and 0 otherwise. |
| Cycles.SumTypeUnit | utils.py:269-277 | A single weighted cycle has that cycle's type. |
| Cycles.SumTypeJoin | utils.py:269-277 | Summing two cycles with weight one each gives the type of the two cycles joined into one. |
| Cycles.GcdDivides | utils.py:283 | The gcd divides both arguments. |
| Cycles.GcdGreatest | utils.py:283 | Every common divisor divides the gcd. |
| Cycles.GcdPositive | utils.py:283 | The gcd of two numbers, not both zero, is positive. |
| Cycles.ModValueMixed | utils.py:282-283 | For mixed type `ModValue` is a nonnegative common divisor of m and l that every common divisor divides. |
| Cycles.ModValueNonzero | utils.py:281-288 | For nonzero m and l, `ModValue` is never zero. It is m for type 1, l for type 2 and −1 for any other type. |
| Cycles.DividesAbs | utils.py:308 | Divisibility does not depend on the sign of the dividend. |
| Cycles.ModZero | utils.py:308 | Python's remainder is zero exactly when the modulus divides the degree. |
| EdgeCounts.EdgesPath | utils.py:331-336 | The loop returns the consecutive vertex pairs of the path, one fewer than the path's vertices. |
| EdgeCounts.EdgesJoin | utils.py:331-336 | The edges of two joined paths are the edges of the first followed by those of the second. |
| EdgeCounts.TouchVisits | utils.py:331-336 | The number of path edges leaving v is the number of visits to v before the last vertex. The number entering v is the number of visits after the first vertex. |
| EdgeCounts.CycleBalanced | utils.py:331-336 | A closed cycle leaves each vertex as often as it enters it. |
| EdgeCounts.OccConcat | utils.py:342 | The count of an edge in a concatenated list is the sum of its counts in the parts. |
| EdgeCounts.OccPositive | utils.py:342 | An edge's count is positive exactly when the edge is in the list. |
| EdgeCounts.PathNePositive | utils.py:340-342 | `PathNe` is positive, that is the path uses the edge, exactly when the edge's two vertices occur consecutively in it. |
| EdgeCounts.PathNeJoin | utils.py:340-342 | Edge counts add when two paths are joined. |
| EdgeCounts.DictNv | utils.py:346-352 | The loop returns the total count of the dictionary's edges that leave v. |
| EdgeCounts.EndSumZero | utils.py:346-352 | A dictionary of zero counts gives zero. |
| EdgeCounts.EndSumAdd | utils.py:346-352 | The vertex count of a dictionary is additive in its counts. |
| EdgeCounts.EndSumScale | utils.py:346-352 | The vertex count of a dictionary scales with its counts. |
| EdgeCounts.EndSumIndicator | utils.py:346-352 | The one-edge dictionary over repeat-free keys counts 1 at that edge's end vertex, and 0 everywhere else. |
| EdgeCounts.EndSumCounts | utils.py:346-352 | The dictionary of a path's edge counts gives, at each vertex, the number of path edges leaving (or entering) it. |
| EdgeCounts.EndSumWeighted | utils.py:310-317 | The cycle-sum dictionary gives, at each vertex, the weighted number of cycle edges leaving (or entering) it. |
| EdgeCounts.DictBalanced | utils.py:310-317 | For a sum of closed cycles, the dictionary leaves each vertex as often as it enters it. |
| EdgeCounts.EdgeWeight | utils.py:313-315 | The inner loop returns the weighted count of an edge over the cycles. |
| EdgeCounts.SupportMembers | utils.py:317 | An edge is in the edge set exactly when it has a nonzero count in the dictionary. |
| EdgeCounts.CandidateStep | utils.py:306-317 | The candidate passes exactly when the modulus of its sum type divides its degree. In that case it returns the weighted edge dictionary in key order and the edges with nonzero count; otherwise it returns nothing. |

## Left out

- NormalForms.NF, CyclicForms.CN: the group relation t a^m T = a^l is not modelled, so the model proves neither that `NF(g)` equals g in BS(m,l) nor that `CN(g)` is conjugate to g. Of what the group relation keeps, only the t-exponent sum is proved kept.
- Regular expressions: each `re.split` and `re.search` is modelled by an explicit scan of the word: blocks in `Blocks`, pieces in `Pieces`, the last t-letter in `LastT`, and t-runs in `RunCount`.
- Python's negative indices and slices are written out as explicit positions.
- The Sage `DiGraph` object is not modelled. The turn graph keeps its edges as a duplicate-free list, and the order in which Sage lists edges is not modelled. `DualEdgeBasis` is proved for any edge order.
- The `TurnGraph` class constructor is not modelled beyond the record holding its three fields; `BuildTurnGraph` builds it in one go.
- X_variable_list is modelled only for the step for one weight vector (`CandidateStep`). The rest of its body calls into Sage, which is not part of this model: strongly connected components, `all_simple_cycles`, `IntegerVectors`, `subgraph`, `delete_vertex` and `is_connected`.
- Sage's `gcd` is modelled by Euclid's algorithm on absolute values, which gives the nonnegative gcd that Sage returns.
- `int(a_len/r)` is a float division in Python. It is modelled as exact integer division, which agrees for all word lengths a float represents exactly.
- NormalForms.NF: the recursion of `normal_form` is bounded by a step budget, and the result `None` stands for a budget too small. The model does not prove that some budget always suffices.
- CyclicForms.CN: inherits the step budget of the normal form, with the result `OutOfFuel`.
- NormalForms.NormalForm, CyclicForms.CyclicNormal and the other word operations require m ≠ 0 and l ≠ 0. With m = 0 or l = 0 the source divides by zero, and the model does not describe that exception.
- CyclicForms.CN: the empty normal form, on which `g_cn[0]` raises, is modelled as the result `Crash`.
- NormalForms.NFIsWord, CyclicForms.CN and other members require words over a, A, t and T. The source does not check its alphabet.
- WordTests.HasExtremalSurface requires the pieces it reads to be nonempty (`ReadablePieces`). On other words the source raises an IndexError at utils.py:173-174, and the model leaves that path out. The source only promises the result for alternating words in cyclic normal form.
- Cycles.CycleType requires a nonempty cycle, since the source reads `c[0]`.
- Cycles.SumTypeMeaning requires the first weighted cycle's type not to be −1. Cycle types are 0, 1 or 2, and the requirement only excludes the sentinel.
- EdgeCounts.CandidateStep requires m ≠ 0 and l ≠ 0, so the modulus is never zero and `%` never raises. It returns the dictionary as a list of (edge, count) pairs in key order, not as a Python dict.
- EdgeCounts.DictNv: the dictionary is a list of (edge, count) pairs. Its keys are assumed distinct only where a lemma says so (`NoDup`).

## Findings

| source | as written | input that shows it | evidently intended | confidence | as-written member | corrected member |
|---|---|---|---|---|---|---|
| utils.py:90-92 | When the last t-letter ends the word, the a-run after it is empty but passes the `% r == 0` test, and `g_term[1]` raises IndexError. | `cyclic_normal("tAAtaTTaaa", 2, 3)`: the second pass reaches "taT". | Remove the leading t and the final T without appending letters, which gives "a". | not executed | CyclicForms.FindingCrash, CyclicForms.StepCrashIffAsWritten | CyclicForms.StepCrashIff |
| utils.py:72-95 | When the main loop ends because no t-letter is left, the word is returned without the tighten call the passes make. | `cyclic_normal("tATaa", 2, 2)` returns "Aaa", which is not tight. | Return the tightened word "a". | not executed | CyclicForms.FindingNotTight | CyclicForms.CNTight |

On BS(1,1) the code still moves a-runs past t-letters ("at" becomes "ta"), and the model does the same.
