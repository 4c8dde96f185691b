# Continuous Petri nets: firing sets, siphons, traps and bi-separators

This project models the solver-free core of `idp-petri-nets`. That repository
decides reachability in continuous Petri nets. It also builds certificates of
non-reachability called *locally closed bi-separators*: disjunctions of
conjunctions of linear atoms `a·m <= a'·m'` or `a·m < a'·m'`, read over a
pair of markings.

The model covers:

- **Nets** (`PetriNet`, objects/Net.py; `LegacyNet`, net.py):
  - places and transitions are identified by their ids, which index sequences;
  - building a transition links it to its places in both directions;
  - guarded firing of a transition, scaled by `alpha`;
  - the support of a marking and of a transition vector;
  - restriction of a marking to a place set;
  - the incidence matrix restricted to a set of transitions.
- **Firing-set closure** `isFireable`, which exists in three copies:
  - `FiringSets` models tasks/reachability.py;
  - `AccumulatingFiring` models reachability.py;
  - `LegacyNet` models net.py.

  All three are proved equal to one reference definition,
  `FiringSets.MaxFiringSet`: the largest subset of Tp that can be fired in some
  order from the support of the marking. The forward mode and the inverse mode
  (`inv`) are both covered.
- **Largest siphon and largest trap** (`SiphonsTraps`). One counter-based
  eviction loop serves both; `dual` selects the trap.
- **Formulas** (`Formulas`, objects/Formula.py; `SeparatorObjects`,
  objects/Separator.py). Their meaning on a pair of markings is given once, by
  `Conj` and `Disj`.
- **One level of `locallyClosedBiSeparator`** (`BiSeparator`):
  - the z3 answers and the recursive result `psi` are inputs;
  - the model proves that every formula it returns is false on (msrc, mtgt);
  - it proves when that formula holds on every pair (m, m).
- **The CSR matrix–vector product** `sparseDot` (`Sparse`).
- **Early exits** of `isReachable` and `isCoverable` (`Reachability`).
- **Reading** `.lola` nets and `.formula` markings (`Reader`), including the
  string operations they rely on (`Text`): `str.replace`, `split`, `strip`,
  slicing and `str(int)`.

Modelling choices:

- Markings, weights and witnesses are Dafny `real`. This treats Python floats
  as exact values.
- A Python exception becomes the `Err` case of `Results.Result`.
- The file text is a parameter:
  - a `.lola` file is given as its sequence of lines;
  - a `.formula` file is given as its text;
  - `float()` is a parameter `toReal` that may reject its input.

## Model

| member | source | states |
|---|---|---|
| PetriNet.AllEnabled | objects/Net.py:43-44 | The all-arcs test is true exactly when each in-arc's place holds at least alpha times the arc's weight. |
| PetriNet.UseAll | objects/Net.py:46-47 | Using a list of arcs changes each place's tokens by alpha times the total weight of the arcs at that place: down for consumption, up for production. Repeated arcs accumulate. Every other field stays the same. |
| PetriNet.AmountIsScaledWeight | objects/Net.py:64-65 | The amount moved at a place equals alpha times the summed weights of the arcs at that place. |
| PetriNet.Move | objects/Net.py:110-111 | Each place loses alpha·(in-arc weight at it) and gains alpha·(out-arc weight at it). Nothing else about the place changes. |
| PetriNet.Fire | objects/Net.py:107-112 | The flag is true iff every in-arc is enabled in the marking before firing. On false, no place changes. On true, each place loses alpha times its in-arc weight and gains alpha times its out-arc weight. |
| PetriNet.FireLeavesOtherPlaces | objects/Net.py:107-112 | A place that is on no arc of the transition is unchanged by firing. |
| PetriNet.Link | objects/Net.py:89-94 | The transition's id is added to the postset (or preset) of exactly the places its arcs name. Every other place, and every other field, is untouched. |
| PetriNet.NewTransition | objects/Net.py:82-94 | Preset is the set of in-arc places and postset the set of out-arc places. Place q gains the id in its postset iff q is in the preset, and in its preset iff q is in the postset. |
| PetriNet.NewTransitionsShape | tools/reader.py:79-80 | Transition k of the batch has id start+k, the k-th name and arcs, and as preset and postset the places of those arcs. |
| PetriNet.LinkedIdsMembers | objects/Net.py:89-94 | The ids collected at place q are exactly the transitions of the batch with an arc at q. |
| PetriNet.NewTransitionsPlace | objects/Net.py:89-94 | After a batch is built, each place keeps its id, name and tokens. Its postset gains exactly the transitions consuming from it, and its preset exactly those producing into it. |
| PetriNet.NewTransitionsPair | objects/Net.py:89-94 | For every place q and transition j: j is in q's postset iff q is in j's preset, and j is in q's preset iff q is in j's postset. |
| PetriNet.NewTransitionsGiveLinkedNet | objects/Net.py:89-94 | Building all transitions over unlinked places yields a net in which presets and postsets agree in both directions. |
| PetriNet.PositiveIds | objects/Net.py:162 | The ids of the list whose entry in v is positive, and no others. |
| PetriNet.SupportMarking | objects/Net.py:152-162 | A place is in the support iff it is a place of the net and its entry in m is > 0. |
| PetriNet.SupportTransitionVector | objects/Net.py:164-174 | A transition is in the support iff it is a transition of the net and its entry in v is > 0. |
| PetriNet.Restriction | objects/Net.py:176-190 | The result has one entry per place. It equals m on the places of P and is 0 elsewhere. m is a value and is not changed. |
| PetriNet.AddArcs | objects/Net.py:205-208 | Column j gains plus or minus the summed weight of the arcs at each row. Every other column is unchanged. |
| PetriNet.AddColumn | objects/Net.py:204-208 | Column j gains the transition's effect at each place (out-weight minus in-weight). Every other column is unchanged. |
| PetriNet.IncidenceMatrix | objects/Net.py:192-209 | The matrix is p×t. Entry [i][j] is transition j's out-weight into i minus its in-weight from i when j is in Tp, and 0 otherwise. |
| FiringSets.Grow | tasks/reachability.py:47-49 | The closure from S stays within Tp, contains S, and is saturated: no transition of Tp outside it is enabled by the places it marks. |
| FiringSets.MaxFiringSet | tasks/reachability.py:47-49 | The reference maximal firing set: a saturated subset of Tp. |
| FiringSets.MarkedMonotone | tasks/reachability.py:58-60 | Firing more transitions never marks fewer places. |
| FiringSets.MarkedAdd | tasks/reachability.py:60 | Adding transition j to the fired set adds exactly j's postset to the marked places (in the inverse net, j's preset). |
| FiringSets.MarkedEmpty | tasks/reachability.py:52 | With nothing fired, the marked places are the seed support. |
| FiringSets.FiringOrderExtend | tasks/reachability.py:58-61 | Appending an unfired transition whose preset is already marked keeps the order fireable. |
| FiringSets.GrowWithinSaturated | tasks/reachability.py:47-49 | The closure from S lies inside every saturated set that contains S. |
| FiringSets.OrderWithinSaturated | tasks/reachability.py:47-49 | Every fireable order of transitions of Tp lies inside every saturated subset of Tp. |
| FiringSets.FiringSetIsMax | tasks/reachability.py:47-49 | A fireable, saturated subset of Tp is the maximal firing set. So any two algorithms with these two properties agree. |
| FiringSets.AdmitStep | tasks/reachability.py:58-61 | Taking an enabled transition keeps the loop state consistent: the order stays fireable, and the place set is the seed plus the fired postsets. |
| FiringSets.Pass | tasks/reachability.py:54-67 | A pass removes only transitions that were enabled when met. It reports progress iff it removed some. On no progress the place set is unchanged and no remaining transition is enabled. |
| FiringSets.IsFireable | tasks/reachability.py:37-69 | The returned set is within Tp. The flag is true iff the set equals Tp. The set can be fired in some order from support(m) (inverse mode: postset and preset swap) and is saturated, so it equals MaxFiringSet. At most \|Tp\| passes run. |
| AccumulatingFiring.Scan | reachability.py:22-33 | A pass only adds transitions whose preset is already marked. It reports progress iff something was added. Without progress, no remaining transition is enabled. |
| AccumulatingFiring.Grow | reachability.py:21-34 | The accumulated set stays within Tp with a valid firing order. If it stops short of Tp it is saturated. At most \|Tp\| passes run. |
| AccumulatingFiring.IsFireable | reachability.py:5-35 | A subset of Tp, with the flag true iff it equals Tp. It has a firing order from support(m). On false, nothing left is enabled. It equals MaxFiringSet. |
| AccumulatingFiring.CopiesAgree | reachability.py:5-35 | For the same inputs, this copy and the tasks/reachability.py copy return the same flag and the same set. |
| LegacyNet.NewTransition | net.py:30-40 | Preset and postset are the places of the in-arcs and out-arcs. The places themselves are not updated. |
| LegacyNet.NewTransitionMatchesLinked | net.py:30-40 | Apart from the place updates, the transition equals the one objects/Net.py builds from the same arcs. |
| LegacyNet.Support | net.py:101-102 | Exactly the places whose entry in m is > 0. |
| LegacyNet.Fire | net.py:52-57 | The flag is true iff every in-arc place holds at least the arc's weight. On false nothing changes. On true, places lose in-weights and gain out-weights. This is PetriNet.Fire with alpha = 1. |
| LegacyNet.IsFireable | net.py:104-116 | Seeded from the support of the net's own marking. A subset of Tp, with the flag true iff it equals Tp, fireable in order. On false, nothing left is enabled. It equals MaxFiringSet. |
| LegacyNet.AgreesWithForwardClosure | net.py:104-116 | It returns the same flag and set as the forward (`inv = false`) tasks/reachability.py copy run on the net's marking. |
| Sparse.RowSumIsDot | tasks/utilities.py:22-23 | The CSR sum over a row's stored entries equals the dot product of the densified row with v. |
| Sparse.RowProduct | tasks/reachability.py:13-15 | The inner loop's sum equals the dot product of the dense row with v. |
| Sparse.SparseDot | tasks/utilities.py:5-27 | One entry per row. Entry i is the sum over stored entries j of row i of data[j]·v[indices[j]], which equals (A·v)[i] for the dense matrix A encodes. A row with no stored entries gives 0. |
| Reachability.ReachableShortcut | tasks/reachability.py:85 | Answers "reachable" without the solver iff m equals the initial marking, and never answers "unreachable" there. |
| Reachability.CoverableShortcut | tasks/reachability.py:154 | Answers "coverable" without the solver iff m is componentwise at most the initial marking, and never answers "not coverable" there. |
| Formulas.StrictImpliesNonStrict | objects/Formula.py:28-32 | A strict atom that holds implies that its non-strict twin holds. |
| Formulas.ConjAppend | objects/Formula.py:70-74 | A concatenation of atom lists holds iff both parts hold. |
| Formulas.DisjAppend | objects/Formula.py:110-114 | A concatenation of clause lists holds iff one of the parts holds. |
| Formulas.NewClause | objects/Formula.py:49-56 | The size equals the number of atoms. The id and atoms are as given, and both syndromes start empty. |
| Formulas.AddAtom | objects/Formula.py:66-68 | The atom goes at the end, earlier atoms are kept, size goes up by one (so a size equal to length stays equal), and nothing else changes. |
| Formulas.AddAtomConjoins | objects/Formula.py:66-74 | After addAtom the clause holds iff it held before and the new atom holds. |
| Formulas.CheckClause | objects/Formula.py:70-74 | True iff every atom holds, so an empty clause holds. |
| Formulas.NewFormula | objects/Formula.py:88-91 | The size equals the number of clauses, and the net is kept. |
| Formulas.AddClause | objects/Formula.py:106-108 | The clause goes at the end, earlier clauses are kept, size goes up by one (so a size equal to length stays equal), and the net is kept. |
| Formulas.AddClauseDisjoins | objects/Formula.py:106-114 | After addClause the formula holds iff it held before or the new clause holds. |
| Formulas.CheckFormula | objects/Formula.py:110-114 | True iff some clause holds, so an empty formula is false. |
| Formulas.SizeListIsJoin | objects/Formula.py:101-102 | The loop's text is the clause sizes joined by commas, plus a trailing comma. |
| Formulas.GetSize | objects/Formula.py:99-104 | Gives "n(s1,...,sk)" from the clause sizes. With no clauses, chopping the last character leaves "n)". |
| SeparatorObjects.NewClause | objects/Separator.py:26-28 | The size equals the number of atoms. |
| SeparatorObjects.AddAtom | objects/Separator.py:30-32 | The atom goes at the end, earlier atoms are kept, and size goes up by one, so a size equal to length stays equal. |
| SeparatorObjects.AddAtomsKeepSize | objects/Separator.py:30-32 | Any sequence of addAtom calls appends those atoms and keeps size equal to length. |
| SeparatorObjects.NewFormula | objects/Separator.py:46-48 | The size equals the number of clauses. |
| SeparatorObjects.AddClause | objects/Separator.py:50-52 | The clause goes at the end, earlier clauses are kept, and size goes up by one, so a size equal to length stays equal. |
| SiphonsTraps.CountPositive | tasks/separators.py:27-31 | A transition's counter is positive iff it consumes from some place still in the set (trap: produces into one). |
| SiphonsTraps.CountEvict | tasks/separators.py:43-45 | Evicting place i lowers the counter of exactly the transitions in i's postset (trap: preset), by one each. |
| SiphonsTraps.CountPlace | tasks/separators.py:28-31 | Counting a place adds one to each Up-transition in its postset (trap: preset). Other counters are unchanged. |
| SiphonsTraps.InitCounters | tasks/separators.py:25-31 | Every Up-transition's counter is the number of set places it consumes from (trap: produces into). Every other counter is 0. |
| SiphonsTraps.FirstEvictable | tasks/separators.py:37-49 | Finds the first place of the set with an Up-transition in its preset (trap: postset) whose counter is 0. Returns -1 iff there is none. |
| SiphonsTraps.EvictStep | tasks/separators.py:44-45 | Each clamped decrement keeps the counters exact for the places handled so far. |
| SiphonsTraps.EvictDone | tasks/separators.py:43-45 | Once all of the evicted place's postset (trap: preset) is handled, the counters are exact for the set without that place. |
| SiphonsTraps.Evict | tasks/separators.py:43-45 | Removes the place from the set and keeps the counter invariant exact, so the max(0, ·) clamp never changes an Up entry. |
| SiphonsTraps.EvictKeepsClosedSets | tasks/separators.py:33-49 | Evicting a starved place never removes a place of any closed set within the current set. |
| SiphonsTraps.LargestClosed | tasks/separators.py:24-51 | The result is a 0/1 vector inside the zeros of m. It is closed, and it contains every closed set inside the zeros of m. At most p+1 passes run. |
| SiphonsTraps.LargestSiphon | tasks/separators.py:11-51 | Only places with msrc = 0. It is a siphon of N_Up: every Up-transition producing into Q consumes from Q. It contains every such siphon. |
| SiphonsTraps.LargestTrap | tasks/separators.py:55-95 | Only places with mtgt = 0. It is a trap of N_Up: every Up-transition consuming from R produces into R. It contains every such trap. |
| BiSeparator.WitnessDots | tasks/separators.py:145-146 | b·y, with b = mtgt − msrc, equals y·mtgt − y·msrc. This turns the solver's constraint into a comparison of the two markings. |
| BiSeparator.Case1ExitUnreachable | tasks/separators.py:127-146 | Take a solution x of X: non-negative, zero outside U, with F·x = mtgt − msrc. Take any y with (Fᵀy)[u] >= 0 on U. Then y·msrc <= y·mtgt, so the early-exit test at line 176 is false under exact arithmetic. For a witness (b·y <= 0) the two products are equal. |
| BiSeparator.BaseCase | tasks/separators.py:115-123 | p is the first place where the markings differ. The formula is one non-strict atom on ±e_p, with the sign of msrc[p] − mtgt[p]. It is false on (msrc, mtgt) and true on every (m, m). |
| BiSeparator.UnsatCase | tasks/separators.py:148-154 | Given yempty·(mtgt − msrc) < 0, the single atom yempty·m <= yempty·m' is false on (msrc, mtgt) and true on every (m, m). |
| BiSeparator.ReflexiveSingle | tasks/separators.py:154 | A single non-strict atom y·m <= y·m' holds on every pair (m, m). |
| BiSeparator.EarlyClauseAsWrittenIsNotReflexive | tasks/separators.py:174-177 | The strict clause returned by the early exit, as written, is false on every (m, m). |
| BiSeparator.EarlyClause | tasks/separators.py:174-177 | The corrected early answer, the non-strict twin, is false on (msrc, mtgt) and true on every (m, m). |
| BiSeparator.Case1 | tasks/separators.py:164-177 | Exits early iff some witness has yt·msrc > yt·mtgt, at the first such witness. The answer is the corrected non-strict clause yt·m <= yt·m' of "## Findings" (EarlyClause), not the strict one the source builds; it separates the markings. Otherwise it returns all the case-1 clauses and invariants. |
| BiSeparator.IndicatedMembers | tasks/separators.py:180 | The place set a 0/1 vector indicates is the set of its 1-entries. |
| BiSeparator.PlaceSetPostset | tasks/separators.py:181 | Q° is the set of transitions in the postset of some place of Q. |
| BiSeparator.PlaceSetPreset | tasks/separators.py:184 | °R is the set of transitions in the preset of some place of R. |
| BiSeparator.Step | tasks/separators.py:115-188 | Every direct answer separates (msrc, mtgt) and holds on every (m, m). The case-1 early answer is the corrected non-strict clause of "## Findings" (EarlyClause). Otherwise the assembly inputs are ready: Q is the largest siphon and R the largest trap, and the next transition set is Up minus (Q° ∪ °R), within U. |
| BiSeparator.InvariantsHold | tasks/separators.py:173 | The non-strict invariant atoms all hold on every pair (m, m). |
| BiSeparator.IndicatorDot | tasks/separators.py:190 | An indicator of places where m is 0 has dot product 0 with m, and so does its negation. |
| BiSeparator.Case3Separates | tasks/separators.py:192-195 | If psi is false on (msrc, mtgt), so is every case-3 clause. |
| BiSeparator.AssembleSeparates | tasks/separators.py:190-199 | If psi is false on (msrc, mtgt), so is the assembled formula: case 1, then case 2, then case 3. |
| BiSeparator.AssembleReflexive | tasks/separators.py:190-199 | For a marking m >= 0 on which psi holds at (m, m), the assembled formula holds at (m, m). |
| BiSeparator.Finish | tasks/separators.py:197-199 | The assembled formula starts with the case-1 clauses and has one more clause than case 1 and psi together. It is false on (msrc, mtgt) whenever psi is. It holds on (msrc, msrc) and (mtgt, mtgt) whenever psi does and the marking is >= 0. |
| BiSeparator.AssembleFacts | tasks/separators.py:190-199 | The separation law and the reflexivity at msrc and at mtgt carry over from psi to the assembled formula. |
| Text.RemoveAbsent | tools/reader.py:101-107 | Removing a pattern that never occurs returns the string unchanged. |
| Text.Without | tools/reader.py:12 | No occurrence of c is left, and every other character occurs as often as before. |
| Text.RemoveCharIsWithout | tools/reader.py:12 | `replace(c, "")` with a one-character pattern is dropping every c. |
| Text.KeepNonBlank | tools/reader.py:12 | No space, ';' or line break is left. |
| Text.WithoutThreeIsKeep | tools/reader.py:12 | The three single-character removals in a row drop exactly the blanks. |
| Text.CleanLineKeepsTheRest | tools/reader.py:8-12 | cleanLine drops exactly the spaces, ';' and line breaks, keeps everything else in order, and is idempotent. |
| Text.KeepNonBlankOfClean | tools/reader.py:12 | A string without blanks is left as it is. |
| Text.JoinSplit | tools/reader.py:109 | Joining the pieces of `split(sep)` with sep gives back the string. |
| Text.SplitAbsent | tools/reader.py:109 | Without the separator, split gives the one-piece list [s]. |
| Text.SplitPiecesAvoid | tools/reader.py:109 | No piece of `split(sep)` contains sep. |
| Text.DropRejoins | tools/reader.py:61 | The slice s[n:] together with the prefix s[:n] gives back s, so it has |s| − n characters; past the end it is empty. |
| Text.StripIsInfix | tools/reader.py:105 | strip returns an infix of s with only whitespace cut on either side. It is empty or starts and ends with a non-whitespace character. |
| Text.NatToString | objects/Formula.py:100-102 | str(n) is a non-empty string of digits with no leading zero. |
| Text.NatToStringRoundTrip | objects/Formula.py:100-102 | Reading the digits of str(n) back gives n. |
| Reader.PlacesOfIds | tools/reader.py:37-52 | Each place gets the id of the last occurrence of its name, so equal names share one id. When the names are distinct, place i has id i and the i-th marking entry as its tokens. |
| Reader.Ids | tools/reader.py:37-40 | The dictionary has exactly the listed names as keys, each mapped to a position in the list. |
| Reader.IdsLastOccurrence | tools/reader.py:39-40 | Each name maps to its last position in the list. |
| Reader.IdsOfDistinct | tools/reader.py:37-40 | With pairwise different names, place i gets id i. |
| Reader.ParseEntryName | tools/reader.py:48-49 | An entry without the separator raises. A parsed name is the text before the first separator. |
| Reader.AssignAllOk | tools/reader.py:47-50 | The marking loop succeeds iff every entry parses and names a known place. |
| Reader.AssignAllUnmentioned | tools/reader.py:46-50 | A place no entry names keeps its 0. |
| Reader.AssignAllLastWins | tools/reader.py:47-50 | The last entry naming a place decides its tokens. |
| Reader.ArcsOf | tools/reader.py:65-77 | Every arc read names one of the net's places. |
| Reader.ArcsSkipEmpty | tools/reader.py:66-67 | Empty entries make no arc. |
| Reader.NonEmptyKeeps | tools/reader.py:66-67 | Every non-empty entry is kept as often as it occurs, and no empty entry is left. |
| Reader.NonEmptyAppend | tools/reader.py:66-67 | Skipping empty entries works piece by piece, so the kept entries stay in their order. |
| Reader.ArcsOfEntries | tools/reader.py:66-70 | A list of non-empty entries is read iff every entry is good. It then gives one arc per entry, in order. |
| Reader.EmptyConsumeLine | tools/reader.py:66-67 | "CONSUME ;" gives no arc. |
| Reader.NonBlankLines | tools/reader.py:57 | No kept line is a bare line break, and there are no more lines than before. |
| Reader.NonBlankLinesKeeps | tools/reader.py:57 | Every line other than a bare line break is kept as often as it occurs, and no bare line break is left. |
| Reader.NonBlankLinesAppend | tools/reader.py:57 | The filter works piece by piece, so the kept lines stay in their order. |
| Reader.Specs | tools/reader.py:59-63 | One transition per whole group of three lines, and every arc names a place of the net. |
| Reader.SpecsNames | tools/reader.py:61 | Transition k is named after the first line of the k-th group, minus its first 11 characters and cleaned. |
| Reader.SpecsRead | tools/reader.py:59-77 | The transitions are read iff both the CONSUME and the PRODUCE line of every whole group of three can be read. |
| Reader.SpecsArcs | tools/reader.py:62-77 | Transition k's in-arcs are the arcs of the second line of the k-th group, and its out-arcs those of the third line, each without its first 8 characters. |
| Reader.BuiltNetValid | tools/reader.py:79-83 | Building the transitions over unlinked places with id = position gives a valid, two-way linked net that keeps every place's name and tokens. |
| Reader.CreateNetValid | tools/reader.py:14-83 | With distinct place names, the net read is valid and two-way linked. Place i is the i-th name, has id i, and its tokens are the marking's entry i. There is one transition per group of three lines. |
| Reader.CreateNetUnmarked | tools/reader.py:46-50 | A place the MARKING line does not name starts with 0 tokens. |
| Reader.NormalizeAtomRemoves | tools/reader.py:112-114 | No space, '<' or '>' is left, and every other character occurs as often as before. |
| Reader.CreateMarking | tools/reader.py:110 | A marking read has one entry per place of the net. |
| Reader.CreateMarkingValues | tools/reader.py:86-119 | Succeeds iff every atom is `name=value` with a known name and a number. Unmentioned places stay 0, and the last atom for a place wins. |
| Reader.RemoveEFFromLeft | tools/reader.py:102 | Removing "EF" from "LEFT=1" leaves "LT=1". |
| Reader.NormalizeLeft | tools/reader.py:101-107 | The whole normalisation turns the formula "LEFT=1" into "LT=1". |
| Reader.PlaceNameMangled | tools/reader.py:101-117 | The marking formula "LEFT=1" yields the single atom "LT=1", which names a place "LT" instead of "LEFT". |

## Left out

- The z3 solving (tasks/separators.py:127-172 and the solver loops of tasks/reachability.py): the solver's answers are inputs that carry the constraints it guarantees.
- BiSeparator.Step: it assumes only the constraint y·(mtgt − msrc) <= 0 (strict for yempty) of each witness. It drops the incidence constraints Fᵀy >= 0 on U and does not tie `xUnsat` to a solution of X. This is what makes `Case1`'s early exit reachable in the model. With those constraints and exact values the exit is never taken (BiSeparator.Case1ExitUnreachable). The source reaches it only when float rounding makes `np.dot(yt, msrc)` exceed `np.dot(yt, mtgt)`. The rounding comes from `modelToFloat` (tasks/utilities.py:44-49) and `np.dot`.
- BiSeparator.Step: the set U minus Up comes as a list `ts` whose order is the iteration order. Python's set order is not modelled.
- The recursive call of `locallyClosedBiSeparator`: one level is modelled, and its result psi is an input of the assembly. The code gives no termination argument, since Up minus (Q° ∪ °R) need not shrink.
- `transitionSetToVector`, `placeVectorToSet`, `placeSetPostset` and `placeSetPreset` are not defined in tasks/utilities.py. They are specified by their names.
- BiSeparator.BaseCase: the scan reads msrc[p] before checking p < net.p. The model therefore requires the markings to differ, the condition the source's own assertion states.
- The refine-and-prune loops of `isReachable` and `isCoverable`: they are semi-decision procedures driven by the solver. Only the early exits are modelled.
- `isReachable` of reachability.py and of net.py: the first discards its `union` results and calls methods that do not exist. The second is declared without `self` (net.py:118), so calling it on a net raises TypeError; its body would return False.
- Floats: `modelToFloat`, the witness averaging, and `float()`. Values are exact reals, and `float()` is the parameter `toReal`.
- The syndrome-based implication checkers, main.py, tools/badcase.py and tasks/simplify.py are not part of this model.
- File I/O and `parsePetriFile`:
  - the loaders of tools/reader.py read their input as a value;
  - the loader of net.py (`Net.__init__`) is not modelled; it builds output arcs as `InArc`.
- scipy's `csr_matrix` construction and numpy internals. A CSR matrix is a record with its three arrays and must be well-formed.
- The second `sparseDot`, in tasks/reachability.py:6-19, is line for line the same as the one in tasks/utilities.py. `Sparse` models both.
- Printing: the `print` calls, `__repr__` and `print` methods.
- FiringSets.IsFireable: the number of passes is a ghost out-parameter. Its bound describes the loop; it is not a value the code returns. The same holds for AccumulatingFiring.Grow and SiphonsTraps.LargestClosed.
- Mutation of arguments (`restriction` not changing m, `isFireable` copying Tp): every value in the model is immutable, so this holds by construction.
- Formulas.AddAtom, Formulas.AddClause, SeparatorObjects.AddAtom, SeparatorObjects.AddAtomsKeepSize, SeparatorObjects.AddClause: atoms and clauses are stored by value. The Python constructors keep the list they are given, and `addAtom`/`addClause` append to it (objects/Separator.py:30-32, 50-52; objects/Formula.py:66-68, 106-108). Two objects built from one list share it, and after one `addAtom` the other's `size` no longer equals the length of its atoms. This aliasing is not modelled.
- Separator constructors: tasks/separators.py:8 imports Formula, Clause and Atom from objects/Formula.py, whose constructors take two arguments (`Clause(atoms, id)`, `Formula(net, clauses)`). The one-argument calls at tasks/separators.py:123, 154, 174, 177, 190, 195 and 198 follow objects/Separator.py instead, so as written every return of the bi-separator raises TypeError. The model reads them as the one-argument constructors of objects/Separator.py, that is, plain sequences of clauses and atoms.
- PetriNet.SupportMarking, PetriNet.SupportTransitionVector: they require a valid net (the id of each place and transition is its position). The source also runs them on the nets `createNet` builds from repeated place names, where two places share an id; that case is not modelled.

## Findings

| source | as written | input that shows it | evidently intended | confidence | as-written member | corrected member |
|---|---|---|---|---|---|---|
| tasks/separators.py:174-177 | The early exit returns the strict clause yt·m < yt·m'. | Any witness yt and any marking m: yt·m < yt·m is false, so the answer fails on (m, m), and on (msrc, msrc) in particular. A bi-separator must hold there. The return itself is reached only through float rounding: with exact values, yt·msrc == yt·mtgt for every witness (BiSeparator.Case1ExitUnreachable). | Return the non-strict clause yt·m <= yt·m' that phi_inv already holds. It is false on (msrc, mtgt) because yt·msrc > yt·mtgt, and true on every (m, m). | low: the exit is dead under exact arithmetic and reachable only through float rounding; not executed | BiSeparator.EarlyClauseAsWrittenIsNotReflexive | BiSeparator.EarlyClause |
