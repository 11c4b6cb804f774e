# polygonate: a verified model of the tessellation engine and its version strings

This project models two parts of the polygonate package in Dafny and proves properties of the model.

**The genetic tessellation engine (`_core.py`).** It cuts a set of 2D points into convex polygons and improves the cut by a genetic search. The model covers these parts:

- The convexity test `is_convex`: a cyclic cross-product sign test with a collinearity band of ±1e-5, over exact reals.
- The greedy builder `_create_random_tessellation` and the polygon check `_is_valid_polygon`.
- The population builder `_initialize_population`, with its fewer-than-three-points error.
- The genetic operators `_crossover` and `_mutate`.
- The generation loop of `optimize` and its final emission of deduplicated polygons.

The optimizer object is a Dafny class. Its population is a field that `Optimize` replaces generation by generation. Every random draw is a parameter whose precondition copies the range of the `randint`/`random` call it stands for:

- the builder's group sizes;
- the index shuffles;
- crossover's split point;
- mutation's coin, polygon index and cut point;
- the parents the fitness-weighted selection picks;
- the index of the fittest candidate.

**Versioneer's version strings (`_version.py`).** The model covers these parts:

- `plus_or_dot`.
- The six `render_*` styles and the `render` dispatcher.
- `git_versions_from_keywords`, which reads a version from the ref names `git archive` expands.
- The pure part of `git_pieces_from_vcs`: parsing `git describe --long` output into the pieces. It is the partner of `render_git_describe_long`, and the two are proved to round-trip.

The Python string builtins these functions rely on are modelled in `PyStr`, with their properties proved:

- `strip`, `split`/`join` and `str.replace(..., 1)`;
- `startswith` and `%d`;
- `sorted` on strings, in code-point order.

Modules:

- `Geometry` (geometry.dfy)
- `Tessellation` (tessellation.dfy)
- `Engine` (engine.dfy)
- `PyStr` (pystr.dfy)
- `VersionRender` (versions.dfy)
- `VersionKeywords` (keywords.dfy)
- `Wrappers` (wrappers.dfy: Option and Result)

Two behaviours of the code are easy to misread. The model follows the code in both:

- After the builder meets a non-convex group it stops cutting, but it still tests the whole remaining list as one last polygon (_core.py:58-59). The remaining indices are not dropped at the break: they become one last polygon, which can have more than six indices, when the whole remaining list has at least three indices and is convex, and they are dropped otherwise (`CloseTessellation`).
- Crossing a candidate with itself gives it back exactly when no polygon after the split equals a polygon before it (`CrossoverSameParent`). A repeated polygon that lies wholly before the split, or wholly after it, is kept. A repeat with one copy on each side of the split is dropped (`CrossoverDropsRepeats`).

## Model

| member | source | states |
|---|---|---|
| Geometry.IsConvex | _core.py:9-23 | The loop's answer is exactly `Convex`. Convex means at least three vertices, and every cyclic cross product outside (-1e-5, 1e-5) has one sign. So lists shorter than three are rejected, and all-collinear lists are accepted. |
| Geometry.ConvexRotate | _core.py:14-22 | Starting the vertex list at any other position does not change the answer, in both directions: every cyclic triple of a rotation is a triple of the original. |
| Geometry.TriangleConvex | _core.py:14-23 | Every three-vertex list passes the test, since its three cyclic cross products are equal. |
| Geometry.ConvexTranslate | _core.py:14-23 | Moving all points by one vector does not change the answer, in both directions. |
| Geometry.ConvexTurn | _core.py:14-23 | Rotating all points about the origin (cosine c, sine s with c² + s² = 1) does not change the answer, in both directions: every cross product is unchanged. |
| Tessellation.IsValidPolygon | _core.py:62-65 | `_is_valid_polygon` is the convexity test on the points the indices name, and a valid polygon has at least three indices. |
| Tessellation.CutGroups | _core.py:49-57 | The result is the greedy cut. The kept groups followed by the remaining list rebuild the input exactly. Group i has the size drawn at step i from `randint(3, min(6, remaining))`, was cut while more than three indices remained, and is valid. The loop stops only when at most three indices remain or the next drawn group is not valid. No group is kept exactly when the first drawn group is not kept, and then the remaining list is the input. |
| Tessellation.GreedyCutUnique | _core.py:49-57 | The greedy rule determines the cut: two cuts of the same indices under the same draws that both follow it are equal, groups and remaining list alike. |
| Tessellation.CloseTessellation | _core.py:58-59 | The remaining list is appended exactly when it has at least three indices and is valid. The result keeps all the builder's guarantees (`Tessellates`). |
| Tessellation.CreateRandomTessellation | _core.py:47-60 | The result is the greedy cut's groups, followed by the remaining list exactly when it has at least three indices and is valid. Every polygon is valid, with at least three indices, and all but the last have at most six. Laid end to end, the polygons form a prefix of the input, and all of it when the last polygon is longer than six. Distinct input indices give pairwise disjoint polygons. The flag is set exactly when the one polygon returned is the input list itself. |
| Tessellation.Crossover | _core.py:81-85 | The offspring is parent1's first `split` polygons followed by parent2 filtered of the polygons in that prefix, in parent2's order. A polygon is in the offspring iff it is in the prefix or in parent2. With more than one polygon, the split is in 1..len-1. |
| Tessellation.WithoutMembers | _core.py:84 | The filter keeps exactly the polygons that are not excluded. |
| Tessellation.WithoutCounts | _core.py:84 | A kept polygon keeps its multiplicity, and an excluded one occurs zero times. |
| Tessellation.WithoutAppend | _core.py:84 | The filter works element by element and keeps order: filtering a + b is filtering a, then filtering b. |
| Tessellation.CrossoverSameParent | _core.py:81-85 | Crossing a candidate with itself gives it back iff no polygon after the split equals one before it, in both directions. |
| Tessellation.CrossoverDistinctParent | _core.py:81-85 | A candidate that repeats no polygon comes back from crossing with itself, for every allowed split. |
| Tessellation.CrossoverDropsRepeats | _core.py:84 | An instance: [[0,1,2],[3,4,5],[0,1,2]] crossed with itself at split 1 loses its last polygon, whose copy lies before the split. |
| Tessellation.Mutated | _core.py:87-99 | Mutation keeps the multiset of all indices. |
| Tessellation.Mutate | _core.py:87-99 | The result is `Mutated`. It is the input when the list is empty, when the coin fails, or when the drawn polygon has at most three indices. Otherwise the list grows by one: position idx holds the front of the cut and the appended last element holds the back. The two pieces concatenate to the old polygon, and every other position is unchanged. The multiset of all indices is kept. |
| Tessellation.SplitKeepsIndices | _core.py:96-97 | Cutting a polygon in two, keeping the front in place and appending the back, keeps the multiset of all indices. |
| Tessellation.AllIndicesUpdate | _core.py:96 | Overwriting one polygon changes the multiset of all indices by exactly the removed and the added indices. |
| Tessellation.Emit | _core.py:122 | Each emitted polygon is the set of distinct indices of a polygon of the best candidate, with more than two elements. Every such set is emitted. |
| Tessellation.EmitAppend | _core.py:122 | Emission goes polygon by polygon, in order, one entry per kept polygon: emitting a + b is emitting a, then b. |
| Tessellation.EmitIndicesBelow | _core.py:122 | Emission only names points the candidate names. |
| Engine.InitializePopulation | _core.py:35-45 | Fails with the source's message iff there are fewer than three points. Otherwise candidate k is the builder's greedy tessellation of shuffle k under the size draws of step k (unique by `GreedyCutUnique`), and each candidate is valid, pairwise disjoint and indexes only the points (each shuffle copied, which is the evidently intended behaviour). |
| Engine.InitializePopulationAsWritten | _core.py:41-44 | As written, with one list shuffled in place: a candidate for which the builder returned the list itself ends up as the single polygon of the last shuffle. All other candidates are valid. |
| Engine.SharedIndexListBreaksValidity | _core.py:43-44 | Five points in convex position, two shuffles and a size draw for which the first candidate shares the list. The second shuffle then makes that candidate a non-convex polygon. |
| Engine.SplitFor | _core.py:83 | Crossover's draw `randint(1, len - 1)`, or 1, lies in the allowed split range. |
| Engine.MutationIndex | _core.py:89-93 | For a non-empty crossover result the drawn `randint(0, len - 1)` names one of its polygons. |
| Engine.MutationCut | _core.py:95-96 | For a polygon of more than three indices the drawn cut lies in 1 .. len(polygon) - 2, the range of `randint(1, len(polygon) - 2)`, so both pieces are non-empty. |
| Engine.Offspring | _core.py:114-116 | Both parents the draw selects are candidates of the current population. Offspring 0 holds the indices of parent1 crossed with parent2 (parent1 first), offspring 1 those of parent2 crossed with parent1. |
| Engine.CrossoverIndicesBelow | _core.py:84 | Crossing two candidates that index n points gives one that indexes n points. |
| Engine.PolygonateGA.Create | _core.py:28-33 | Construction fails iff there are fewer than three points, with the population builder's message. Otherwise it stores the configuration and an initial population of popSize valid, pairwise disjoint candidates, candidate k being the greedy tessellation of shuffle k. |
| Engine.Child | _core.py:115-116 | An offspring, `_mutate(_crossover(parent1, parent2))` with the draws of its generation, pair and position, holds the same multiset of indices as the crossover result. |
| Engine.ChildIndicesBelow | _core.py:115-116 | Crossing and mutating candidates that index n points gives one that indexes n points. |
| Engine.ZeroRateChild | _core.py:92 | With mutation rate 0 the offspring is exactly the crossover result. |
| Engine.ChildFromParents | _core.py:81-99 | Every polygon of an offspring is a polygon of a parent, or one of the two pieces mutation cut one into. |
| Engine.PolygonateGA.Breed | _core.py:115-116 | The bred offspring is exactly `Child`: the crossover with the drawn split, then mutation with the drawn coin, index and cut. |
| Engine.PolygonateGA.BreedPair | _core.py:114-117 | The two offspring are `Offspring` 0 and 1 of the pair: parent1 crossed with parent2, and parent2 crossed with parent1, the parents being those the draw selects. |
| Engine.Generation | _core.py:112-118 | One generation yields exactly 2·(popSize // 2) offspring. |
| Engine.GenerationIndicesBelow | _core.py:112-118 | A generation bred from candidates that index n points holds only such candidates. |
| Engine.GenerationFromPool | _core.py:112-118 | A generation bred from a population whose polygons are pieces of a pool has polygons that are pieces of the pool. |
| Engine.PolygonateGA.NextGeneration | _core.py:112-118 | The new population is exactly `Generation`: candidates 2i and 2i+1 are the two offspring of pair i, in order. |
| Engine.Evolve | _core.py:110-118 | After no generation the population is the initial one, and after at least one it has exactly 2·(popSize // 2) candidates. With popSize at least 2 it is never empty. |
| Engine.EvolveIndicesBelow | _core.py:110-118 | Every generation keeps the candidates indexing only the n points. |
| Engine.EvolveFromInitial | _core.py:110-118 | The search invents no polygon: after any number of generations, every polygon is a contiguous run of a polygon of the initial population. |
| Engine.PolygonateGA.Optimize | _core.py:109-122 | The final population is the initial one evolved through `generations` generations (`Evolve`), so its polygons are pieces of the initial ones. The result is the emission of the candidate at the drawn best index: sets of at least three indices that name points. It fails iff the final population is empty (argmin of an empty list). |
| VersionRender.PlusOrDot | _version.py:274-278 | "." exactly when the closest tag contains "+", and "+" exactly when it does not. |
| VersionRender.RenderPep440 | _version.py:281-295 | With a tag the rendering starts with it, and is exactly the tag at distance 0 on a clean tree. Without a tag it starts with "0+untagged.". A dirty tree ends in ".dirty". |
| VersionRender.Pep440UntaggedReadBack | _version.py:290-294 | Without a tag every field reads back: after "0+untagged." the digit run is the distance, then ".g", then the short hash, and the rendering ends in ".dirty" exactly when the tree is dirty. |
| VersionRender.RenderPep440Pre | _version.py:298-307 | With a tag the rendering starts with it, and is exactly the tag at distance 0, dirty or not. Without a tag it starts with "0.post.dev". |
| VersionRender.RenderPep440Post | _version.py:310-326 | With a tag the rendering starts with it, and is the tag at distance 0 on a clean tree. Without a tag it starts with "0.post". Whenever a local label is added, the rendering ends in "g" + short. |
| VersionRender.RenderPep440Old | _version.py:329-342 | With a tag the rendering starts with it, and is the tag at distance 0 on a clean tree. Without a tag it starts with "0.post". A dirty tree ends in ".dev0". |
| VersionRender.RenderGitDescribe | _version.py:345-356 | With a tag the rendering starts with it, and without one it starts with the short hash. A dirty tree ends in "-dirty". |
| VersionRender.GitDescribeUntaggedReadBack | _version.py:351-356 | Without a tag the rendering reads back as the short hash and the dirty flag: it is the hash, plus "-dirty" exactly when dirty. |
| VersionRender.RenderGitDescribeLong | _version.py:359-369 | With a tag the rendering starts with the tag and "-", and ends in "-g", the short hash and "-dirty" when dirty. Without a tag it is the short describe form. A dirty tree ends in "-dirty". |
| VersionRender.GitDescribeShortAndLong | _version.py:345-369 | The long describe form is the short one except at distance 0, where it adds "-0-g" and the hash. Both append "-dirty" alike. |
| VersionRender.Render | _version.py:372-407 | A truthy error wins: version "unknown", the long hash, dirty and date None, and the same error. Otherwise the result fails exactly for a style outside the known names, with the source's message. Success carries the long hash, the dirty flag, no error and the date. |
| VersionRender.RenderStyles | _version.py:383-397 | Without an error, "" and "default" render as "pep440", and each named style renders with its own function. |
| VersionRender.Pep440OnePlus | _version.py:281-295 | A rendering holds one "+" when it adds a local label to a tag without one, and one without a tag. It never holds more than the tag's single "+". |
| VersionRender.Pep440PostOnePlus | _version.py:310-326 | The same "+" count for the post style. |
| VersionRender.Pep440PreNoPlus | _version.py:298-307 | The pre style adds no "+" to the tag's. |
| VersionRender.Pep440OldNoPlus | _version.py:329-342 | The old style adds no "+" to the tag's. |
| VersionRender.NormaliseIsoDate | _version.py:269 | git's "DAY TIME ZONE" date becomes the ISO 8601 stamp "DAYTTIMEZONE". |
| VersionRender.NormaliseGitDate | _version.py:266-269 | A concrete git date becomes its ISO 8601 form. |
| VersionRender.NormaliseDate | _version.py:269 | A date with no space left after stripping is only stripped. |
| VersionRender.DigitRun | _version.py:236 | The digit run at the front of a string is all digits and is followed by a non-digit or the end. |
| VersionRender.MatchDescribeLong | _version.py:236 | The describe pattern splits TAG-DIGITS-gHEX at the real split point, whatever the tag contains (greedy `(.+)`). |
| VersionRender.SplitDirtyMark | _version.py:229-232 | The "-dirty" suffix is recognised exactly when present, since a hash ends in a hex digit. |
| VersionRender.ParseDescribeTagged | _version.py:234-257 | PREFIXTAG-DISTANCE-gHEX parses to the tag without its prefix, the distance and the hash. |
| VersionRender.ParseDescribeUntagged | _version.py:234-263 | A bare hash has no "-", so there is no tag. |
| VersionRender.DescribeRoundTrip | _version.py:216-269 | Parsing what `render_git_describe_long` prints reads back the pieces. With a tag, that is the tag, distance, hash and dirty flag. Without one, it is no tag, the commit count as distance, and the dirty flag. |
| VersionRender.PiecesFromDescribeFields | _version.py:216-269 | Every parse records the stripped full hash and the dirty flag of the stripped output. An error leaves no tag, distance 0 and no date; otherwise the date is the normalised one. Output without "-" gives no tag, the commit count and the first seven characters of the full hash. |
| VersionKeywords.TagRefs | _version.py:153-154 | The marked names are exactly the refs that start with "tag: ", with the marker removed. |
| VersionKeywords.DigitRefs | _version.py:155-157 | The fallback tags are exactly the refs that hold a digit. |
| VersionKeywords.Tags | _version.py:151-157 | With a marked ref the tags are exactly the marked names, and otherwise exactly the refs with a digit. |
| VersionKeywords.FirstWithPrefix | _version.py:162-165 | The find-first loop returns nothing iff no name has the prefix, and otherwise the first name that does. |
| VersionKeywords.PickTag | _version.py:162-165 | Over `sorted(tags)`: nothing iff no tag has the prefix, and otherwise the least tag with it in code-point order. |
| VersionKeywords.GitVersionsFromKeywords | _version.py:138-184 | The result depends on the keywords: (1) No keywords, or unexpanded "$Format" ref names, raise NotThisMethod with the source's messages; a missing "refnames" or "full" raises KeyError. (2) Success exactly otherwise, with the stripped full hash and dirty False. (3) When some tag has the prefix, the version is the least such tag with the prefix removed, and the date is the normalised date. (4) Otherwise the version is "0+unknown" with error "no suitable tags" and no date. |
| VersionKeywords.RefsOfJoined | _version.py:151 | The ref list git writes, pieces joined by commas inside parentheses, reads back as its stripped pieces. |
| VersionKeywords.RefsStripped | _version.py:151 | There is at least one ref, and every ref is free of commas and already stripped. |
| PyStr.NatToStringRoundTrip | _version.py:287 | `%d` output read back as a number gives the number. |
| PyStr.NatToStringInjective | _version.py:287 | Different distances render differently. |
| PyStr.StripCharsIdempotent | _version.py:151 | Stripping twice is stripping once. |
| PyStr.StripCharsEnds | _version.py:145 | A stripped string neither starts nor ends with a stripped character. |
| PyStr.JoinSplit | _version.py:151 | Joining the pieces of a split gives the string back. |
| PyStr.SplitJoin | _version.py:151 | Splitting a join of pieces without the separator gives the pieces back. |
| PyStr.ReplaceFirstCount | _version.py:144 | Replacing the first occurrence of a present character by text without it removes exactly one occurrence. |
| PyStr.Sort | _version.py:162 | `sorted` gives an ordered permutation of its input. |
| PyStr.SortMembers | _version.py:162 | Sorting keeps exactly the same members. |
| PyStr.LexTotal | _version.py:162 | Code-point order is total. |
| PyStr.LexTransitive | _version.py:162 | Code-point order is transitive. |
| PyStr.LexAntisymmetric | _version.py:162 | Code-point order is antisymmetric. |

## Left out

- `_fitness` (_core.py:67-79) is left out. It computes floating-point areas and perimeters with square roots and π.
- `_select_parents` (_core.py:101-107) is left out. Its float probabilities and numpy sampling are replaced by the picked parent indices, which arrive as draws in range.
- The argmin over the fitness scores (_core.py:120-121) is left out for the same reason. The index of the best candidate is a draw in range.
- The random generator is not modelled. Every shuffle and draw is a parameter whose precondition gives the range of the call.
- numpy array indexing is modelled on sequences. The unused Delaunay import is not modelled.
- Floating-point rounding in `is_convex` is not modelled. Coordinates are exact reals, so NaN and infinity do not arise.
- The interactive `__main__` block is console I/O and is not modelled.
- `run_command`, `git_get_keywords`, `versions_from_parentdir` and `get_versions` are subprocess, git and file I/O, and are not modelled. Of `git_pieces_from_vcs`, only the parse of the command outputs is modelled. The outputs, the commit count and the failure of the git calls are parameters or are left out.
- `register_vcs_handler`, `get_keywords` and `get_config` are global registration and configuration, and are not modelled.
- Printing under `verbose` is not modelled.
- The default arguments of `PolygonateGA.__init__` (_core.py:28: pop_size=100, generations=500, mutation_rate=0.1) are not modelled. `Create` takes all four arguments explicitly.
- Negative `pop_size` and `generations` are not modelled (both are `nat`). Python accepts them. `range` of a negative number is empty, and `pop_size // 2` is then negative too, so a negative value acts exactly like 0.
- Tessellation.Emit: each emitted polygon is a set. The vertex order of `list(set(poly))` at _core.py:122 follows set iteration and is not modelled.
- Tessellation.Mutate: modelled on values. The in-place update of the crossover result is not modelled; no other candidate shares that list.
- Engine.InitializePopulation: gives each candidate its own copy of the shuffle. The source's sharing of one list is modelled separately by `Engine.InitializePopulationAsWritten` (see Findings).
- VersionRender.PlusOrDot: requires a closest tag. With a missing tag the source would look up "" (always "+"), and with a None tag it raises TypeError; `render_*` only calls it under a truthy tag.
- VersionRender.Pieces: a missing "closest-tag", "error" or "date" key and a None value are one case (`None`). A missing "distance" is 0, which only happens on the error path that `render` handles first.
- VersionRender.Render: a `None` style is not modelled (styles are strings). Python treats it like "".
- VersionRender.MatchDescribe: `$` in the pattern also matches before a final newline. Describe output is stripped first, so this case is not modelled.
- PyStr.IsDigit: ASCII only. Python's `\d` also accepts other Unicode decimal digits. `PyStr.Whitespace` is the full set `str.isspace` accepts.
- VersionKeywords.GitVersionsFromKeywords: the `set` of refs and of tags is a list. The result is proved to depend only on which tags are present (`PickTag`), so order and repeats do not matter. The "date" keyword is a string; a present key with value None is not modelled.

## Findings

| source | as written | input that shows it | evidently intended | confidence | as-written member | corrected member |
|---|---|---|---|---|---|---|
| _core.py:41-44, 58-59 | `_initialize_population` shuffles one `indices` list in place for every candidate. When the builder keeps no group and accepts the whole list, line 59 appends that very list. The next shuffle then reorders the earlier candidate's polygon, which may no longer be convex. | Points (0,0), (4,0), (5,3), (2,5), (-1,3). The first shuffle is 0,2,4,1,3 (a convex star order), and the first size draw is 4: the group 0,2,4,1 is not convex, so the whole list becomes candidate 0. The second shuffle is 0,1,3,2,4, which turns candidate 0 into a self-crossing, non-convex polygon. | Every candidate of the initial population holds only valid polygons (a copy of the list, e.g. `list(indices)`) | not executed | Engine.InitializePopulationAsWritten, Engine.SharedIndexListBreaksValidity | Engine.InitializePopulation |
