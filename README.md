# APK dependency graph: a verified model of its core

The program reads a package name, resolves the package's transitive
dependencies from an Alpine APK repository index (or, in test mode, from a
fixture file of lines `A:B,C`), and turns the result into a PlantUML
diagram. This project models the algorithmic core of `main.py` in Dafny and
proves what it computes:

- `build_dependency_graph`: the recursive depth-first walk that shares one
  `visited` set, one on-path set `path` and one output dict `graph` across all
  its recursive calls (module `Builder`). The shared containers are the
  fields of class `GraphBuilder`; its methods `Visit` and `Enter` are proved
  equal to the reference functions `WalkFrom`/`WalkEach` on a snapshot of
  the shared state, and the properties of the walk are proved about those
  functions.
- `find_reverse_dependencies`: one pass over the dict's items (module
  `ReverseIndex`).
- The parts of `generate_plantuml` that decide what the diagram holds: the
  breadth-first levels from the dict's first key (module `Layering`), the
  colour tier capped at the fifth colour, the node aliases, and the rule that
  drops an edge whose target is not a key (module `Diagram`).
- The line parser of `get_test_dependencies`, the dependency source in test
  mode (module `Fixture`).

The Python dict is modelled as `DepGraph.Graph`: the key sequence in
insertion order beside a map. Assigning to an existing key keeps its
position, as in Python.

The dependency source (`fetch_apk_dependencies`) is a parameter, the total
function `lookup`. The walk terminates because every name it can reach lies
in a finite set `universe` that is closed under `lookup`. The program never
sees this set, so it is ghost. For the fixture source such a set is proved
to exist: the root together with every name the fixture mentions
(`Fixture.FixtureSourceClosed`).

Cycles follow the code. A name found on `path` has already been added to
`visited`, so the cycle branch overwrites the entry of an ancestor whose list
was already fetched. For `A -> [B]`, `B -> [A]` the result is
`{A: [], B: [A]}` (`Builder.TwoCycleResult`), not `{A: [B], B: []}` as one
might expect from "cut the cyclic edge". A name met again on the path is not
fetched a second time either, since it is already visited. Every key is
therefore fetched exactly once (`Builder.BuildResult`). The keys are exactly
the names reachable from the root, and an entry differs from the fetched list
only for a name that lies on a dependency cycle (`Builder.BuildContents`);
on an acyclic source such as the diamond `A -> [B, C]`, `B -> [D]`,
`C -> [D]` every entry is its fetched list and `D` is fetched once
(`Builder.DiamondResult`).

## Model

| member | source | states |
|---|---|---|
| `DepGraph.Graph.Put` | main.py:151 | `graph[k] = v`: the map gets `v` under `k`; a new key goes last, an existing key keeps its place; the dict invariant is kept |
| `DepGraph.Graph.Get` | main.py:209 | `graph.get(k, [])`: the stored list of a key, `[]` for any other name |
| `DepGraph.PutThenGet` | main.py:162 | after `graph[k] = v`, reading `k` gives `v` and every other name gives its old list |
| `Builder.WalkFrom` | main.py:135-170 | one call only adds names to `visited`, and only names of the closed universe |
| `Builder.WalkEach` | main.py:165-167 | the `for dep in deps` loop only adds names to `visited`, within the universe |
| `Builder.StartInv` | main.py:141-146 | the fresh `set()`, `set()`, `{}` of a top-level call satisfy the walk invariant |
| `Builder.CycleKeepsInv` | main.py:149-152 | the cycle branch writes `[]` under a key already present, keeping the key order and the invariant |
| `Builder.EnterKeepsInv` | main.py:157-162 | marking a fresh name visited and on the path, fetching it and storing its list keeps the invariant |
| `Builder.LeaveKeepsInv` | main.py:169 | removing a name from `path` once all its dependencies are visited keeps the invariant |
| `Builder.WalkFromRestoresPath` | main.py:149-170 | a call leaves `path` as it found it and leaves its name visited |
| `Builder.WalkEachRestoresPath` | main.py:165-167 | the loop leaves `path` as it found it and leaves every dependency visited |
| `Builder.WalkFromAppends` | main.py:157-162 | a call only appends to the dict's key order and to the sequence of lookups |
| `Builder.WalkEachAppends` | main.py:165-167 | the loop only appends to the dict's key order and to the sequence of lookups |
| `Builder.WalkFromKeepsInv` | main.py:135-170 | a call keeps the invariant: keys are exactly the visited names, each looked up once, each entry the fetched list or `[]`, dependencies of finished names visited |
| `Builder.WalkEachKeepsInv` | main.py:165-167 | the loop keeps the same invariant |
| `Builder.ReachesStep` | main.py:161-167 | a dependency of a name reachable from `a` is reachable from `a` |
| `Builder.LeadsToStep` | main.py:161-167 | a dependency of a name reachable in one or more steps from `a` is reachable in one or more steps from `a` |
| `Builder.ReachesStaysIn` | main.py:165-167 | a set closed under the source holds every name reachable from one of its members |
| `Builder.WalkFromReaches` | main.py:157-167 | a call entered at a name reachable from the root visits only names reachable from the root |
| `Builder.WalkEachReaches` | main.py:165-167 | the loop over dependencies reachable from the root visits only names reachable from the root |
| `Builder.WalkFromFaithful` | main.py:149-170 | when every name on the path leads to the entered name, a call leaves every entry equal to its fetched list unless its key lies on a cycle |
| `Builder.WalkEachFaithful` | main.py:165-167 | the same for the loop, when every name on the path leads to every dependency |
| `Builder.BuildResult` | main.py:141-170 | a top-level call ends with an empty path; the root is the first key; every key was looked up exactly once and nothing else was; each entry is the fetched list or `[]`; every fetched dependency of a key is a key |
| `Builder.BuildContents` | main.py:135-170 | the keys of a top-level call are exactly the names reachable from the root, and an entry differs from the fetched list only for a name on a dependency cycle |
| `Builder.TwoCycleReentry` | main.py:149-152 | in `A -> [B]`, `B -> [A]`, re-entering `A` from `B` overwrites `A`'s entry with `[]` |
| `Builder.TwoCycleFromA` | main.py:165-169 | entering `B` from `A` in that two-cycle yields `{A: [], B: [A]}` with `A` still on the path |
| `Builder.TwoCycleResult` | main.py:149-170 | the whole walk of that two-cycle gives `{A: [], B: [A]}` in that key order after one lookup each of `A` and `B` |
| `Builder.DiamondFromD` | main.py:157-169 | in the diamond `A -> [B, C]`, `B -> [D]`, `C -> [D]`, entering `D` from `B` records `D: []` and takes `D` off the path |
| `Builder.DiamondFromB` | main.py:157-169 | entering `B` from `A` fetches `B` then `D` and leaves only `A` on the path |
| `Builder.DiamondFromC` | main.py:154-169 | entering `C` afterwards finds `D` visited and does not fetch it again |
| `Builder.DiamondResult` | main.py:135-170 | the diamond gives `{A: [B, C], B: [D], D: [], C: [D]}` in that key order after one lookup each of `A`, `B`, `D`, `C` |
| `Builder.GraphBuilder.constructor` | main.py:141-146 | the shared state starts as empty sets and an empty dict, satisfying the invariant |
| `Builder.GraphBuilder.Visit` | main.py:148-155 | the call on the shared state equals `WalkFrom` on the old state, restores `path`, grows `visited` to include the name, and keeps the invariant |
| `Builder.GraphBuilder.Enter` | main.py:157-169 | the fresh-name branch equals `WalkFrom` on the old state, restores `path`, grows `visited` and keeps the invariant |
| `Builder.BuildDependencyGraph` | main.py:135-170 | the returned dict is the reference walk's dict, starts with the root, has exactly the names reachable from the root as keys, holds the fetched list under every key except one on a dependency cycle (whose entry may be `[]`), and has every fetched dependency of a key as a key |
| `ReverseIndex.DependentsExactly` | main.py:175-178 | a name is in the result if and only if it is a key whose list contains the target |
| `ReverseIndex.DependentsInOrder` | main.py:176 | the result lists the keys in the dict's iteration order |
| `ReverseIndex.DependentsNoDup` | main.py:176-178 | no key appears twice in the result |
| `ReverseIndex.FindReverseDependencies` | main.py:173-178 | the loop returns exactly the keys whose list contains the target, each once, in iteration order, and `[]` exactly when no list contains it |
| `Layering.StartFrontier` | main.py:202-205 | the root at level 0, alone in the queue, satisfies the loop invariant of the BFS |
| `Layering.PopStartsExpanding` | main.py:207-208 | `queue.popleft()` starts expanding the front name at its recorded level |
| `Layering.DiscoverKeepsExpanding` | main.py:210-212 | an unlevelled successor gets `level + 1` and joins the back of the queue, keeping the queue sorted within two adjacent levels |
| `Layering.EnqueueKeepsQueue` | main.py:211-212 | appending a new name at `level + 1` keeps the queue agreeing with `levels`, sorted and within two levels |
| `Layering.ExtendKeepsParented` | main.py:210-211 | a name levelled below a levelled parent gives every levelled name but the root a parent one level above |
| `Layering.SkipKeepsExpanding` | main.py:210 | a successor that already has a level is at most one level deeper than the name being expanded |
| `Layering.FinishKeepsFrontier` | main.py:209-212 | after all successors of the popped name, it counts as expanded |
| `Layering.EmptyFrontierIsLayering` | main.py:207 | when the queue is empty the levels are a breadth-first layering from the root |
| `Layering.Levels` | main.py:198-212 | no levels for an empty dict or an empty first key; otherwise the root is at 0, every successor of a levelled name is levelled at most one deeper, and every other levelled name has a parent one level above it |
| `Layering.LevelAtMostPathLength` | main.py:207-212 | every name reachable from the root is levelled, no deeper than the length of any path to it |
| `Layering.PathOfLevelLength` | main.py:207-212 | every levelled name has a path from the root exactly as long as its level, so levels are shortest distances |
| `Diagram.Tier` | main.py:228 | the tier indexes one of the five colours; it is the level below the cap, the last colour at or past it, and 0 for an unlevelled name |
| `Diagram.TierStepsByOne` | main.py:228 | along a stored edge from a levelled name the tier grows by at most one |
| `Diagram.NodeId` | main.py:230 | the alias has the name's length, every `-` replaced by `_`, and no `-` left |
| `Diagram.NodeIdIdempotent` | main.py:230 | an alias is its own alias |
| `Diagram.NodeIdCollides` | main.py:230 | `a-b` and `a_b` get the same alias |
| `Diagram.NodeDeclarations` | main.py:227-230 | one node per key in iteration order, with the key's alias and the colour of its tier, the first colour when unlevelled |
| `Diagram.KeptEdgesExactly` | main.py:236-237 | the arrows of one key are exactly its listed dependencies that are keys |
| `Diagram.EdgeListExactly` | main.py:235-238 | the arrows of the keys are exactly the stored edges whose target is a key |
| `Diagram.Edges` | main.py:235-238 | the loops emit, in order, exactly one arrow per stored edge whose target is a key |
| `Fixture.SkipSpaces` | main.py:123 | the first position from `i` on that is not whitespace, with only whitespace before it |
| `Fixture.SkipSpacesBack` | main.py:123 | the position after the last non-whitespace before `j`, with only whitespace after it |
| `Fixture.Strip` | main.py:123 | the stripped line neither starts nor ends with whitespace, is empty exactly when the line is all whitespace, and keeps only characters of the line |
| `Fixture.StripIdempotent` | main.py:123 | stripping twice is stripping once |
| `Fixture.StripTrims` | main.py:123 | the stripped line is the slice of the line left after removing a run of whitespace at each end; with the end conditions of `Strip` this pins down `str.strip()` |
| `Fixture.SplitAtColon` | main.py:126 | `split(':', 1)` cuts at the first `:`: the parts rebuild the line and the first part has no `:` |
| `Fixture.SplitCommas` | main.py:128 | `split(',')` gives at least one piece and no piece holds a comma |
| `Fixture.SplitCommasJoins` | main.py:128 | joining the pieces with commas rebuilds the string |
| `Fixture.StripNonBlank` | main.py:128 | the kept names are non-empty and stripped, and comma-free when the pieces are |
| `Fixture.StripNonBlankExactly` | main.py:128 | every piece that is not blank is kept, stripped, and every kept name is the stripped form of some piece |
| `Fixture.ParseDepList` | main.py:128 | the parsed list keeps every piece between commas that is not blank, stripped, and nothing else, so every name is non-empty, stripped and comma-free |
| `Fixture.FixtureDepsFirstMatch` | main.py:122-128 | the first line that declares the package decides its dependencies |
| `Fixture.FixtureDepsNoMatch` | main.py:122-129 | a package that no line declares gets `[]` |
| `Fixture.GetTestDependencies` | main.py:122-129 | the loop returns the first declaration's list, or `[]`, and every returned name is non-empty, stripped and comma-free |
| `Fixture.FixtureDepsMentioned` | main.py:128 | every dependency the fixture gives a package is a name some declaration lists |
| `Fixture.FixtureSourceClosed` | main.py:92-95 | in test mode the root plus every name the fixture mentions is closed under the dependency source, so the walk terminates on any fixture |

## Left out

- `read_config` and `main`: `main` reads the fixed file `config.ini`, which `read_config` parses as an INI file with `configparser` and checks for a `[settings]` section and the required keys; this is file I/O, and the root package and the dependency source are parameters.
- `download_apkindex` and its APKINDEX parsing (HTTP download, gzip/tar extraction, the version-operator regex): network and archive I/O; the dependency source is the parameter `lookup`.
- `fetch_apk_dependencies`: its cache of the downloaded index and its "package not found" fallback live inside `lookup`; the model only requires `lookup` to be a function, so a source that answers differently on a second call is not modelled.
- `get_test_dependencies`: the existence check of the file, opening it, splitting it into lines and the `except` branch that returns `[]` are file I/O; the model takes the file's lines as a sequence.
- `generate_plantuml`: the PlantUML text itself (the header, the `rectangle` and `-->` lines, whose colour carries a doubled `#`), writing the file and calling `plantuml` through `os.system` are output formatting and I/O; the model stops at the node and edge lists.
- All `print` diagnostics, including the cycle warning and the reverse-dependency listing.
- The `version`, `repo_url`, `test_mode`, `test_repo_path` and `depth` parameters of `build_dependency_graph`: they are only passed through to the dependency source or never read.
- `Builder.GraphBuilder.Visit`: Python's recursion depth limit is not modelled; the model assumes the stack never overflows.
- `Builder.WalkFrom`: termination rests on a ghost `universe` closed under `lookup`; a source that keeps producing new names forever has no model.
