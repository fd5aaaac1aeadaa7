# Tree text ⇄ Mermaid flowchart conversion, modelled in Dafny

This project models the conversion engine of DevToolVaultV2 (`Core/Services`):

- **TreeToMermaidConverter** turns an indented directory listing into a Mermaid flowchart.
  - `PreConvertTree` rewrites each non-blank line as `'?' × level + " " + name`. The level counts every fourth index of the leading run of spaces and box-drawing characters.
  - `ConvertTreeToMermaid` walks those lines with a parent stack and a node counter. It emits `graph TD`, then `nodeK["icon name"]` for a bare node or `parentId --> nodeK["icon name"]` for a child, and records one node per item.
  - `ParseMermaidToNodes` reads such a diagram back. `CalculateNodeLevelsAndPaths` then gives every node a level and a `/`-joined path by a breadth-first search from the roots.
- **MermaidToTreeConverter** turns a Mermaid flowchart back into tree text.
  - `ParseMermaidDiagram` runs the same statement loop, but skips `graph`/`flowchart` lines and strips icons with `ExtractNodeName`.
  - `BuildHierarchy` is the same search, and it also fills each node's `Children` list.
  - Two recursive renderers draw the tree. The ASCII one uses `├── `/`└── ` branches under `│   `/`    ` guides. The icon one writes `📁`/`📄` with two spaces of indentation per level.
  - `ConvertMermaidToTree` wraps every outcome in a `ConversionResult`.

Modules by file:

| file | module | what it holds |
|---|---|---|
| `wrappers.dfy` | `Wrappers` | `Option` and `Result` |
| `text.dfy` | `Text` | whitespace, the trims, splitting and joining lines, decimal ids, ordinal string order |
| `sorting.dfy` | `Sorting` | the stable sort that stands for LINQ `OrderBy` |
| `tree_nodes.dfy` | `TreeNodes` | the shared `TreeNode`, the node dictionary kept with its insertion order, the level-then-path order |
| `pre_conversion.dfy` | `PreConversion` | `PreConvertTree` |
| `diagram_syntax.dfy` | `DiagramSyntax` | recognisers for the declaration and edge patterns, and the statement texts the converter writes |
| `diagram_parser.dfy` | `DiagramParser` | the statement loop of both parsers and `ExtractNodeName` |
| `hierarchy.dfy` | `Hierarchy` | `CalculateNodeLevelsAndPaths` and `BuildHierarchy`, as one breadth-first search |
| `tree_to_mermaid.dfy` | `TreeToMermaid` | `ConvertTreeToMermaid` with its parent stack, and `ParseMermaidToNodes` |
| `round_trip.dfy` | `RoundTrip` | reading a written diagram back |
| `mermaid_to_tree.dfy` | `MermaidToTree` | `ParseMermaidDiagram`, the two renderers, `ConvertMermaidToTree` and its two wrappers |
| `code_units.dfy` | `CodeUnits` | `ExtractNodeName` on UTF-16 code units, as .NET runs it |

Modelling choices:

- **Strings and output.** A string is a sequence of Unicode code points, and a StringBuilder is the sequence of lines appended to it. `AppendLine` puts `Environment.NewLine`, taken to be `"\r\n"`, after every line.
- **Nodes and references.** The node objects live in the resolved dictionary (`NodeMap`). A `Children` list holds the ids of the child objects, and the renderers look them up there. Dictionary enumeration order is insertion order, kept as `NodeTable.order`.
- **Ordering and exceptions.** `OrderBy(...).ThenBy(...)` is a stable insertion sort by one combined comparison. A null `FullPath` sorts before every path. A .NET exception is a `Fault` value carrying its message.
- **Behaviours taken from the code as written**, each instead of an alternative a reader might expect:
  - tabs end the indentation run, rather than counting as indentation;
  - trailing separators are kept in names, rather than stripped;
  - `PreConvertTree` keeps icons in names, rather than removing them;
  - a child named by two edges makes `ToDictionary` throw, rather than the first parent winning;
  - nodes the search never reaches are kept, with level 0 and no path, rather than dropped.

What is proved, in outline:

- **The pre-converter** computes level = ⌈run/4⌉ and normalises each kept line.
- **The converter loop** keeps the parent stack's invariants:
  - the stack holds exactly the open directories;
  - levels strictly increase from bottom to top;
  - only directories are pushed.
- **Emission.** Each item's statement and node follow the emission rule: ids are `node1, node2, …` in order, and a node's path is its parent's path, a slash and its name.
- **Parsing and resolution.** Both parsers are deterministic, and the resolved levels and paths follow the parent relation. A duplicate child is the only resolution failure.
- **The round trip.** When no item name contains `"`, parsing the diagram `ConvertTreeToMermaid` writes gives back the same set of (`NodeId`, `Name`, `IsDirectory`, `FullPath`) as the nodes it recorded.
- **The renderers.** The walk from the sorted roots meets exactly the parsed nodes, and each renderer draws one line per visited node.
  - An ASCII line is the gutter, the branch, then the name. The gutter holds `    ` for each ancestor that was the last of its siblings and `│   ` for each other one. The branch is `└── ` for a root or a last sibling and `├── ` otherwise.
  - An icon line is two spaces per level of depth, then `📁` or `📄`, a space and the name.
- **Ordering.** `OrderBy` is a stable sort. Its result is sorted, and elements that tie keep their input order.

## Model

| member | source | states |
|---|---|---|
| Text.TrimEnd | Core/Services/TreeToMermaidConverter.cs:56 | `TrimEnd` keeps the longest prefix that does not end in whitespace; what it drops is blank, and a blank line is trimmed to nothing |
| Text.TrimStart | Core/Services/TreeToMermaidConverter.cs:61 | `TrimStart` keeps the longest suffix that does not start with whitespace; what it drops is blank |
| Text.Trim | Core/Services/TreeToMermaidConverter.cs:170 | `Trim` leaves neither end whitespace, and trims blank text to nothing |
| Text.TrimPadded | Core/Services/MermaidToTreeConverter.cs:89 | trimming a trimmed word padded with whitespace gives the word |
| Text.SplitLines | Core/Services/TreeToMermaidConverter.cs:129 | `Split` on `'\r'`/`'\n'` with empty entries removed gives non-empty pieces without line breaks; text with no line break is one piece, or none when empty |
| Text.LineEndAtBreak | Core/Services/TreeToMermaidConverter.cs:129 | the first piece ends at the first `'\r'` or `'\n'` |
| Text.SplitLinesBreak | Core/Services/TreeToMermaidConverter.cs:129 | for any text, the run before the first line break is the first piece unless it is empty, followed by the pieces of the rest; with the one-line case this fixes the pieces of every text |
| Text.SplitLinesNewLine | Core/Services/TreeToMermaidConverter.cs:164 | splitting a non-empty one-line piece followed by `"\r\n"` and more text gives that piece, then the pieces of the rest |
| Text.SplitJoin | Core/Services/TreeToMermaidConverter.cs:164 | splitting text built by `AppendLine` gives back the appended lines when each is non-empty and on one line |
| Text.NatToString | Core/Services/TreeToMermaidConverter.cs:66 | the counter is written as a non-empty string of decimal digits |
| Text.NatToStringInjective | Core/Services/TreeToMermaidConverter.cs:66 | distinct counter values are written differently |
| Text.LexLeTotal | Core/Services/MermaidToTreeConverter.cs:206 | any two names are ordered one way or the other |
| Text.LexLeTransitive | Core/Services/MermaidToTreeConverter.cs:206 | string order is transitive |
| Text.LexLeAntisymmetric | Core/Services/MermaidToTreeConverter.cs:206 | two names ordered both ways are equal |
| Sorting.SortBy | Core/Services/TreeToMermaidConverter.cs:214 | `OrderBy` returns a permutation of its input; `SortBySorted` and `SortByStable` give its order |
| Sorting.InsertSorted | Core/Services/TreeToMermaidConverter.cs:214 | inserting into a sorted list keeps it sorted under a total preorder |
| Sorting.SortBySorted | Core/Services/TreeToMermaidConverter.cs:214 | `OrderBy` under a total preorder returns a sorted list |
| Sorting.SortByElements | Core/Services/MermaidToTreeConverter.cs:206 | `OrderBy` keeps exactly the elements of its input |
| Sorting.InsertTies | Core/Services/TreeToMermaidConverter.cs:214 | an inserted element comes before every element it ties with, and the others that tie keep their order |
| Sorting.SortByStable | Core/Services/TreeToMermaidConverter.cs:214 | `OrderBy` is stable: the elements tied with any given key appear in the result in their input order |
| TreeNodes.AddNode | Core/Services/TreeToMermaidConverter.cs:184-193 | adding a node keeps the dictionary valid, maps its id to it, and appends the id to the enumeration order |
| TreeNodes.ValuesInOrder | Core/Services/TreeToMermaidConverter.cs:214 | `nodeMap.Values` lists the nodes in insertion order |
| TreeNodes.ValuesInOrderElements | Core/Services/TreeToMermaidConverter.cs:214 | `Values` holds exactly the dictionary's nodes |
| TreeNodes.ByLevelThenPathIsTotalPreorder | Core/Services/TreeToMermaidConverter.cs:214 | ordering by `Level` then `FullPath` is a total preorder |
| TreeNodes.SortedValuesElements | Core/Services/MermaidToTreeConverter.cs:145 | the sorted values hold every dictionary node once |
| PreConversion.IndentRun | Core/Services/TreeToMermaidConverter.cs:137-146 | the scan stops at the first character that is not a space or `│─├└` |
| PreConversion.MarksIsCeiling | Core/Services/TreeToMermaidConverter.cs:142 | counting the indices divisible by 4 in a run of n gives ⌈n/4⌉ |
| PreConversion.LevelIsCeiling | Core/Services/TreeToMermaidConverter.cs:135-146 | a line's level is ⌈(indentation run)/4⌉ |
| PreConversion.CountLevel | Core/Services/TreeToMermaidConverter.cs:135-146 | the `while` loop over `i` computes that level |
| PreConversion.DecorationRun | Core/Services/TreeToMermaidConverter.cs:148 | the regex prefix is the longest run of whitespace, box-drawing, `-`, `\|`, `+`, backtick, `'`, `*`, `/` and `\` characters |
| PreConversion.ItemName | Core/Services/TreeToMermaidConverter.cs:148 | the name left after the decoration is trimmed |
| PreConversion.Questions | Core/Services/TreeToMermaidConverter.cs:149 | `new string('?', level)` is `level` question marks |
| PreConversion.KeptIsNotBlank | Core/Services/TreeToMermaidConverter.cs:132-133 | a line is kept exactly when its `TrimEnd` is not blank |
| PreConversion.SimplifyOne | Core/Services/TreeToMermaidConverter.cs:130-151 | one loop step adds the simplified line, or nothing for a skipped line |
| PreConversion.PreConvertTree | Core/Services/TreeToMermaidConverter.cs:124-154 | the loop returns the simplified kept lines |
| PreConversion.SimplifiedEntries | Core/Services/TreeToMermaidConverter.cs:149-150 | every output line is `'?' × level + " " + name` for the kept line at the same index |
| PreConversion.EntryNames | Core/Services/TreeToMermaidConverter.cs:148 | every extracted name is trimmed and on one line |
| DiagramSyntax.WordEnd | Core/Services/TreeToMermaidConverter.cs:173 | `\w+` takes the longest run of word characters |
| DiagramSyntax.SpaceEnd | Core/Services/TreeToMermaidConverter.cs:174 | `\s*` takes the longest run of whitespace |
| DiagramSyntax.QuoteFrom | Core/Services/TreeToMermaidConverter.cs:173 | `[^"]+` stops at the first quote |
| DiagramSyntax.BracketAt | Core/Services/TreeToMermaidConverter.cs:173 | a matched `["…"]` holds non-empty display text without quotes |
| DiagramSyntax.MatchDeclaration | Core/Services/TreeToMermaidConverter.cs:173 | a declaration match is an identifier with display text |
| DiagramSyntax.MatchEdge | Core/Services/TreeToMermaidConverter.cs:174 | an edge match is two identifiers with display text |
| DiagramSyntax.BracketReadsBack | Core/Services/TreeToMermaidConverter.cs:80 | a written `["d"]` reads back as `d` |
| DiagramSyntax.NoEdgeInDeclarationFrom | Core/Services/TreeToMermaidConverter.cs:173-176 | the edge pattern matches nowhere in a written declaration |
| DiagramSyntax.DeclarationTextParses | Core/Services/TreeToMermaidConverter.cs:80 | a written declaration matches the declaration pattern with its id and display, and not the edge pattern |
| DiagramSyntax.EdgeTextParses | Core/Services/TreeToMermaidConverter.cs:86 | a written edge matches the edge pattern with its parent, child and display |
| DiagramParser.ExtractNodeName | Core/Services/MermaidToTreeConverter.cs:148-153 | one leading icon and the whitespace after it are removed, then the rest is trimmed; text without an icon is only trimmed |
| DiagramParser.SubstringTwo | Core/Services/TreeToMermaidConverter.cs:189 | `Substring(2)` drops the first one or two characters, and succeeds whenever there are two |
| DiagramParser.ReadStatement | Core/Services/MermaidToTreeConverter.cs:89-99 | blank lines, `graph`/`flowchart` lines under the tree rules, and lines matching neither pattern give nothing; a line with an edge gives the statement of that edge match even if it also holds a declaration, and otherwise the declaration match; ids are word characters and display texts have no quote |
| DiagramParser.MakeNode | Core/Services/TreeToMermaidConverter.cs:186-192 | the node created has the id, level 0, no path, and directory kind when the display starts with 📁; only `Substring(2)` can fail |
| DiagramParser.Apply | Core/Services/MermaidToTreeConverter.cs:99-139 | a statement records its edge and creates its node only when the id is new |
| DiagramParser.SkipFirst | Core/Services/TreeToMermaidConverter.cs:168 | `Skip(1)` drops exactly the first line |
| DiagramParser.Gather | Core/Services/TreeToMermaidConverter.cs:168-211 | the edges are those of all statements in order; a failure comes only from `Substring` |
| DiagramParser.Collect | Core/Services/MermaidToTreeConverter.cs:87-140 | the loop leaves a valid dictionary of unresolved nodes, or fails only in `Substring` |
| DiagramParser.CollectStatements | Core/Services/MermaidToTreeConverter.cs:87-140 | the `foreach` loop computes `Collect` |
| DiagramParser.CollectFailureStays | Core/Services/TreeToMermaidConverter.cs:162-219 | once `Substring` throws, the lines after it change nothing |
| DiagramParser.FirstDisplayAt | Core/Services/TreeToMermaidConverter.cs:184-209 | the display text of an id's first introduction is the one kept |
| DiagramParser.GatheredNodes | Core/Services/TreeToMermaidConverter.cs:184-209 | the dictionary holds exactly the introduced ids, each node made from its first introduction |
| DiagramParser.GatheredFailure | Core/Services/TreeToMermaidConverter.cs:189 | gathering fails exactly when some first introduction has a display too short for `Substring(2)` |
| DiagramParser.CollectContents | Core/Services/TreeToMermaidConverter.cs:168-211 | edges in line order, nodes from first introductions, and the failure condition, for the whole loop |
| DiagramParser.DisplayReadsBack | Core/Services/TreeToMermaidConverter.cs:189-190 | both parsers read a written display text back to the name and kind it was written from |
| Hierarchy.ChildParentMap | Core/Services/MermaidToTreeConverter.cs:160 | `ToDictionary` succeeds exactly when no child is named twice, mapping each child to its parent; otherwise it throws at the first repeated child |
| Hierarchy.ChildrenOfMember | Core/Services/MermaidToTreeConverter.cs:157-158 | a group lists exactly the children of edges from that parent |
| Hierarchy.ChildrenOfParent | Core/Services/MermaidToTreeConverter.cs:157-160 | with no repeated child, `c` is in the group of `p` exactly when `p` is `c`'s parent |
| Hierarchy.ChildrenOfDistinct | Core/Services/MermaidToTreeConverter.cs:183-194 | with no repeated child, each child appears in its parent's group once |
| Hierarchy.Present | Core/Services/MermaidToTreeConverter.cs:185 | the `TryGetValue` filter keeps exactly the children in the dictionary |
| Hierarchy.ResolvedUnique | Core/Services/MermaidToTreeConverter.cs:155-201 | the resolved dictionary is determined by its inputs |
| Hierarchy.ResolvedPlacement | Core/Services/TreeToMermaidConverter.cs:231-256 | roots get their name as path; a child of a placed node gets its parent's path, a slash and its name |
| Hierarchy.ResolvedIsLinked | Core/Services/MermaidToTreeConverter.cs:187-188 | along each edge between reached nodes, the level grows by one and the path by one segment |
| Hierarchy.EnqueueRoots | Core/Services/MermaidToTreeConverter.cs:163-175 | the root loop queues each id that is no child at level 0 with its name as path |
| Hierarchy.Expand | Core/Services/MermaidToTreeConverter.cs:181-199 | the inner loop places, links and queues each child of the dequeued node that is in the dictionary |
| Hierarchy.Resolve | Core/Services/MermaidToTreeConverter.cs:155-201 | the search fails exactly on a repeated child, with `ToDictionary`'s fault; otherwise it returns the resolved dictionary (`link` false is `CalculateNodeLevelsAndPaths`) |
| TreeToMermaid.QuestionRun | Core/Services/TreeToMermaidConverter.cs:60 | `TakeWhile('?').Count()` is the length of the leading run of question marks |
| TreeToMermaid.ItemOf | Core/Services/TreeToMermaidConverter.cs:56-64 | a blank line gives no item; an item's name is non-empty and trimmed, and its level counts question marks that lead the line |
| TreeToMermaid.ItemsOfSimplified | Core/Services/TreeToMermaidConverter.cs:54-64 | reading the pre-converted lines gives back each kept line's level and non-empty name |
| TreeToMermaid.ConvertedItems | Core/Services/TreeToMermaidConverter.cs:45-64 | the items of the loop are the named entries of the input lines |
| TreeToMermaid.NodeIdInjective | Core/Services/TreeToMermaidConverter.cs:66 | two items get the same id exactly when they are the same item |
| TreeToMermaid.ParentOfLast | Core/Services/TreeToMermaidConverter.cs:69-84 | an item's parent is the nearest earlier open directory at a lower level, or none |
| TreeToMermaid.StackHoldsDirectories | Core/Services/TreeToMermaidConverter.cs:99-100 | only directories are on the stack |
| TreeToMermaid.PopTo | Core/Services/TreeToMermaidConverter.cs:70-73 | popping leaves the prefix of the stack whose levels are below the new level |
| TreeToMermaid.KeptAfterPop | Core/Services/TreeToMermaidConverter.cs:70-73 | after popping, the stack holds exactly the open items below the new level |
| TreeToMermaid.ParentFromStack | Core/Services/TreeToMermaidConverter.cs:77-84 | after popping, the stack top is the item's parent, and an empty stack means no parent |
| TreeToMermaid.PushStack | Core/Services/TreeToMermaidConverter.cs:99-100 | pushing a directory restores the stack invariant: exactly the open items, with increasing levels |
| TreeToMermaid.Emission | Core/Services/TreeToMermaidConverter.cs:76-87 | an empty stack gives a bare declaration with the name as path; otherwise an edge from the top's id, with its path extended |
| TreeToMermaid.AddItem | Core/Services/TreeToMermaidConverter.cs:66-100 | one loop step emits the item's statement and node and keeps the stack invariant |
| TreeToMermaid.ConvertTreeToMermaid | Core/Services/TreeToMermaidConverter.cs:29-121 | the loop computes the converted result |
| TreeToMermaid.NodeFacts | Core/Services/TreeToMermaidConverter.cs:60-97 | item k becomes node k+1 with its name and level, a directory when the name ends in `/` or has no `.`, and as path its name or its parent directory's path, a slash and its name |
| TreeToMermaid.ConvertedOutcome | Core/Services/TreeToMermaidConverter.cs:29-109 | blank text fails with "Input tree text is empty", no diagram and no nodes; otherwise it succeeds with one node and one statement line per item after `graph TD` |
| TreeToMermaid.ParseMermaidToNodes | Core/Services/TreeToMermaidConverter.cs:157-222 | the parser returns nothing for blank text, a `Substring` failure or a repeated child; otherwise the resolved nodes in level-then-path order |
| TreeToMermaid.ParsesToUnique | Core/Services/TreeToMermaidConverter.cs:157-222 | a diagram parses to one list |
| TreeToMermaid.ParsedSorted | Core/Services/TreeToMermaidConverter.cs:214 | the parsed list is sorted by level, then path |
| TreeToMermaid.ParsedValues | Core/Services/TreeToMermaidConverter.cs:213-214 | the parsed list holds every resolved node once |
| RoundTrip.LineReadsBack | Core/Services/TreeToMermaidConverter.cs:80-86 | each written statement line reads back as the statement it was written from |
| RoundTrip.StatementsOfLines | Core/Services/TreeToMermaidConverter.cs:168-211 | the parser recognises exactly the written statements, in order |
| RoundTrip.DiagramSplits | Core/Services/TreeToMermaidConverter.cs:164-168 | splitting the diagram and skipping the header gives the statement lines |
| RoundTrip.ItemChildren | Core/Services/TreeToMermaidConverter.cs:229 | a written diagram never names a child twice, so `ToDictionary` does not throw |
| RoundTrip.ItemParents | Core/Services/TreeToMermaidConverter.cs:226-229 | each item's parent in the diagram is its parent in the tree |
| RoundTrip.CollectedItems | Core/Services/TreeToMermaidConverter.cs:168-211 | parsing a written diagram gives exactly the items' ids, names and kinds |
| RoundTrip.ResolvedPaths | Core/Services/TreeToMermaidConverter.cs:231-257 | the search gives each item the path the stack gave it |
| RoundTrip.DiagramRoundTrip | Core/Services/TreeToMermaidConverter.cs:157-222 | parsing a written diagram gives the recorded (id, name, kind, path) set |
| RoundTrip.TextWritable | Core/Services/TreeToMermaidConverter.cs:148 | items from text whose names have no quote can be written and read back |
| RoundTrip.ConvertAndParse | Core/Services/TreeToMermaidConverter.cs:29-222 | converting, then parsing the diagram, gives the nodes' (id, name, kind, path) set back |
| MermaidToTree.DiagramCollects | Core/Services/MermaidToTreeConverter.cs:87-140 | the statement loop of `ParseMermaidDiagram` never throws |
| MermaidToTree.ParseMermaidDiagram | Core/Services/MermaidToTreeConverter.cs:80-146 | the parser returns the repeated-child fault, or the dictionary after `BuildHierarchy` with its values ordered by level then path |
| MermaidToTree.ParsedNodes | Core/Services/MermaidToTreeConverter.cs:143-145 | the parsed list holds every node object once, sorted, each under its own id |
| MermaidToTree.ParseIsDeterministic | Core/Services/MermaidToTreeConverter.cs:80-146 | a diagram has one parse outcome |
| MermaidToTree.ResolvedLayered | Core/Services/MermaidToTreeConverter.cs:187-193 | every `Children` entry is one level below its parent |
| MermaidToTree.ByNameIsTotalPreorder | Core/Services/MermaidToTreeConverter.cs:206 | ordering by `Name` is a total preorder |
| MermaidToTree.DirectoriesThenNameIsTotalPreorder | Core/Services/MermaidToTreeConverter.cs:222 | directories first, then by `Name`, is a total preorder |
| MermaidToTree.Roots | Core/Services/MermaidToTreeConverter.cs:206 | the roots are exactly the level-0 nodes |
| MermaidToTree.RootsOrdered | Core/Services/MermaidToTreeConverter.cs:206 | the roots are the level-0 nodes, each as often as listed, sorted by name |
| MermaidToTree.SortedChildren | Core/Services/MermaidToTreeConverter.cs:222 | the ordered children are the objects of the `Children` list |
| MermaidToTree.ChildrenOrdered | Core/Services/MermaidToTreeConverter.cs:222 | the children are a permutation of the list, directories first, then by name |
| MermaidToTree.ChildrenFit | Core/Services/MermaidToTreeConverter.cs:222 | every ordered child is a dictionary object one level below its parent |
| MermaidToTree.Visit | Core/Services/MermaidToTreeConverter.cs:216-229 | the recursion visits the node first, then only dictionary objects at or below its level |
| MermaidToTree.AsciiNode | Core/Services/MermaidToTreeConverter.cs:216-219 | a node's first line is the prefix, `└── ` when it is drawn as last and `├── ` otherwise, then its name |
| MermaidToTree.AsciiChildren | Core/Services/MermaidToTreeConverter.cs:222-229 | no children draw nothing; the first child's line has the closing branch exactly when it is the only child |
| MermaidToTree.AsciiRoots | Core/Services/MermaidToTreeConverter.cs:203-214 | no roots draw nothing; the first root's line is `└── ` and its name, flush left |
| MermaidToTree.IconNode | Core/Services/MermaidToTreeConverter.cs:245-249 | a node's first line is the indent, `📁` for a directory or `📄` otherwise, a space and its name |
| MermaidToTree.IconChildren | Core/Services/MermaidToTreeConverter.cs:251-255 | no children draw nothing; the first child's line is at the children's indent |
| MermaidToTree.IconRoots | Core/Services/MermaidToTreeConverter.cs:232-243 | no roots draw nothing; the first root's line has no indent |
| MermaidToTree.PathMarks | Core/Services/MermaidToTreeConverter.cs:216-230 | the start node's path is its own mark alone, and every node visited below it has a path that begins with the start node's mark |
| MermaidToTree.Grown | Core/Services/MermaidToTreeConverter.cs:227 | each ancestor adds four characters to the prefix |
| MermaidToTree.AsciiLineUnder | Core/Services/MermaidToTreeConverter.cs:227 | growing the prefix by a node's gap or guide draws the same line as adding that node's mark to the path |
| MermaidToTree.AsciiLines | Core/Services/MermaidToTreeConverter.cs:216-230 | one line per node of the walk: the prefix, then `    ` for each ancestor below the start that was a last sibling and `│   ` for each other, then `└── ` for a last sibling and `├── ` otherwise, then the name |
| MermaidToTree.AsciiChildrenLines | Core/Services/MermaidToTreeConverter.cs:221-229 | the loop over the children draws those lines, with only the last child counting as last |
| MermaidToTree.AsciiLength | Core/Services/MermaidToTreeConverter.cs:216-229 | the ASCII drawing of a node has one line per visited node |
| MermaidToTree.AsciiChildAt | Core/Services/MermaidToTreeConverter.cs:222-228 | the j-th sorted child is drawn after the subtrees of the children before it, with the children's prefix, `└── ` exactly when it is the last child and `├── ` otherwise, then its name |
| MermaidToTree.AsciiRootAt | Core/Services/MermaidToTreeConverter.cs:206-210 | the j-th root is drawn after the subtrees of the roots before it, as `└── ` and its name, flush left |
| MermaidToTree.AsciiRootsLines | Core/Services/MermaidToTreeConverter.cs:203-214 | the ASCII tree draws those lines for every node visited from the roots, each root counting as last under the empty prefix |
| MermaidToTree.IconLines | Core/Services/MermaidToTreeConverter.cs:245-256 | one line per visited node: the indent, two spaces per level of depth, the icon, a space and the name |
| MermaidToTree.IconRootsLines | Core/Services/MermaidToTreeConverter.cs:232-243 | the icon tree draws that line for every node visited from the roots |
| MermaidToTree.VisitSubtree | Core/Services/MermaidToTreeConverter.cs:224-229 | the walk from any visited node is part of the walk |
| MermaidToTree.ReachedDrawn | Core/Services/MermaidToTreeConverter.cs:177-200 | every node `BuildHierarchy` reached is visited from the roots |
| MermaidToTree.DrawnNodes | Core/Services/MermaidToTreeConverter.cs:203-214 | the walk from the sorted roots meets exactly the parsed nodes |
| MermaidToTree.TreeLines | Core/Services/MermaidToTreeConverter.cs:56-58 | the chosen renderer draws one line per node visited from the roots |
| MermaidToTree.ParsedDrawing | Core/Services/MermaidToTreeConverter.cs:203-256 | for a parsed diagram, the walk meets exactly the parsed nodes; the ASCII tree draws each one's exact line from its path marks, and the icon tree each one's icon line at two spaces per level |
| MermaidToTree.ConvertMermaidToTree | Core/Services/MermaidToTreeConverter.cs:29-78 | blank text, a parse fault turned into the error result, no nodes, or success with the drawn text and the nodes |
| MermaidToTree.ConversionOutcome | Core/Services/MermaidToTreeConverter.cs:29-78 | success is exactly having no error message and exactly having parsed nodes; a failure's text is empty or "Error converting Mermaid to tree: " and its message |
| MermaidToTree.ConversionIsDeterministic | Core/Services/MermaidToTreeConverter.cs:56-66 | the two formats agree on success, message and nodes; one format gives one result |
| MermaidToTree.ConvertedDrawing | Core/Services/MermaidToTreeConverter.cs:56-66 | a success's text joins the lines drawn from its parse, and its nodes are that parse's |
| MermaidToTree.ConvertMermaidToTreeText | Core/Services/MermaidToTreeConverter.cs:258-261 | the ASCII conversion |
| MermaidToTree.ConvertMermaidToIconTree | Core/Services/MermaidToTreeConverter.cs:263-266 | the icon conversion |
| CodeUnits.AsWrittenKeepsLowSurrogate | Core/Services/MermaidToTreeConverter.cs:151 | on UTF-16 code units the pattern strips only the icon's high surrogate, so the name keeps the low surrogate and a space |
| CodeUnits.TrimUnits | Core/Services/MermaidToTreeConverter.cs:152 | `Trim` on code units gives a contiguous part of its input with only whitespace before and after it, and neither of its ends is whitespace |
| CodeUnits.ExtractNodeNameAsWritten | Core/Services/MermaidToTreeConverter.cs:148-153 | as written: a display text that starts with a unit of the class loses that one unit and is then trimmed; any other text is only trimmed |
| CodeUnits.SubstringTwoUnits | Core/Services/TreeToMermaidConverter.cs:189 | `Substring(2)` succeeds exactly when the text has at least two UTF-16 code units, and then drops exactly two of them unless that splits the second character |

## Left out

- Surrogates and UTF-16: strings are sequences of code points, so the model does not capture them. `Substring(2)` in `ParseMermaidToNodes` is written with UTF-16 widths, so an icon counts two.
- DiagramParser.SubstringTwo: when a one-unit character is followed by an icon or another two-unit character, .NET splits that character's surrogate pair; the model drops the whole character instead, because a Dafny string cannot hold half of a pair (`CodeUnits.SubstringTwoUnits` states every other case exactly). `ExtractNodeName` strips the icon as a whole; the as-written code-unit behaviour is under "## Findings".
- `\w`: the model accepts ASCII letters, digits and `_`, not the whole Unicode word class .NET uses.
- Culture-sensitive comparison: the model compares ordinally, on code points. This covers the order `OrderBy` uses and the prefix and suffix tests `StartsWith("graph")` and `StartsWith("flowchart")` (MermaidToTreeConverter.cs:91-92), `StartsWith("📁")` (MermaidToTreeConverter.cs:109, 128 and TreeToMermaidConverter.cs:190, 206) and `EndsWith("/")` (TreeToMermaidConverter.cs:62). .NET runs these with the current culture, which skips ignorable code points such as U+200B and U+00AD. So .NET skips a line `"\u200Bgraph …"` and treats `"a/\u00AD"` as a directory, and the model does neither.
- `Environment.NewLine`: taken to be `"\r\n"`.
- The `catch` of `ConvertTreeToMermaid` (lines 111-120): unreachable in the model, because nothing in its `try` block throws on a non-null string.
- Exception texts: `TreeNodes.FaultMessage` gives the English messages of .NET 5 and later for the two exceptions. Localised texts and other runtimes' wordings are not captured.
- MermaidToTree.ParsedDrawing: does not prove that the walk visits each node at most once. It proves that the walk meets exactly the parsed nodes, one line per visit. The `Children` lists follow the unique parent relation, but the walk's freedom from repeats is not stated.
- Not part of this model: the WPF views and view-models, `FileSystemCreator.cs` (file I/O over `ParseMermaidToNodes`) and `TreeGeneratorService.cs` (directory scanning), and the export strategy interfaces, which have no implementations here.

## Findings

| source | as written | input that shows it | evidently intended | confidence | as-written member | corrected member |
|---|---|---|---|---|---|---|
| Core/Services/MermaidToTreeConverter.cs:151 | the character class `[📁📄…]` is read as separate UTF-16 code units, so `^[…]\s*` removes only the shared high surrogate `\uD83D` and no whitespace | display text `📁 src` gives the name `\uDCC1 src` (a lone low surrogate, then a space, then `src`) | remove the whole icon and the whitespace after it, giving `src` | not executed | CodeUnits.AsWrittenKeepsLowSurrogate | DiagramParser.ExtractNodeName |

The rest of the model uses the corrected `ExtractNodeName`. `DiagramParser.DisplayReadsBack` proves that it reads every written display text back to its name.
