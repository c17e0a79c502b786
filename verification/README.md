# Treemap diagram: the script's own rules, verified

The treemap page (`script.js`) picks a dataset from the `data` query value,
fetches a JSON tree, lays it out as a treemap with a charting library, draws one
tile per leaf with a multi-line label, and draws a legend of the leaf categories.
Almost all of that is library and page plumbing. This project models the rules
the script writes out itself, and proves what they guarantee:

- **Dataset selection** (`Datasets`): the registry of three datasets and the
  lookup `DATASETS[param || "kickstarter"]`. The default replaces only a missing
  or empty value. Any other key outside the registry yields no descriptor.
- **Node ids** (`Hierarchy`, `PreOrder`): each node's id is its name, after its
  parent's id and a dot when it has a parent. `Hierarchy` states this as a
  recursive function over a tree of names. `PreOrder` states it as the script runs
  it: one pass over the nodes in visiting order (parents first), writing each id
  into an array and reading the parent's id written earlier. A lemma shows that
  the pass and the recursive function give the same ids.
- **Sibling order** (`SiblingOrder`): the comparator handed to the sort. It
  compares by height, greater first, then by aggregated value, greater first.
- **Tile labels** (`Labels`): `name.split(/(?=[A-Z][^A-Z])/g)` under JavaScript's
  rules for splitting on a zero-width match. Line `i` of a label sits at `8 + 9*i`.
- **Legend** (`Legend`): the distinct categories in order of first appearance
  (`[...new Set(...)]`), and the grid position of entry `i`. The grid has
  `floor(width / 150)` columns of 150 units and rows of 25 units.

Three rules do less than a reader of the code's comments would expect. The model
follows the code each time:

- The comment at line 20 promises the requested dataset "or" the default. The
  code falls back to the default only for a missing or empty `data` value; any
  other unknown value gives `undefined` (see Findings).
- The comment at line 55 calls the ids unique. The code does not make them so.
  Siblings with equal names get equal ids, and so do `b.c` and `c` under `b`
  (`Hierarchy.SharedIdsExist`). The ids are proved unique only when siblings have
  distinct names and no name holds a dot
  (`Hierarchy.IdsUniqueWhenDistinguishable`).
- The label split is easy to read as "before an upper-case letter not followed by
  another". The regular expression also needs a following character, so a final
  upper-case letter never starts a piece.

## Model

| member | source | states |
|---|---|---|
| `Datasets.Select` | script.js:2-23 | A missing or empty `data` value gives the `kickstarter` descriptor. A registry key gives exactly that key's entry. Any other non-empty key gives no descriptor. A descriptor exists exactly when the value is missing or empty, or is a registry key. |
| `Datasets.UnknownKeyHasNoDescriptor` | script.js:23 | The lookup as written: `books`, and `Movies` with a capital letter, give no descriptor. |
| `Datasets.SelectOrDefault` | script.js:20-23 | The corrected lookup always gives a registry entry. A registry key gives its own entry, and anything else gives the default's. Where the as-written lookup gives a descriptor, it gives the same one. |
| `Hierarchy.Label` | script.js:54-57 | Labelling changes nothing but the ids: erasing them gives back the input tree, names and child order included. |
| `Hierarchy.AssignIds` | script.js:54-57 | The id pass keeps the tree's shape and names: erasing the ids gives back the input tree. |
| `Hierarchy.AssignIdsWellLabelled` | script.js:54-57 | The root's id is its own name. Every child's id is its parent's id, then `.`, then the child's name, at every depth. |
| `Hierarchy.WellLabelledIsAssignIds` | script.js:54-57 | Conversely, any labelling with those two properties is the one the pass produces. |
| `Hierarchy.AssignIdsAlongPath` | script.js:54-57 | A node's id is the names on the way from the root down to it, joined with dots. |
| `Hierarchy.AncestorIdIsPrefix` | script.js:54-57 | An ancestor's id followed by `.` begins the id of each of its descendants. In particular, a parent's id and a dot begin each child's id. |
| `Hierarchy.SharedIdsExist` | script.js:54-57 | The ids are not unique in general. Two siblings both named `a` under `root` both get `root.a`. Under `a`, a child `b.c` and a grandchild `c` (via `b`) both get `a.b.c`. |
| `Hierarchy.IdsUniqueWhenDistinguishable` | script.js:54-57 | If siblings always have different names and no name holds a dot, two different nodes get two different ids. |
| `PreOrder.AssignIdsInPlace` | script.js:53-57 | The in-place pass visits nodes parents first. It writes into every node the id made from its name and its parent's id: the ids it leaves obey that rule at every node and are the ids of the recursive path definition. |
| `PreOrder.FollowsParentsExactlyPathIds` | script.js:54-57 | The rule leaves no choice: a list of ids obeys "name, after the parent's id and a dot" at every node exactly when it is the list of path ids. |
| `PreOrder.PassLabelsSubtree` | script.js:53-57 | Inside any numbering in visiting order, ids that obey the rule and give a subtree's root the id `id` give the whole subtree the ids the recursive labelling computes from `id`, in visiting order. |
| `PreOrder.PassMatchesAssignIds` | script.js:53-57 | Number a tree's nodes in visiting order. Each node's parent then comes before it, and the pass's ids are exactly those of the recursive definition, in visiting order. |
| `PreOrder.AssignTreeIds` | script.js:53-57 | Running the pass over a tree's nodes yields exactly the recursive definition's ids in visiting order. |
| `SiblingOrder.Compare` | script.js:59 | The result is negative exactly when the first node sorts first: it is higher, or equally high with a greater value. It is positive exactly when the second sorts first. It is zero exactly when height and value are both equal. |
| `SiblingOrder.CompareAntisymmetric` | script.js:59 | Swapping the two nodes negates the result. |
| `SiblingOrder.CompareTransitive` | script.js:59 | "Sorts no later than" is transitive, so the comparator is a consistent total preorder for a sort. |
| `SiblingOrder.SortedPairwise` | script.js:59 | In siblings sorted by the comparator, every earlier sibling is at least as high as every later one. At equal height it has at least the same value. |
| `Labels.NextBoundary` | script.js:97 | Gives the first index at or after the start where the look-ahead `(?=[A-Z][^A-Z])` matches, or the end of the name if it matches nowhere. |
| `Labels.SplitLabel` | script.js:97 | The split always has at least one piece. The empty name gives one empty piece. |
| `Labels.SplitRoundTrip` | script.js:97 | Joining the pieces gives back the name. |
| `Labels.SplitPiecesNonEmpty` | script.js:97 | A non-empty name splits into pieces none of which is empty. |
| `Labels.SplitPiecesStartAtBoundary` | script.js:97 | Every piece after the first starts with an upper-case letter followed by a character that is not upper-case. |
| `Labels.SplitNoInteriorBoundary` | script.js:97 | No piece has an upper-case letter followed by a non-upper-case character anywhere except at its own start. |
| `Labels.CamelSplitIsUnique` | script.js:97 | Those four properties pin the split down. Any list of pieces of a non-empty name that has them is the split. |
| `Labels.LabelLines` | script.js:94-102 | There is one line per piece, in order. The first line is at 8, each next line is 9 lower, and the offsets strictly increase. |
| `Legend.Distinct` | script.js:105 | The category list has no duplicates and holds exactly the leaf categories. It is never longer than the leaf list. |
| `Legend.DistinctKeepsFirstOccurrenceOrder` | script.js:105 | Categories appear in the order of their first occurrence among the leaves. |
| `Legend.DistinctCountsCategories` | script.js:105-120 | The legend gets one entry per distinct leaf category: the list's length is the number of distinct categories. |
| `Legend.FloorDiv` | script.js:112 | `Math.floor(a / b)`: the greatest integer not above the real quotient, for divisors of either sign. |
| `Legend.PerRow` | script.js:110-112 | The entries per row are the number of whole 150-unit columns in the legend's width. |
| `Legend.ItemPosition` | script.js:108-121 | An entry has no valid position exactly when the width holds no whole column, that is when it is between 0 and 149. JavaScript's x is then NaN, and its y is NaN for entry 0 and Infinity for the others. |
| `Legend.ItemPositionInGrid` | script.js:108-121 | With at least one column, entry `i` is at column `i % perRow`, times 150, and row `i / perRow`, times 25. Its column starts at or after 0, and the column's full 150 units end within `perRow*150`, which is at most the legend's width. |
| `Legend.ItemPositionRecoversIndex` | script.js:112-121 | With at least one column, the index is row times `perRow` plus column, read back from the position. |
| `Legend.ItemPositionInjective` | script.js:112-121 | With at least one column, two different entries never share a position. |

## Left out

- Fetching the dataset with `d3.json`, and the promise rejection nobody handles (script.js:50-51). This is network I/O.
- Building the hierarchy, summing values, sorting siblings and treemap packing (script.js:47, 53, 58-62). These are library code. The model takes each node's height and aggregated value as inputs. It covers the comparator, not the sort that uses it, and no tile rectangles.
- The visiting order of the hierarchy's `eachBefore`. It is taken to be pre-order, parents before children, in child order.
- Every page write: title and description (script.js:26-27), tooltip element (33-36), tile groups and attributes (65-81), label `tspan` elements and their `x` (94-102 beyond the text and `y`), legend swatches and texts (124-134), and the legend group's `translate(70,0)` (116).
- Tooltip handlers, mouse offsets and opacity (script.js:82-91). These are user-interface events.
- The ordinal colour scale (script.js:44) and `toLocaleString` formatting (script.js:84). Both are library code.
- Reading the `width` and `height` attributes of the drawing surfaces (script.js:39-41, 107). The legend width is an input.
- `Datasets.Select`: keys every JavaScript object inherits, such as `toString` and `__proto__`, give a non-descriptor object in JavaScript. The model returns no descriptor for them, as for any other unknown key.
- `SiblingOrder.Compare`: heights and values are integers, not double-precision numbers. The sort uses only the sign of the result, which depends only on the order and equality of heights and values, so fractional values change nothing the model states.
- `Legend.PerRow`: the legend width is an integer. A fractional `width` attribute is not modelled.
- `Labels.SplitLabel`: strings are sequences of Unicode characters, not UTF-16 code units. A character outside the Basic Multilingual Plane is not split into two halves as in JavaScript.
- `PreOrder.AssignIdsInPlace`: nodes are numbered in visiting order, and a parent link is the parent's number, not an object reference. The ids go into an array, not into each node's data object.
- `Hierarchy.AssignIds`: names are strings. A node without a name, whose id would contain the text `undefined`, is not modelled.

## Findings

| source | as written | input that shows it | evidently intended | confidence | as-written member | corrected member |
|---|---|---|---|---|---|---|
| script.js:23 | `DATASETS[param \|\| "kickstarter"]`: the default replaces only a missing or empty value. | The query `?data=books` gives `undefined`. Line 26 then reads `.TITLE` of `undefined` and the page stops before drawing anything. | Any key outside the registry falls back to `kickstarter`, as the comment at line 20 reads. | low: the comment at line 22 mentions only a missing parameter; not executed | `Datasets.UnknownKeyHasNoDescriptor` | `Datasets.SelectOrDefault` |
