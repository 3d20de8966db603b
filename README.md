# Records-to-tree converter, modelled in Dafny

This project models the core of `RecordsToTreeConverter`. The converter takes a decoded
JSON list of records (attribute maps) and an ordered list of nesting levels (attribute
names). It groups the records into a tree: one level per nesting attribute, and at each
level one child per distinct value of that attribute. Each leaf stores the record's
remaining attributes. The converter then exports the tree as nested dicts whose keys are
rendered in ascending order.

The model follows the source's four parts:

- **Validator** (`validator.dfy`, and the methods of `converter.dfy`). It accepts only a
  non-empty list of JSON objects. It then counts the records that lack some nesting level
  and reports `DataAttributeMissing` with that count.
- **Branch builder** (`builder.dfy` and `Converter.RecordsToTreeConverter.BuildBranch`).
  It descends from a node one level per call. At each level it reuses the child whose
  label is the record's value for that level, or attaches a new child at the end of the
  current node's children. It raises `DuplicateNodesFound` when the last level already has
  a matching child, or when two children match.
- **Tree creation** (`creation.dfy` and `Converter.RecordsToTreeConverter.CreateTree`). It
  validates the input, then builds one branch per record in input order. Each leaf gets
  `[record without its nesting attributes]` as its payload. Nothing is rolled back: when a
  record fails, the branches of the records before it stay in the tree.
- **Exporter** (`exporter.dfy` and `Converter.RecordsToTreeConverter.ExportLayer` /
  `ExportTree`). It walks the tree depth first. An inner node becomes a dict keyed by its
  children's labels, and a leaf becomes its payload list. `Render` puts the keys of every
  dict in ascending order, as `json.dumps(..., sort_keys=True)` does.

How the model represents things:

- The anytree `Node` tree is an arena, `seq<Node>`. Node 0 is the root, labelled `"root"`.
  Every other node stores the index of its parent, and that index is smaller than its own.
  The children of a node are the nodes that name it as parent, in attachment order. The
  class `Converter.RecordsToTreeConverter` holds this arena together with a per-node list
  of children (`children`), which `Valid()` ties to the parent links. Its methods update
  both fields in place, as the source updates `Node.children` and `Node.values`.
- Labels are decoded JSON values (`Json.Json`), because `Node(next_level)` stores whatever
  the record holds for that level. A record is a `map<string, Json>`.
- A Python dict under construction is an association list (`Exporter.Entry`) kept in
  insertion order. `Exporter.Put` is `d[k] = v`, and `Exporter.Get` is a lookup.
- Each exception class of `converter/records_to_tree_exceptions.py` is a constructor of
  `Errors.ConverterError`. Operations return `Errors.Result`. `DataAttributeMissing`
  carries the count that the source's message reports.
- The `None` arguments that `_build_branch` accepts (no node, no record, no levels) are
  `Errors.Option` values.

Main results:

- `Builder.BuildBranchPath` proves the path property. A successful walk from the root
  ends at a node whose label path is the record's level values, top first, so its depth
  is the number of levels (`/root/EUR/FR/Paris`).
- `Builder.BuildBranchOutcome` gives the whole error order: `MissingNode`, then
  `MissingRecord`, then `MissingNestingLevels`. After those, `DuplicateNodesFound` occurs
  exactly when a node already has the record's full path.
- `Builder.BuildBranchKeepsSiblingsUniqueAll` proves that sibling labels stay unique.
- `Creation.CreateTreeFromEmpty` gives the condition for a fresh converter. `create_tree`
  succeeds exactly when the input is valid, there is at least one level, and no two
  records share all their level values. Values are compared structurally, which differs
  from Python's `==` for booleans and numbers (see Left out).
- `Converter.CreatedTreeExports` connects creation and export. Following any record's
  level values through the exported dicts reaches exactly `[its remaining attributes]`.

## Model

| member | source | states |
|---|---|---|
| `Validator.Validate` | converter/records_to_tree_converter.py:45-63 | `InvalidDataStructure` exactly when the input is not a non-empty list of objects. Otherwise `DataAttributeMissing` exactly when some record lacks a level, with the number of such records as its count. Otherwise `Ok(true)`. |
| `Validator.Offending` | converter/records_to_tree_converter.py:55-59 | The records reported on the diagnostics stream: a record is in the list exactly when it lacks some level. The list is empty exactly when every record has every level. |
| `Validator.OffendingAppend` | converter/records_to_tree_converter.py:55-59 | The report for two lists read one after the other is the first list's report followed by the second's, so records are reported in input order. |
| `Validator.OffendingCount` | converter/records_to_tree_converter.py:55-59 | Each record lacking a level is reported as many times as it occurs in the input. A record with every level is never reported. |
| `Converter.MissingLevels` | converter/records_to_tree_converter.py:56-57 | `set(nesting_levels) - record.keys()` is non-empty exactly when the record lacks some level. |
| `Converter.MissingCountIsOffending` | converter/records_to_tree_converter.py:54-58 | Counting front to back, one per record with a missing level, gives the number of offending records. |
| `Converter.RecordsToTreeConverter.CountMissing` | converter/records_to_tree_converter.py:54-58 | The loop visits every record and returns the number of offending records. |
| `Converter.RecordsToTreeConverter.ValidateInputData` | converter/records_to_tree_converter.py:34-63 | The method's verdict equals `Validator.Validate` for the converter's levels. |
| `Converter.RecordsToTreeConverter.constructor` | converter/records_to_tree_converter.py:30-32 | Keeps the levels and starts from a lone root, a sound tree with no children. |
| `Tree.EmptyTree` | converter/records_to_tree_converter.py:32 | The root alone: well formed, unique sibling labels, no payload. |
| `Tree.EmptyTreeIsLeaf` | converter/records_to_tree_converter.py:32 | The fresh root has no children. |
| `Tree.Children` | converter/records_to_tree_converter.py:101 | `node.children`: exactly the nodes whose parent is `n`, in increasing index order, all after `n`. |
| `Tree.MatchingChildren` | converter/records_to_tree_converter.py:101 | `existing_nodes`: exactly the children of `n` whose label equals the value, in order. Equality is structural on decoded values (see Left out). |
| `Tree.MatchingAtMostOne` | converter/records_to_tree_converter.py:101-104 | While sibling labels are unique, at most one child matches, so the "more than one" branch cannot fire. |
| `Tree.MatchingIffPath` | converter/records_to_tree_converter.py:101 | A matching child exists exactly when some node has the current node's path followed by the value. |
| `Tree.PathInjective` | converter/records_to_tree_converter.py:101-108 | With unique sibling labels, two nodes with the same label path are the same node. |
| `Tree.AddChild` | converter/records_to_tree_converter.py:108 | `Node(next_level, parent=current_node)` appends a node with that label and parent and no payload. Existing nodes are untouched. |
| `Tree.AddChildChildren` | converter/records_to_tree_converter.py:108 | The new node becomes the last of the parent's children, after the old ones, and has no children itself. |
| `Tree.AddChildOtherChildren` | converter/records_to_tree_converter.py:108 | Attaching a node leaves every other node's children unchanged. |
| `Tree.AddChildKeepsSiblingsUnique` | converter/records_to_tree_converter.py:101-108 | Attaching a child whose label no sibling has keeps sibling labels unique. |
| `Tree.SetValues` | converter/records_to_tree_converter.py:79 | `leaf_node.values = ...` changes that node's payload and nothing else. |
| `Tree.SetValuesShape` | converter/records_to_tree_converter.py:79 | Setting a payload moves no node: every child list and every path stays the same. |
| `Tree.DeepestIsLeaf` | converter/records_to_tree_converter.py:146 | In a tree no deeper than the number of levels, a node at that depth has no children, so `is_leaf` holds. |
| `Tree.LeafShape` | converter/records_to_tree_converter.py:76-79 | If every leaf has a payload, payloads sit only at depth `d`, and no node is deeper than `d`, then no node with a payload has children, and every leaf other than the root is at depth `d`. |
| `Builder.LevelValues` | converter/records_to_tree_converter.py:99-100 | The values the walk looks up, one per level and in level order: element `i` is `record[levels[i]]`. |
| `Builder.Descend` | converter/records_to_tree_converter.py:101-108 | One descent step. It reuses the single matching child and leaves the tree unchanged. With no match, it appends a new child carrying the value below the current node. |
| `Builder.DescendPath` | converter/records_to_tree_converter.py:108-109 | The node descended into has the current node's path plus the value, and the current node's path is unchanged. |
| `Builder.BuildBranch` | converter/records_to_tree_converter.py:81-113 | `_build_branch` on the arena. The tree only grows. A successful call returns a node other than the root. Once the node and record checks pass and levels remain, the only possible error is `DuplicateNodesFound`. |
| `Builder.BuildBranchFromLast` | converter/records_to_tree_converter.py:99-109 | A walk from a node just attached always succeeds, because it only attaches new nodes. |
| `Builder.BuildBranchFailureChangesNothingAll` | converter/records_to_tree_converter.py:94-111 | Within one call, a raised error leaves the tree exactly as it was. Every failing check comes before the first attachment. |
| `Builder.BuildBranchPath` | converter/records_to_tree_converter.py:99-113 | On success the returned node's path is the start node's path followed by the record's level values. Its depth is the start depth plus the number of levels. |
| `Builder.BuildBranchDescends` | converter/records_to_tree_converter.py:107-109 | A successful walk with levels left goes on from a child of the current node: an existing one, or a new one without payload appended at the end. That child's path is the current path plus the first value. |
| `Builder.BuildBranchNewNodes` | converter/records_to_tree_converter.py:108 | Every node a successful call attaches lies on the branch to the returned node. The returned node is itself new. |
| `Builder.BuildBranchNoPayloads` | converter/records_to_tree_converter.py:108 | The nodes a successful call attaches carry no payload. |
| `Builder.BuildBranchKeepsSiblingsUniqueAll` | converter/records_to_tree_converter.py:101-108 | Every call, whatever its outcome, keeps sibling labels unique. |
| `Builder.BuildBranchDuplicateIff` | converter/records_to_tree_converter.py:103-106 | With unique sibling labels, the walk fails with `DuplicateNodesFound` exactly when some node already has the record's full path. Otherwise it succeeds. |
| `Builder.BuildBranchOutcome` | converter/records_to_tree_converter.py:94-113 | The full outcome, in the source's order. `MissingNode` exactly when there is no node. `MissingRecord` exactly when the record is absent or empty. `MissingNestingLevels` exactly when the levels are `None`, or empty at the root. `DuplicateNodesFound` exactly when the full path exists. Success otherwise. |
| `Builder.SameRecordTwiceIsDuplicate` | converter/test/records_to_tree_converter_tests.py:92-103 | Building the same record twice from the root fails the second time with `DuplicateNodesFound`. |
| `Converter.RecordsToTreeConverter.AddNode` | converter/records_to_tree_converter.py:108 | Appends the node as `Tree.AddChild` does and appends its index to the parent's child list. `Valid()` is kept. |
| `Converter.RecordsToTreeConverter.SetLeafValues` | converter/records_to_tree_converter.py:79 | The arena becomes `Tree.SetValues` of the old arena. Child lists are unchanged. |
| `Converter.RecordsToTreeConverter.BuildBranch` | converter/records_to_tree_converter.py:81-113 | The recursive method changes the tree and returns exactly what `Builder.BuildBranch` gives for the old tree. |
| `Creation.RemainingKeys` | converter/records_to_tree_converter.py:78 | `record.keys() ^ set(nesting_levels)`: a key is in it exactly when it is in one of the two and not in both. |
| `Creation.Residual` | converter/records_to_tree_converter.py:78-79 | The payload map has exactly the record's non-level keys, each with the record's value. |
| `Creation.PlaceRecord` | converter/records_to_tree_converter.py:77-79 | One loop iteration only appends to the tree. On success it ends at a new node whose payload is `[Residual(record)]`. |
| `Creation.PlaceRecordFails` | converter/records_to_tree_converter.py:77 | One loop iteration succeeds exactly when the record is non-empty, there is a level, and no node has the record's path. On failure the tree is unchanged, and the error is `MissingRecord`, `MissingNestingLevels` or `DuplicateNodesFound`, in that order. |
| `Creation.PlaceRecordSucceeds` | converter/records_to_tree_converter.py:76-79 | A successful iteration only appends nodes. The record's leaf is new, its path is the record's level values, and its payload is `[Residual(record)]`. |
| `Creation.PlaceRecordKeepsSound` | converter/records_to_tree_converter.py:76-79 | An iteration keeps the tree sound and only appends. Sound means: unique sibling labels; depth at most the number of levels; a payload on every leaf; payloads only on leaves, all at depth equal to the number of levels; and every leaf other than the root at that depth. |
| `Creation.PlaceRecordKeepsPayloadsAtDepth` | converter/records_to_tree_converter.py:77-79 | If every payload sits at depth equal to the number of levels, it still does after an iteration, including the payload the iteration adds. |
| `Creation.PlaceAll` | converter/records_to_tree_converter.py:76-79 | The loop over the records only appends to the tree. |
| `Creation.PlaceAllOk` | converter/records_to_tree_converter.py:76-79 | The loop succeeds exactly when each record can be placed after the records before it. |
| `Creation.PlaceAllFails` | converter/records_to_tree_converter.py:65-79 | A failing loop stops at the first record that cannot be placed and raises that record's error. The tree is exactly the one the earlier records built: no rollback. |
| `Creation.PlaceAllKeepsSound` | converter/records_to_tree_converter.py:76-79 | The whole loop keeps the tree sound, with all of its conjuncts, and only appends to it, whatever its outcome. |
| `Creation.PlaceAllLeaves` | converter/records_to_tree_converter.py:76-79 | After a successful loop, each record has a leaf at its level values carrying `[Residual(record)]`. |
| `Creation.PlacedOnFirstBranch` | converter/records_to_tree_converter.py:77 | Every node that one iteration attaches has a path that starts the record's level values. |
| `Creation.PlaceAllOnBranches` | converter/records_to_tree_converter.py:76-79 | Every node the loop attaches lies on the branch of one of the records: its path starts that record's level values. |
| `Creation.CreateTree` | converter/records_to_tree_converter.py:73-79 | A validation error is returned with the tree untouched. Once validation passes, the input is a list of records that all carry every level. |
| `Creation.CreateTreeOutcome` | converter/records_to_tree_converter.py:65-79 | `create_tree` succeeds exactly when the input is valid and every record can be placed in turn. The tree stays sound and only grows. |
| `Creation.CreateTreeStops` | converter/records_to_tree_converter.py:65-79 | After validation passes, a failure stops at the first unplaceable record, and the earlier branches stay. |
| `Creation.CreateTreeLeaves` | converter/records_to_tree_converter.py:76-79 | After success, every record's leaf carries its remaining attributes. |
| `Creation.CreateTreeOnBranches` | converter/records_to_tree_converter.py:65-79 | `create_tree` attaches no node off the records' branches. |
| `Creation.CreateTreeFromEmpty` | converter/records_to_tree_converter.py:65-113 | On a fresh converter, `create_tree` succeeds exactly when the input is valid, there is a level, and no two records share all their level values. |
| `Converter.RecordsToTreeConverter.CreateTree` | converter/records_to_tree_converter.py:65-79 | The method keeps the tree valid and sound, and ends with the tree and outcome of `Creation.CreateTree`. |
| `Converter.RecordsToTreeConverter.PlaceRecords` | converter/records_to_tree_converter.py:76-79 | The loop over the records keeps the tree valid and sound, and ends with the tree and outcome of `Creation.PlaceAll`. |
| `Converter.RecordsToTreeConverter.PlaceRecord` | converter/records_to_tree_converter.py:77-79 | One iteration updates the tree in place to `Creation.PlaceRecord` of the old tree and keeps it valid and sound. |
| `Exporter.Get` | converter/records_to_tree_converter.py:153 | A lookup finds a value exactly when some entry has the key, and the value found is that entry's. |
| `Exporter.PutGet` | converter/records_to_tree_converter.py:150-155 | After `d[k] = v`, `k` holds `v` and every other key holds what it held. |
| `Exporter.PutAppends` | converter/records_to_tree_converter.py:150 | Storing under a new key appends one entry. |
| `Exporter.PutReplaces` | converter/records_to_tree_converter.py:155 | Storing under an existing key replaces that entry in place. |
| `Exporter.Export` | converter/records_to_tree_converter.py:133-155 | The value an inner node's walk leaves is a dict with one entry per child. |
| `Exporter.SortEntries` | converter/records_to_tree_converter.py:129 | `sort_keys=True`: the entries are reordered into ascending key order, as a permutation of the same entries. |
| `Exporter.Render` | converter/records_to_tree_converter.py:129 | A payload is written as it is. A dict keeps its number of entries, and its keys are written in ascending order. |
| `Exporter.RenderDeepSorted` | converter/records_to_tree_converter.py:129 | After rendering, the keys are ascending at every depth. |
| `Exporter.RenderGet` | converter/records_to_tree_converter.py:129 | Rendering does not change which value a key holds: each key finds the rendered version of its value. |
| `Exporter.ExportTree` | converter/records_to_tree_converter.py:115-131 | `NoTreeCreated` exactly when the root has no children. Otherwise a dict with one entry per child of the root, sorted at every depth. |
| `Exporter.RenderedLayer` | converter/records_to_tree_converter.py:146-155 | An inner node's rendered dict has exactly its children's labels as keys. Each key holds that child's rendered export. |
| `Exporter.RenderedOnlyChild` | converter/records_to_tree_converter.py:146-155 | A node with a single child renders as the one-entry dict mapping that child's label to its rendered export. |
| `Exporter.RenderedTwoChildren` | converter/records_to_tree_converter.py:146-155 | A node with exactly two children renders as the two-entry dict with the smaller label first, each label holding its child's rendered export. |
| `Exporter.LookupAppend` | converter/records_to_tree_converter.py:153 | Following a path and then one more key is the same as following the longer path. |
| `Exporter.ExportLookup` | converter/records_to_tree_converter.py:146-155 | In the rendered export, following any node's label path reaches that node's rendered value. |
| `Converter.RecordsToTreeConverter.ExportLayer` | converter/records_to_tree_converter.py:133-155 | A leaf hands back its stored payload. An inner node fills a layer with one placeholder per child label, then overwrites each child's entry. The filled layer equals `Exporter.Export`. |
| `Converter.Placeholders` | converter/records_to_tree_converter.py:149-150 | `{key: {} for key in layer_keys}`: one empty dict per child label, in child order. Distinct child labels give distinct keys. |
| `Converter.Stored` | converter/records_to_tree_converter.py:153-155 | What a child's entry ends up holding. A non-empty payload list replaces the placeholder. Otherwise the entry keeps the dict the child's walk filled. |
| `Converter.RecordsToTreeConverter.ExportTree` | converter/records_to_tree_converter.py:115-131 | Reads the tree and modifies nothing. Returns exactly `Exporter.ExportTree` of the current tree, so repeated exports agree. |
| `Converter.LeafExport` | converter/records_to_tree_converter.py:146-155 | In a sound tree, the path of a leaf placed for a record leads, in the rendered export, to `[payload]`. |
| `Converter.CreatedTreeExports` | converter/records_to_tree_converter.py:65-155 | After a successful `create_tree`, the export succeeds. Following each record's level values in it reaches exactly `[its remaining attributes]`. |
| `Scenario.PlaceResidual` | converter/records_to_tree_converter.py:78-79 | For levels currency, country and city, a record `{currency, country, city, amount}` leaves the payload `{amount}`. |
| `Scenario.ThreeCitiesPlaced` | converter/test/records_to_tree_converter_tests.py:124-126 | On a fresh converter the Paris, Lyon and Madrid records are all placed. The tree is sound, each leaf carries its record's payload, and no other node lies off the three branches. |
| `Scenario.FrRendered` | converter/records_to_tree_converter.py:146-155 | In a tree whose nodes all lie on the Paris, Lyon or Madrid paths, with payloads only on leaves, the `FR` node renders as `{"Lyon": [..], "Paris": [..]}`, in that order. |
| `Scenario.EsRendered` | converter/records_to_tree_converter.py:146-155 | In a tree whose nodes all lie on the Paris, Lyon or Madrid paths, with payloads only on leaves, the `ES` node renders as `{"Madrid": [..]}` and nothing else. |
| `Scenario.ThreeCitiesRendered` | converter/records_to_tree_converter.py:115-155 | A tree made of exactly the three branches exports as one nested dict. `EUR` is its only key. Below it come `ES` then `FR`, and below `FR` come `Lyon` then `Paris`. |
| `Scenario.ThreeCities` | converter/test/records_to_tree_converter_tests.py:124-132 | The whole export of the three records is `{"EUR": {"ES": {"Madrid": [{amount}]}, "FR": {"Lyon": [{amount}], "Paris": [{amount}]}}}`, with exactly these keys in this order. |
| `Scenario.SameCityTwice` | converter/test/records_to_tree_converter_tests.py:92-103 | Creating a tree from the same record given twice raises `DuplicateNodesFound`. |
| `Scenario.ExportBeforeCreate` | converter/test/records_to_tree_converter_tests.py:134-135 | Exporting before any record was placed raises `NoTreeCreated`. |

## Left out

- Text I/O is not modelled. This covers reading the input stream, `json.loads`
  (converter/records_to_tree_converter.py:73) and its `JSONDecodeError`, and the textual
  formatting done by `json.dumps` with an indent of 2 (line 129). The model starts from a
  decoded `Json` value and ends with a `Value` whose dicts are already in key order.
- nest.py (the argparse command line, the stdin/stdout plumbing, and the mapping of
  exceptions to messages) is not part of this model.
- The `sys.stderr.write` diagnostic for each offending record (line 59) is not modelled as
  output. `Validator.Offending` gives the list of records it would report.
- JSON numbers are integers. Floats are not modelled.
- anytree's string forms (`Node('/root/EUR/FR/Paris')`, `RenderTree`) are not modelled.
  They appear as label paths (`Tree.Path`).
- Builder.BuildBranch: requires that the record hold every level the walk looks up
  (`LevelsPresent`). The source would raise `KeyError` otherwise. `create_tree` only calls
  it after validation has guaranteed this.
- Converter.RecordsToTreeConverter.BuildBranch: the same precondition as
  `Builder.BuildBranch`, for the same reason.
- Converter.RecordsToTreeConverter.ExportTree: requires that every leaf carry a payload
  (`PayloadsAtLeaves`). Exporting a leaf without `.values` raises `AttributeError` in the
  source. Every tree that `create_tree` builds satisfies this requirement.
- Converter.RecordsToTreeConverter.ExportLayer: returns the layer it fills rather than
  updating a dict owned by the caller. Aliasing of that dict is therefore not modelled.
- Key order across kinds of labels is a model choice. Python raises `TypeError` when
  sorting mixed `str`/`int` keys, and `json.dumps` turns non-string keys into strings
  before writing. `Json.KeyLess` orders strings by code point, numbers numerically and
  `false` before `true`, and orders different kinds of values by a fixed rank.
  Python compares `bool` and `int` keys numerically (`False == 0 < True == 1`) without
  error, so levels `["a"]` with records `{"a": 0, "x": 1}` and `{"a": true, "x": 2}`
  export `"0"` before `"true"` in the source, while the model's rank puts every boolean
  before every number.
- `BranchDoesNotExist` (converter/records_to_tree_exceptions.py:18) is declared but never
  raised. It appears only as a constructor of `Errors.ConverterError`.
- Label equality is structural on decoded JSON values, not Python's `==`. In Python
  `True == 1` and `False == 0`, so `existing_nodes` (line 101) also matches a sibling whose
  label is the other kind. Levels `["a"]` with records `{"a": 1, "x": 1}` and
  `{"a": true, "x": 2}` raise `DuplicateNodesFoundError` at line 106 in the source, while
  the model places both. The same holds for labels nested in lists (`[1] == [True]`).
- List and object labels are accepted by the model. In the source they are unhashable,
  so `{key: {} for key in layer_keys}` (line 150) raises `TypeError` when such a tree is
  exported.
- `_build_branch` pops its level list in place (`remaining_nesting_levels.pop(0)`, line
  100), while the model passes the remaining levels as a slice. `create_tree` hands it a
  copy (`self.nesting_levels[:]`, line 77), so no caller of `create_tree` sees the mutation.
  The effect on a list passed directly to `_build_branch` is not modelled.
