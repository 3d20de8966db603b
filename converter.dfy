/**
  The converter object: it holds the nesting levels and the tree, builds the
  tree from decoded records and exports it as nested dicts. Each method is
  proved to compute the corresponding function of the other modules.
 */
module Converter {
  import opened Json
  import opened Errors
  import opened Validator
  import opened Tree
  import opened Builder
  import opened Creation
  import opened Exporter

  /** The set difference of `_validate_input_data` is non-empty exactly when a level is missing. */
  lemma MissingLevels(record: Record, levels: seq<string>)
    ensures LevelSet(levels) - record.Keys != {} <==> !HasAllLevels(record, levels)
  {
    if !HasAllLevels(record, levels) {
      var i :| 0 <= i < |levels| && levels[i] !in record;
      assert levels[i] in LevelSet(levels) - record.Keys;
    }
  }

  /** On a list of records, the verdict follows from the number of offending records. */
  lemma ValidateByCount(input: Json, levels: seq<string>, count: nat)
    requires IsRecordList(input) && count == |Offending(RecordsOf(input.items), levels)|
    ensures Validate(input, levels) == if count > 0 then Err(DataAttributeMissing(count)) else Ok(true)
  {
  }

  /** The number of records lacking some level, counted front to back as the loop of `_validate_input_data` does. */
  function MissingCount(records: seq<Record>, levels: seq<string>): nat
  {
    if records == [] then 0
    else MissingCount(records[..|records| - 1], levels) + if HasAllLevels(records[|records| - 1], levels) then 0 else 1
  }

  /** That count is the number of offending records. */
  lemma {:induction false} MissingCountIsOffending(records: seq<Record>, levels: seq<string>)
    ensures MissingCount(records, levels) == |Offending(records, levels)|
    decreases |records|
  {
    if records != [] {
      MissingCountIsOffending(records[..|records| - 1], levels);
    }
  }

  /** The entries of an inner node's export, position by position, and their keys are distinct. */
  lemma ExportEntries(t: seq<Node>, n: nat)
    requires WellFormed(t) && SiblingsUnique(t) && n < |t| && Children(t, n) != []
    ensures var cs := Children(t, n); var es := Export(t, n).entries;
            && |es| == |cs|
            && DistinctKeys(es)
            && forall j :: 0 <= j < |cs| ==> es[j] == Entry(t[cs[j]].name, Export(t, cs[j]))
  {
    ExportDistinctKeys(t, n);
  }

  /**
    What a parent stores for a child, given what the child's call returned:
    the payload list when it is non-empty, otherwise the dict the child filled.
   */
  function Stored(sub: seq<Entry>, vals: Option<seq<Record>>): (v: Value)
    ensures v.Payload? <==> vals.Some? && vals.value != []
    ensures v.Payload? ==> v.records == vals.value
    ensures v.Dict? ==> v.entries == sub
  {
    if vals.Some? && vals.value != [] then Payload(vals.value) else Dict(sub)
  }

  /** What a parent stores for a child is the child's export. */
  lemma ChildValue(t: seq<Node>, c: nat, sub: seq<Entry>, vals: Option<seq<Record>>)
    requires WellFormed(t) && c < |t|
    requires Children(t, c) == [] ==> sub == [] && vals == t[c].values
    requires Children(t, c) != [] ==> vals.None? && Dict(sub) == Export(t, c)
    ensures Stored(sub, vals) == Export(t, c)
  {
  }

  /** Storing the `i`th target value into a layer holding the target's keys replaces entry `i`. */
  lemma LayerStep(layer: seq<Entry>, target: seq<Entry>, i: nat, v: Value)
    requires |layer| == |target| && DistinctKeys(target) && i < |target|
    requires forall j :: 0 <= j < |layer| ==> layer[j].key == target[j].key
    ensures Put(layer, target[i].key, v) == layer[i := Entry(target[i].key, v)]
  {
    PutReplaces(layer, target[i].key, v, i);
  }

  /**
    Storing child `i`'s value, as its own call returned it, into a layer that
    holds the target's keys puts the target's entry `i` in place.
   */
  lemma StoreChild(t: seq<Node>, n: nat, layer: seq<Entry>, i: nat, c: nat, sub: seq<Entry>, vals: Option<seq<Record>>)
    requires WellFormed(t) && SiblingsUnique(t) && n < |t| && i < |Children(t, n)|
    requires c < |t| && c == Children(t, n)[i]
    requires |layer| == |Children(t, n)|
    requires forall j :: 0 <= j < |layer| ==> layer[j].key == Export(t, n).entries[j].key
    requires Children(t, c) == [] ==> sub == [] && vals == t[c].values
    requires Children(t, c) != [] ==> vals.None? && Dict(sub) == Export(t, c)
    ensures Put(layer, t[c].name, Stored(sub, vals)) == layer[i := Export(t, n).entries[i]]
  {
    ExportEntries(t, n);
    ChildValue(t, c, sub, vals);
    LayerStep(layer, Export(t, n).entries, i, Stored(sub, vals));
  }

  /** The children of `n`, by position, come after `n` in the arena. */
  lemma ChildrenBounds(t: seq<Node>, n: nat)
    requires WellFormed(t) && n < |t|
    ensures forall j :: 0 <= j < |Children(t, n)| ==> n < Children(t, n)[j] < |t|
  {
    var cs := Children(t, n);
    forall j | 0 <= j < |cs|
      ensures n < cs[j] < |t|
    {
      assert cs[j] in cs;
    }
  }

  /** The placeholders hold the keys of the export, in order. */
  lemma LayerStart(t: seq<Node>, n: nat)
    requires WellFormed(t) && SiblingsUnique(t) && n < |t| && Children(t, n) != []
    requires forall j :: 0 <= j < |Children(t, n)| ==> Children(t, n)[j] < |t|
    ensures var layer := Placeholders(t, Children(t, n));
            && |layer| == |Export(t, n).entries|
            && forall j :: 0 <= j < |layer| ==> layer[j].key == Export(t, n).entries[j].key
  {
    ExportEntries(t, n);
  }

  /** A layer holding every entry of the export, in order, is the export. */
  lemma LayerDone(t: seq<Node>, n: nat, layer: seq<Entry>)
    requires WellFormed(t) && n < |t| && Children(t, n) != []
    requires |layer| == |Children(t, n)|
    requires forall j :: 0 <= j < |layer| ==> layer[j] == Export(t, n).entries[j]
    ensures Dict(layer) == Export(t, n)
  {
    assert layer == Export(t, n).entries;
  }

  /** `{key: {} for key in layer_keys}`: each child's label holding an empty dict, in child order. */
  function Placeholders(t: seq<Node>, cs: seq<nat>): (layer: seq<Entry>)
    requires forall j :: 0 <= j < |cs| ==> cs[j] < |t|
    ensures |layer| == |cs|
    ensures forall j :: 0 <= j < |cs| ==> layer[j] == Entry(t[cs[j]].name, Dict([]))
    ensures (forall i, j :: 0 <= i < j < |cs| ==> t[cs[i]].name != t[cs[j]].name) ==> DistinctKeys(layer)
  {
    seq(|cs|, j requires 0 <= j < |cs| => Entry(t[cs[j]].name, Dict([])))
  }

  /** A tree with a node besides the root has a child of the root: node 1 hangs below node 0. */
  lemma RootHasChild(t: seq<Node>)
    requires WellFormed(t) && |t| > 1
    ensures Children(t, Root) != []
  {
    assert 1 in Children(t, Root);
  }

  /** The child lists `cs` are the ones the parent links of `t` give, node by node. */
  ghost predicate ChildListsMatch(t: seq<Node>, cs: seq<seq<nat>>)
  {
    WellFormed(t) && |cs| == |t| && forall n :: 0 <= n < |t| ==> cs[n] == Children(t, n)
  }

  /** The lone root is a sound tree with one empty child list. */
  lemma EmptyTreeLists(levels: seq<string>)
    ensures SiblingsUnique(EmptyTree()) && ChildListsMatch(EmptyTree(), [[]]) && Sound(EmptyTree(), levels)
  {
    var t, cs: seq<seq<nat>> := EmptyTree(), [[]];
    EmptyTreeSound(levels);
    EmptyTreeIsLeaf();
    forall n | 0 <= n < |t|
      ensures cs[n] == Children(t, n)
    {
      assert n == Root;
    }
  }

  /** Appending a child under `p` appends it to `p`'s list and adds an empty list for it. */
  lemma AddChildLists(t: seq<Node>, cs: seq<seq<nat>>, p: nat, name: Json)
    requires ChildListsMatch(t, cs) && p < |t|
    ensures ChildListsMatch(AddChild(t, p, name).0, cs[p := cs[p] + [|t|]] + [[]])
  {
    var t' := AddChild(t, p, name).0;
    var cs' := cs[p := cs[p] + [|t|]] + [[]];
    AddChildChildren(t, p, name);
    forall m | 0 <= m < |t'|
      ensures cs'[m] == Children(t', m)
    {
      if m < |t| && m != p {
        AddChildOtherChildren(t, p, name, m);
      }
    }
  }

  /** Setting a payload leaves every child list as it was. */
  lemma SetValuesLists(t: seq<Node>, cs: seq<seq<nat>>, n: nat, vals: seq<Record>)
    requires ChildListsMatch(t, cs) && n < |t|
    ensures ChildListsMatch(SetValues(t, n, vals), cs)
  {
    forall m | 0 <= m < |t|
      ensures cs[m] == Children(SetValues(t, n, vals), m)
    {
      SetValuesShape(t, n, vals, m);
    }
  }

  /**
    After a successful `create_tree` on a sound tree, the export is a dict in
    which following any record's level values, level by level, reaches exactly
    that record's payload list: one map of its remaining keys.
   */
  lemma CreatedTreeExports(t: seq<Node>, levels: seq<string>, input: Json)
    requires Sound(t, levels)
    requires Creation.CreateTree(t, levels, input).1.Ok?
    ensures ValidInput(input, levels)
    ensures var e := Exporter.ExportTree(Creation.CreateTree(t, levels, input).0);
            && e.Ok?
            && forall i :: 0 <= i < |input.items| ==>
                 Lookup(e.value, LeafPath(RecordsOf(input.items), levels, i)) ==
                 Some(Payload([Residual(RecordsOf(input.items)[i], levels)]))
  {
    var t' := Creation.CreateTree(t, levels, input).0;
    var records := RecordsOf(input.items);
    CreateTreeOutcome(t, levels, input);
    CreateTreeLeaves(t, levels, input);
    forall i | 0 <= i < |input.items|
      ensures |t'| > 1
      ensures Lookup(Render(Export(t', Root)), LeafPath(records, levels, i)) ==
              Some(Payload([Residual(records[i], levels)]))
    {
      LeafExport(t', levels, LeafPath(records, levels, i), Residual(records[i], levels));
    }
    assert input.items[0] in input.items;
    RootHasChild(t');
  }

  /** In a sound tree, the path of a placed leaf leads in the rendered export to its payload list. */
  lemma LeafExport(t: seq<Node>, levels: seq<string>, path: seq<Json>, payload: Record)
    requires Sound(t, levels) && |path| == |levels| && LeafFor(t, path, payload)
    ensures |t| > 1
    ensures Lookup(Render(Export(t, Root)), path) == Some(Payload([payload]))
  {
    var m :| 0 < m < |t| && Path(t, m) == path && t[m].values == Some([payload]);
    DeepestIsLeaf(t, |levels|, m);
    ExportLookup(t, m);
  }

  class RecordsToTreeConverter {
    /** The keys whose values label the levels of the tree, outermost first. */
    const nestingLevels: seq<string>
    /** The tree, node 0 being the root. */
    var nodes: seq<Node>
    /** Each node's children in the order they were attached, as anytree keeps them. */
    var children: seq<seq<nat>>

    /** The tree is well formed, its sibling labels are unique, and the child lists match the parent links. */
    ghost predicate Valid()
      reads this
    {
      SiblingsUnique(nodes) && ChildListsMatch(nodes, children)
    }

    /** `__init__`: keep the levels and start from a lone root. */
    constructor (levels: seq<string>)
      ensures Valid() && Sound(nodes, nestingLevels)
      ensures nestingLevels == levels && nodes == EmptyTree()
    {
      EmptyTreeLists(levels);
      nestingLevels := levels;
      nodes := EmptyTree();
      children := [[]];
    }

    /** The counting loop of `_validate_input_data`: the records lacking some level. */
    method CountMissing(records: seq<Record>) returns (missingCount: nat)
      ensures missingCount == |Offending(records, nestingLevels)|
    {
      missingCount := 0;
      var i := 0;
      while i < |records|
        invariant 0 <= i <= |records|
        invariant missingCount == MissingCount(records[..i], nestingLevels)
      {
        var missingElements := LevelSet(nestingLevels) - records[i].Keys;
        MissingLevels(records[i], nestingLevels);
        assert records[..i + 1][..i] == records[..i];
        if missingElements != {} {
          missingCount := missingCount + 1;
        }
        i := i + 1;
      }
      assert records[..|records|] == records;
      MissingCountIsOffending(records, nestingLevels);
    }

    /**
      `_validate_input_data`: reject anything but a non-empty list of records,
      then count the records lacking some level.
     */
    method ValidateInputData(input: Json) returns (r: Result<bool>)
      ensures r == Validate(input, nestingLevels)
    {
      if !IsRecordList(input) {
        return Err(InvalidDataStructure);
      }
      var missingCount := CountMissing(RecordsOf(input.items));
      ValidateByCount(input, nestingLevels, missingCount);
      if missingCount > 0 {
        return Err(DataAttributeMissing(missingCount));
      }
      return Ok(true);
    }

    /** `Node(name, parent=p)`: attach a new childless node as `p`'s last child. */
    method AddNode(p: nat, name: Json) returns (n: nat)
      requires Valid() && p < |nodes| && MatchingChildren(nodes, p, name) == []
      modifies this
      ensures Valid()
      ensures (nodes, n) == AddChild(old(nodes), p, name)
      ensures children == old(children)[p := old(children)[p] + [n]] + [[]]
    {
      AddChildKeepsSiblingsUnique(nodes, p, name);
      AddChildLists(nodes, children, p, name);
      n := |nodes|;
      nodes := nodes + [Node(name, p as int, None)];
      children := children[p := children[p] + [n]] + [[]];
    }

    /** `leaf_node.values = vals`. */
    method SetLeafValues(n: nat, vals: seq<Record>)
      requires Valid() && n < |nodes|
      modifies this
      ensures Valid()
      ensures nodes == SetValues(old(nodes), n, vals) && children == old(children)
    {
      SetValuesKeepsSiblingsUnique(nodes, n, vals);
      SetValuesLists(nodes, children, n, vals);
      nodes := SetValues(nodes, n, vals);
    }

    /**
      `_build_branch`: walk down from `current` along the record's values for
      the remaining levels, reusing or attaching children, and return the leaf.
      Nodes attached before an error stay in the tree.
     */
    method BuildBranch(remaining: Option<seq<string>>, current: Option<nat>, record: Option<Record>)
      returns (r: Result<nat>)
      requires Valid()
      requires current.Some? ==> current.value < |nodes|
      requires LevelsPresent(remaining, current, record)
      modifies this
      ensures Valid()
      ensures (nodes, r) == Builder.BuildBranch(old(nodes), remaining, current, record)
      decreases if remaining.Some? then |remaining.value| else 0
    {
      if current.None? {
        return Err(MissingNode);
      }
      if record.None? || record.value == map[] {
        return Err(MissingRecord);
      }
      if remaining.Some? && remaining.value != [] {
        var nextLevel := record.value[remaining.value[0]];
        var rest := remaining.value[1..];
        var existing := Matching(nodes, children[current.value], nextLevel);
        if |existing| > 1 {
          return Err(DuplicateNodesFound);
        }
        if existing != [] && rest == [] {
          return Err(DuplicateNodesFound);
        }
        var next: nat;
        if existing != [] {
          next := existing[0];
        } else {
          next := AddNode(current.value, nextLevel);
        }
        assert (nodes, next) == Descend(old(nodes), current.value, nextLevel);
        r := BuildBranch(Some(rest), Some(next), record);
        return;
      } else if remaining.None? || current.value == Root {
        return Err(MissingNestingLevels);
      }
      return Ok(current.value);
    }

    /**
      One iteration of `create_tree`'s loop: build the record's branch from the
      root and give the leaf the record's remaining attributes as its payload.
     */
    method PlaceRecord(record: Record) returns (leaf: Result<nat>)
      requires Valid() && Sound(nodes, nestingLevels) && HasAllLevels(record, nestingLevels)
      modifies this
      ensures Valid() && Sound(nodes, nestingLevels)
      ensures (nodes, leaf) == Creation.PlaceRecord(old(nodes), nestingLevels, record)
    {
      PlaceRecordKeepsSound(nodes, nestingLevels, record);
      leaf := BuildBranch(Some(nestingLevels), Some(Root), Some(record));
      if leaf.Ok? {
        SetLeafValues(leaf.value, [Residual(record, nestingLevels)]);
      }
    }

    /**
      `create_tree` on decoded input: validate, then place each record in turn,
      giving each leaf its payload; the first error ends the loop and leaves
      the nodes placed so far in the tree.
     */
    method CreateTree(input: Json) returns (r: Result<()>)
      requires Valid() && Sound(nodes, nestingLevels)
      modifies this
      ensures Valid() && Sound(nodes, nestingLevels)
      ensures (nodes, r) == Creation.CreateTree(old(nodes), nestingLevels, input)
    {
      var valid := ValidateInputData(input);
      if valid.Err? {
        return Err(valid.error);
      }
      CreateTreeAccepted(nodes, nestingLevels, input);
      r := PlaceRecords(RecordsOf(input.items));
    }

    /**
      The loop of `create_tree`: place each record in turn; the first error
      ends the loop and leaves the nodes placed so far in the tree.
     */
    method PlaceRecords(records: seq<Record>) returns (r: Result<()>)
      requires Valid() && Sound(nodes, nestingLevels) && AllHaveLevels(records, nestingLevels)
      modifies this
      ensures Valid() && Sound(nodes, nestingLevels)
      ensures (nodes, r) == PlaceAll(old(nodes), nestingLevels, records)
    {
      var i := 0;
      while i < |records|
        invariant 0 <= i <= |records|
        invariant Valid() && Sound(nodes, nestingLevels)
        invariant AllHaveLevels(records[i..], nestingLevels)
        invariant PlaceAll(old(nodes), nestingLevels, records) == PlaceAll(nodes, nestingLevels, records[i..])
      {
        var record := records[i];
        assert records[i..][0] == record;
        PlaceAllStep(nodes, nestingLevels, records[i..]);
        var leaf := PlaceRecord(record);
        if leaf.Err? {
          return Err(leaf.error);
        }
        assert records[i..][1..] == records[i + 1..];
        i := i + 1;
      }
      assert records[i..] == [];
      PlaceAllStep(nodes, nestingLevels, records[i..]);
      return Ok(());
    }

    /**
      `_export_layer`: a leaf hands its payload list back to its parent; an
      inner node returns nothing and gives back the dict it filled: first every
      child's label mapped to an empty dict, then each child's entry replaced by
      that child's payload list when there is one, and otherwise left as the
      dict the child filled.
     */
    method ExportLayer(n: nat) returns (layer: seq<Entry>, values: Option<seq<Record>>)
      requires Valid() && n < |nodes|
      ensures children[n] == [] ==> layer == [] && values == nodes[n].values
      ensures children[n] != [] ==> values.None? && Dict(layer) == Export(nodes, n)
      decreases |nodes| - n
    {
      var cs := children[n];
      if cs == [] {
        return [], nodes[n].values;
      }
      assert cs == Children(nodes, n);
      ghost var target := Export(nodes, n).entries;
      ChildrenBounds(nodes, n);
      layer := Placeholders(nodes, cs);
      LayerStart(nodes, n);
      var i := 0;
      while i < |cs|
        invariant 0 <= i <= |cs| && |layer| == |cs|
        invariant forall j :: 0 <= j < |cs| ==> layer[j].key == target[j].key
        invariant forall j :: 0 <= j < i ==> layer[j] == target[j]
      {
        var child := cs[i];
        assert child < |nodes| && children[child] == Children(nodes, child);
        var sub, childValues := ExportLayer(child);
        ghost var stored := layer[i := target[i]];
        assert Put(layer, nodes[child].name, Stored(sub, childValues)) == stored by {
          StoreChild(nodes, n, layer, i, child, sub, childValues);
        }
        layer := Put(layer, nodes[child].name, Stored(sub, childValues));
        i := i + 1;
      }
      LayerDone(nodes, n, layer);
      values := None;
    }

    /**
      `export_tree`: `NoTreeCreated` while the root has no child; otherwise the
      root's layer with keys sorted at every depth, as `json.dumps` writes it.
      The method modifies nothing.
     */
    method ExportTree() returns (r: Result<Value>)
      requires Valid() && PayloadsAtLeaves(nodes)
      ensures r == Exporter.ExportTree(nodes)
    {
      if children[Root] == [] {
        return Err(NoTreeCreated);
      }
      var outputDict, _ := ExportLayer(Root);
      return Ok(Render(Dict(outputDict)));
    }
  }
}
