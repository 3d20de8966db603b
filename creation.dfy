/**
  Tree creation once the input is decoded: validation, then one branch per
  record in input order, each leaf receiving the record's remaining attributes.
  A failure stops the loop and leaves in place every branch built before it.
 */
module Creation {
  import opened Json
  import opened Errors
  import opened Validator
  import opened Tree
  import opened Builder

  /** `set(nesting_levels)`. */
  function LevelSet(levels: seq<string>): (s: set<string>)
    ensures forall k :: k in s <==> k in levels
  {
    set k | k in levels
  }

  /** `record.keys() ^ set(nesting_levels)`: the keys in exactly one of the two. */
  function RemainingKeys(record: Record, levels: seq<string>): (ks: set<string>)
    ensures forall k :: k in ks <==> (k in record <==> k !in levels)
  {
    (record.Keys - LevelSet(levels)) + (LevelSet(levels) - record.Keys)
  }

  /** Once every level is present, the symmetric difference is the plain difference. */
  lemma RemainingKeysAfterValidation(record: Record, levels: seq<string>)
    requires HasAllLevels(record, levels)
    ensures RemainingKeys(record, levels) == record.Keys - LevelSet(levels)
  {
    forall k | k in levels
      ensures k in record
    {
      var i :| 0 <= i < |levels| && levels[i] == k;
    }
  }

  /**
    The payload a leaf receives, `{k: record[k] for k in remaining_keys}`: the
    record without its nesting attributes.
   */
  function Residual(record: Record, levels: seq<string>): (p: Record)
    requires HasAllLevels(record, levels)
    ensures p.Keys == record.Keys - LevelSet(levels)
    ensures forall k :: k in p ==> p[k] == record[k]
  {
    RemainingKeysAfterValidation(record, levels);
    map k | k in RemainingKeys(record, levels) :: record[k]
  }

  /** Every record carries every level. */
  ghost predicate AllHaveLevels(records: seq<Record>, levels: seq<string>)
  {
    forall i :: 0 <= i < |records| ==> HasAllLevels(records[i], levels)
  }

  /** One turn of the loop. */
  lemma PlaceAllStep(t: seq<Node>, levels: seq<string>, records: seq<Record>)
    requires WellFormed(t) && AllHaveLevels(records, levels)
    ensures records == [] ==> PlaceAll(t, levels, records) == (t, Ok(()))
    ensures records != [] ==> AllHaveLevels(records[1..], levels)
    ensures records != [] && PlaceRecord(t, levels, records[0]).1.Err? ==>
              PlaceAll(t, levels, records) ==
              (PlaceRecord(t, levels, records[0]).0, Err(PlaceRecord(t, levels, records[0]).1.error))
    ensures records != [] && PlaceRecord(t, levels, records[0]).1.Ok? ==>
              PlaceAll(t, levels, records) == PlaceAll(PlaceRecord(t, levels, records[0]).0, levels, records[1..])
  {
    if records != [] {
      AllHaveLevelsTail(records, levels);
    }
  }

  /** Every record after the first still carries every level. */
  lemma AllHaveLevelsTail(records: seq<Record>, levels: seq<string>)
    requires AllHaveLevels(records, levels) && records != []
    ensures AllHaveLevels(records[1..], levels)
  {
    assert forall j :: 0 <= j < |records| - 1 ==> records[1..][j] == records[j + 1];
  }

  /**
    One iteration of the loop of `create_tree`: build the record's branch from
    the root with a fresh copy of the levels, then give the leaf its payload.
   */
  function PlaceRecord(t: seq<Node>, levels: seq<string>, record: Record): (r: (seq<Node>, Result<nat>))
    requires WellFormed(t) && HasAllLevels(record, levels)
    ensures WellFormed(r.0) && t <= r.0
    ensures r.1.Ok? ==> |t| <= r.1.value < |r.0| && r.0[r.1.value].values == Some([Residual(record, levels)])
  {
    var b := BuildBranch(t, Some(levels), Some(Root), Some(record));
    if b.1.Err? then b
    else
      BuildBranchNewNodes(t, levels, Root, record, b.0, b.1.value);
      (SetValues(b.0, b.1.value, [Residual(record, levels)]), b.1)
  }

  /** The loop of `create_tree` over the records, stopping at the first error. */
  function PlaceAll(t: seq<Node>, levels: seq<string>, records: seq<Record>): (r: (seq<Node>, Result<()>))
    requires WellFormed(t) && AllHaveLevels(records, levels)
    ensures WellFormed(r.0) && t <= r.0
    decreases |records|
  {
    if records == [] then (t, Ok(()))
    else
      var p := PlaceRecord(t, levels, records[0]);
      if p.1.Err? then (p.0, Err(p.1.error)) else PlaceAll(p.0, levels, records[1..])
  }

  /** `create_tree` on decoded input: validate, then place every record. */
  function CreateTree(t: seq<Node>, levels: seq<string>, input: Json): (r: (seq<Node>, Result<()>))
    requires WellFormed(t)
    ensures WellFormed(r.0)
    ensures Validate(input, levels).Err? ==> r == (t, Err(Validate(input, levels).error))
    ensures Validate(input, levels).Ok? ==>
              IsRecordList(input) && AllHaveLevels(RecordsOf(input.items), levels)
  {
    var v := Validate(input, levels);
    if v.Err? then (t, Err(v.error))
    else
      var records := RecordsOf(input.items);
      assert forall i :: 0 <= i < |records| ==> records[i] == input.items[i].fields;
      PlaceAll(t, levels, records)
  }

  /** The path record `i` leads to. */
  function LeafPath(records: seq<Record>, levels: seq<string>, i: nat): (vs: seq<Json>)
    requires AllHaveLevels(records, levels) && i < |records|
    ensures |vs| == |levels|
  {
    LevelValues(records[i], levels)
  }

  /** No node of `t` has the path `w`. */
  ghost predicate Fresh(t: seq<Node>, w: seq<Json>)
    requires WellFormed(t)
  {
    forall m :: 0 <= m < |t| ==> Path(t, m) != w
  }

  /** No record before `i` leads to the same path as record `i`. */
  ghost predicate FirstOfItsPath(records: seq<Record>, levels: seq<string>, i: nat)
    requires AllHaveLevels(records, levels) && i < |records|
  {
    forall j :: 0 <= j < i ==> LeafPath(records, levels, j) != LeafPath(records, levels, i)
  }

  /**
    Record `i` can be placed after those before it: it is non-empty, there are
    levels, no node of the starting tree has its path, and no earlier record
    leads to the same path.
   */
  ghost predicate Placeable(t: seq<Node>, levels: seq<string>, records: seq<Record>, i: nat)
    requires WellFormed(t) && AllHaveLevels(records, levels) && i < |records|
  {
    && records[i] != map[] && levels != []
    && Fresh(t, LeafPath(records, levels, i))
    && FirstOfItsPath(records, levels, i)
  }

  /** The error a record that cannot be placed raises, in the order `_build_branch` checks. */
  function StepError(record: Record, levels: seq<string>): (e: ConverterError)
    ensures e == MissingRecord || e == MissingNestingLevels || e == DuplicateNodesFound
  {
    if record == map[] then MissingRecord
    else if levels == [] then MissingNestingLevels
    else DuplicateNodesFound
  }

  /** A record that cannot be placed raises its error and leaves the tree unchanged. */
  lemma PlaceRecordFails(t: seq<Node>, levels: seq<string>, record: Record)
    requires WellFormed(t) && SiblingsUnique(t) && HasAllLevels(record, levels)
    ensures var p := PlaceRecord(t, levels, record);
            && (p.1.Ok? <==> record != map[] && levels != [] && Fresh(t, LevelValues(record, levels)))
            && (p.1.Err? ==> p.0 == t && p.1.error == StepError(record, levels))
  {
    var b := BuildBranch(t, Some(levels), Some(Root), Some(record));
    var vs := LevelValues(record, levels);
    if record != map[] {
      if levels == [] {
        BuildBranchEndStep(t, Root, record);
      } else {
        assert Path(t, Root) == [];
        assert Path(t, Root) + vs == vs;
        BuildBranchDuplicateIff(t, levels, Root, record, b.1);
        if b.1.Ok? {
          assert !exists m :: 0 <= m < |t| && Path(t, m) == Path(t, Root) + vs;
          assert Fresh(t, vs);
        } else {
          var m :| 0 <= m < |t| && Path(t, m) == Path(t, Root) + vs;
          assert Path(t, m) == vs;
          BuildBranchFailureChangesNothing(t, levels, Root, record);
        }
      }
    }
  }

  /** Giving a new node a payload keeps the old nodes and every path. */
  lemma SetValuesOnNewNode(t: seq<Node>, b: seq<Node>, n: nat, vals: seq<Record>, vs: seq<Json>)
    requires WellFormed(t) && WellFormed(b) && t <= b && |t| <= n < |b|
    requires forall m :: |t| <= m < |b| ==> OnNewBranch(b, m, [], vs)
    ensures var t1 := SetValues(b, n, vals);
            && t <= t1 && Path(t1, n) == Path(b, n)
            && forall m :: |t| <= m < |t1| ==> OnNewBranch(t1, m, [], vs)
  {
    var t1 := SetValues(b, n, vals);
    assert forall m :: 0 <= m < |t| ==> t1[m] == b[m];
    forall m | |t| <= m < |t1|
      ensures OnNewBranch(t1, m, [], vs)
    {
      SetValuesShape(b, n, vals, m);
      assert OnNewBranch(b, m, [], vs);
    }
    SetValuesShape(b, n, vals, n);
  }

  /**
    A record that is placed appends nodes only: its leaf is new, has the
    record's level values as its path and the record's remaining attributes as
    its payload, and every other new node lies on the way to it.
   */
  lemma PlaceRecordSucceeds(t: seq<Node>, levels: seq<string>, record: Record)
    requires WellFormed(t) && HasAllLevels(record, levels)
    requires PlaceRecord(t, levels, record).1.Ok?
    ensures var p := PlaceRecord(t, levels, record); var n := p.1.value;
            && t <= p.0 && |t| <= n < |p.0|
            && Path(p.0, n) == LevelValues(record, levels)
            && p.0[n].values == Some([Residual(record, levels)])
            && forall m :: |t| <= m < |p.0| ==> OnNewBranch(p.0, m, [], LevelValues(record, levels))
  {
    var b := BuildBranch(t, Some(levels), Some(Root), Some(record));
    var n := b.1.value;
    var vs := LevelValues(record, levels);
    assert Path(t, Root) == [];
    assert Path(t, Root) + vs == vs;
    BuildBranchPath(t, levels, Root, record, b.0, n);
    BuildBranchNewNodes(t, levels, Root, record, b.0, n);
    SetValuesOnNewNode(t, b.0, n, [Residual(record, levels)], vs);
  }

  /** Placing a record keeps sibling labels unique. */
  lemma PlaceRecordKeepsSiblingsUnique(t: seq<Node>, levels: seq<string>, record: Record)
    requires WellFormed(t) && SiblingsUnique(t) && HasAllLevels(record, levels)
    ensures SiblingsUnique(PlaceRecord(t, levels, record).0)
  {
    var b := BuildBranch(t, Some(levels), Some(Root), Some(record));
    BuildBranchKeepsSiblingsUniqueAll(t, Some(levels), Some(Root), Some(record));
    if b.1.Ok? {
      SetValuesKeepsSiblingsUnique(b.0, b.1.value, [Residual(record, levels)]);
    }
  }

  /**
    After a record is placed, a path as long as the levels is free exactly when
    it was free before and it is not the record's own path.
   */
  lemma PlacedPaths(t: seq<Node>, t1: seq<Node>, n: nat, vs: seq<Json>, w: seq<Json>)
    requires WellFormed(t) && WellFormed(t1) && t <= t1 && n < |t1|
    requires Path(t1, n) == vs && |w| == |vs|
    requires forall m :: |t| <= m < |t1| ==> OnNewBranch(t1, m, [], vs)
    ensures Fresh(t1, w) <==> Fresh(t, w) && w != vs
  {
    if !Fresh(t1, w) {
      var m :| 0 <= m < |t1| && Path(t1, m) == w;
      if m < |t| {
        PathExtends(t, t1, m);
      } else {
        assert OnNewBranch(t1, m, [], vs);
        assert Path(t1, m) == vs;
      }
    }
    if !Fresh(t, w) {
      var m :| 0 <= m < |t| && Path(t, m) == w;
      PathExtends(t, t1, m);
    }
  }

  /** Whether a later record can be placed is the same seen from before or after the first record. */
  lemma PlaceableShift(t: seq<Node>, t1: seq<Node>, n: nat, levels: seq<string>, records: seq<Record>, i: nat)
    requires WellFormed(t) && WellFormed(t1) && t <= t1 && n < |t1|
    requires AllHaveLevels(records, levels) && i + 1 < |records|
    requires Path(t1, n) == LeafPath(records, levels, 0)
    requires forall m :: |t| <= m < |t1| ==> OnNewBranch(t1, m, [], LevelValues(records[0], levels))
    ensures AllHaveLevels(records[1..], levels)
    ensures Placeable(t1, levels, records[1..], i) <==> Placeable(t, levels, records, i + 1)
  {
    var rest := records[1..];
    assert forall j :: 0 <= j < |rest| ==> rest[j] == records[j + 1];
    var v0, w := LeafPath(records, levels, 0), LeafPath(records, levels, i + 1);
    assert LeafPath(rest, levels, i) == w;
    PlacedPaths(t, t1, n, v0, w);
    FirstOfItsPathShift(levels, records, i);
  }

  /** A later record is the first of its path exactly when it is so among the rest and differs from the first. */
  lemma FirstOfItsPathShift(levels: seq<string>, records: seq<Record>, i: nat)
    requires AllHaveLevels(records, levels) && i + 1 < |records| && AllHaveLevels(records[1..], levels)
    ensures FirstOfItsPath(records, levels, i + 1) <==>
            FirstOfItsPath(records[1..], levels, i) && LeafPath(records, levels, 0) != LeafPath(records, levels, i + 1)
  {
    var rest := records[1..];
    var w := LeafPath(records, levels, i + 1);
    assert rest[i] == records[i + 1];
    assert LeafPath(rest, levels, i) == w;
    if FirstOfItsPath(records, levels, i + 1) {
      forall j | 0 <= j < i
        ensures LeafPath(rest, levels, j) != w
      {
        assert rest[j] == records[j + 1];
        assert LeafPath(records, levels, j + 1) != w;
      }
    }
    if FirstOfItsPath(rest, levels, i) && LeafPath(records, levels, 0) != w {
      forall j | 0 <= j < i + 1
        ensures LeafPath(records, levels, j) != w
      {
        if j > 0 {
          assert rest[j - 1] == records[j];
          assert LeafPath(rest, levels, j - 1) != w;
        }
      }
    }
  }

  /** After a first record that is placed, the rest can be placed exactly as they could before. */
  lemma PlaceableAfterFirst(t: seq<Node>, levels: seq<string>, records: seq<Record>)
    requires WellFormed(t) && SiblingsUnique(t) && AllHaveLevels(records, levels) && records != []
    requires PlaceRecord(t, levels, records[0]).1.Ok?
    ensures var t1 := PlaceRecord(t, levels, records[0]).0;
            && SiblingsUnique(t1) && AllHaveLevels(records[1..], levels)
            && Placeable(t, levels, records, 0)
            && forall i :: 0 <= i < |records| - 1 ==>
                 (Placeable(t1, levels, records[1..], i) <==> Placeable(t, levels, records, i + 1))
  {
    var p := PlaceRecord(t, levels, records[0]);
    PlaceRecordFails(t, levels, records[0]);
    PlaceRecordSucceeds(t, levels, records[0]);
    PlaceRecordKeepsSiblingsUnique(t, levels, records[0]);
    forall i | 0 <= i < |records| - 1
      ensures Placeable(p.0, levels, records[1..], i) <==> Placeable(t, levels, records, i + 1)
    {
      PlaceableShift(t, p.0, p.1.value, levels, records, i);
    }
  }

  /** The loop over the first `k` records begins with the first record, then goes on over the next `k - 1`. */
  lemma PlaceAllPrefix(t: seq<Node>, levels: seq<string>, records: seq<Record>, k: nat)
    requires WellFormed(t) && AllHaveLevels(records, levels) && 0 < k <= |records|
    requires PlaceRecord(t, levels, records[0]).1.Ok?
    ensures AllHaveLevels(records[..k], levels) && AllHaveLevels(records[1..][..k - 1], levels)
    ensures PlaceAll(t, levels, records[..k]) ==
            PlaceAll(PlaceRecord(t, levels, records[0]).0, levels, records[1..][..k - 1])
  {
    var pre := records[..k];
    assert pre[0] == records[0];
    assert pre[1..] == records[1..][..k - 1];
  }

  /** `create_tree`'s loop succeeds exactly when every record can be placed after those before it. */
  lemma {:induction false} PlaceAllOk(t: seq<Node>, levels: seq<string>, records: seq<Record>)
    requires WellFormed(t) && SiblingsUnique(t) && AllHaveLevels(records, levels)
    ensures PlaceAll(t, levels, records).1.Ok? <==>
            forall i :: 0 <= i < |records| ==> Placeable(t, levels, records, i)
    decreases |records|
  {
    if records != [] {
      var p := PlaceRecord(t, levels, records[0]);
      PlaceRecordFails(t, levels, records[0]);
      if p.1.Ok? {
        var rest := records[1..];
        PlaceableAfterFirst(t, levels, records);
        PlaceAllOk(p.0, levels, rest);
        if PlaceAll(p.0, levels, rest).1.Ok? {
          forall i | 0 <= i < |records|
            ensures Placeable(t, levels, records, i)
          {
            if i > 0 {
              assert Placeable(p.0, levels, rest, i - 1);
            }
          }
        } else {
          var i :| 0 <= i < |rest| && !Placeable(p.0, levels, rest, i);
          assert !Placeable(t, levels, records, i + 1);
        }
      } else {
        assert !Placeable(t, levels, records, 0);
      }
    }
  }

  /**
    The loop stops at record `k` with the result `r`: every record before `k`
    can be placed, record `k` cannot, `r` carries record `k`'s error, and the
    tree is the one the first `k` records built.
   */
  ghost predicate StopsAt(t: seq<Node>, levels: seq<string>, records: seq<Record>, k: nat, r: (seq<Node>, Result<()>))
    requires WellFormed(t) && AllHaveLevels(records, levels)
  {
    && k < |records| && !Placeable(t, levels, records, k)
    && (forall i :: 0 <= i < k ==> Placeable(t, levels, records, i))
    && AllHaveLevels(records[..k], levels)
    && PlaceAll(t, levels, records[..k]) == (r.0, Ok(()))
    && r.1 == Err(StepError(records[k], levels))
  }

  /** Stopping at record `k` of the rest, after the first record was placed, is stopping at record `k + 1`. */
  lemma StopsAtShift(t: seq<Node>, levels: seq<string>, records: seq<Record>, k: nat, r: (seq<Node>, Result<()>))
    requires WellFormed(t) && SiblingsUnique(t) && AllHaveLevels(records, levels) && records != []
    requires PlaceRecord(t, levels, records[0]).1.Ok?
    requires AllHaveLevels(records[1..], levels)
    requires StopsAt(PlaceRecord(t, levels, records[0]).0, levels, records[1..], k, r)
    ensures StopsAt(t, levels, records, k + 1, r)
  {
    var t1, rest := PlaceRecord(t, levels, records[0]).0, records[1..];
    PlaceableAfterFirst(t, levels, records);
    assert k + 1 < |records| && rest[k] == records[k + 1];
    assert !Placeable(t, levels, records, k + 1) by {
      assert !Placeable(t1, levels, rest, k);
    }
    forall i | 0 <= i < k + 1
      ensures Placeable(t, levels, records, i)
    {
      if i > 0 {
        assert Placeable(t1, levels, rest, i - 1);
      }
    }
    PlaceAllPrefix(t, levels, records, k + 1);
    assert PlaceAll(t, levels, records[..k + 1]) == PlaceAll(t1, levels, rest[..k]);
  }

  /**
    When `create_tree`'s loop fails, it fails at the first record that cannot
    be placed, with that record's error, and the tree is exactly the one the
    records before it built: nothing is rolled back and nothing of the failing
    record stays.
   */
  lemma {:induction false} PlaceAllFails(t: seq<Node>, levels: seq<string>, records: seq<Record>)
    requires WellFormed(t) && SiblingsUnique(t) && AllHaveLevels(records, levels)
    requires PlaceAll(t, levels, records).1.Err?
    ensures exists k :: StopsAt(t, levels, records, k, PlaceAll(t, levels, records))
    decreases |records|
  {
    var r := PlaceAll(t, levels, records);
    var p := PlaceRecord(t, levels, records[0]);
    PlaceRecordFails(t, levels, records[0]);
    if p.1.Err? {
      assert records[..0] == [];
      assert StopsAt(t, levels, records, 0, r);
    } else {
      PlaceableAfterFirst(t, levels, records);
      PlaceAllFails(p.0, levels, records[1..]);
      var k :| StopsAt(p.0, levels, records[1..], k, r);
      StopsAtShift(t, levels, records, k, r);
    }
  }

  /** A new node that is not the branch's end lies above it, so it has a child. */
  lemma NewNodeHasChild(t: seq<Node>, m: nat, n: nat, vs: seq<Json>)
    requires WellFormed(t) && SiblingsUnique(t) && m < |t| && n < |t| && m != n
    requires Path(t, n) == vs && OnNewBranch(t, m, [], vs)
    ensures HasChild(t, m)
  {
    StrictPrefixOnBranch(t, m, n);
    var k := |Path(t, m)| + 1;
    PathPrefixIsNode(t, n, k);
    var a :| 0 <= a < |t| && Path(t, a) == vs[..k];
    ChildOfPrefix(t, m, a, vs);
    assert 0 <= a < |t| && t[a].parent == m;
  }

  /** A prefix of another node's path that belongs to a different node is a strict prefix. */
  lemma StrictPrefixOnBranch(t: seq<Node>, m: nat, n: nat)
    requires WellFormed(t) && SiblingsUnique(t) && m < |t| && n < |t| && m != n
    requires Path(t, m) <= Path(t, n)
    ensures Path(t, m) < Path(t, n)
  {
    if |Path(t, m)| == |Path(t, n)| {
      assert Path(t, m) == Path(t, n);
      PathInjective(t, m, n);
    }
  }

  /** The node whose path extends `m`'s path by one more value of `vs` is a child of `m`. */
  lemma ChildOfPrefix(t: seq<Node>, m: nat, a: nat, vs: seq<Json>)
    requires WellFormed(t) && SiblingsUnique(t) && m < |t| && a < |t|
    requires Path(t, m) < vs && Path(t, a) == vs[..|Path(t, m)| + 1]
    ensures t[a].parent == m
  {
    var pm := Path(t, m);
    PathEmptyOnlyAtRoot(t, a);
    PathOfChild(t, a);
    assert Path(t, a)[..|pm|] == pm;
    PathInjective(t, t[a].parent as nat, m);
  }

  /** Placing a record leaves every leaf with a payload: the only new leaf is the one that receives it. */
  lemma PlaceRecordKeepsPayloadsAtLeaves(t: seq<Node>, levels: seq<string>, record: Record)
    requires WellFormed(t) && SiblingsUnique(t) && PayloadsAtLeaves(t) && HasAllLevels(record, levels)
    ensures PayloadsAtLeaves(PlaceRecord(t, levels, record).0)
  {
    var p := PlaceRecord(t, levels, record);
    PlaceRecordFails(t, levels, record);
    if p.1.Ok? {
      var t1, n, vs := p.0, p.1.value, LevelValues(record, levels);
      PlaceRecordSucceeds(t, levels, record);
      PlaceRecordKeepsSiblingsUnique(t, levels, record);
      forall m | 0 < m < |t1| && t1[m].values.None?
        ensures HasChild(t1, m)
      {
        if m < |t| {
          assert t1[m] == t[m];
          var c :| 0 <= c < |t| && t[c].parent == m;
          assert t1[c] == t[c];
        } else {
          NewNodeHasChild(t1, m, n, vs);
        }
      }
    }
  }

  /** Placing a record keeps every node within as many edges of the root as there are levels. */
  lemma PlaceRecordKeepsDepth(t: seq<Node>, levels: seq<string>, record: Record)
    requires WellFormed(t) && DepthAtMost(t, |levels|) && HasAllLevels(record, levels)
    ensures DepthAtMost(PlaceRecord(t, levels, record).0, |levels|)
  {
    var p := PlaceRecord(t, levels, record);
    if p.1.Ok? {
      PlaceRecordSucceeds(t, levels, record);
      forall m | 0 <= m < |p.0|
        ensures Depth(p.0, m) <= |levels|
      {
        if m < |t| {
          PathExtends(t, p.0, m);
          assert Depth(t, m) <= |levels|;
        } else {
          var vs := LevelValues(record, levels);
          assert OnNewBranch(p.0, m, [], vs);
          assert Path(p.0, m) <= [] + vs;
          assert |Path(p.0, m)| <= |vs|;
        }
      }
    } else {
      PlaceRecordFailsUnchanged(t, levels, record);
    }
  }

  /**
    Placing a record keeps every payload at depth `|levels|`: the nodes the walk
    attaches carry none, and the leaf that receives one ends the full path.
   */
  lemma PlaceRecordKeepsPayloadsAtDepth(t: seq<Node>, levels: seq<string>, record: Record)
    requires WellFormed(t) && SiblingsUnique(t) && PayloadsAtDepth(t, |levels|) && HasAllLevels(record, levels)
    ensures PayloadsAtDepth(PlaceRecord(t, levels, record).0, |levels|)
  {
    var p := PlaceRecord(t, levels, record);
    PlaceRecordFails(t, levels, record);
    if p.1.Ok? {
      var b := BuildBranch(t, Some(levels), Some(Root), Some(record));
      var n := p.1.value;
      BuildBranchNoPayloads(t, levels, Root, record, b.0, n);
      PlaceRecordSucceeds(t, levels, record);
      forall m | 0 <= m < |p.0| && p.0[m].values.Some?
        ensures Depth(p.0, m) == |levels|
      {
        if m < |t| {
          PathExtends(t, p.0, m);
          assert p.0[m] == t[m];
        }
      }
    }
  }

  /** A failed placement returns the tree it was given. */
  lemma PlaceRecordFailsUnchanged(t: seq<Node>, levels: seq<string>, record: Record)
    requires WellFormed(t) && HasAllLevels(record, levels)
    requires PlaceRecord(t, levels, record).1.Err?
    ensures PlaceRecord(t, levels, record).0 == t
  {
    BuildBranchFailureChangesNothingAll(t, Some(levels), Some(Root), Some(record));
  }

  /**
    The tree the converter keeps between calls: unique sibling labels, no
    deeper than the levels, payloads exactly at the leaves other than the root,
    and all of those exactly as deep as the levels.
   */
  ghost predicate Sound(t: seq<Node>, levels: seq<string>)
  {
    && WellFormed(t) && SiblingsUnique(t) && DepthAtMost(t, |levels|)
    && PayloadsAtLeaves(t) && PayloadsOnlyAtLeaves(t)
    && PayloadsAtDepth(t, |levels|) && LeavesAtDepth(t, |levels|)
  }

  /** The converter's starting tree is sound. */
  lemma EmptyTreeSound(levels: seq<string>)
    ensures Sound(EmptyTree(), levels)
  {
    assert Path(EmptyTree(), Root) == [];
  }

  /** Placing a record keeps the tree sound and only appends to it, whether or not it succeeds. */
  lemma PlaceRecordKeepsSound(t: seq<Node>, levels: seq<string>, record: Record)
    requires Sound(t, levels) && HasAllLevels(record, levels)
    ensures var p := PlaceRecord(t, levels, record); Sound(p.0, levels) && t <= p.0
  {
    var p := PlaceRecord(t, levels, record);
    PlaceRecordKeepsSiblingsUnique(t, levels, record);
    PlaceRecordKeepsPayloadsAtLeaves(t, levels, record);
    PlaceRecordKeepsDepth(t, levels, record);
    PlaceRecordKeepsPayloadsAtDepth(t, levels, record);
    if p.1.Ok? {
      PlaceRecordSucceeds(t, levels, record);
      LeafShape(p.0, |levels|);
    } else {
      PlaceRecordFailsUnchanged(t, levels, record);
    }
  }

  /** So does the whole loop, whatever its outcome. */
  lemma {:induction false} PlaceAllKeepsSound(t: seq<Node>, levels: seq<string>, records: seq<Record>)
    requires Sound(t, levels) && AllHaveLevels(records, levels)
    ensures var r := PlaceAll(t, levels, records); Sound(r.0, levels) && t <= r.0
    decreases |records|
  {
    if records != [] {
      var p := PlaceRecord(t, levels, records[0]);
      PlaceRecordKeepsSound(t, levels, records[0]);
      if p.1.Ok? {
        assert AllHaveLevels(records[1..], levels);
        PlaceAllKeepsSound(p.0, levels, records[1..]);
      }
    }
  }

  /** Some record's path starts with `w`. */
  ghost predicate OnSomeBranch(records: seq<Record>, levels: seq<string>, w: seq<Json>)
    requires AllHaveLevels(records, levels)
  {
    exists i :: 0 <= i < |records| && w <= LeafPath(records, levels, i)
  }

  /**
    The loop attaches no node off the records' branches: the path of every node
    it adds is the start of some record's path, whatever the loop's outcome.
   */
  lemma {:induction false} PlaceAllOnBranches(t: seq<Node>, levels: seq<string>, records: seq<Record>, m: nat)
    requires WellFormed(t) && AllHaveLevels(records, levels)
    requires |t| <= m < |PlaceAll(t, levels, records).0|
    ensures OnSomeBranch(records, levels, Path(PlaceAll(t, levels, records).0, m))
    decreases |records|
  {
    PlaceAllStep(t, levels, records);
    var p := PlaceRecord(t, levels, records[0]);
    if p.1.Err? {
      PlaceRecordFailsUnchanged(t, levels, records[0]);
    } else {
      var rest := records[1..];
      var r := PlaceAll(p.0, levels, rest);
      if m < |p.0| {
        PlacedOnFirstBranch(t, levels, records[0], r.0, m);
        assert Path(r.0, m) <= LeafPath(records, levels, 0);
      } else {
        PlaceAllOnBranches(p.0, levels, rest, m);
        var i :| 0 <= i < |rest| && Path(r.0, m) <= LeafPath(rest, levels, i);
        assert LeafPath(rest, levels, i) == LeafPath(records, levels, i + 1);
      }
    }
  }

  /** A node that placing a record added lies, in any later tree, on that record's branch. */
  lemma PlacedOnFirstBranch(t: seq<Node>, levels: seq<string>, record: Record, t2: seq<Node>, m: nat)
    requires WellFormed(t) && HasAllLevels(record, levels) && PlaceRecord(t, levels, record).1.Ok?
    requires WellFormed(t2) && PlaceRecord(t, levels, record).0 <= t2
    requires |t| <= m < |PlaceRecord(t, levels, record).0|
    ensures Path(t2, m) <= LevelValues(record, levels)
  {
    var t1 := PlaceRecord(t, levels, record).0;
    var vs := LevelValues(record, levels);
    PlaceRecordSucceeds(t, levels, record);
    assert OnNewBranch(t1, m, [], vs);
    assert [] + vs == vs;
    PathExtends(t1, t2, m);
  }

  /** Some node other than the root has the path `path` and the payload `[payload]`. */
  ghost predicate LeafFor(t: seq<Node>, path: seq<Json>, payload: Record)
    requires WellFormed(t)
  {
    exists m :: 0 < m < |t| && Path(t, m) == path && t[m].values == Some([payload])
  }

  /** Appending nodes keeps every placed leaf where it was. */
  lemma LeafForExtends(t: seq<Node>, t': seq<Node>, path: seq<Json>, payload: Record)
    requires WellFormed(t) && WellFormed(t') && t <= t' && LeafFor(t, path, payload)
    ensures LeafFor(t', path, payload)
  {
    var m :| 0 < m < |t| && Path(t, m) == path && t[m].values == Some([payload]);
    PathExtends(t, t', m);
    assert t'[m] == t[m];
  }

  /**
    After a successful loop, each record's leaf has the record's level values
    as its path and the record's remaining attributes as its payload.
   */
  lemma {:induction false} PlaceAllLeaves(t: seq<Node>, levels: seq<string>, records: seq<Record>)
    requires Sound(t, levels) && AllHaveLevels(records, levels)
    requires PlaceAll(t, levels, records).1.Ok?
    ensures forall i :: 0 <= i < |records| ==>
              LeafFor(PlaceAll(t, levels, records).0, LeafPath(records, levels, i), Residual(records[i], levels))
    decreases |records|
  {
    if records != [] {
      var p := PlaceRecord(t, levels, records[0]);
      var rest := records[1..];
      var r := PlaceAll(t, levels, records);
      PlaceAllStep(t, levels, records);
      PlaceRecordKeepsSound(t, levels, records[0]);
      PlaceRecordSucceeds(t, levels, records[0]);
      PlaceAllKeepsSound(p.0, levels, rest);
      PlaceAllLeaves(p.0, levels, rest);
      assert LeafFor(p.0, LeafPath(records, levels, 0), Residual(records[0], levels));
      LeafForExtends(p.0, r.0, LeafPath(records, levels, 0), Residual(records[0], levels));
      LeavesShift(r.0, levels, records);
    }
  }

  /** The leaves of the first record and of the rest are the leaves of all records. */
  lemma LeavesShift(t: seq<Node>, levels: seq<string>, records: seq<Record>)
    requires WellFormed(t) && AllHaveLevels(records, levels) && records != [] && AllHaveLevels(records[1..], levels)
    requires LeafFor(t, LeafPath(records, levels, 0), Residual(records[0], levels))
    requires forall i :: 0 <= i < |records| - 1 ==>
               LeafFor(t, LeafPath(records[1..], levels, i), Residual(records[1..][i], levels))
    ensures forall i :: 0 <= i < |records| ==>
              LeafFor(t, LeafPath(records, levels, i), Residual(records[i], levels))
  {
    var rest := records[1..];
    forall i | 0 < i < |records|
      ensures LeafFor(t, LeafPath(records, levels, i), Residual(records[i], levels))
    {
      assert rest[i - 1] == records[i];
      assert LeafFor(t, LeafPath(rest, levels, i - 1), Residual(rest[i - 1], levels));
    }
  }

  /** Input that passes validation: a non-empty list of records, each carrying every level. */
  ghost predicate ValidInput(input: Json, levels: seq<string>)
  {
    IsRecordList(input) && AllHaveLevels(RecordsOf(input.items), levels)
  }

  /** Once validation passes, `create_tree` is the placement loop over the records. */
  lemma CreateTreeAccepted(t: seq<Node>, levels: seq<string>, input: Json)
    requires WellFormed(t) && Validate(input, levels).Ok?
    ensures IsRecordList(input) && AllHaveLevels(RecordsOf(input.items), levels)
    ensures CreateTree(t, levels, input) == PlaceAll(t, levels, RecordsOf(input.items))
  {
  }

  /** Validation returns (true) exactly for valid input and raises otherwise. */
  lemma ValidateAccepts(input: Json, levels: seq<string>)
    ensures Validate(input, levels).Ok? <==> ValidInput(input, levels)
    ensures Validate(input, levels).Ok? ==> Validate(input, levels).value
  {
    if IsRecordList(input) {
      var records := RecordsOf(input.items);
      assert forall i :: 0 <= i < |records| ==> records[i] == input.items[i].fields;
    }
  }

  /**
    `create_tree` succeeds exactly when the input is valid and every record can
    be placed after those before it; whatever happens, the tree stays sound and
    only grows.
   */
  lemma CreateTreeOutcome(t: seq<Node>, levels: seq<string>, input: Json)
    requires Sound(t, levels)
    ensures var r := CreateTree(t, levels, input); Sound(r.0, levels) && t <= r.0
    ensures CreateTree(t, levels, input).1.Ok? <==>
              ValidInput(input, levels) &&
              forall i :: 0 <= i < |input.items| ==> Placeable(t, levels, RecordsOf(input.items), i)
  {
    ValidateAccepts(input, levels);
    if ValidInput(input, levels) {
      PlaceAllKeepsSound(t, levels, RecordsOf(input.items));
      PlaceAllOk(t, levels, RecordsOf(input.items));
    }
  }

  /**
    When `create_tree` fails after validation, it stops at the first record that
    cannot be placed; the branches of the records before it stay in the tree.
   */
  lemma CreateTreeStops(t: seq<Node>, levels: seq<string>, input: Json)
    requires Sound(t, levels) && ValidInput(input, levels)
    requires CreateTree(t, levels, input).1.Err?
    ensures exists k :: StopsAt(t, levels, RecordsOf(input.items), k, CreateTree(t, levels, input))
  {
    ValidateAccepts(input, levels);
    PlaceAllFails(t, levels, RecordsOf(input.items));
  }

  /** After a successful `create_tree`, every record's leaf carries its remaining attributes. */
  lemma CreateTreeLeaves(t: seq<Node>, levels: seq<string>, input: Json)
    requires Sound(t, levels)
    requires CreateTree(t, levels, input).1.Ok?
    ensures ValidInput(input, levels)
    ensures forall i :: 0 <= i < |input.items| ==>
              LeafFor(CreateTree(t, levels, input).0, LeafPath(RecordsOf(input.items), levels, i),
                      Residual(RecordsOf(input.items)[i], levels))
  {
    ValidateAccepts(input, levels);
    PlaceAllLeaves(t, levels, RecordsOf(input.items));
  }

  /**
    `create_tree` adds only nodes on the records' branches: when it adds any
    node, the input was valid, and the new node's path is the start of some
    record's path.
   */
  lemma CreateTreeOnBranches(t: seq<Node>, levels: seq<string>, input: Json, m: nat)
    requires WellFormed(t) && |t| <= m < |CreateTree(t, levels, input).0|
    ensures ValidInput(input, levels)
    ensures OnSomeBranch(RecordsOf(input.items), levels, Path(CreateTree(t, levels, input).0, m))
  {
    var r := CreateTree(t, levels, input);
    ValidateAccepts(input, levels);
    assert r == PlaceAll(t, levels, RecordsOf(input.items));
    PlaceAllOnBranches(t, levels, RecordsOf(input.items), m);
  }

  /** No two records lead to the same path. */
  ghost predicate DistinctLeafPaths(records: seq<Record>, levels: seq<string>)
    requires AllHaveLevels(records, levels)
  {
    forall i, j :: 0 <= i < j < |records| ==> LeafPath(records, levels, i) != LeafPath(records, levels, j)
  }

  /**
    On a converter's first call, `create_tree` succeeds exactly when the input is
    valid, there is at least one level, and no two records have the same values
    for all levels. (A record carrying at least one level is not empty.)
   */
  lemma CreateTreeFromEmpty(levels: seq<string>, input: Json)
    ensures CreateTree(EmptyTree(), levels, input).1.Ok? <==>
              ValidInput(input, levels) && levels != [] && DistinctLeafPaths(RecordsOf(input.items), levels)
  {
    EmptyTreeSound(levels);
    CreateTreeOutcome(EmptyTree(), levels, input);
    if ValidInput(input, levels) {
      PlaceableFromEmpty(levels, RecordsOf(input.items));
    }
  }

  /** From the lone root, every record of a non-empty list can be placed exactly when there are levels and the paths are distinct. */
  lemma PlaceableFromEmpty(levels: seq<string>, records: seq<Record>)
    requires AllHaveLevels(records, levels) && records != []
    ensures (forall i :: 0 <= i < |records| ==> Placeable(EmptyTree(), levels, records, i)) <==>
              levels != [] && DistinctLeafPaths(records, levels)
  {
    var t := EmptyTree();
    assert Path(t, Root) == [];
    if levels != [] {
      forall i | 0 <= i < |records|
        ensures Placeable(t, levels, records, i) <==> FirstOfItsPath(records, levels, i)
      {
        assert levels[0] in records[i];
        assert Fresh(t, LeafPath(records, levels, i));
      }
      if DistinctLeafPaths(records, levels) {
        assert forall i :: 0 <= i < |records| ==> FirstOfItsPath(records, levels, i);
      } else {
        var i, j :| 0 <= i < j < |records| && LeafPath(records, levels, i) == LeafPath(records, levels, j);
        assert !FirstOfItsPath(records, levels, j);
      }
    } else {
      assert !Placeable(t, levels, records, 0);
    }
  }
}
