/**
  Branch building: the recursive descent that walks from a node down one level
  per call, reusing the child whose name is the record's value for that level
  and attaching a new child when there is none.
 */
module Builder {
  import opened Json
  import opened Errors
  import opened Validator
  import opened Tree

  /**
    The record has every level that the walk will look up. The source raises a
    `KeyError` otherwise; the lookup happens only after the node and record checks.
   */
  ghost predicate LevelsPresent(remaining: Option<seq<string>>, current: Option<nat>, record: Option<Record>)
  {
    current.Some? && record.Some? && record.value != map[] && remaining.Some? ==>
      HasAllLevels(record.value, remaining.value)
  }

  /** The walk gets past its first two checks: there is a node and a non-empty record. */
  predicate Proceeds(current: Option<nat>, record: Option<Record>)
  {
    current.Some? && record.Some? && record.value != map[]
  }

  /** The record's values for the given levels, top level first: the path its leaf must have. */
  function LevelValues(record: Record, levels: seq<string>): (vs: seq<Json>)
    requires HasAllLevels(record, levels)
    ensures |vs| == |levels|
    ensures forall i :: 0 <= i < |levels| ==> vs[i] == record[levels[i]]
  {
    if levels == [] then [] else [record[levels[0]]] + LevelValues(record, levels[1..])
  }

  /**
    The child a walk descends into for the value `v`: the only child of `c`
    carrying that name when there is one (the tree is unchanged), otherwise a
    new childless node attached at the end of `c`'s children.
   */
  function Descend(t: seq<Node>, c: nat, v: Json): (r: (seq<Node>, nat))
    requires WellFormed(t) && c < |t| && |MatchingChildren(t, c, v)| <= 1
    ensures WellFormed(r.0) && t <= r.0 && c < r.1 < |r.0|
    ensures r.0[r.1].parent == c && r.0[r.1].name == v
    ensures MatchingChildren(t, c, v) != [] ==> r == (t, MatchingChildren(t, c, v)[0])
    ensures MatchingChildren(t, c, v) == [] ==> r.1 == |t| && |r.0| == |t| + 1 && r.0[r.1].values.None?
  {
    var existing := MatchingChildren(t, c, v);
    if |existing| == 1 then
      assert existing[0] in existing;
      (t, existing[0])
    else
      AddChild(t, c, v)
  }

  /** The node descended into has `c`'s path followed by `v`; `c` keeps its path. */
  lemma DescendPath(t: seq<Node>, c: nat, v: Json)
    requires WellFormed(t) && c < |t| && |MatchingChildren(t, c, v)| <= 1
    ensures var d := Descend(t, c, v); Path(d.0, d.1) == Path(t, c) + [v] && Path(d.0, c) == Path(t, c)
  {
    var d := Descend(t, c, v);
    PathExtends(t, d.0, c);
  }

  /** Descending never gives two children of a node the same name. */
  lemma DescendKeepsSiblingsUnique(t: seq<Node>, c: nat, v: Json)
    requires WellFormed(t) && SiblingsUnique(t) && c < |t| && |MatchingChildren(t, c, v)| <= 1
    ensures SiblingsUnique(Descend(t, c, v).0)
  {
    if MatchingChildren(t, c, v) == [] {
      AddChildKeepsSiblingsUnique(t, c, v);
    }
  }

  /**
    `_build_branch(remaining, current, record)`: the new tree and the node the
    walk ends at, or the error raised. While levels remain, the first is popped,
    the children named by the record's value for it are looked up, and the walk
    descends into the one found or into a freshly attached child.
   */
  function BuildBranch(t: seq<Node>, remaining: Option<seq<string>>, current: Option<nat>, record: Option<Record>)
    : (r: (seq<Node>, Result<nat>))
    requires WellFormed(t)
    requires current.Some? ==> current.value < |t|
    requires LevelsPresent(remaining, current, record)
    ensures WellFormed(r.0) && t <= r.0
    ensures r.1.Ok? ==> remaining.Some? && Root < r.1.value < |r.0|
    ensures Proceeds(current, record) && remaining.Some? && remaining.value != [] ==>
              r.1.Ok? || r.1 == Err(DuplicateNodesFound)
    decreases if remaining.Some? then |remaining.value| else 0
  {
    if current.None? then (t, Err(MissingNode))
    else if record.None? || record.value == map[] then (t, Err(MissingRecord))
    else if remaining.Some? && remaining.value != [] then
      var rest := remaining.value[1..];
      var nextLevel := record.value[remaining.value[0]];
      var existing := MatchingChildren(t, current.value, nextLevel);
      if |existing| > 1 || (|existing| == 1 && rest == []) then (t, Err(DuplicateNodesFound))
      else
        var d := Descend(t, current.value, nextLevel);
        var r := BuildBranch(d.0, Some(rest), Some(d.1), record);
        assert t <= d.0 <= r.0;
        r
    else if remaining.None? || current.value == Root then (t, Err(MissingNestingLevels))
    else (t, Ok(current.value))
  }

  /** The last call of a walk, with no levels left: the root cannot be a leaf, any other node is returned. */
  lemma BuildBranchEndStep(t: seq<Node>, c: nat, record: Record)
    requires WellFormed(t) && c < |t| && record != map[]
    ensures BuildBranch(t, Some([]), Some(c), Some(record)) ==
            (t, if c == Root then Err(MissingNestingLevels) else Ok(c))
  {
  }

  /** A walk that meets several children of the same name, or one at the last level, reports a duplicate. */
  lemma BuildBranchDuplicateStep(t: seq<Node>, levels: seq<string>, c: nat, record: Record)
    requires WellFormed(t) && c < |t| && record != map[] && HasAllLevels(record, levels) && levels != []
    requires var e := MatchingChildren(t, c, record[levels[0]]); |e| > 1 || (|e| == 1 && |levels| == 1)
    ensures BuildBranch(t, Some(levels), Some(c), Some(record)) == (t, Err(DuplicateNodesFound))
  {
  }

  /** Otherwise a walk continues from the child `Descend` picks, with the remaining levels. */
  lemma BuildBranchDescendStep(t: seq<Node>, levels: seq<string>, c: nat, record: Record)
    requires WellFormed(t) && c < |t| && record != map[] && HasAllLevels(record, levels) && levels != []
    requires var e := MatchingChildren(t, c, record[levels[0]]); e == [] || (|e| == 1 && |levels| > 1)
    ensures var d := Descend(t, c, record[levels[0]]);
            BuildBranch(t, Some(levels), Some(c), Some(record)) == BuildBranch(d.0, Some(levels[1..]), Some(d.1), Some(record))
  {
    var d := Descend(t, c, record[levels[0]]);
    assert BuildBranch(t, Some(levels), Some(c), Some(record)) == BuildBranch(d.0, Some(levels[1..]), Some(d.1), Some(record));
  }

  /** A walk that succeeds did not stop at a duplicate: it descended at every level. */
  lemma BuildBranchOkCases(t: seq<Node>, levels: seq<string>, c: nat, record: Record)
    requires WellFormed(t) && c < |t| && record != map[] && HasAllLevels(record, levels) && levels != []
    requires BuildBranch(t, Some(levels), Some(c), Some(record)).1.Ok?
    ensures var e := MatchingChildren(t, c, record[levels[0]]); e == [] || (|e| == 1 && |levels| > 1)
  {
    var e := MatchingChildren(t, c, record[levels[0]]);
    if |e| > 1 || (|e| == 1 && |levels| == 1) {
      BuildBranchDuplicateStep(t, levels, c, record);
    }
  }

  /** Appending the rest of the values to a child's path gives its parent's path followed by all values. */
  lemma AppendStep(a: seq<Json>, b: seq<Json>, v: Json, tail: seq<Json>, vs: seq<Json>)
    requires b == a + [v] && vs == [v] + tail
    ensures b + tail == a + vs
  {
  }

  /** The most recently attached node has no child of any name. */
  lemma NoMatchAtLast(t: seq<Node>, v: Json)
    requires WellFormed(t) && |t| > 1
    ensures MatchingChildren(t, |t| - 1, v) == []
  {
    LastIsLeaf(t);
  }

  /**
    A walk from the most recently attached node always succeeds: it has no
    children, so the walk only attaches new nodes.
   */
  lemma {:induction false} BuildBranchFromLast(t: seq<Node>, levels: seq<string>, c: nat, record: Record)
    requires WellFormed(t) && Root < c && c == |t| - 1
    requires record != map[] && HasAllLevels(record, levels)
    ensures BuildBranch(t, Some(levels), Some(c), Some(record)).1.Ok?
    decreases |levels|
  {
    if levels == [] {
      BuildBranchEndStep(t, c, record);
    } else {
      var v := record[levels[0]];
      NoMatchAtLast(t, v);
      BuildBranchDescendStep(t, levels, c, record);
      var d := Descend(t, c, v);
      BuildBranchFromLast(d.0, levels[1..], d.1, record);
    }
  }

  /**
    A failed walk leaves the tree exactly as it was: every check that can fail
    happens before the walk attaches its first node.
   */
  lemma {:induction false} BuildBranchFailureChangesNothing(t: seq<Node>, levels: seq<string>, c: nat, record: Record)
    requires WellFormed(t) && c < |t| && record != map[] && HasAllLevels(record, levels)
    requires BuildBranch(t, Some(levels), Some(c), Some(record)).1.Err?
    ensures BuildBranch(t, Some(levels), Some(c), Some(record)).0 == t
    decreases |levels|, 1
  {
    if levels == [] {
      BuildBranchEndStep(t, c, record);
    } else {
      var existing := MatchingChildren(t, c, record[levels[0]]);
      if |existing| > 1 || (|existing| == 1 && |levels| == 1) {
        BuildBranchDuplicateStep(t, levels, c, record);
      } else {
        BuildBranchFailureAfterDescend(t, levels, c, record);
      }
    }
  }

  /** The descending case: a failure below an existing child changed nothing; below a new child it cannot happen. */
  lemma {:induction false} BuildBranchFailureAfterDescend(t: seq<Node>, levels: seq<string>, c: nat, record: Record)
    requires WellFormed(t) && c < |t| && record != map[] && HasAllLevels(record, levels) && levels != []
    requires var e := MatchingChildren(t, c, record[levels[0]]); e == [] || (|e| == 1 && |levels| > 1)
    requires BuildBranch(t, Some(levels), Some(c), Some(record)).1.Err?
    ensures BuildBranch(t, Some(levels), Some(c), Some(record)).0 == t
    decreases |levels|, 0
  {
    BuildBranchDescendStep(t, levels, c, record);
    var d := Descend(t, c, record[levels[0]]);
    if MatchingChildren(t, c, record[levels[0]]) == [] {
      BuildBranchFromLast(d.0, levels[1..], d.1, record);
    } else {
      BuildBranchFailureChangesNothing(d.0, levels[1..], d.1, record);
    }
  }

  /** The same for any arguments, including the missing node, record or levels the source checks first. */
  lemma BuildBranchFailureChangesNothingAll(t: seq<Node>, remaining: Option<seq<string>>,
                                            current: Option<nat>, record: Option<Record>)
    requires WellFormed(t)
    requires current.Some? ==> current.value < |t|
    requires LevelsPresent(remaining, current, record)
    requires BuildBranch(t, remaining, current, record).1.Err?
    ensures BuildBranch(t, remaining, current, record).0 == t
  {
    if Proceeds(current, record) && remaining.Some? {
      BuildBranchFailureChangesNothing(t, remaining.value, current.value, record.value);
    }
  }

  /**
    A node the walk attached below a node whose path is `base`, on the way to the
    path `base + vs`: its path is a longer prefix of `base + vs`.
   */
  ghost predicate OnNewBranch(t: seq<Node>, m: nat, base: seq<Json>, vs: seq<Json>)
    requires WellFormed(t) && m < |t|
  {
    |base| < |Path(t, m)| && Path(t, m) <= base + vs
  }

  /**
    A successful walk that has levels left descends into a child of `c`: an
    existing one, or a new one without payload appended at the end. The rest of
    the walk goes on from there.
   */
  lemma BuildBranchDescends(t: seq<Node>, levels: seq<string>, c: nat, record: Record, t': seq<Node>, n: nat)
    returns (t1: seq<Node>, c1: nat)
    requires WellFormed(t) && c < |t| && record != map[] && HasAllLevels(record, levels) && levels != []
    requires BuildBranch(t, Some(levels), Some(c), Some(record)) == (t', Ok(n))
    ensures WellFormed(t1) && t <= t1 && c < c1 < |t1| && |t1| <= |t| + 1
    ensures |t1| > |t| ==> c1 == |t| && t1[c1].values.None?
    ensures Path(t1, c1) == Path(t, c) + [record[levels[0]]]
    ensures BuildBranch(t1, Some(levels[1..]), Some(c1), Some(record)) == (t', Ok(n))
  {
    var v := record[levels[0]];
    BuildBranchOkCases(t, levels, c, record);
    BuildBranchDescendStep(t, levels, c, record);
    DescendPath(t, c, v);
    t1, c1 := Descend(t, c, v).0, Descend(t, c, v).1;
  }

  /**
    A successful walk from `c` ends at the node whose path is `c`'s path
    followed by the record's level values, so its depth is `c`'s depth plus the
    number of levels.
   */
  lemma {:induction false} BuildBranchPath(t: seq<Node>, levels: seq<string>, c: nat, record: Record,
                                           t': seq<Node>, n: nat)
    requires WellFormed(t) && c < |t| && record != map[] && HasAllLevels(record, levels)
    requires BuildBranch(t, Some(levels), Some(c), Some(record)) == (t', Ok(n))
    ensures WellFormed(t') && n < |t'|
    ensures Path(t', n) == Path(t, c) + LevelValues(record, levels)
    ensures Depth(t', n) == Depth(t, c) + |levels|
    decreases |levels|
  {
    if levels == [] {
      BuildBranchEndStep(t, c, record);
    } else {
      var v, rest := record[levels[0]], levels[1..];
      var vs, tail := LevelValues(record, levels), LevelValues(record, rest);
      assert vs == [v] + tail;
      var t1, c1 := BuildBranchDescends(t, levels, c, record, t', n);
      BuildBranchPath(t1, rest, c1, record, t', n);
      AppendStep(Path(t, c), Path(t1, c1), v, tail, vs);
    }
  }

  /** A node on the branch below `base + [v]` is on the branch below `base`. */
  lemma OnNewBranchWiden(t: seq<Node>, m: nat, base: seq<Json>, v: Json, tail: seq<Json>, vs: seq<Json>)
    requires WellFormed(t) && m < |t|
    requires OnNewBranch(t, m, base + [v], tail) && vs == [v] + tail
    ensures OnNewBranch(t, m, base, vs)
  {
    AppendStep(base, base + [v], v, tail, vs);
  }

  /**
    One descent of a walk seen from its parent: the node descended into (new, or
    already in `t`) and everything attached below it lie on the branch below `c`.
   */
  lemma NewNodesStep(t: seq<Node>, d0: seq<Node>, t': seq<Node>, c: nat, d1: nat,
                     v: Json, tail: seq<Json>, vs: seq<Json>)
    requires WellFormed(t) && WellFormed(d0) && WellFormed(t') && t <= d0 <= t'
    requires c < |t| && d1 < |d0| && Path(d0, d1) == Path(t, c) + [v] && vs == [v] + tail
    requires d0 == t || (d1 == |t| && |d0| == |t| + 1)
    requires forall m :: |d0| <= m < |t'| ==> OnNewBranch(t', m, Path(d0, d1), tail)
    ensures forall m :: |t| <= m < |t'| ==> OnNewBranch(t', m, Path(t, c), vs)
  {
    forall m | |t| <= m < |t'|
      ensures OnNewBranch(t', m, Path(t, c), vs)
    {
      if m < |d0| {
        PathExtends(d0, t', d1);
        AppendStep(Path(t, c), Path(t', d1), v, tail, vs);
      } else {
        OnNewBranchWiden(t', m, Path(t, c), v, tail, vs);
      }
    }
  }

  /**
    Every node a successful walk attached lies on the branch it built, and the
    end of that branch is one of the attached nodes.
   */
  lemma {:induction false} BuildBranchNewNodes(t: seq<Node>, levels: seq<string>, c: nat, record: Record,
                                               t': seq<Node>, n: nat)
    requires WellFormed(t) && c < |t| && record != map[] && HasAllLevels(record, levels)
    requires BuildBranch(t, Some(levels), Some(c), Some(record)) == (t', Ok(n))
    ensures WellFormed(t')
    ensures forall m :: |t| <= m < |t'| ==> OnNewBranch(t', m, Path(t, c), LevelValues(record, levels))
    ensures levels != [] ==> |t| <= n
    decreases |levels|
  {
    if levels == [] {
      BuildBranchEndStep(t, c, record);
    } else {
      var v, rest := record[levels[0]], levels[1..];
      var vs, tail := LevelValues(record, levels), LevelValues(record, rest);
      assert vs == [v] + tail;
      BuildBranchOkCases(t, levels, c, record);
      BuildBranchDescendStep(t, levels, c, record);
      var d := Descend(t, c, v);
      DescendPath(t, c, v);
      BuildBranchNewNodes(d.0, rest, d.1, record, t', n);
      NewNodesStep(t, d.0, t', c, d.1, v, tail, vs);
      if rest == [] {
        BuildBranchEndStep(d.0, d.1, record);
      }
    }
  }

  /** A successful walk attaches only nodes without a payload: `Node(next_level, parent=...)` has no `values`. */
  lemma {:induction false} BuildBranchNoPayloads(t: seq<Node>, levels: seq<string>, c: nat, record: Record,
                                                 t': seq<Node>, n: nat)
    requires WellFormed(t) && c < |t| && record != map[] && HasAllLevels(record, levels)
    requires BuildBranch(t, Some(levels), Some(c), Some(record)) == (t', Ok(n))
    ensures forall m :: |t| <= m < |t'| ==> t'[m].values.None?
    decreases |levels|
  {
    if levels == [] {
      BuildBranchEndStep(t, c, record);
    } else {
      var t1, c1 := BuildBranchDescends(t, levels, c, record, t', n);
      BuildBranchNoPayloads(t1, levels[1..], c1, record, t', n);
      forall m | |t| <= m < |t'|
        ensures t'[m].values.None?
      {
        if m < |t1| {
          assert m == c1 && t'[m] == t1[m];
        }
      }
    }
  }

  /** Branch building never gives two children of a node the same name. */
  lemma {:induction false} BuildBranchKeepsSiblingsUnique(t: seq<Node>, levels: seq<string>, c: nat, record: Record)
    requires WellFormed(t) && SiblingsUnique(t) && c < |t| && record != map[] && HasAllLevels(record, levels)
    ensures SiblingsUnique(BuildBranch(t, Some(levels), Some(c), Some(record)).0)
    decreases |levels|
  {
    if levels == [] {
      BuildBranchEndStep(t, c, record);
    } else {
      var v := record[levels[0]];
      var existing := MatchingChildren(t, c, v);
      MatchingAtMostOne(t, c, v);
      if |existing| == 1 && |levels| == 1 {
        BuildBranchDuplicateStep(t, levels, c, record);
      } else {
        BuildBranchDescendStep(t, levels, c, record);
        var d := Descend(t, c, v);
        DescendKeepsSiblingsUnique(t, c, v);
        BuildBranchKeepsSiblingsUnique(d.0, levels[1..], d.1, record);
      }
    }
  }

  /** The same for any arguments: a call that stops at one of the first checks changes nothing. */
  lemma BuildBranchKeepsSiblingsUniqueAll(t: seq<Node>, remaining: Option<seq<string>>,
                                          current: Option<nat>, record: Option<Record>)
    requires WellFormed(t) && SiblingsUnique(t)
    requires current.Some? ==> current.value < |t|
    requires LevelsPresent(remaining, current, record)
    ensures SiblingsUnique(BuildBranch(t, remaining, current, record).0)
  {
    if Proceeds(current, record) && remaining.Some? {
      BuildBranchKeepsSiblingsUnique(t, remaining.value, current.value, record.value);
    }
  }

  /** No node lies on a path through a child named `v` of `c` when `c` has no such child. */
  lemma NoChildNoPath(t: seq<Node>, c: nat, v: Json, vs: seq<Json>)
    requires WellFormed(t) && SiblingsUnique(t) && c < |t|
    requires MatchingChildren(t, c, v) == []
    ensures forall m :: 0 <= m < |t| ==> Path(t, m) != Path(t, c) + [v] + vs
  {
    forall m | 0 <= m < |t|
      ensures Path(t, m) != Path(t, c) + [v] + vs
    {
      var k := |Path(t, c)| + 1;
      if |Path(t, m)| >= k {
        PathPrefixIsNode(t, m, k);
        var a :| 0 <= a < |t| && Path(t, a) == Path(t, m)[..k];
        MatchingIffPath(t, c, v);
      }
    }
  }

  /**
    With unique sibling names, the walk from `c` fails with `DuplicateNodesFound`
    exactly when a node already has the path the record leads to, `c`'s path
    followed by the record's level values; otherwise it succeeds.
   */
  lemma {:induction false} BuildBranchDuplicateIff(t: seq<Node>, levels: seq<string>, c: nat, record: Record,
                                                   r: Result<nat>)
    requires WellFormed(t) && SiblingsUnique(t) && c < |t|
    requires record != map[] && levels != [] && HasAllLevels(record, levels)
    requires r == BuildBranch(t, Some(levels), Some(c), Some(record)).1
    ensures r == Err(DuplicateNodesFound) <==>
              exists m :: 0 <= m < |t| && Path(t, m) == Path(t, c) + LevelValues(record, levels)
    ensures r.Ok? <==> r != Err(DuplicateNodesFound)
    decreases |levels|
  {
    var v, rest := record[levels[0]], levels[1..];
    var tail := LevelValues(record, rest);
    var target := Path(t, c) + LevelValues(record, levels);
    assert target == Path(t, c) + [v] + tail;
    var existing := MatchingChildren(t, c, v);
    MatchingAtMostOne(t, c, v);
    MatchingIffPath(t, c, v);
    if |existing| == 1 && rest == [] {
      BuildBranchDuplicateStep(t, levels, c, record);
      assert existing[0] in existing;
      assert Path(t, existing[0]) == target;
    } else if existing == [] {
      var d := Descend(t, c, v);
      assert r == BuildBranch(d.0, Some(rest), Some(d.1), Some(record)).1 by {
        BuildBranchDescendStep(t, levels, c, record);
      }
      BuildBranchFromLast(d.0, rest, d.1, record);
      NoChildNoPath(t, c, v, tail);
    } else {
      var x := existing[0];
      assert x in existing;
      assert r == BuildBranch(t, Some(rest), Some(x), Some(record)).1 by {
        BuildBranchDescendStep(t, levels, c, record);
      }
      BuildBranchDuplicateIff(t, rest, x, record, r);
      assert Path(t, x) + tail == target;
    }
  }

  /**
    The complete outcome of one call, in the order the source checks: no node,
    then no record, then no levels (or none at the root), then a duplicate,
    and otherwise the node reached.
   */
  lemma BuildBranchOutcome(t: seq<Node>, remaining: Option<seq<string>>, current: Option<nat>, record: Option<Record>)
    requires WellFormed(t) && SiblingsUnique(t)
    requires current.Some? ==> current.value < |t|
    requires LevelsPresent(remaining, current, record)
    ensures var r := BuildBranch(t, remaining, current, record).1;
            && (r == Err(MissingNode) <==> current.None?)
            && (r == Err(MissingRecord) <==> current.Some? && (record.None? || record.value == map[]))
            && (r == Err(MissingNestingLevels) <==>
                  Proceeds(current, record) && (remaining.None? || (remaining.value == [] && current.value == Root)))
            && (r == Err(DuplicateNodesFound) <==>
                  && Proceeds(current, record) && remaining.Some? && remaining.value != []
                  && exists m :: 0 <= m < |t| &&
                       Path(t, m) == Path(t, current.value) + LevelValues(record.value, remaining.value))
            && (r.Ok? <==> !(r == Err(MissingNode) || r == Err(MissingRecord) ||
                             r == Err(MissingNestingLevels) || r == Err(DuplicateNodesFound)))
  {
    if Proceeds(current, record) && remaining.Some? && remaining.value != [] {
      BuildBranchDuplicateIff(t, remaining.value, current.value, record.value,
                              BuildBranch(t, remaining, current, record).1);
    }
  }

  /**
    Building the same record twice from the root fails the second time with
    `DuplicateNodesFound`, whatever the first call returned.
   */
  lemma SameRecordTwiceIsDuplicate(t: seq<Node>, levels: seq<string>, record: Record, t1: seq<Node>, r1: Result<nat>)
    requires WellFormed(t) && SiblingsUnique(t)
    requires record != map[] && levels != [] && HasAllLevels(record, levels)
    requires BuildBranch(t, Some(levels), Some(Root), Some(record)) == (t1, r1)
    ensures BuildBranch(t1, Some(levels), Some(Root), Some(record)).1 == Err(DuplicateNodesFound)
  {
    BuildBranchDuplicateIff(t, levels, Root, record, r1);
    BuildBranchKeepsSiblingsUnique(t, levels, Root, record);
    if r1.Ok? {
      BuildBranchPath(t, levels, Root, record, t1, r1.value);
    } else {
      BuildBranchFailureChangesNothing(t, levels, Root, record);
    }
    PathExtends(t, t1, Root);
    BuildBranchDuplicateIff(t1, levels, Root, record, BuildBranch(t1, Some(levels), Some(Root), Some(record)).1);
  }
}
