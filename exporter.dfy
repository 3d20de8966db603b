/**
  Export: the depth-first walk that turns the tree into nested dicts keyed by
  child labels with the leaves' payload lists at the bottom, and the key
  sorting applied when the result is rendered.
 */
module Exporter {
  import opened Json
  import opened Errors
  import opened Tree

  /** What the walk builds: a dict from labels to values, or a leaf's payload list. */
  datatype Value = Payload(records: seq<Record>) | Dict(entries: seq<Entry>)

  /** One key of a dict and the value stored under it; a dict keeps its keys in insertion order. */
  datatype Entry = Entry(key: Json, value: Value)

  /** No key occurs twice. */
  ghost predicate DistinctKeys(es: seq<Entry>)
  {
    forall i, j :: 0 <= i < j < |es| ==> es[i].key != es[j].key
  }

  /** `d.get(k)`: the value stored under `k`, if any. */
  function Get(es: seq<Entry>, k: Json): (r: Option<Value>)
    ensures r.None? <==> forall i :: 0 <= i < |es| ==> es[i].key != k
    ensures r.Some? ==> Entry(k, r.value) in es
  {
    if es == [] then None
    else if es[0].key == k then Some(es[0].value)
    else Get(es[1..], k)
  }

  /** With distinct keys, the value of any entry is what `Get` returns for its key. */
  lemma GetDistinct(es: seq<Entry>, k: Json, v: Value)
    requires DistinctKeys(es) && Entry(k, v) in es
    ensures Get(es, k) == Some(v)
  {
    var i :| 0 <= i < |es| && es[i] == Entry(k, v);
    var w := Get(es, k).value;
    var j :| 0 <= j < |es| && es[j] == Entry(k, w);
    assert i == j;
  }

  /** Reordering a dict with distinct keys changes no lookup. */
  lemma GetPermutation(a: seq<Entry>, b: seq<Entry>, k: Json)
    requires DistinctKeys(a) && multiset(a) == multiset(b)
    ensures Get(b, k) == Get(a, k)
  {
    if Get(b, k).Some? {
      assert Entry(k, Get(b, k).value) in multiset(a);
      GetDistinct(a, k, Get(b, k).value);
    } else if Get(a, k).Some? {
      assert Entry(k, Get(a, k).value) in multiset(b);
    }
  }

  /** `d[k] = v`: a key already present keeps its place; a new key goes last. */
  function Put(es: seq<Entry>, k: Json, v: Value): (r: seq<Entry>)
    ensures |r| == |es| || |r| == |es| + 1
  {
    if es == [] then [Entry(k, v)]
    else if es[0].key == k then [Entry(k, v)] + es[1..]
    else [es[0]] + Put(es[1..], k, v)
  }

  /** After `d[k] = v`, `k` holds `v` and every other key holds what it held. */
  lemma {:induction false} PutGet(es: seq<Entry>, k: Json, v: Value, k': Json)
    ensures Get(Put(es, k, v), k') == if k' == k then Some(v) else Get(es, k')
  {
    if es != [] && es[0].key != k {
      PutGet(es[1..], k, v, k');
    }
  }

  /** Storing under a new key appends one entry. */
  lemma {:induction false} PutAppends(es: seq<Entry>, k: Json, v: Value)
    requires forall i :: 0 <= i < |es| ==> es[i].key != k
    ensures Put(es, k, v) == es + [Entry(k, v)]
  {
    if es != [] {
      PutAppends(es[1..], k, v);
      assert es == [es[0]] + es[1..];
    }
  }

  /** With distinct keys, storing under the key of entry `i` replaces that entry. */
  lemma {:induction false} PutReplaces(es: seq<Entry>, k: Json, v: Value, i: nat)
    requires DistinctKeys(es) && i < |es| && es[i].key == k
    ensures Put(es, k, v) == es[i := Entry(k, v)]
  {
    if i > 0 {
      PutReplaces(es[1..], k, v, i - 1);
      assert es[1..][i - 1 := Entry(k, v)] == es[i := Entry(k, v)][1..];
    }
  }

  /**
    The value the walk leaves under node `n`'s label in its parent's dict. An
    inner node gives the dict keyed by its children's labels, in the order they
    were attached, each holding that child's value. A leaf gives its payload
    list when that list is non-empty (the `if values:` test), and otherwise the
    empty dict its parent put there.
   */
  function Export(t: seq<Node>, n: nat): (v: Value)
    requires WellFormed(t) && n < |t|
    ensures Children(t, n) != [] ==> v.Dict? && |v.entries| == |Children(t, n)|
    decreases |t| - n
  {
    var cs := Children(t, n);
    if cs == [] then
      if t[n].values.Some? && t[n].values.value != [] then Payload(t[n].values.value) else Dict([])
    else
      Dict(seq(|cs|, i requires 0 <= i < |cs| => assert cs[i] in cs; Entry(t[cs[i]].name, Export(t, cs[i]))))
  }

  /** Keys in ascending order: no key is smaller than one before it. */
  ghost predicate Sorted(es: seq<Entry>)
  {
    forall i, j :: 0 <= i < j < |es| ==> !KeyLess(es[j].key, es[i].key)
  }

  /** Every dict at every depth has its keys in ascending order. */
  ghost predicate DeepSorted(v: Value)
  {
    match v
    case Payload(_) => true
    case Dict(es) => Sorted(es) && forall i :: 0 <= i < |es| ==> DeepSorted(es[i].value)
  }

  /** Two keys that are not out of order with a third are not out of order with each other. */
  lemma KeyLessNegativelyTransitive(a: Json, b: Json, c: Json)
    requires !KeyLess(a, b) && !KeyLess(b, c)
    ensures !KeyLess(a, c)
  {
    if a.JStr? && b.JStr? && c.JStr? && StrLess(a.s, c.s) {
      if a.s == b.s {
      } else {
        StrLessTotal(a.s, b.s);
        StrLessTransitive(b.s, a.s, c.s);
      }
    }
  }

  /** A key smaller than another is not also larger. */
  lemma KeyLessAsymmetric(a: Json, b: Json)
    requires KeyLess(a, b)
    ensures !KeyLess(b, a)
  {
    if KeyLess(b, a) {
      KeyLessTransitive(a, b, a);
      KeyLessIrreflexive(a);
    }
  }

  /** Insertion of one entry into sorted entries, after every entry with a smaller key. */
  function Insert(e: Entry, es: seq<Entry>): (r: seq<Entry>)
    ensures multiset(r) == multiset(es) + multiset{e}
    ensures |r| == |es| + 1
  {
    if es == [] then [e]
    else if KeyLess(es[0].key, e.key) then
      assert es == [es[0]] + es[1..];
      [es[0]] + Insert(e, es[1..])
    else [e] + es
  }

  /** Inserting into sorted entries keeps them sorted. */
  lemma {:induction false} InsertSorted(e: Entry, es: seq<Entry>)
    requires Sorted(es)
    ensures Sorted(Insert(e, es))
  {
    if es != [] {
      if KeyLess(es[0].key, e.key) {
        InsertSorted(e, es[1..]);
        var r := Insert(e, es[1..]);
        forall x | x in r
          ensures !KeyLess(x.key, es[0].key)
        {
          assert x in multiset(r);
          if x == e {
            KeyLessAsymmetric(es[0].key, e.key);
          }
        }
      } else {
        forall j | 0 <= j < |es|
          ensures !KeyLess(es[j].key, e.key)
        {
          if j > 0 {
            KeyLessNegativelyTransitive(es[j].key, es[0].key, e.key);
          }
        }
      }
    }
  }

  /** `sorted(d.items())`: the entries ordered by key, a permutation of them. */
  function SortEntries(es: seq<Entry>): (r: seq<Entry>)
    ensures multiset(r) == multiset(es) && |r| == |es|
    ensures Sorted(r)
  {
    if es == [] then []
    else
      var rest := SortEntries(es[1..]);
      InsertSorted(es[0], rest);
      assert es == [es[0]] + es[1..];
      Insert(es[0], rest)
  }

  /**
    What `json.dumps(..., sort_keys=True)` puts in order: every dict's entries
    sorted by key, at every depth. Payload records are maps, which have no key
    order to fix.
   */
  function Render(v: Value): (r: Value)
    ensures v.Payload? ==> r == v
    ensures v.Dict? ==> r.Dict? && |r.entries| == |v.entries| && Sorted(r.entries)
    decreases v
  {
    match v
    case Payload(_) => v
    case Dict(es) =>
      Dict(SortEntries(seq(|es|, i requires 0 <= i < |es| => Entry(es[i].key, Render(es[i].value)))))
  }

  /** A rendered value has its keys in order at every depth. */
  lemma {:induction false} RenderDeepSorted(v: Value)
    ensures DeepSorted(Render(v))
    decreases v
  {
    if v.Dict? {
      var es := v.entries;
      var rendered := seq(|es|, i requires 0 <= i < |es| => Entry(es[i].key, Render(es[i].value)));
      var sorted := SortEntries(rendered);
      forall i | 0 <= i < |sorted|
        ensures DeepSorted(sorted[i].value)
      {
        assert sorted[i] in multiset(rendered);
        var j :| 0 <= j < |rendered| && rendered[j] == sorted[i];
        assert es[j] in es;
        RenderDeepSorted(es[j].value);
      }
    }
  }

  /** The walk's entries with every value rendered, keys and order unchanged. */
  function RenderedValues(es: seq<Entry>): (rs: seq<Entry>)
    ensures |rs| == |es|
    ensures forall i :: 0 <= i < |es| ==> rs[i] == Entry(es[i].key, Render(es[i].value))
    ensures Render(Dict(es)) == Dict(SortEntries(rs))
  {
    seq(|es|, i requires 0 <= i < |es| => Entry(es[i].key, Render(es[i].value)))
  }

  /** The rendered dict finds under each key the rendered value the walk stored under it. */
  lemma RenderGet(es: seq<Entry>, k: Json)
    requires DistinctKeys(es)
    ensures Get(Render(Dict(es)).entries, k) ==
            match Get(es, k) case None => None case Some(w) => Some(Render(w))
  {
    var rendered := RenderedValues(es);
    assert DistinctKeys(rendered);
    GetPermutation(rendered, SortEntries(rendered), k);
    if Get(es, k).Some? {
      var w := Get(es, k).value;
      var i :| 0 <= i < |es| && es[i] == Entry(k, w);
      assert rendered[i] == Entry(k, Render(w));
      GetDistinct(rendered, k, Render(w));
    }
  }

  /** `export_tree` before serialisation: nothing to export from a childless root. */
  function ExportTree(t: seq<Node>): (r: Result<Value>)
    requires WellFormed(t)
    ensures r.Err? <==> Children(t, Root) == []
    ensures r.Err? ==> r.error == NoTreeCreated
    ensures r.Ok? ==> r.value.Dict? && DeepSorted(r.value) && |r.value.entries| == |Children(t, Root)|
  {
    if Children(t, Root) == [] then Err(NoTreeCreated)
    else
      RenderDeepSorted(Export(t, Root));
      Ok(Render(Export(t, Root)))
  }

  /** The labels of a node's children are distinct keys of its dict. */
  lemma ExportDistinctKeys(t: seq<Node>, n: nat)
    requires WellFormed(t) && SiblingsUnique(t) && n < |t| && Children(t, n) != []
    ensures DistinctKeys(Export(t, n).entries)
  {
  }

  /**
    The rendered dict of an inner node has exactly its children's labels as
    keys, each holding that child's rendered value.
   */
  lemma RenderedLayer(t: seq<Node>, n: nat)
    requires WellFormed(t) && SiblingsUnique(t) && n < |t| && Children(t, n) != []
    ensures var r := Render(Export(t, n));
            && r.Dict? && |r.entries| == |Children(t, n)|
            && (forall c :: c in Children(t, n) ==> Get(r.entries, t[c].name) == Some(Render(Export(t, c))))
            && (forall k :: Get(r.entries, k).Some? ==> exists c :: c in Children(t, n) && t[c].name == k)
  {
    var cs := Children(t, n);
    var es := Export(t, n).entries;
    ExportDistinctKeys(t, n);
    forall c | c in cs
      ensures Get(Render(Export(t, n)).entries, t[c].name) == Some(Render(Export(t, c)))
    {
      var i :| 0 <= i < |cs| && cs[i] == c;
      assert es[i] == Entry(t[c].name, Export(t, c));
      GetDistinct(es, t[c].name, Export(t, c));
      RenderGet(es, t[c].name);
    }
    forall k | Get(Render(Export(t, n)).entries, k).Some?
      ensures exists c :: c in cs && t[c].name == k
    {
      RenderGet(es, k);
      var i :| 0 <= i < |es| && es[i].key == k;
      assert cs[i] in cs;
    }
  }

  /** A one-entry dict holding `v` under `k` is exactly that entry. */
  lemma OneEntry(es: seq<Entry>, k: Json, v: Value)
    requires |es| == 1 && Get(es, k) == Some(v)
    ensures es == [Entry(k, v)]
  {
    assert Entry(k, v) in es;
  }

  /** A sorted two-entry dict holding `v1` under `k1` and `v2` under `k2 > k1` lists `k1` first. */
  lemma TwoEntries(es: seq<Entry>, k1: Json, v1: Value, k2: Json, v2: Value)
    requires |es| == 2 && Sorted(es) && KeyLess(k1, k2)
    requires Get(es, k1) == Some(v1) && Get(es, k2) == Some(v2)
    ensures es == [Entry(k1, v1), Entry(k2, v2)]
  {
    KeyLessIrreflexive(k1);
    assert Entry(k1, v1) in es && Entry(k2, v2) in es;
    assert !KeyLess(es[1].key, es[0].key);
  }

  /** A node whose only child is `c` renders as the one-entry dict `{label of c: rendered c}`. */
  lemma RenderedOnlyChild(t: seq<Node>, n: nat, c: nat)
    requires WellFormed(t) && SiblingsUnique(t) && n < c < |t| && t[c].parent == n
    requires forall x :: x in Children(t, n) ==> x == c
    ensures Render(Export(t, n)) == Dict([Entry(t[c].name, Render(Export(t, c)))])
  {
    var cs := Children(t, n);
    assert c in cs;
    forall i | 0 <= i < |cs|
      ensures cs[i] == c
    {
      assert cs[i] in cs;
    }
    if |cs| > 1 {
      AscendingStep(cs, 0);
      assert false;
    }
    RenderedLayer(t, n);
    OneEntry(Render(Export(t, n)).entries, t[c].name, Render(Export(t, c)));
  }

  /**
    A node whose children are `c1` and `c2`, labelled in ascending order,
    renders as the two-entry dict with `c1`'s label first.
   */
  lemma RenderedTwoChildren(t: seq<Node>, n: nat, c1: nat, c2: nat)
    requires WellFormed(t) && SiblingsUnique(t) && n < c1 < |t| && n < c2 < |t| && c1 != c2
    requires t[c1].parent == n && t[c2].parent == n
    requires forall x :: x in Children(t, n) ==> x == c1 || x == c2
    requires KeyLess(t[c1].name, t[c2].name)
    ensures Render(Export(t, n)) ==
            Dict([Entry(t[c1].name, Render(Export(t, c1))), Entry(t[c2].name, Render(Export(t, c2)))])
  {
    var cs := Children(t, n);
    assert c1 in cs && c2 in cs;
    forall i | 0 <= i < |cs|
      ensures cs[i] == c1 || cs[i] == c2
    {
      assert cs[i] in cs;
    }
    if |cs| > 2 {
      AscendingStep(cs, 0);
      AscendingStep(cs, 1);
      assert false;
    }
    RenderedLayer(t, n);
    RenderDeepSorted(Export(t, n));
    TwoEntries(Render(Export(t, n)).entries, t[c1].name, Render(Export(t, c1)), t[c2].name, Render(Export(t, c2)));
  }

  /** Following a path through nested dicts, one key per level. */
  function Lookup(v: Value, path: seq<Json>): (r: Option<Value>)
    ensures path != [] && v.Payload? ==> r.None?
    decreases |path|
  {
    if path == [] then Some(v)
    else
      match v
      case Payload(_) => None
      case Dict(es) =>
        match Get(es, path[0])
        case None => None
        case Some(w) => Lookup(w, path[1..])
  }

  /** Following a path and then one more key is following the longer path. */
  lemma {:induction false} LookupAppend(v: Value, path: seq<Json>, k: Json)
    ensures Lookup(v, path + [k]) ==
            match Lookup(v, path) case None => None case Some(w) => Lookup(w, [k])
    decreases |path|
  {
    if path != [] && v.Dict? && Get(v.entries, path[0]).Some? {
      assert (path + [k])[1..] == path[1..] + [k];
      LookupAppend(Get(v.entries, path[0]).value, path[1..], k);
    }
  }

  /** A path of one key is a single dict lookup. */
  lemma LookupOne(v: Value, k: Json)
    ensures Lookup(v, [k]) == if v.Dict? then Get(v.entries, k) else None
  {
    assert [k][1..] == [];
  }

  /** One step down: the rendered value of a parent holds its child's under the child's label. */
  lemma LookupChild(t: seq<Node>, m: nat)
    requires WellFormed(t) && SiblingsUnique(t) && Root < m < |t|
    ensures Lookup(Render(Export(t, t[m].parent as nat)), [t[m].name]) == Some(Render(Export(t, m)))
  {
    var p := t[m].parent as nat;
    assert m in Children(t, p);
    RenderedLayer(t, p);
    LookupOne(Render(Export(t, p)), t[m].name);
  }

  /**
    In the rendered export of a tree with unique sibling labels, following the
    labels on the path of any node reaches that node's rendered value.
   */
  lemma {:induction false} ExportLookup(t: seq<Node>, m: nat)
    requires WellFormed(t) && SiblingsUnique(t) && m < |t|
    ensures Lookup(Render(Export(t, Root)), Path(t, m)) == Some(Render(Export(t, m)))
    decreases m
  {
    if m != Root {
      var p := t[m].parent as nat;
      ExportLookup(t, p);
      assert Path(t, m) == Path(t, p) + [t[m].name];
      LookupAppend(Render(Export(t, Root)), Path(t, p), t[m].name);
      LookupChild(t, m);
    }
  }
}
