/**
  The converter's documented scenarios, with levels currency, country, city:
  three records grouped into one tree, a record given twice, and an export
  before anything was built.
 */
module Scenario {
  import opened Json
  import opened Errors
  import opened Validator
  import opened Tree
  import opened Builder
  import opened Creation
  import opened Exporter
  import Converter

  /** The nesting levels `["currency", "country", "city"]`. */
  predicate CurrencyCountryCity(levels: seq<string>)
  {
    |levels| == 3 && levels[0] == "currency" && levels[1] == "country" && levels[2] == "city"
  }

  /** A record giving the amount held in one city. */
  function Place(currency: string, country: string, city: string, amount: int): Record
  {
    map["currency" := JStr(currency), "country" := JStr(country), "city" := JStr(city), "amount" := JNum(amount)]
  }

  /** The decoded input `[Paris record, Lyon record, Madrid record]`. */
  predicate ThreeCitiesInput(input: Json)
  {
    && input.JArr? && |input.items| == 3
    && input.items[0] == JObj(Place("EUR", "FR", "Paris", 10))
    && input.items[1] == JObj(Place("EUR", "FR", "Lyon", 5))
    && input.items[2] == JObj(Place("EUR", "ES", "Madrid", 7))
  }

  /** Each record carries every level. */
  lemma PlaceHasAllLevels(currency: string, country: string, city: string, amount: int, levels: seq<string>)
    requires CurrencyCountryCity(levels)
    ensures HasAllLevels(Place(currency, country, city, amount), levels)
  {
    var p := Place(currency, country, city, amount);
    forall i | 0 <= i < |levels|
      ensures levels[i] in p
    {
    }
  }

  /** Each record's leaf keeps only its amount. */
  lemma PlaceResidual(currency: string, country: string, city: string, amount: int, levels: seq<string>)
    requires CurrencyCountryCity(levels)
    ensures HasAllLevels(Place(currency, country, city, amount), levels)
    ensures Residual(Place(currency, country, city, amount), levels) == map["amount" := JNum(amount)]
  {
    var p := Place(currency, country, city, amount);
    PlaceHasAllLevels(currency, country, city, amount, levels);
    var r := Residual(p, levels);
    assert "amount" !in LevelSet(levels) && "amount" in p;
    assert r.Keys == {"amount"};
  }

  /** Where the Paris, Lyon and Madrid records lead. */
  const EurPath: seq<Json> := [JStr("EUR")]
  const FrPath: seq<Json> := EurPath + [JStr("FR")]
  const EsPath: seq<Json> := EurPath + [JStr("ES")]
  const ParisPath: seq<Json> := FrPath + [JStr("Paris")]
  const LyonPath: seq<Json> := FrPath + [JStr("Lyon")]
  const MadridPath: seq<Json> := EsPath + [JStr("Madrid")]

  /** A record's path: its currency, country and city. */
  lemma PlaceLevelValues(currency: string, country: string, city: string, amount: int, levels: seq<string>)
    requires CurrencyCountryCity(levels)
    ensures HasAllLevels(Place(currency, country, city, amount), levels)
    ensures LevelValues(Place(currency, country, city, amount), levels) == [JStr(currency), JStr(country), JStr(city)]
  {
    PlaceHasAllLevels(currency, country, city, amount, levels);
  }

  /** The three records as the loop sees them: valid, with three distinct paths. */
  lemma ThreeCitiesRecords(levels: seq<string>, input: Json)
    requires CurrencyCountryCity(levels) && ThreeCitiesInput(input)
    ensures ValidInput(input, levels)
    ensures LeafPath(RecordsOf(input.items), levels, 0) == ParisPath
    ensures LeafPath(RecordsOf(input.items), levels, 1) == LyonPath
    ensures LeafPath(RecordsOf(input.items), levels, 2) == MadridPath
  {
    var records := RecordsOf(input.items);
    assert records[0] == Place("EUR", "FR", "Paris", 10);
    assert records[1] == Place("EUR", "FR", "Lyon", 5);
    assert records[2] == Place("EUR", "ES", "Madrid", 7);
    PlaceLevelValues("EUR", "FR", "Paris", 10, levels);
    PlaceLevelValues("EUR", "FR", "Lyon", 5, levels);
    PlaceLevelValues("EUR", "ES", "Madrid", 7, levels);
  }

  /** No two of the three records lead to the same path. */
  lemma ThreeCitiesDistinct(levels: seq<string>, input: Json)
    requires CurrencyCountryCity(levels) && ThreeCitiesInput(input)
    ensures ValidInput(input, levels)
    ensures DistinctLeafPaths(RecordsOf(input.items), levels)
  {
    var records := RecordsOf(input.items);
    ThreeCitiesRecords(levels, input);
    var paris, lyon, madrid := LeafPath(records, levels, 0), LeafPath(records, levels, 1), LeafPath(records, levels, 2);
    assert |paris[2].s| == 5 && |lyon[2].s| == 4 && |madrid[2].s| == 6;
    forall i, j | 0 <= i < j < |records|
      ensures LeafPath(records, levels, i) != LeafPath(records, levels, j)
    {
      if i == 0 && j == 1 {
        assert paris[2] != lyon[2];
      } else if i == 0 {
        assert paris[2] != madrid[2];
      } else {
        assert lyon[2] != madrid[2];
      }
    }
  }

  /**
    Creating a fresh converter's tree from the three records succeeds, places
    each of them, and adds no node off their branches.
   */
  lemma ThreeCitiesPlaced(levels: seq<string>, input: Json)
    requires CurrencyCountryCity(levels) && ThreeCitiesInput(input)
    ensures |input.items| == 3 && ValidInput(input, levels)
    ensures CreateTree(EmptyTree(), levels, input).1.Ok?
    ensures var t, rs := CreateTree(EmptyTree(), levels, input).0, RecordsOf(input.items);
            && Sound(t, levels)
            && LeafFor(t, ParisPath, Residual(rs[0], levels))
            && LeafFor(t, LyonPath, Residual(rs[1], levels))
            && LeafFor(t, MadridPath, Residual(rs[2], levels))
            && forall c :: 0 < c < |t| ==> OnSomeBranch(rs, levels, Path(t, c))
  {
    var t, rs := CreateTree(EmptyTree(), levels, input).0, RecordsOf(input.items);
    ThreeCitiesDistinct(levels, input);
    ThreeCitiesRecords(levels, input);
    CreateTreeFromEmpty(levels, input);
    EmptyTreeSound(levels);
    CreateTreeOutcome(EmptyTree(), levels, input);
    CreateTreeLeaves(EmptyTree(), levels, input);
    forall c | 0 < c < |t|
      ensures OnSomeBranch(rs, levels, Path(t, c))
    {
      CreateTreeOnBranches(EmptyTree(), levels, input, c);
    }
  }

  /** A path on the branch of one of the three records starts the path to Paris, Lyon or Madrid. */
  lemma OnThreeBranches(levels: seq<string>, rs: seq<Record>, w: seq<Json>)
    requires AllHaveLevels(rs, levels) && |rs| == 3
    requires LeafPath(rs, levels, 0) == ParisPath && LeafPath(rs, levels, 1) == LyonPath
    requires LeafPath(rs, levels, 2) == MadridPath
    requires OnSomeBranch(rs, levels, w)
    ensures w <= ParisPath || w <= LyonPath || w <= MadridPath
  {
    var i :| 0 <= i < |rs| && w <= LeafPath(rs, levels, i);
  }

  /** Every node other than the root lies on the way to Paris, Lyon or Madrid. */
  ghost predicate OnThreePaths(t: seq<Node>)
    requires WellFormed(t)
  {
    forall c :: 0 < c < |t| ==> Path(t, c) <= ParisPath || Path(t, c) <= LyonPath || Path(t, c) <= MadridPath
  }

  /** The Paris and Lyon leaves hang below one `FR` node. */
  lemma FrNodes(t: seq<Node>, p0: Record, p1: Record) returns (fr: nat, paris: nat, lyon: nat)
    requires WellFormed(t) && SiblingsUnique(t)
    requires LeafFor(t, ParisPath, p0) && LeafFor(t, LyonPath, p1)
    ensures 0 < fr < |t| && 0 < paris < |t| && 0 < lyon < |t|
    ensures Path(t, fr) == FrPath && Path(t, paris) == ParisPath && Path(t, lyon) == LyonPath
    ensures t[paris].parent == fr && t[lyon].parent == fr
    ensures t[paris].name == JStr("Paris") && t[lyon].name == JStr("Lyon")
    ensures t[paris].values == Some([p0]) && t[lyon].values == Some([p1])
  {
    paris :| 0 < paris < |t| && Path(t, paris) == ParisPath && t[paris].values == Some([p0]);
    lyon :| 0 < lyon < |t| && Path(t, lyon) == LyonPath && t[lyon].values == Some([p1]);
    fr := ParentOf(t, paris, FrPath, JStr("Paris"));
    var fr' := ParentOf(t, lyon, FrPath, JStr("Lyon"));
    PathInjective(t, fr', fr);
  }

  /** The Madrid leaf hangs below an `ES` node. */
  lemma EsNodes(t: seq<Node>, p2: Record) returns (es: nat, madrid: nat)
    requires WellFormed(t) && LeafFor(t, MadridPath, p2)
    ensures 0 < es < |t| && 0 < madrid < |t|
    ensures Path(t, es) == EsPath && Path(t, madrid) == MadridPath
    ensures t[madrid].parent == es && t[madrid].name == JStr("Madrid") && t[madrid].values == Some([p2])
  {
    madrid :| 0 < madrid < |t| && Path(t, madrid) == MadridPath && t[madrid].values == Some([p2]);
    es := ParentOf(t, madrid, EsPath, JStr("Madrid"));
  }

  /** `FR` and `ES` hang below one `EUR` node, a child of the root. */
  lemma EurNode(t: seq<Node>, fr: nat, es: nat) returns (eur: nat)
    requires WellFormed(t) && SiblingsUnique(t) && 0 < fr < |t| && 0 < es < |t|
    requires Path(t, fr) == FrPath && Path(t, es) == EsPath
    ensures 0 < eur < |t| && Path(t, eur) == EurPath
    ensures t[eur].parent == Root && t[fr].parent == eur && t[es].parent == eur
    ensures t[eur].name == JStr("EUR") && t[fr].name == JStr("FR") && t[es].name == JStr("ES")
  {
    eur := ParentOf(t, fr, EurPath, JStr("FR"));
    var eur' := ParentOf(t, es, EurPath, JStr("ES"));
    PathInjective(t, eur', eur);
    var root := ParentOf(t, eur, [], JStr("EUR"));
    PathEmptyOnlyAtRoot(t, root);
  }

  /** The parent of a node with path `v + [x]` has path `v`, and the node is labelled `x`. */
  lemma ParentOf(t: seq<Node>, m: nat, v: seq<Json>, x: Json) returns (p: nat)
    requires WellFormed(t) && 0 < m < |t| && Path(t, m) == v + [x]
    ensures p == t[m].parent as nat && p < m
    ensures Path(t, p) == v && t[m].name == x
    ensures v != [] ==> 0 < p
  {
    p := t[m].parent as nat;
    PathOfChild(t, m);
    assert (v + [x])[..|v|] == v;
    PathEmptyOnlyAtRoot(t, p);
  }

  /** A child's path is its parent's path followed by the child's own label. */
  lemma ChildPath(t: seq<Node>, n: nat, x: nat)
    requires WellFormed(t) && n < |t| && x in Children(t, n)
    ensures 0 < x < |t| && Path(t, x) == Path(t, n) + [t[x].name]
  {
  }

  /** On the three paths, the root has the `EUR` node as its only child. */
  lemma RootLayer(t: seq<Node>, eur: nat, x: nat)
    requires WellFormed(t) && SiblingsUnique(t) && OnThreePaths(t)
    requires 0 < eur < |t| && Path(t, eur) == EurPath
    requires x in Children(t, Root)
    ensures x == eur
  {
    ChildPath(t, Root, x);
    assert Path(t, x) == [t[x].name];
    assert Path(t, x) == EurPath;
    PathInjective(t, x, eur);
  }

  /** On the three paths, the `EUR` node has no children but `FR` and `ES`. */
  lemma EurLayer(t: seq<Node>, eur: nat, fr: nat, es: nat, x: nat)
    requires WellFormed(t) && SiblingsUnique(t) && OnThreePaths(t)
    requires 0 < eur < |t| && 0 < fr < |t| && 0 < es < |t|
    requires Path(t, eur) == EurPath && Path(t, fr) == FrPath && Path(t, es) == EsPath
    requires x in Children(t, eur)
    ensures x == fr || x == es
  {
    ChildPath(t, eur, x);
    assert |Path(t, x)| == 2;
    if Path(t, x) <= MadridPath {
      assert Path(t, x) == EsPath;
      PathInjective(t, x, es);
    } else {
      assert Path(t, x) == FrPath;
      PathInjective(t, x, fr);
    }
  }

  /** On the three paths, the `FR` node has no children but the Paris and Lyon leaves. */
  lemma FrLayer(t: seq<Node>, fr: nat, paris: nat, lyon: nat, x: nat)
    requires WellFormed(t) && SiblingsUnique(t) && OnThreePaths(t)
    requires 0 < fr < |t| && 0 < paris < |t| && 0 < lyon < |t|
    requires Path(t, fr) == FrPath && Path(t, paris) == ParisPath && Path(t, lyon) == LyonPath
    requires x in Children(t, fr)
    ensures x == paris || x == lyon
  {
    ChildPath(t, fr, x);
    assert |Path(t, x)| == 3 && Path(t, x)[1] == JStr("FR");
    if Path(t, x) <= ParisPath {
      assert Path(t, x) == ParisPath;
      PathInjective(t, x, paris);
    } else {
      assert Path(t, x) == LyonPath;
      PathInjective(t, x, lyon);
    }
  }

  /** On the three paths, the `ES` node has no child but the Madrid leaf. */
  lemma EsLayer(t: seq<Node>, es: nat, madrid: nat, x: nat)
    requires WellFormed(t) && SiblingsUnique(t) && OnThreePaths(t)
    requires 0 < es < |t| && 0 < madrid < |t|
    requires Path(t, es) == EsPath && Path(t, madrid) == MadridPath
    requires x in Children(t, es)
    ensures x == madrid
  {
    ChildPath(t, es, x);
    assert |Path(t, x)| == 3 && Path(t, x)[1] == JStr("ES");
    assert ParisPath[1] == JStr("FR") && LyonPath[1] == JStr("FR");
    assert Path(t, x) == MadridPath;
    PathInjective(t, x, madrid);
  }

  /** The leaf for one record renders as the list holding that record's payload. */
  lemma RenderedLeaf(t: seq<Node>, m: nat, p: Record)
    requires WellFormed(t) && PayloadsOnlyAtLeaves(t) && m < |t| && t[m].values == Some([p])
    ensures Render(Export(t, m)) == Payload([p])
  {
    assert Children(t, m) == [];
  }

  /** Below `FR`: Lyon before Paris, each holding its record's payload. */
  lemma FrRendered(t: seq<Node>, p0: Record, p1: Record) returns (fr: nat)
    requires WellFormed(t) && SiblingsUnique(t) && PayloadsOnlyAtLeaves(t) && OnThreePaths(t)
    requires LeafFor(t, ParisPath, p0) && LeafFor(t, LyonPath, p1)
    ensures 0 < fr < |t| && Path(t, fr) == FrPath
    ensures Render(Export(t, fr)) ==
            Dict([Entry(JStr("Lyon"), Payload([p1])), Entry(JStr("Paris"), Payload([p0]))])
  {
    var paris, lyon;
    fr, paris, lyon := FrNodes(t, p0, p1);
    RenderedLeaf(t, paris, p0);
    RenderedLeaf(t, lyon, p1);
    forall x | x in Children(t, fr)
      ensures x == lyon || x == paris
    {
      FrLayer(t, fr, paris, lyon, x);
    }
    assert KeyLess(JStr("Lyon"), JStr("Paris"));
    RenderedTwoChildren(t, fr, lyon, paris);
  }

  /** Below `ES`: Madrid alone, holding its record's payload. */
  lemma EsRendered(t: seq<Node>, p2: Record) returns (es: nat)
    requires WellFormed(t) && SiblingsUnique(t) && PayloadsOnlyAtLeaves(t) && OnThreePaths(t)
    requires LeafFor(t, MadridPath, p2)
    ensures 0 < es < |t| && Path(t, es) == EsPath
    ensures Render(Export(t, es)) == Dict([Entry(JStr("Madrid"), Payload([p2]))])
  {
    var madrid;
    es, madrid := EsNodes(t, p2);
    RenderedLeaf(t, madrid, p2);
    forall x | x in Children(t, es)
      ensures x == madrid
    {
      EsLayer(t, es, madrid, x);
    }
    RenderedOnlyChild(t, es, madrid);
  }

  /**
    A tree whose branches all lie on the way to Paris, Lyon or Madrid, and that
    holds the three leaves, exports as exactly one nested dict: `EUR` alone at
    the top, `ES` before `FR` below it, Lyon before Paris below `FR`.
   */
  lemma ThreeCitiesRendered(t: seq<Node>, p0: Record, p1: Record, p2: Record)
    requires WellFormed(t) && SiblingsUnique(t) && PayloadsOnlyAtLeaves(t) && OnThreePaths(t)
    requires LeafFor(t, ParisPath, p0) && LeafFor(t, LyonPath, p1) && LeafFor(t, MadridPath, p2)
    ensures ExportTree(t) == Ok(
              Dict([Entry(JStr("EUR"), Dict([
                Entry(JStr("ES"), Dict([Entry(JStr("Madrid"), Payload([p2]))])),
                Entry(JStr("FR"), Dict([Entry(JStr("Lyon"), Payload([p1])), Entry(JStr("Paris"), Payload([p0]))]))]))]))
  {
    var fr := FrRendered(t, p0, p1);
    var es := EsRendered(t, p2);
    var eur := EurNode(t, fr, es);
    forall x | x in Children(t, eur)
      ensures x == es || x == fr
    {
      EurLayer(t, eur, fr, es, x);
    }
    assert KeyLess(JStr("ES"), JStr("FR"));
    RenderedTwoChildren(t, eur, es, fr);
    forall x | x in Children(t, Root)
      ensures x == eur
    {
      RootLayer(t, eur, x);
    }
    RenderedOnlyChild(t, Root, eur);
    assert eur in Children(t, Root);
  }

  /**
    The test scenario: a fresh converter given the Paris, Lyon and Madrid
    records creates a tree whose export is exactly the nested dict
    `{"EUR": {"ES": {"Madrid": [..]}, "FR": {"Lyon": [..], "Paris": [..]}}}`,
    each leaf holding its record with the three level attributes removed.
   */
  lemma ThreeCities(levels: seq<string>, input: Json)
    requires CurrencyCountryCity(levels) && ThreeCitiesInput(input)
    ensures |input.items| == 3 && ValidInput(input, levels)
    ensures CreateTree(EmptyTree(), levels, input).1.Ok?
    ensures var t, rs := CreateTree(EmptyTree(), levels, input).0, RecordsOf(input.items);
            ExportTree(t) == Ok(
              Dict([Entry(JStr("EUR"), Dict([
                Entry(JStr("ES"), Dict([Entry(JStr("Madrid"), Payload([Residual(rs[2], levels)]))])),
                Entry(JStr("FR"), Dict([Entry(JStr("Lyon"), Payload([Residual(rs[1], levels)])),
                                        Entry(JStr("Paris"), Payload([Residual(rs[0], levels)]))]))]))]))
  {
    var t, rs := CreateTree(EmptyTree(), levels, input).0, RecordsOf(input.items);
    ThreeCitiesPlaced(levels, input);
    ThreeCitiesRecords(levels, input);
    forall c | 0 < c < |t|
      ensures Path(t, c) <= ParisPath || Path(t, c) <= LyonPath || Path(t, c) <= MadridPath
    {
      OnThreeBranches(levels, rs, Path(t, c));
    }
    ThreeCitiesRendered(t, Residual(rs[0], levels), Residual(rs[1], levels), Residual(rs[2], levels));
  }

  /** The same record twice. */
  function Twice(): Json
  {
    JArr([JObj(Place("EUR", "FR", "Paris", 10)), JObj(Place("EUR", "FR", "Paris", 10))])
  }

  /** Both copies are valid records with the same path. */
  lemma TwiceRecords(levels: seq<string>, input: Json)
    requires CurrencyCountryCity(levels) && input == Twice()
    ensures ValidInput(input, levels)
    ensures var records := RecordsOf(input.items);
            |records| == 2 && records[0] == records[1] && records[1] != map[]
  {
    var records := RecordsOf(input.items);
    PlaceHasAllLevels("EUR", "FR", "Paris", 10, levels);
    assert records == [Place("EUR", "FR", "Paris", 10), Place("EUR", "FR", "Paris", 10)];
    assert "city" in records[1];
  }

  /** Two identical records: the second one is a duplicate, after the first was placed. */
  lemma SameCityTwice(levels: seq<string>, input: Json)
    requires CurrencyCountryCity(levels) && input == Twice()
    ensures CreateTree(EmptyTree(), levels, input).1 == Err(DuplicateNodesFound)
  {
    var records := RecordsOf(input.items);
    TwiceRecords(levels, input);
    assert LeafPath(records, levels, 0) == LeafPath(records, levels, 1);
    CreateTreeFromEmpty(levels, input);
    EmptyTreeSound(levels);
    CreateTreeStops(EmptyTree(), levels, input);
    var k :| StopsAt(EmptyTree(), levels, records, k, CreateTree(EmptyTree(), levels, input));
  }

  /** Exporting a fresh converter's tree raises `NoTreeCreated`. */
  lemma ExportBeforeCreate()
    ensures Exporter.ExportTree(EmptyTree()) == Err(NoTreeCreated)
  {
    EmptyTreeIsLeaf();
  }
}
