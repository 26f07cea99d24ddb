/** Searches for locales that hold no slash: what they make is made together, so that
    searching again is settled. */
module SettledSearch {
  import opened Options
  import opened LocaleName
  import opened CatalogList
  import opened FindDomain
  import opened TranslationSearch
  import opened TwoNodeLocales
  import opened SeparatePaths
  import opened SearchAgain

  ghost predicate AllFit(w: World, ls: seq<string>) { forall l :: l in ls ==> Fit(NameFor(w, l)) }

  ghost predicate FileFits(file: string) { exists c, d :: Component(c) && Component(d) && file == FileOf(c, d) }

  ghost predicate Orderly(nodes: Nodes) { Paired(nodes) && NoEmpty(nodes) }

  /** A locale that was started from its built node has both its nodes. */
  ghost predicate Together(w: World, nodes: Nodes, a: Args, locale: string, f: string) {
    w.alias(locale) == None && TwoNodes(locale) && f == BuiltPath(a.dir, locale, a.file) ==> BothMade(nodes, locale, a)
  }

  lemma VisitOrderly(w: World, nodes: Nodes, nodes': Nodes, a: Args, locale: string, f: string)
    requires Visit(w, nodes, nodes', a, locale, f) && Orderly(nodes) && Fit(NameFor(w, locale)) && FileFits(a.file)
    ensures Orderly(nodes')
  {
    var c, d :| Component(c) && Component(d) && a.file == FileOf(c, d);
    PairedStays(nodes, nodes', a.dir, NameFor(w, locale), c, d);
    NoEmptyStays(nodes, nodes', a.dir, NameFor(w, locale), c, d);
  }

  lemma VisitTogether(w: World, nodes: Nodes, nodes': Nodes, a: Args, locale: string, f: string)
    requires Visit(w, nodes, nodes', a, locale, f) && Paired(nodes) && Fit(NameFor(w, locale)) && FileFits(a.file)
    ensures Together(w, nodes', a, locale, f)
  {
    if w.alias(locale) == None && TwoNodes(locale) && f == BuiltPath(a.dir, locale, a.file) {
      var c, d :| Component(c) && Component(d) && a.file == FileOf(c, d);
      assert PairedAt(nodes, a.dir, locale, c, d);
      RegularBuiltIsWhole(a.dir, locale, a.file);
      MakesWhole(a.dir, locale, a.file);
      BothAsMade(nodes, nodes', locale, Explode(locale), a);
    }
  }

  lemma TogetherStays(w: World, nodes: Nodes, nodes': Nodes, a: Args, locale: string, f: string)
    requires Together(w, nodes, a, locale, f) && Extends(nodes, nodes')
    ensures Together(w, nodes', a, locale, f)
  {
  }

  lemma {:induction false} TraceOrderly(w: World, trace: seq<Nodes>, a: Args, ls: seq<string>, path: seq<string>, r: Option<Hit>, j: nat)
    requires Trace(w, trace, a, ls, 0, path, r) && AllFit(w, ls) && FileFits(a.file)
    requires Orderly(trace[0]) && j <= |path|
    ensures Orderly(trace[j])
  {
    if j > 0 {
      TraceOrderly(w, trace, a, ls, path, r, j - 1);
      TurnOrderly(w, trace, a, ls, path, r, j - 1, j);
    }
  }

  lemma TurnOrderly(w: World, trace: seq<Nodes>, a: Args, ls: seq<string>, path: seq<string>, r: Option<Hit>, j: nat, k: nat)
    requires Trace(w, trace, a, ls, 0, path, r) && AllFit(w, ls) && FileFits(a.file)
    requires j < |path| && k == j + 1 && Orderly(trace[j])
    ensures Orderly(trace[k])
  {
    assert Turn(w, trace, a, ls, 0, path, r, j);
    VisitOrderly(w, trace[j], trace[k], a, ls[j], path[j]);
  }

  lemma TurnTogether(w: World, trace: seq<Nodes>, a: Args, ls: seq<string>, path: seq<string>, r: Option<Hit>, j: nat, k: nat)
    requires Trace(w, trace, a, ls, 0, path, r) && AllFit(w, ls) && FileFits(a.file)
    requires Orderly(trace[0]) && j < |path| && k == j + 1
    ensures j < |ls| && Together(w, trace[|path|], a, ls[j], path[j])
  {
    assert Turn(w, trace, a, ls, 0, path, r, j);
    TraceOrderly(w, trace, a, ls, path, r, j);
    VisitTogether(w, trace[j], trace[k], a, ls[j], path[j]);
    TraceGrows(w, trace, a, ls, 0, path, r, k, |path|);
    TogetherStays(w, trace[k], trace[|path|], a, ls[j], path[j]);
  }

  ghost predicate AllTogether(w: World, nodes: Nodes, a: Args, ls: seq<string>, path: seq<string>) {
    |path| <= |ls| && forall j :: 0 <= j < |path| ==> Together(w, nodes, a, ls[j], path[j])
  }

  lemma SearchOrderly(w: World, nodes: Nodes, nodes': Nodes, a: Args, ls: seq<string>, path: seq<string>, r: Option<Hit>)
    requires Searches(w, nodes, nodes', a, ls, 0, path, r) && AllFit(w, ls) && FileFits(a.file) && Orderly(nodes)
    ensures Orderly(nodes') && AllTogether(w, nodes', a, ls, path)
  {
    var trace :| Trace(w, trace, a, ls, 0, path, r) && trace[0] == nodes && trace[|path|] == nodes';
    TraceOrderly(w, trace, a, ls, path, r, |path|);
    forall j | 0 <= j < |path| ensures j < |ls| && Together(w, nodes', a, ls[j], path[j]) {
      TurnTogether(w, trace, a, ls, path, r, j, j + 1);
    }
    if path != [] { TurnTogether(w, trace, a, ls, path, r, |path| - 1, |path|); }
  }

  lemma SearchGrows(w: World, nodes: Nodes, nodes': Nodes, a: Args, ls: seq<string>, path: seq<string>, r: Option<Hit>)
    requires Searches(w, nodes, nodes', a, ls, 0, path, r)
    ensures Extends(nodes, nodes') && (Closed(nodes) ==> Closed(nodes'))
    ensures r.Some? ==> Known(w, nodes', a, ls, path, r.value)
  {
    var trace :| Trace(w, trace, a, ls, 0, path, r) && trace[0] == nodes && trace[|path|] == nodes';
    TraceGrows(w, trace, a, ls, 0, path, r, 0, |path|);
    if r.Some? { TraceKnown(w, trace, a, ls, path, r.value); }
  }

  lemma PathSettled(w: World, nodes: Nodes, a: Args, ls: seq<string>, path: seq<string>)
    requires AllTogether(w, nodes, a, ls, path) && NoEmpty(nodes) && AllFit(w, ls) && FileFits(a.file)
    requires forall j :: 0 <= j < |path| ==> w.alias(ls[j]) == None
    ensures AllSettled(w, nodes, a, ls, path)
  {
    var c, d :| Component(c) && Component(d) && a.file == FileOf(c, d);
    forall j | 0 <= j < |path| ensures Settled(w, nodes, a, ls[j], path[j]) {
      assert Together(w, nodes, a, ls[j], path[j]) && Fit(NameFor(w, ls[j]));
      assert NoEmptyAt(nodes, a.dir, ls[j], c, d);
    }
  }
}
