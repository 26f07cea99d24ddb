/** Making a search again that has found something: when it finds the same. */
module SearchAgain {
  import opened Options
  import opened LocaleName
  import opened CatalogList
  import opened FindDomain
  import opened TranslationSearch
  import opened SplitSearch
  import opened TwoNodeLocales

  function Built(w: World, a: Args, locale: string): string { BuiltPath(a.dir, NameFor(w, locale), a.file) }

  /** A search for the locale has started from f. */
  ghost predicate StartedAt(w: World, nodes: Nodes, a: Args, locale: string, f: string) {
    f in nodes && (f == NodeOf(locale, a) || f == Built(w, a, locale))
  }

  /** A search by this path has found the hit, and would find it from there again. */
  ghost predicate Known(w: World, nodes: Nodes, a: Args, ls: seq<string>, path: seq<string>, hit: Hit) {
    && path != [] && |path| <= |ls|
    && forall j :: 0 <= j < |path| ==> KnownAt(w, nodes, a, ls, path, hit, j)
  }

  ghost predicate KnownAt(w: World, nodes: Nodes, a: Args, ls: seq<string>, path: seq<string>, hit: Hit, j: nat)
    requires j < |path|
  {
    && !Over(ls, j) && StartedAt(w, nodes, a, ls[j], path[j])
    && TryNode(w, nodes, path[j], a) == if j == |path| - 1 then Some(hit) else None
  }

  lemma KnownStays(w: World, nodes: Nodes, nodes': Nodes, a: Args, ls: seq<string>, path: seq<string>, hit: Hit)
    requires Known(w, nodes, a, ls, path, hit) && Extends(nodes, nodes') && Closed(nodes)
    ensures Known(w, nodes', a, ls, path, hit)
  {
    forall j | 0 <= j < |path| ensures KnownAt(w, nodes', a, ls, path, hit, j) {
      assert KnownAt(w, nodes, a, ls, path, hit, j);
      TryNodeStays(w, nodes, nodes', path[j], a);
    }
  }

  lemma VisitStarts(w: World, nodes: Nodes, nodes': Nodes, a: Args, locale: string, f: string)
    requires Visit(w, nodes, nodes', a, locale, f)
    ensures StartedAt(w, nodes', a, locale, f)
  {
  }

  lemma TraceKnown(w: World, trace: seq<Nodes>, a: Args, ls: seq<string>, path: seq<string>, hit: Hit)
    requires Trace(w, trace, a, ls, 0, path, Some(hit))
    ensures Known(w, trace[|path|], a, ls, path, hit)
  {
    assert Turn(w, trace, a, ls, 0, path, Some(hit), |path| - 1);
    forall j | 0 <= j < |path| ensures KnownAt(w, trace[|path|], a, ls, path, hit, j) {
      TurnKnown(w, trace, a, ls, path, hit, j, j + 1);
    }
  }

  lemma TurnKnown(w: World, trace: seq<Nodes>, a: Args, ls: seq<string>, path: seq<string>, hit: Hit, j: nat, k: nat)
    requires Trace(w, trace, a, ls, 0, path, Some(hit)) && j < |path| && k == j + 1
    ensures KnownAt(w, trace[|path|], a, ls, path, hit, j)
  {
    assert Turn(w, trace, a, ls, 0, path, Some(hit), j);
    TraceGrows(w, trace, a, ls, 0, path, Some(hit), k, |path|);
    VisitStays(w, trace[j], trace[k], trace[|path|], a, ls[j], path[j]);
  }

  lemma VisitStays(w: World, nodes: Nodes, x: Nodes, y: Nodes, a: Args, locale: string, f: string)
    requires Visit(w, nodes, x, a, locale, f) && Extends(x, y)
    ensures StartedAt(w, y, a, locale, f) && TryNode(w, y, f, a) == TryNode(w, x, f, a)
  {
    VisitStarts(w, nodes, x, a, locale, f);
    TryNodeStays(w, x, y, f, a);
  }

  /** A locale that has been visited adds nothing the next time. */
  lemma VisitAgain(w: World, nodes: Nodes, nodes': Nodes, a: Args, locale: string, f: string, g: string)
    requires StartedAt(w, nodes, a, locale, f) && Visit(w, nodes, nodes', a, locale, g)
    ensures nodes' == nodes && g == StartOf(w, nodes, a, locale)
  {
    SameMap(nodes, nodes', nodes');
  }

  /** Where the next visit starts, if not where this one has. */
  lemma StartsElsewhere(w: World, nodes: Nodes, a: Args, locale: string, f: string)
    requires StartedAt(w, nodes, a, locale, f)
    ensures StartOf(w, nodes, a, locale) in nodes
    ensures StartOf(w, nodes, a, locale) == f
         || (f == Built(w, a, locale) && StartOf(w, nodes, a, locale) == NodeOf(locale, a))
  {
  }

  /** What the next visit finds. */
  ghost function Next(w: World, nodes: Nodes, a: Args, locale: string): Option<Hit> {
    TryNode(w, nodes, StartOf(w, nodes, a, locale), a)
  }

  /** As long as the locales before number j are in vain again, the search made again
      comes to locale j with the list unchanged. */
  lemma {:induction false} ComesTo(w: World, nodes: Nodes, a: Args, ls: seq<string>, path: seq<string>, hit: Hit,
                                   trace: seq<Nodes>, gs: seq<string>, r: Option<Hit>, j: nat)
    requires Known(w, nodes, a, ls, path, hit) && Trace(w, trace, a, ls, 0, gs, r) && trace[0] == nodes
    requires j < |path| && forall i :: 0 <= i < j ==> Next(w, nodes, a, ls[i]) == None
    ensures j < |gs| && trace[j] == trace[j + 1] == nodes && gs[j] == StartOf(w, nodes, a, ls[j])
    ensures Next(w, nodes, a, ls[j]) == if j == |gs| - 1 then r else None
  {
    assert KnownAt(w, nodes, a, ls, path, hit, j);
    if j > 0 { ComesTo(w, nodes, a, ls, path, hit, trace, gs, r, j - 1); }
    assert !Over(ls, j);
    OneLocale(w, nodes, a, ls, path[j], trace, gs, r, j, j + 1);
  }

  lemma OneLocale(w: World, nodes: Nodes, a: Args, ls: seq<string>, f: string,
                  trace: seq<Nodes>, gs: seq<string>, r: Option<Hit>, j: nat, k: nat)
    requires !Over(ls, j) && StartedAt(w, nodes, a, ls[j], f) && k == j + 1
    requires Trace(w, trace, a, ls, 0, gs, r) && j <= |gs| && trace[j] == nodes && (j == |gs| ==> r == None)
    ensures j < |gs| && trace[k] == nodes && gs[j] == StartOf(w, nodes, a, ls[j])
    ensures Next(w, nodes, a, ls[j]) == if k == |gs| then r else None
  {
    assert j < |gs|;
    assert Turn(w, trace, a, ls, 0, gs, r, j);
    VisitAgain(w, nodes, trace[k], a, ls[j], f, gs[j]);
  }

  // ---- any locale --------------------------------------------------------------

  /** The node of the whole name has appeared, and the search once started from
      another. */
  ghost predicate Moved(w: World, nodes: Nodes, a: Args, locale: string, f: string) {
    f == Built(w, a, locale) != NodeOf(locale, a) && NodeOf(locale, a) in nodes
  }

  /** A search made again finds the same unless a locale has moved. */
  lemma SameUnlessMoved(w: World, nodes: Nodes, nodes': Nodes, a: Args, ls: seq<string>, path: seq<string>, hit: Hit,
                        gs: seq<string>, r: Option<Hit>)
    requires Known(w, nodes, a, ls, path, hit) && Searches(w, nodes, nodes', a, ls, 0, gs, r)
    ensures r == Some(hit) || exists j :: 0 <= j < |path| && Moved(w, nodes, a, ls[j], path[j])
  {
    if forall j :: 0 <= j < |path| ==> !Moved(w, nodes, a, ls[j], path[j]) {
      forall j | 0 <= j < |path| ensures Next(w, nodes, a, ls[j]) == if j == |path| - 1 then Some(hit) else None {
        assert KnownAt(w, nodes, a, ls, path, hit, j);
        StartsElsewhere(w, nodes, a, ls[j], path[j]);
      }
      var trace :| Trace(w, trace, a, ls, 0, gs, r) && trace[0] == nodes && trace[|gs|] == nodes';
      ComesTo(w, nodes, a, ls, path, hit, trace, gs, r, |path| - 1);
    }
  }

  // ---- settled locales ---------------------------------------------------------

  /** The locale is no alias, its two nodes, if it has two, have been made together,
      and if it has an empty part there is no node of its whole name. */
  ghost predicate Settled(w: World, nodes: Nodes, a: Args, locale: string, f: string) {
    && w.alias(locale) == None
    && (TwoNodes(locale) && f == BuiltPath(a.dir, locale, a.file) ==> BothMade(nodes, locale, a))
    && (Parsed(locale).language != [] && SomePartEmpty(Parsed(locale)) ==> NodeOf(locale, a) !in nodes)
  }

  /** A first call for a codeset that is not normalised, whose first file with the
      message is named by the normalised codeset. */
  ghost predicate FirstOdd(w: World, nodes: Nodes, a: Args, locale: string, f: string) {
    && TwoNodes(locale) && Odd(Parsed(locale).codeset) && f == BuiltPath(a.dir, locale, a.file)
    && NormalisedFirst(w, nodes, Explode(locale), a)
  }

  lemma NextDiffers(w: World, nodes: Nodes, a: Args, locale: string, f: string)
    requires StartedAt(w, nodes, a, locale, f) && Settled(w, nodes, a, locale, f)
    ensures Next(w, nodes, a, locale) != TryNode(w, nodes, f, a) <==> FirstOdd(w, nodes, a, locale, f)
    ensures FirstOdd(w, nodes, a, locale, f) ==> Next(w, nodes, a, locale) == TryNode(w, nodes, NodeOf(locale, a), a)
  {
    StartsElsewhere(w, nodes, a, locale, f);
    if TwoNodes(locale) && f == BuiltPath(a.dir, locale, a.file) {
      WholeIsThere(nodes, locale, a);
      if Odd(Parsed(locale).codeset) { FirstAndLater(w, nodes, locale, a); } else { TwinFindsSame(w, nodes, locale, a); }
    } else {
      RegularBuiltIsWhole(a.dir, locale, a.file);
    }
  }

  lemma WholeIsThere(nodes: Nodes, locale: string, a: Args)
    requires TwoNodes(locale) && BothMade(nodes, locale, a)
    ensures NodeOf(locale, a) in nodes
  {
    WholeName(locale, Explode(locale), a);
    if !Odd(Parsed(locale).codeset) { TwinIsAlike(locale); TopTwin(Explode(locale), a); }
  }

  lemma FirstFinds(w: World, nodes: Nodes, locale: string, a: Args)
    requires TwoNodes(locale) && BothMade(nodes, locale, a) && NormalisedFirst(w, nodes, Explode(locale), a)
    ensures TryNode(w, nodes, BuiltPath(a.dir, locale, a.file), a).Some?
  {
    var e := Explode(locale);
    var m: Mask :| Has(m, NORM_CODESET) && FirstFile(w, nodes, e, m, a);
    WholeName(locale, e, a);
    TryMade(w, nodes, e, e.mask, a);
    FirstFileFound(w, nodes, e, m, e.mask, a);
  }

  /** The locales behind the one that the hit came from lead to the same hit. */
  ghost predicate LaterSame(w: World, nodes: Nodes, nodes': Nodes, a: Args, ls: seq<string>, n: nat, hit: Hit) {
    exists hs :: Searches(w, nodes, nodes', a, ls, n, hs, Some(hit))
  }

  /** Exactly when a search made again finds something else: the hit came from a first
      call for a codeset that is not normalised, by a file named by the normalised
      codeset, and neither the locale nor those behind it lead to that file again. */
  lemma DiffersExactly(w: World, nodes: Nodes, nodes': Nodes, a: Args, ls: seq<string>, path: seq<string>, hit: Hit,
                       gs: seq<string>, r: Option<Hit>)
    requires Known(w, nodes, a, ls, path, hit) && Searches(w, nodes, nodes', a, ls, 0, gs, r)
    requires AllSettled(w, nodes, a, ls, path)
    ensures r != Some(hit) <==> LastOdd(w, nodes, a, ls, path) && !FoundLater(w, nodes, nodes', a, ls, path, hit)
  {
    LastDiffers(w, nodes, a, ls, path, hit, |path| - 1);
    InVainAgain(w, nodes, a, ls, path, hit);
    FromLast(w, nodes, nodes', a, ls, path, hit, gs, r, |path| - 1, |path|);
  }

  lemma LastDiffers(w: World, nodes: Nodes, a: Args, ls: seq<string>, path: seq<string>, hit: Hit, k: nat)
    requires Known(w, nodes, a, ls, path, hit) && AllSettled(w, nodes, a, ls, path) && k == |path| - 1
    ensures Next(w, nodes, a, ls[k]) != Some(hit) <==> FirstOdd(w, nodes, a, ls[k], path[k])
    ensures FirstOdd(w, nodes, a, ls[k], path[k]) ==> Next(w, nodes, a, ls[k]) == TryNode(w, nodes, NodeOf(ls[k], a), a)
  {
    assert KnownAt(w, nodes, a, ls, path, hit, k);
    NextDiffers(w, nodes, a, ls[k], path[k]);
  }

  /** The search made again ends at the locale of the hit or behind it. */
  lemma FromLast(w: World, nodes: Nodes, nodes': Nodes, a: Args, ls: seq<string>, path: seq<string>, hit: Hit,
                 gs: seq<string>, r: Option<Hit>, k: nat, n: nat)
    requires Known(w, nodes, a, ls, path, hit) && Searches(w, nodes, nodes', a, ls, 0, gs, r)
    requires k == |path| - 1 && n == k + 1 && forall j :: 0 <= j < k ==> Next(w, nodes, a, ls[j]) == None
    ensures Next(w, nodes, a, ls[k]) != None ==> r == Next(w, nodes, a, ls[k])
    ensures Next(w, nodes, a, ls[k]) == None ==> (r == Some(hit) <==> LaterSame(w, nodes, nodes', a, ls, n, hit))
  {
    var trace :| Trace(w, trace, a, ls, 0, gs, r) && trace[0] == nodes && trace[|gs|] == nodes';
    ComesTo(w, nodes, a, ls, path, hit, trace, gs, r, k);
    if Next(w, nodes, a, ls[k]) == None { RestOf(w, nodes, nodes', trace, a, ls, gs, r, n, hit); }
  }

  ghost predicate AllSettled(w: World, nodes: Nodes, a: Args, ls: seq<string>, path: seq<string>)
    requires |path| <= |ls|
  {
    forall j :: 0 <= j < |path| ==> Settled(w, nodes, a, ls[j], path[j])
  }

  /** The hit came from a first call for an odd codeset. */
  ghost predicate LastOdd(w: World, nodes: Nodes, a: Args, ls: seq<string>, path: seq<string>)
    requires 0 < |path| <= |ls|
  {
    FirstOdd(w, nodes, a, ls[|path| - 1], path[|path| - 1])
  }

  /** Its locale is in vain now, and those behind it lead to the same hit. */
  ghost predicate FoundLater(w: World, nodes: Nodes, nodes': Nodes, a: Args, ls: seq<string>, path: seq<string>, hit: Hit)
    requires 0 < |path| <= |ls|
  {
    TryNode(w, nodes, NodeOf(ls[|path| - 1], a), a) == None && LaterSame(w, nodes, nodes', a, ls, |path|, hit)
  }

  /** The locales that were in vain before are in vain again. */
  lemma InVainAgain(w: World, nodes: Nodes, a: Args, ls: seq<string>, path: seq<string>, hit: Hit)
    requires Known(w, nodes, a, ls, path, hit) && AllSettled(w, nodes, a, ls, path)
    ensures forall j :: 0 <= j < |path| - 1 ==> Next(w, nodes, a, ls[j]) == None
  {
    forall j | 0 <= j < |path| - 1 ensures Next(w, nodes, a, ls[j]) == None {
      assert KnownAt(w, nodes, a, ls, path, hit, j);
      VainAgain(w, nodes, a, ls[j], path[j]);
    }
  }

  lemma VainAgain(w: World, nodes: Nodes, a: Args, locale: string, f: string)
    requires StartedAt(w, nodes, a, locale, f) && Settled(w, nodes, a, locale, f) && TryNode(w, nodes, f, a) == None
    ensures Next(w, nodes, a, locale) == None
  {
    NextDiffers(w, nodes, a, locale, f);
    if FirstOdd(w, nodes, a, locale, f) { FirstFinds(w, nodes, locale, a); }
  }

  /** Something can only be found behind if a locale is left there. */
  lemma LaterIsLeft(w: World, nodes: Nodes, nodes': Nodes, a: Args, ls: seq<string>, n: nat, hit: Hit)
    requires LaterSame(w, nodes, nodes', a, ls, n, hit)
    ensures !Over(ls, n)
  {
    var hs :| Searches(w, nodes, nodes', a, ls, n, hs, Some(hit));
    var trace :| Trace(w, trace, a, ls, n, hs, Some(hit)) && trace[0] == nodes && trace[|hs|] == nodes';
    assert Turn(w, trace, a, ls, n, hs, Some(hit), 0);
  }

  lemma RestOf(w: World, nodes: Nodes, nodes': Nodes, trace: seq<Nodes>, a: Args, ls: seq<string>, gs: seq<string>, r: Option<Hit>,
               n: nat, hit: Hit)
    requires Trace(w, trace, a, ls, 0, gs, r) && 0 < n <= |gs| && (n == |gs| ==> r == None)
    requires trace[n] == nodes && trace[|gs|] == nodes'
    ensures r == Some(hit) <==> LaterSame(w, nodes, nodes', a, ls, n, hit)
  {
    RestTrace(w, trace, a, ls, gs, r, n);
    var rest := trace[n..];
    assert rest[0] == nodes && rest[|gs[n..]|] == nodes';
    assert Searches(w, nodes, nodes', a, ls, n, gs[n..], r);
    if LaterSame(w, nodes, nodes', a, ls, n, hit) {
      var hs :| Searches(w, nodes, nodes', a, ls, n, hs, Some(hit));
      SearchesOne(w, nodes, nodes', a, ls, n, gs[n..], r, hs, Some(hit));
    }
  }

  lemma RestTrace(w: World, trace: seq<Nodes>, a: Args, ls: seq<string>, gs: seq<string>, r: Option<Hit>, n: nat)
    requires Trace(w, trace, a, ls, 0, gs, r) && n <= |gs| && (n == |gs| ==> r == None)
    ensures Trace(w, trace[n..], a, ls, n, gs[n..], r)
  {
    forall j | 0 <= j < |gs[n..]| ensures Turn(w, trace[n..], a, ls, n, gs[n..], r, j) {
      assert Turn(w, trace, a, ls, 0, gs, r, n + j);
    }
  }
}
