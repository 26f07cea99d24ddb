/** The full search for a translation: every locale of the list, every catalog
    that a locale falls back on. */
module TranslationSearch {
  import opened Options
  import opened CatalogList
  import opened LocaleName
  import FindDomain

  /** What a search does not change: what the catalog files say (message), which
      locales are asked for, in order, what a locale is an alias of, and how a
      catalog picks plural forms. */
  datatype World = World(message: (string, Option<string>, string) -> Option<string>,
                         locales: (int, string) -> seq<string>,
                         alias: string -> Option<string>,
                         categoryName: int -> string,
                         cwd: Option<string>,
                         defaultDir: string,
                         pluralEval: (string, nat) -> nat,
                         nplurals: string -> nat)

  /** Everything that a search is for. */
  datatype Args = Args(dir: string, file: string, codeset: Option<string>, msgid: string)

  /** The catalog that has the message, and the translation. */
  datatype Hit = Hit(file: string, text: string)

  /** No translation is looked for in these locales. */
  predicate IsC(locale: string) { locale == "C" || locale == "POSIX" }

  function TryFile(w: World, nodes: Nodes, file: string, a: Args): Option<Hit> {
    if file !in nodes || nodes[file].pseudo then None
    else match w.message(file, a.codeset, a.msgid)
         case Some(text) => Some(Hit(file, text))
         case None => None
  }

  function TryFrom(w: World, nodes: Nodes, files: seq<string>, i: nat, a: Args): Option<Hit>
    requires i <= |files|
    decreases |files| - i
  {
    if i == |files| then None
    else
      var here := TryFile(w, nodes, files[i], a);
      if here.Some? then here else TryFrom(w, nodes, files, i + 1, a)
  }

  function TryNode(w: World, nodes: Nodes, file: string, a: Args): Option<Hit> {
    var own := TryFile(w, nodes, file, a);
    if own.Some? || file !in nodes then own else TryFrom(w, nodes, nodes[file].fallbacks, 0, a)
  }

  function NodeOf(locale: string, a: Args): string { FindDomain.WholePath(a.dir, locale, a.file) }

  predicate Over(ls: seq<string>, i: nat) { i >= |ls| || IsC(ls[i]) }

  /** Whatever a node falls back on is there. */
  ghost predicate Closed(nodes: Nodes) {
    forall f, i :: f in nodes && 0 <= i < |nodes[f].fallbacks| ==> nodes[f].fallbacks[i] in nodes
  }

  lemma {:induction false} TryFromStays(w: World, nodes: Nodes, nodes': Nodes, files: seq<string>, i: nat, a: Args)
    requires FindDomain.Extends(nodes, nodes') && i <= |files|
    requires forall k :: 0 <= k < |files| ==> files[k] in nodes
    ensures TryFrom(w, nodes', files, i, a) == TryFrom(w, nodes, files, i, a)
    decreases |files| - i
  {
    if i < |files| { TryFromStays(w, nodes, nodes', files, i + 1, a); }
  }

  lemma TryNodeStays(w: World, nodes: Nodes, nodes': Nodes, file: string, a: Args)
    requires FindDomain.Extends(nodes, nodes') && Closed(nodes) && file in nodes
    ensures TryNode(w, nodes', file, a) == TryNode(w, nodes, file, a)
  {
    TryFromStays(w, nodes, nodes', nodes[file].fallbacks, 0, a);
  }

  /** The file has the message: it is a file, and its text is this. */
  ghost predicate HasText(w: World, nodes: Nodes, file: string, a: Args, text: string) {
    file in nodes && !nodes[file].pseudo && w.message(file, a.codeset, a.msgid) == Some(text)
  }

  ghost predicate LacksText(w: World, nodes: Nodes, file: string, a: Args) { forall text :: !HasText(w, nodes, file, a, text) }

  lemma {:induction false} FirstOfList(w: World, nodes: Nodes, files: seq<string>, i: nat, a: Args)
    requires i <= |files|
    ensures match TryFrom(w, nodes, files, i, a)
            case None => forall k :: i <= k < |files| ==> LacksText(w, nodes, files[k], a)
            case Some(hit) => exists k :: i <= k < |files| && hit.file == files[k] && HasText(w, nodes, files[k], a, hit.text)
                                          && forall j :: i <= j < k ==> LacksText(w, nodes, files[j], a)
    decreases |files| - i
  {
    if i < |files| {
      FirstOfList(w, nodes, files, i + 1, a);
      if TryFile(w, nodes, files[i], a).Some? { assert HasText(w, nodes, files[i], a, TryFile(w, nodes, files[i], a).value.text); }
    }
  }

  /** The search from a node finds the message in the node's own file or, failing that,
      in the first file in the order of its fallbacks that has it. */
  lemma FirstFileHas(w: World, nodes: Nodes, f: string, a: Args)
    requires f in nodes
    ensures match TryNode(w, nodes, f, a)
            case None => LacksText(w, nodes, f, a) && forall k :: 0 <= k < |nodes[f].fallbacks| ==> LacksText(w, nodes, nodes[f].fallbacks[k], a)
            case Some(hit) =>
              || (hit.file == f && HasText(w, nodes, f, a, hit.text))
              || (LacksText(w, nodes, f, a)
                  && exists k :: 0 <= k < |nodes[f].fallbacks|
                                 && hit.file == nodes[f].fallbacks[k] && HasText(w, nodes, nodes[f].fallbacks[k], a, hit.text)
                                 && forall j :: 0 <= j < k ==> LacksText(w, nodes, nodes[f].fallbacks[j], a))
  {
    FirstOfList(w, nodes, nodes[f].fallbacks, 0, a);
  }

  // ---- the search over the locales ---------------------------------------------

  function NameFor(w: World, locale: string): string { w.alias(locale).GetOr(locale) }

  /** The node that a search for the locale starts from, by what is in the list. */
  ghost function StartOf(w: World, nodes: Nodes, a: Args, locale: string): string {
    FindDomain.Returned(nodes.Keys, a.dir, locale, a.file, w.alias(locale))
  }

  /** One locale: the node f to start from, and how the list of catalogs grows. */
  ghost predicate Visit(w: World, nodes: Nodes, nodes': Nodes, a: Args, locale: string, f: string) {
    && f == StartOf(w, nodes, a, locale)
    && FindDomain.Extends(nodes, nodes') && Closed(nodes')
    && nodes'.Keys == FindDomain.NamesAfter(nodes.Keys, a.dir, locale, a.file, w.alias(locale))
    && FindDomain.AllMadeFor(nodes, nodes', a.dir, Explode(NameFor(w, locale)), a.file)
  }

  /** Turn number j of a search over the locales from number i on. */
  ghost predicate Turn(w: World, trace: seq<Nodes>, a: Args, ls: seq<string>, i: nat, path: seq<string>, r: Option<Hit>, j: nat)
    requires |trace| == |path| + 1 && j < |path|
  {
    && !Over(ls, i + j) && Visit(w, trace[j], trace[j + 1], a, ls[i + j], path[j])
    && TryNode(w, trace[j + 1], path[j], a) == if j == |path| - 1 then r else None
  }

  /** A whole search: the list of catalogs before it and after each locale (trace),
      the nodes that it starts from (path), and what it finds. */
  ghost predicate Trace(w: World, trace: seq<Nodes>, a: Args, ls: seq<string>, i: nat, path: seq<string>, r: Option<Hit>) {
    && |trace| == |path| + 1
    && (forall j :: 0 <= j < |path| ==> Turn(w, trace, a, ls, i, path, r, j))
    && if r.Some? then path != [] else Over(ls, i + |path|)
  }

  /** A search from the list nodes on that leaves the list nodes'. */
  ghost predicate Searches(w: World, nodes: Nodes, nodes': Nodes, a: Args, ls: seq<string>, i: nat, path: seq<string>, r: Option<Hit>) {
    exists trace :: Trace(w, trace, a, ls, i, path, r) && trace[0] == nodes && trace[|path|] == nodes'
  }

  /** Nothing is looked for from "C" or "POSIX" on; any other locale is visited. */
  lemma StopsAtC(w: World, nodes: Nodes, nodes': Nodes, a: Args, ls: seq<string>, i: nat, path: seq<string>, r: Option<Hit>)
    requires Searches(w, nodes, nodes', a, ls, i, path, r)
    ensures path == [] <==> i >= |ls| || ls[i] == "C" || ls[i] == "POSIX"
    ensures path == [] ==> r == None && nodes' == nodes
  {
    var trace :| Trace(w, trace, a, ls, i, path, r) && trace[0] == nodes && trace[|path|] == nodes';
    if path != [] { assert Turn(w, trace, a, ls, i, path, r, 0); }
  }

  /** The list only grows. */
  lemma {:induction false} TraceGrows(w: World, trace: seq<Nodes>, a: Args, ls: seq<string>, i: nat, path: seq<string>, r: Option<Hit>,
                                      j: nat, k: nat)
    requires Trace(w, trace, a, ls, i, path, r) && j <= k <= |path|
    ensures FindDomain.Extends(trace[j], trace[k])
    ensures Closed(trace[0]) ==> Closed(trace[k])
    decreases k - j
  {
    if 0 < k { assert Turn(w, trace, a, ls, i, path, r, k - 1); }
    if j < k { TraceGrows(w, trace, a, ls, i, path, r, j, k - 1); }
  }

  /** A search whose list before and after is known finds but one thing. */
  lemma SearchesOne(w: World, nodes: Nodes, nodes': Nodes, a: Args, ls: seq<string>, i: nat, path: seq<string>, r: Option<Hit>,
                    path': seq<string>, r': Option<Hit>)
    requires Searches(w, nodes, nodes', a, ls, i, path, r) && Searches(w, nodes, nodes', a, ls, i, path', r')
    ensures r == r'
  {
    var t :| Trace(w, t, a, ls, i, path, r) && t[0] == nodes && t[|path|] == nodes';
    var u :| Trace(w, u, a, ls, i, path', r') && u[0] == nodes && u[|path'|] == nodes';
    if |path| <= |path'| {
      SameFound(w, t, u, a, ls, i, path, r, path', r');
    } else {
      SameFound(w, u, t, a, ls, i, path', r', path, r);
    }
  }

  /** Where the shorter search ends, the other one ends, too. */
  lemma SameFound(w: World, t: seq<Nodes>, u: seq<Nodes>, a: Args, ls: seq<string>, i: nat,
                  path: seq<string>, r: Option<Hit>, path': seq<string>, r': Option<Hit>)
    requires Trace(w, t, a, ls, i, path, r) && Trace(w, u, a, ls, i, path', r') && |path| <= |path'|
    requires t[0] == u[0] && t[|path|] == u[|path'|]
    ensures r == r'
  {
    var n := |path|;
    SameTurns(w, t, u, a, ls, i, path, r, path', r', n);
    if n > 0 { SameTurn(w, t, u, a, ls, i, path, r, path', r', n, n - 1); }
    NotOver(w, u, a, ls, i, path', r', n);
  }

  lemma NotOver(w: World, trace: seq<Nodes>, a: Args, ls: seq<string>, i: nat, path: seq<string>, r: Option<Hit>, n: nat)
    requires Trace(w, trace, a, ls, i, path, r)
    ensures n < |path| ==> !Over(ls, i + n)
  {
    if n < |path| { assert Turn(w, trace, a, ls, i, path, r, n); }
  }

  /** Turn m, the last of the first search. */
  lemma SameTurn(w: World, t: seq<Nodes>, u: seq<Nodes>, a: Args, ls: seq<string>, i: nat,
                 path: seq<string>, r: Option<Hit>, path': seq<string>, r': Option<Hit>, n: nat, m: nat)
    requires Trace(w, t, a, ls, i, path, r) && Trace(w, u, a, ls, i, path', r') && n == m + 1 == |path| <= |path'|
    requires t[n] == u[n] && path[m] == path'[m]
    ensures r == if n == |path'| then r' else None
  {
    assert Turn(w, t, a, ls, i, path, r, m);
    assert Turn(w, u, a, ls, i, path', r', m);
  }

  lemma {:induction false} SameTurns(w: World, t: seq<Nodes>, u: seq<Nodes>, a: Args, ls: seq<string>, i: nat,
                                     path: seq<string>, r: Option<Hit>, path': seq<string>, r': Option<Hit>, n: nat)
    requires Trace(w, t, a, ls, i, path, r) && Trace(w, u, a, ls, i, path', r') && n <= |path| && n <= |path'|
    requires t[0] == u[0] && t[|path|] == u[|path'|]
    ensures t[n] == u[n] && (n > 0 ==> path[n - 1] == path'[n - 1])
  {
    if n > 0 {
      SameTurns(w, t, u, a, ls, i, path, r, path', r', n - 1);
      NextSame(w, t, u, a, ls, i, path, r, path', r', n, n - 1);
    }
  }

  lemma NextSame(w: World, t: seq<Nodes>, u: seq<Nodes>, a: Args, ls: seq<string>, i: nat,
                 path: seq<string>, r: Option<Hit>, path': seq<string>, r': Option<Hit>, n: nat, m: nat)
    requires Trace(w, t, a, ls, i, path, r) && Trace(w, u, a, ls, i, path', r') && n <= |path| && n <= |path'|
    requires n == m + 1 && t[m] == u[m] && t[|path|] == u[|path'|]
    ensures t[n] == u[n] && path[m] == path'[m]
  {
    assert Turn(w, t, a, ls, i, path, r, m) && Turn(w, u, a, ls, i, path', r', m);
    TraceGrows(w, t, a, ls, i, path, r, n, |path|);
    TraceGrows(w, u, a, ls, i, path', r', n, |path'|);
    SameVisit(w, t[m], t[n], u[n], t[|path|], a, ls[i + m], path[m], path'[m]);
  }

  lemma SameVisit(w: World, nodes: Nodes, x: Nodes, y: Nodes, z: Nodes, a: Args, locale: string, f: string, g: string)
    requires Visit(w, nodes, x, a, locale, f) && Visit(w, nodes, y, a, locale, g)
    requires FindDomain.Extends(x, z) && FindDomain.Extends(y, z)
    ensures x == y && f == g
  {
    SameMap(x, y, z);
  }

  lemma SameMap(x: Nodes, y: Nodes, z: Nodes)
    requires x.Keys == y.Keys && FindDomain.Extends(x, z) && FindDomain.Extends(y, z)
    ensures x == y
  {
    forall f | f in x ensures f in y && x[f] == y[f] { assert f in y.Keys; }
    forall f | f in y ensures f in x { assert f in x.Keys; }
  }
}
