/** The loops of the full search, on the list of catalogs. */
module SearchLoops {
  import opened Options
  import opened CatalogList
  import opened FindDomain
  import opened TranslationSearch

  lemma ViewClosed(d: Domains)
    requires d.Valid()
    ensures Closed(d.View())
  {
    var v := d.View();
    forall f, i | f in v && 0 <= i < |v[f].fallbacks| ensures v[f].fallbacks[i] in v {
      var n :| n in d.list && n.filename == f && v[f] == InfoOf(n);
      assert Linked(n, d.list) && n.successor[i] in d.list;
    }
  }

  lemma ViewAt(d: Domains, n: Node)
    requires d.Valid() && n in d.list
    ensures n.filename in d.View() && d.View()[n.filename] == InfoOf(n)
  {
    var v := d.View();
    var m :| m in d.list && m.filename == n.filename && v[n.filename] == InfoOf(m);
    OneName(d.list, n, m);
  }

  /** _nl_find_msg in the file of a node. */
  method FindMsg(w: World, ghost d: Domains, n: Node, a: Args) returns (r: Option<Hit>)
    requires d.Valid() && n in d.list
    ensures r == TryFile(w, d.View(), n.filename, a)
  {
    ViewAt(d, n);
    if n.pseudo { return None; }
    var text := w.message(n.filename, a.codeset, a.msgid);
    return if text.Some? then Some(Hit(n.filename, text.value)) else None;
  }

  /** A node and then, in order, what it falls back on. */
  method FindInNode(w: World, d: Domains, n: Node, a: Args) returns (r: Option<Hit>)
    requires d.Valid() && n in d.list
    ensures r == TryNode(w, d.View(), n.filename, a)
  {
    r := FindMsg(w, d, n, a);
    ViewAt(d, n);
    if r.None? { r := FindInSuccessors(w, d, n.successor, a); }
  }

  method FindInSuccessors(w: World, ghost d: Domains, successor: seq<Node>, a: Args) returns (r: Option<Hit>)
    requires d.Valid() && forall n :: n in successor ==> n in d.list
    ensures r == TryFrom(w, d.View(), SuccessorNames(successor), 0, a)
  {
    ghost var v, files := d.View(), SuccessorNames(successor);
    var cnt := 0;
    while cnt < |successor|
      invariant 0 <= cnt <= |successor|
      invariant TryFrom(w, v, files, 0, a) == TryFrom(w, v, files, cnt, a)
    {
      r := FindMsg(w, d, successor[cnt], a);
      assert files[cnt] == successor[cnt].filename;
      if r.Some? { return; }
      cnt := cnt + 1;
    }
    r := None;
  }

  lemma ViewKeys(d: Domains)
    requires d.Valid()
    ensures d.View().Keys == d.Names()
  {
  }

  /** One locale: its node, made if need be, and what is found from it. */
  method SearchLocale(w: World, d: Domains, a: Args, locale: string) returns (r: Option<Hit>, ghost f: string)
    requires d.Valid()
    modifies d
    ensures d.Valid() && Visit(w, old(d.View()), d.View(), a, locale, f) && r == TryNode(w, d.View(), f, a)
  {
    var n := NodeFor(w, d, a, locale);
    f := n.filename;
    ghost var after := d.View();
    r := FindInNode(w, d, n, a);
    assert d.View() == after;
  }

  /** The node to search from. */
  method NodeFor(w: World, d: Domains, a: Args, locale: string) returns (n: Node)
    requires d.Valid()
    modifies d
    ensures d.Valid() && n in d.list && Visit(w, old(d.View()), d.View(), a, locale, n.filename)
  {
    ViewKeys(d);
    n := Find(d, a.dir, locale, a.file, w.alias(locale));
    ViewKeys(d);
    ViewClosed(d);
  }

  /** The locales of the path have been tried in vain. */
  ghost predicate InVain(w: World, trace: seq<Nodes>, a: Args, ls: seq<string>, path: seq<string>, start: Nodes, nodes: Nodes) {
    && |trace| == |path| + 1 && trace[0] == start && trace[|path|] == nodes
    && forall j :: 0 <= j < |path| ==> Turn(w, trace, a, ls, 0, path, None, j)
  }

  lemma OneMore(w: World, trace: seq<Nodes>, a: Args, ls: seq<string>, path: seq<string>, start: Nodes, nodes: Nodes,
                nodes': Nodes, f: string, r: Option<Hit>)
    requires InVain(w, trace, a, ls, path, start, nodes) && !Over(ls, |path|)
    requires Visit(w, nodes, nodes', a, ls[|path|], f) && r == TryNode(w, nodes', f, a)
    ensures if r.Some? then Searches(w, start, nodes', a, ls, 0, path + [f], r)
            else InVain(w, trace + [nodes'], a, ls, path + [f], start, nodes')
  {
    var trace', path' := trace + [nodes'], path + [f];
    forall j | 0 <= j < |path'| ensures Turn(w, trace', a, ls, 0, path', r, j) {
      if j < |path| { assert Turn(w, trace, a, ls, 0, path, None, j); }
    }
    if r.Some? { assert Trace(w, trace', a, ls, 0, path', r); }
  }

  lemma AllInVain(w: World, trace: seq<Nodes>, a: Args, ls: seq<string>, path: seq<string>, start: Nodes, nodes: Nodes)
    requires InVain(w, trace, a, ls, path, start, nodes) && Over(ls, |path|)
    ensures Searches(w, start, nodes, a, ls, 0, path, None)
  {
    assert Trace(w, trace, a, ls, 0, path, None);
  }

  /** The loop over the locales; path is where it has started from in each. */
  method Search(w: World, d: Domains, a: Args, ls: seq<string>) returns (r: Option<Hit>, ghost path: seq<string>)
    requires d.Valid()
    modifies d
    ensures d.Valid() && Searches(w, old(d.View()), d.View(), a, ls, 0, path, r)
  {
    var i := 0;
    ghost var f;
    ghost var start := d.View();
    ghost var trace := [start];
    path := [];
    while !Over(ls, i)
      invariant d.Valid() && i == |path| && InVain(w, trace, a, ls, path, start, d.View())
      decreases |ls| - i
    {
      ghost var before := d.View();
      r, f := SearchLocale(w, d, a, ls[i]);
      OneMore(w, trace, a, ls, path, start, before, d.View(), f, r);
      trace, path := trace + [d.View()], path + [f];
      if r.Some? { return; }
      i := i + 1;
    }
    AllInVain(w, trace, a, ls, path, start, d.View());
    r := None;
  }
}
