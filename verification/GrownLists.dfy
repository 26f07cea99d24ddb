/** Whatever the list of catalogs, a locale can be visited, and the list that this
    leaves can be written down. */
module GrownLists {
  import opened Options
  import opened LocaleName
  import opened CatalogList
  import opened FindDomain
  import opened TranslationSearch

  ghost predicate MaskNames(f: string, e: Exploded, m: Mask, a: Args) {
    (m == e.mask || Lesser(m, e.mask)) && f == FileName(a.dir, m, e, a.file)
  }

  ghost function InfoFor(nodes: Nodes, f: string, e: Exploded, a: Args): Info {
    if f in nodes then nodes[f]
    else if exists m: Mask :: MaskNames(f, e, m, a) then
      var m: Mask :| MaskNames(f, e, m, a);
      MadeInfo(a.dir, m, e, a.file)
    else Info(false, [])
  }

  /** The list after a visit. */
  ghost function Grown(w: World, nodes: Nodes, a: Args, locale: string): Nodes {
    map f | f in NamesAfter(nodes.Keys, a.dir, locale, a.file, w.alias(locale)) ::
      InfoFor(nodes, f, Explode(NameFor(w, locale)), a)
  }

  lemma FallbacksNamed(m: Mask, e: Exploded, a: Args, names: set<string>)
    requires m == e.mask || Lesser(m, e.mask)
    ensures forall i :: 0 <= i < |MadeInfo(a.dir, m, e, a.file).fallbacks| ==>
              MadeInfo(a.dir, m, e, a.file).fallbacks[i] in AllMade(names, a.dir, e.mask, e, a.file)
  {
    FallbacksBelowAre(m, m);
    var fs := Fallbacks(m);
    forall i | 0 <= i < |fs| ensures FileName(a.dir, fs[i], e, a.file) in AllMade(names, a.dir, e.mask, e, a.file) {
      assert fs[i] in fs;
      if m != e.mask { LesserTrans(fs[i], m, e.mask); }
    }
  }

  lemma NewIsMade(nodes: Nodes, f: string, e: Exploded, a: Args)
    requires f !in nodes && f in AllMade(nodes.Keys, a.dir, e.mask, e, a.file)
    ensures IsMade(InfoFor(nodes, f, e, a), f, a.dir, e, a.file)
    ensures forall i :: 0 <= i < |InfoFor(nodes, f, e, a).fallbacks| ==>
              InfoFor(nodes, f, e, a).fallbacks[i] in AllMade(nodes.Keys, a.dir, e.mask, e, a.file)
  {
    if f == FileName(a.dir, e.mask, e, a.file) {
      assert MaskNames(f, e, e.mask, a);
    } else {
      var k: Mask :| Lesser(k, e.mask) && f == FileName(a.dir, k, e, a.file);
      assert MaskNames(f, e, k, a);
    }
    var m: Mask :| MaskNames(f, e, m, a) && InfoFor(nodes, f, e, a) == MadeInfo(a.dir, m, e, a.file);
    assert IsMadeFor(InfoFor(nodes, f, e, a), f, a.dir, m, e, a.file);
    FallbacksNamed(m, e, a, nodes.Keys);
  }

  lemma CanVisit(w: World, nodes: Nodes, a: Args, locale: string)
    requires Closed(nodes)
    ensures Visit(w, nodes, Grown(w, nodes, a, locale), a, locale, StartOf(w, nodes, a, locale))
  {
    var after, e := Grown(w, nodes, a, locale), Explode(NameFor(w, locale));
    forall f | f in after && f !in nodes
      ensures IsMade(after[f], f, a.dir, e, a.file)
      ensures forall i :: 0 <= i < |after[f].fallbacks| ==> after[f].fallbacks[i] in after
    {
      NewIsMade(nodes, f, e, a);
    }
    assert nodes.Keys <= after.Keys;
    assert Closed(after);
  }

  /** A search that has but one locale. */
  lemma Alone(w: World, nodes: Nodes, nodes': Nodes, a: Args, locale: string, f: string)
    requires !IsC(locale) && Visit(w, nodes, nodes', a, locale, f)
    ensures Searches(w, nodes, nodes', a, [locale], 0, [f], TryNode(w, nodes', f, a))
  {
    var trace, r := [nodes, nodes'], TryNode(w, nodes', f, a);
    assert Turn(w, trace, a, [locale], 0, [f], r, 0);
    assert Trace(w, trace, a, [locale], 0, [f], r);
  }

  predicate Plain(name: string) { name != [] && Parsed(name) == Raw(name, None, None, None) }

  /** A locale that stands for but a language gets one node, which falls back on nothing. */
  lemma PlainVisit(w: World, nodes: Nodes, a: Args, locale: string, f: string)
    requires Closed(nodes) && Plain(NameFor(w, locale)) && !IsC(locale)
    requires NodeOf(locale, a) !in nodes && f == NodeOf(NameFor(w, locale), a) && f !in nodes
    ensures Grown(w, nodes, a, locale) == nodes[f := Info(false, [])]
    ensures Searches(w, nodes, nodes[f := Info(false, [])], a, [locale], 0, [f], TryFile(w, nodes[f := Info(false, [])], f, a))
  {
    var after := Grown(w, nodes, a, locale);
    PlainGrown(w, nodes, a, locale, f);
    CanVisit(w, nodes, a, locale);
    RegularBuiltIsWhole(a.dir, NameFor(w, locale), a.file);
    Alone(w, nodes, after, a, locale, f);
    assert after[f].fallbacks == [];
  }

  lemma PlainGrown(w: World, nodes: Nodes, a: Args, locale: string, f: string)
    requires Plain(NameFor(w, locale)) && NodeOf(locale, a) !in nodes && f == NodeOf(NameFor(w, locale), a) && f !in nodes
    ensures Grown(w, nodes, a, locale) == nodes[f := Info(false, [])]
  {
    var after, e := Grown(w, nodes, a, locale), Explode(NameFor(w, locale));
    RegularBuiltIsWhole(a.dir, NameFor(w, locale), a.file);
    NoLesser(e, a);
    assert after.Keys == nodes.Keys + {f};
    NewIsMade(nodes, f, e, a);
    var m: Mask :| (m == e.mask || Lesser(m, e.mask)) && IsMadeFor(after[f], f, a.dir, m, e, a.file);
    assert m == 0 && FallbackNames(Fallbacks(0), a.dir, e, a.file) == [];
    assert after[f] == Info(false, []);
    forall g | g in nodes ensures g in after && after[g] == nodes[g] { assert g in after.Keys; }
  }

  lemma NoLesser(e: Exploded, a: Args)
    requires e.mask == 0
    ensures LesserNames(a.dir, 0, e, a.file) == {}
  {
  }
}
