/** A wrong hit without any change in between: for an alias whose own name is that of
    a node that another locale falls back on. */
module AliasCache {
  import opened Options
  import opened LocaleName
  import opened CatalogList
  import opened FindDomain
  import opened TranslationSearch
  import opened TranslationCache
  import opened GrownLists
  import opened StaleCache

  /** german is an alias of de, and only the catalog of de has the message. */
  ghost function Aliased(): World {
    World((file, codeset, msgid) => if file == Named("de") then Some("hallo") else None,
          (category, localename) => [localename], locale => if locale == "german" then Some("de") else None,
          category => "LC_MESSAGES", None, "/a", (file, n) => 0, file => 1)
  }

  function In(localename: string): Query { Query("hello", "prog", localename, 5) }

  function Named(localename: string): string { NodeOf(localename, ArgsIn("/a")) }

  ghost function Both(): iset<Query> { iset{In("german"), In("german@x")} }

  lemma NamesParsed()
    ensures Plain("de") && Parsed("german@x") == Raw("german", None, None, Some("x"))
  {
    var r := Raw("german", None, None, Some("x"));
    assert Written(r) == "german@x";
    ParsedOfWritten(r);
    ParsedDe();
  }

  /** Whatever starts with german is another file. */
  lemma OtherThanDe(e: Exploded, m: Mask)
    requires e.language == "german"
    ensures FileName("/a", m, e, ArgsIn("/a").file) != Named("de")
  {
    WholePrinted("de");
    assert Printed(m, e)[0] == 'g' && "de"[0] == 'd';
    if FileName("/a", m, e, ArgsIn("/a").file) == Named("de") {
      PathInjective("/a", Printed(m, e), "de", false, ArgsIn("/a").file);
    }
  }

  // ---- the alias ---------------------------------------------------------------

  ghost function NodesDe(): Nodes { map[Named("de") := Info(false, [])] }

  function HitDe(): Hit { Hit(Named("de"), "hallo") }

  ghost function Once(nodes: Nodes): State {
    State(map[], 0, nodes, map[In("german") := Entry(0, HitDe())], map[In("german") := [Named("de")]])
  }

  lemma IsFullSearch(s: State, localename: string, nodes: Nodes, f: string, r: Option<Hit>)
    requires s.bound == map[] && Searches(Aliased(), s.nodes, nodes, ArgsIn("/a"), [localename], 0, [f], r)
    ensures FullSearch(Aliased(), s, In(localename), nodes, [f], r)
  {
    var w, q := Aliased(), In(localename);
    assert ArgsOf(w, map[], q, "/a") == ArgsIn("/a") && LocalesOf(w, q) == [localename];
  }

  lemma AliasFound(s: State)
    requires Init(s)
    ensures LookupStep(Aliased(), s, Once(NodesDe()), In("german"), Some(HitDe()))
  {
    NamesParsed();
    PlainVisit(Aliased(), s.nodes, ArgsIn("/a"), "german", Named("de"));
    assert s.nodes[Named("de") := Info(false, [])] == NodesDe();
    IsFullSearch(s, "german", NodesDe(), Named("de"), Some(HitDe()));
    assert Once(NodesDe()) == Filed(s, In("german"), NodesDe(), [Named("de")], Some(HitDe()));
  }

  // ---- the other locale --------------------------------------------------------

  lemma {:induction false} InNone(w: World, nodes: Nodes, files: seq<string>, i: nat, a: Args)
    requires w == Aliased() && i <= |files| && forall k :: 0 <= k < |files| ==> files[k] != Named("de")
    ensures TryFrom(w, nodes, files, i, a) == None
    decreases |files| - i
  {
    if i < |files| { InNone(w, nodes, files, i + 1, a); }
  }

  /** No node made for german@x leads to the catalog of de. */
  lemma NothingFound(nodes: Nodes, f: string, e: Exploded)
    requires f in nodes && e.language == "german" && IsMade(nodes[f], f, "/a", e, ArgsIn("/a").file)
    ensures TryNode(Aliased(), nodes, f, ArgsIn("/a")) == None
  {
    var m: Mask :| (m == e.mask || Lesser(m, e.mask)) && IsMadeFor(nodes[f], f, "/a", m, e, ArgsIn("/a").file);
    OtherThanDe(e, m);
    forall k | 0 <= k < |nodes[f].fallbacks| ensures nodes[f].fallbacks[k] != Named("de") {
      OtherThanDe(e, Fallbacks(m)[k]);
    }
    InNone(Aliased(), nodes, nodes[f].fallbacks, 0, ArgsIn("/a"));
  }

  /** A locale with but a language and a modifier. */
  lemma ModifiedNames(l: string, r: Raw, e: Exploded, a: Args)
    requires r == Parsed(l) && e == Explode(l) && r.language != [] && r.territory == None && r.codeset == None && Filled(r.modifier)
    ensures Regular(l) && Lesser(0, e.mask) && e.language == r.language && Name0(e, a) == NodeOf(r.language, a)
  {
    MaskOfHas(false, false, false, true);
  }

  function Name0(e: Exploded, a: Args): string { FileName(a.dir, 0, e, a.file) }

  /** Its first visit makes a node of the language, too. */
  lemma ModifiedVisit(w: World, nodes: Nodes, nodes': Nodes, a: Args, l: string, e: Exploded)
    requires Closed(nodes) && w.alias(l) == None && e == Explode(l) && Regular(l) && Lesser(0, e.mask)
    requires NodeOf(l, a) !in nodes && nodes' == Grown(w, nodes, a, l)
    ensures Visit(w, nodes, nodes', a, l, NodeOf(l, a)) && NodeOf(l, a) in nodes' && Name0(e, a) in nodes'
  {
    CanVisit(w, nodes, a, l);
    RegularBuiltIsWhole(a.dir, l, a.file);
    assert Name0(e, a) in LesserNames(a.dir, e.mask, e, a.file);
    assert Name0(e, a) in nodes'.Keys && NodeOf(l, a) in nodes'.Keys;
  }

  lemma NoAlias(l: string)
    requires l == "german@x"
    ensures Aliased().alias(l) == None && !IsC(l)
  {
    assert |l| == 8;
  }

  /** The visit of german@x makes a node of the name german. */
  lemma OtherNames(l: string, e: Exploded, a: Args)
    requires l == "german@x" && e == Explode(l) && a == ArgsIn("/a")
    ensures Regular(l) && Lesser(0, e.mask) && e.language == "german" && Name0(e, a) == Named("german")
    ensures Named(l) != Named("de") && Named("german") != Named("de")
  {
    NamesParsed();
    ModifiedNames(l, Parsed(l), e, a);
    RegularBuiltIsWhole(a.dir, l, a.file);
    OtherThanDe(e, e.mask);
    OtherThanDe(e, 0);
  }

  lemma OtherFinds(nodes: Nodes, l: string, f: string, e: Exploded)
    requires Visit(Aliased(), NodesDe(), nodes, ArgsIn("/a"), l, Named(l)) && e == Explode(NameFor(Aliased(), l))
    requires e.language == "german" && f in nodes && f != Named("de")
    ensures TryNode(Aliased(), nodes, f, ArgsIn("/a")) == None
  {
    assert IsMade(nodes[f], f, "/a", e, ArgsIn("/a").file);
    NothingFound(nodes, f, e);
  }

  lemma OtherSearched(nodes: Nodes, l: string)
    requires l == "german@x" && nodes == Grown(Aliased(), NodesDe(), ArgsIn("/a"), l)
    ensures Searches(Aliased(), NodesDe(), nodes, ArgsIn("/a"), [l], 0, [Named(l)], None)
    ensures Closed(nodes) && Named("german") in nodes && TryNode(Aliased(), nodes, Named("german"), ArgsIn("/a")) == None
  {
    var w, a, e := Aliased(), ArgsIn("/a"), Explode(l);
    NoAlias(l);
    OtherNames(l, e, a);
    ModifiedVisit(w, NodesDe(), nodes, a, l, e);
    OtherFinds(nodes, l, Named("german"), e);
    OtherFinds(nodes, l, Named(l), e);
    Alone(w, NodesDe(), nodes, a, l, Named(l));
  }

  lemma SearchedAgain(nodes: Nodes, g: string)
    requires g == "german" && Closed(nodes) && Named(g) in nodes && TryNode(Aliased(), nodes, Named(g), ArgsIn("/a")) == None
    ensures Searches(Aliased(), nodes, nodes, ArgsIn("/a"), [g], 0, [Named(g)], None)
  {
    assert Visit(Aliased(), nodes, nodes, ArgsIn("/a"), g, Named(g));
    Alone(Aliased(), nodes, nodes, ArgsIn("/a"), g, Named(g));
  }

  lemma ThenOther(s: State, nodes: Nodes, l: string)
    requires l == "german@x" && s == Once(NodesDe())
    requires Searches(Aliased(), NodesDe(), nodes, ArgsIn("/a"), [l], 0, [Named(l)], None)
    ensures LookupStep(Aliased(), s, Once(nodes), In(l), None)
  {
    IsFullSearch(s, l, nodes, Named(l), None);
    assert In(l) !in s.cache;
    assert Once(nodes) == Filed(s, In(l), nodes, [Named(l)], None);
  }

  lemma ThreeStates(w: World, asked: iset<Query>, s0: State, s1: State, s2: State)
    requires Init(s0) && Step(w, asked, s0, s1) && Step(w, asked, s1, s2)
    ensures Run(w, asked, [s0] + [s1] + [s2])
  {
    LongerRun(w, asked, [s0], s1);
    LongerRun(w, asked, [s0] + [s1], s2);
  }

  lemma TwoLookups(nodes: Nodes) returns (states: seq<State>)
    requires Searches(Aliased(), NodesDe(), nodes, ArgsIn("/a"), ["german@x"], 0, [Named("german@x")], None)
    ensures Run(Aliased(), Both(), states) && states[|states| - 1] == Once(nodes)
  {
    var s0, s1, s2 := State(map[], 0, map[], map[], map[]), Once(NodesDe()), Once(nodes);
    AliasFound(s0);
    ThenOther(s1, nodes, "german@x");
    ThreeStates(Aliased(), Both(), s0, s1, s2);
    states := [s0] + [s1] + [s2];
  }

  /** Two lookups and no change, and the hit for the alias is not what a full search
      finds: that starts from the node of the name german. */
  lemma WrongAlias() returns (states: seq<State>, nodes: Nodes)
    ensures WrongHit(Aliased(), Both(), states, In("german"), nodes, [Named("german")], None)
    ensures states[|states| - 1].epoch == 0
  {
    nodes := Grown(Aliased(), NodesDe(), ArgsIn("/a"), "german@x");
    OtherSearched(nodes, "german@x");
    states := TwoLookups(nodes);
    SearchedAgain(nodes, "german");
    IsFullSearch(Once(nodes), "german", nodes, Named("german"), None);
  }
}
