/** A wrong hit without any change in between: for codesets that are not normalised. */
module OddCache {
  import opened Options
  import opened LocaleName
  import opened CatalogList
  import opened FindDomain
  import opened TranslationSearch
  import opened SplitSearch
  import opened TwoNodeLocales
  import opened SeparatePaths
  import opened SearchAgain
  import opened SettledSearch
  import opened TranslationCache
  import opened GrownLists
  import opened StaleCache

  /** The file of the locale that is named by its normalised codeset. */
  function NormalisedFile(l: string): string {
    var e := Explode(l);
    Name(e, if e.mask < CODESET then 0 else e.mask - CODESET, ArgsIn("/a"))
  }

  /** No other file has the message. */
  ghost function OneFile(l: string): World {
    World((file, codeset, msgid) => if file == NormalisedFile(l) then Some("hallo") else None,
          (category, localename) => [l], locale => None,
          category => "LC_MESSAGES", None, "/a", (file, n) => 0, file => 1)
  }

  predicate OddLocale(l: string) { TwoNodes(l) && Odd(Parsed(l).codeset) }

  lemma OddIsNotC(l: string)
    requires OddLocale(l)
    ensures !IsC(l)
  {
    var r := Parsed(l);
    ParsedIs(l);
    var c := Part('.', r.codeset) + Part('@', r.modifier);
    assert c[0] == '.' && c[0] in c;
    assert Written(r) == r.language + (Part('_', r.territory) + c);
    assert '.' in l;
  }

  /** The mask that has the normalised codeset in place of the other. */
  lemma NormalisedMask(l: string, e: Exploded, a: Args) returns (m: Mask)
    requires OddLocale(l) && e == Explode(l) && a == ArgsIn("/a")
    ensures BothCodesets(e.mask) && m == e.mask - CODESET && Lesser(m, e.mask) && Has(m, NORM_CODESET)
    ensures NormalisedFile(l) == Name(e, m, a)
  {
    SplitMinus(l);
    DropCodeset(e.mask);
    CodesetsOff(e.mask, 0);
    m := e.mask - CODESET;
  }

  /** The only mask between is that of the whole name. */
  lemma WholeBetween(l: string, e: Exploded, m: Mask, k: Mask, a: Args)
    requires OddLocale(l) && e == Explode(l) && BothCodesets(e.mask) && m == e.mask - CODESET && Lesser(m, e.mask)
    requires Has(m, NORM_CODESET) && m < k && Lesser(k, e.mask)
    ensures Name(e, k, a) != Name(e, m, a)
  {
    assert k == e.mask - NORM_CODESET;
    CodesetsOff(e.mask, 0);
    NormalisedApart(l, e, m, k, a);
  }

  /** The first call makes a file of the normalised codeset, and it is the first that
      has the message. */
  lemma NormalisedIsFirst(l: string, nodes: Nodes, e: Exploded, a: Args)
    requires OddLocale(l) && e == Explode(l) && a == ArgsIn("/a") && nodes == Grown(OneFile(l), map[], a, l)
    ensures NormalisedFirst(OneFile(l), nodes, e, a)
  {
    var w := OneFile(l);
    var m := NormalisedMask(l, e, a);
    NormalisedMade(l, nodes, e, m, a);
    forall k: Mask | m < k && Lesser(k, e.mask) ensures TryFile(w, nodes, Name(e, k, a), a).None? {
      WholeBetween(l, e, m, k, a);
    }
    assert FirstFile(w, nodes, e, m, a);
  }

  lemma NormalisedMade(l: string, nodes: Nodes, e: Exploded, m: Mask, a: Args)
    requires OddLocale(l) && e == Explode(l) && a == ArgsIn("/a") && nodes == Grown(OneFile(l), map[], a, l)
    requires Lesser(m, e.mask) && NormalisedFile(l) == Name(e, m, a)
    ensures TryFile(OneFile(l), nodes, Name(e, m, a), a).Some?
  {
    var f := Name(e, m, a);
    CanVisit(OneFile(l), map[], a, l);
    LesserIsThere(OneFile(l), nodes, l, e, m, a);
    assert IsMade(nodes[f], f, a.dir, e, a.file);
    NotPseudo(l, nodes, e, f, m, a);
  }

  lemma LesserIsThere(w: World, nodes: Nodes, l: string, e: Exploded, m: Mask, a: Args)
    requires w.alias(l) == None && e == Explode(l) && Lesser(m, e.mask) && nodes == Grown(w, map[], a, l)
    ensures Name(e, m, a) in nodes
  {
    assert Name(e, m, a) in LesserNames(a.dir, e.mask, e, a.file);
    assert Name(e, m, a) in AllMade({}, a.dir, e.mask, e, a.file);
    assert nodes.Keys == NamesAfter({}, a.dir, l, a.file, None);
  }

  lemma NotPseudo(l: string, nodes: Nodes, e: Exploded, f: string, m: Mask, a: Args)
    requires OddLocale(l) && e == Explode(l) && Lesser(m, e.mask) && f == Name(e, m, a)
    requires f in nodes && IsMade(nodes[f], f, a.dir, e, a.file)
    ensures !nodes[f].pseudo
  {
    var k: Mask :| (k == e.mask || Lesser(k, e.mask)) && IsMadeFor(nodes[f], f, a.dir, k, e, a.file);
    BuiltIsOwn(l, e, m, a);
  }

  /** The first lookup. */
  lemma FirstFound(l: string, nodes: Nodes, a: Args, f: string) returns (hit: Hit)
    requires OddLocale(l) && a == ArgsIn("/a") && nodes == Grown(OneFile(l), map[], a, l) && f == BuiltPath(a.dir, l, a.file)
    ensures Closed(nodes) && BothMade(nodes, l, a) && NodeOf(l, a) in nodes && TryNode(OneFile(l), nodes, f, a) == Some(hit)
    ensures Searches(OneFile(l), map[], nodes, a, [l], 0, [f], Some(hit))
  {
    var w, e := OneFile(l), Explode(l);
    OddIsNotC(l);
    CanVisit(w, map[], a, l);
    RegularBuiltIsWhole(a.dir, l, a.file);
    MakesWhole(a.dir, l, a.file);
    BothAsMade(map[], nodes, l, e, a);
    NormalisedIsFirst(l, nodes, e, a);
    FirstFinds(w, nodes, l, a);
    Alone(w, map[], nodes, a, l, f);
    hit := TryNode(w, nodes, f, a).value;
  }

  /** A later search, from the list that the first has left. */
  lemma LaterFound(l: string, nodes: Nodes, a: Args, f: string, hit: Hit) returns (r: Option<Hit>)
    requires OddLocale(l) && a == ArgsIn("/a") && nodes == Grown(OneFile(l), map[], a, l) && f == BuiltPath(a.dir, l, a.file)
    requires Closed(nodes) && BothMade(nodes, l, a) && NodeOf(l, a) in nodes && TryNode(OneFile(l), nodes, f, a) == Some(hit)
    ensures Searches(OneFile(l), nodes, nodes, a, [l], 0, [NodeOf(l, a)], r) && r != Some(hit)
  {
    var w := OneFile(l);
    OddIsNotC(l);
    NormalisedIsFirst(l, nodes, Explode(l), a);
    FirstAndLater(w, nodes, l, a);
    assert Visit(w, nodes, nodes, a, l, NodeOf(l, a));
    Alone(w, nodes, nodes, a, l, NodeOf(l, a));
    r := TryNode(w, nodes, NodeOf(l, a), a);
  }

  ghost function Before(): State { State(map[], 0, map[], map[], map[]) }

  ghost function Once(nodes: Nodes, f: string, hit: Hit): State {
    State(map[], 0, nodes, map[Asked() := Entry(0, hit)], map[Asked() := [f]])
  }

  /** A search made in either state. */
  lemma IsFullSearch(l: string, s: State, nodes: Nodes, f: string, r: Option<Hit>)
    requires s.bound == map[] && Searches(OneFile(l), s.nodes, nodes, ArgsIn("/a"), [l], 0, [f], r)
    ensures FullSearch(OneFile(l), s, Asked(), nodes, [f], r)
  {
    assert ArgsOf(OneFile(l), map[], Asked(), "/a") == ArgsIn("/a") && LocalesOf(OneFile(l), Asked()) == [l];
  }

  lemma OneLookup(l: string, nodes: Nodes, f: string, hit: Hit) returns (states: seq<State>)
    requires Searches(OneFile(l), map[], nodes, ArgsIn("/a"), [l], 0, [f], Some(hit))
    ensures Run(OneFile(l), iset{Asked()}, states) && states[|states| - 1] == Once(nodes, f, hit)
  {
    var s0, s1 := Before(), Once(nodes, f, hit);
    IsFullSearch(l, s0, nodes, f, Some(hit));
    assert s1 == Filed(s0, Asked(), nodes, [f], Some(hit));
    assert LookupStep(OneFile(l), s0, s1, Asked(), Some(hit));
    LongerRun(OneFile(l), iset{Asked()}, [s0], s1);
    states := [s0] + [s1];
  }

  lemma ThenWrong(l: string, states: seq<State>, nodes: Nodes, f: string, hit: Hit, g: string, r: Option<Hit>)
    requires Run(OneFile(l), iset{Asked()}, states) && states[|states| - 1] == Once(nodes, f, hit)
    requires Searches(OneFile(l), nodes, nodes, ArgsIn("/a"), [l], 0, [g], r) && r != Some(hit)
    ensures WrongHit(OneFile(l), iset{Asked()}, states, Asked(), nodes, [g], r)
  {
    IsFullSearch(l, Once(nodes, f, hit), nodes, g, r);
  }

  /** One lookup and no change, and the hit is not what a full search finds. */
  lemma WrongAtOnce(l: string) returns (states: seq<State>, nodes: Nodes, gs: seq<string>, r: Option<Hit>)
    requires OddLocale(l)
    ensures WrongHit(OneFile(l), iset{Asked()}, states, Asked(), nodes, gs, r) && states[|states| - 1].epoch == 0
  {
    var a := ArgsIn("/a");
    var f := BuiltPath(a.dir, l, a.file);
    nodes := Grown(OneFile(l), map[], a, l);
    var hit := FirstFound(l, nodes, a, f);
    states := OneLookup(l, nodes, f, hit);
    r := LaterFound(l, nodes, a, f, hit);
    gs := [NodeOf(l, a)];
    ThenWrong(l, states, nodes, f, hit, NodeOf(l, a), r);
  }

  /** A query for this locale alone can meet a wrong hit after less than 2^32 changes. */
  ghost predicate WrongPossible(l: string) {
    exists w, asked, states: seq<State>, q, nodes, gs, r ::
      AloneAndApart(w, asked, q, l) && WrongHit(w, asked, states, q, nodes, gs, r) && states[|states| - 1].epoch < WRAP
  }

  ghost predicate AloneAndApart(w: World, asked: iset<Query>, q: Query, l: string) {
    LocalesOf(w, q) == [l] && w.alias(l) == None && Apart(w, asked)
  }

  /** The cache can be wrong for a locale before the counter comes round exactly when
      no part of it is empty and its codeset is not normalised. */
  lemma WrongIffOdd(l: string)
    requires Fit(l)
    ensures WrongPossible(l) <==> OddLocale(l)
  {
    if OddLocale(l) {
      var states, nodes, gs, r := WrongAtOnce(l);
      OneFileApart(l);
    } else if WrongPossible(l) {
      NeverWrong(l);
      assert false;
    }
  }

  lemma OneFileApart(l: string)
    requires Fit(l)
    ensures AloneAndApart(OneFile(l), iset{Asked()}, Asked(), l)
  {
    var w, q := OneFile(l), Asked();
    NoSlashes();
    assert LocalesOf(w, q) == [l] && w.categoryName(q.category) == "LC_MESSAGES" && q.domainname == "prog";
    assert AllFit(w, [l]);
  }

  lemma NoSlashes()
    ensures Component("LC_MESSAGES") && Component("prog")
  {
  }

  lemma NeverWrong(l: string)
    requires !OddLocale(l)
    ensures !WrongPossible(l)
  {
    forall w, asked, states: seq<State>, q, nodes, gs, r
      | AloneAndApart(w, asked, q, l) && WrongHit(w, asked, states, q, nodes, gs, r)
      ensures states[|states| - 1].epoch >= WRAP
    {
      assert Steady(w, asked, q);
      if states[|states| - 1].epoch < WRAP { SteadyCoherent(w, asked, states, |states| - 1, q, nodes, gs, r); }
    }
  }

  /** Such as de.UTF8. */
  lemma ForInstance(l: string)
    requires l == "de.UTF8"
    ensures Fit(l) && OddLocale(l)
  {
    ParsedInstance(l);
    CapitalIsOdd(l, "de", "UTF8");
  }

  lemma ParsedInstance(l: string)
    requires l == "de.UTF8"
    ensures Parsed(l) == Raw("de", None, Some("UTF8"), None) && Component(l)
  {
    var r := Raw("de", None, Some("UTF8"), None);
    assert Written(r) == l;
    ParsedOfWritten(r);
  }

  lemma CapitalIsOdd(l: string, g: string, c: string)
    requires Parsed(l) == Raw(g, None, Some(c), None) && Component(l) && g != [] && '.' !in c && c != [] && IsUpper(c[0])
    ensures Fit(l) && OddLocale(l)
  {
    NormalisedIs(c);
    assert Simple(Normalised(c)[0]) && !Simple(c[0]);
  }
}
