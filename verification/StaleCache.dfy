/** What the 32 bits of the counter cost: an entry that is 2^32 changes old hits
    again, however wrong it has become. */
module StaleCache {
  import opened Options
  import opened LocaleName
  import opened CatalogList
  import opened TranslationSearch
  import opened TranslationCache
  import opened GrownLists
  import Bindings
  import SeparatePaths

  /** Every file translates every message by its own name; German only. */
  ghost function Example(): World {
    World((file, codeset, msgid) => Some(file), (category, localename) => ["de"], locale => None,
          category => "LC_MESSAGES", None, "/a", (file, n) => 0, file => 1)
  }

  ghost function Asked(): Query { Query("hello", "prog", "", 5) }

  function ArgsIn(dir: string): Args { Args(dir, SeparatePaths.FileOf("LC_MESSAGES", "prog"), None, "hello") }

  function FileIn(dir: string): string { NodeOf("de", ArgsIn(dir)) }

  function HitIn(dir: string): Hit { Hit(FileIn(dir), FileIn(dir)) }

  ghost function Rebound(): map<string, Bindings.Value> { map["prog" := Bindings.Value("/b", None)] }

  ghost function NodesOf(): Nodes { map[FileIn("/a") := Info(false, [])] }

  /** Looked up once, and epoch changes in all. */
  ghost function After(bound: map<string, Bindings.Value>, epoch: nat): State {
    State(bound, epoch, NodesOf(), map[Asked() := Entry(0, HitIn("/a"))], map[Asked() := [FileIn("/a")]])
  }

  lemma ParsedDe()
    ensures Parsed("de") == Raw("de", None, None, None)
  {
    var r := Raw("de", None, None, None);
    assert Written(r) == "de";
    ParsedOfWritten(r);
  }

  lemma OtherFile()
    ensures FileIn("/a") != FileIn("/b")
  {
    assert FileIn("/a")[1] == 'a' && FileIn("/b")[1] == 'b';
  }

  lemma FirstLookup(s: State)
    requires Init(s)
    ensures LookupStep(Example(), s, After(map[], 0), Asked(), Some(HitIn("/a")))
  {
    var w, q, a := Example(), Asked(), ArgsIn("/a");
    ParsedDe();
    PlainVisit(w, s.nodes, a, "de", FileIn("/a"));
    assert ArgsOf(w, s.bound, q, "/a") == a && LocalesOf(w, q) == ["de"];
    assert s.nodes[FileIn("/a") := Info(false, [])] == NodesOf();
    assert FullSearch(w, s, q, NodesOf(), [FileIn("/a")], Some(HitIn("/a")));
  }

  lemma ThenBind()
    ensures BindStep(Example(), After(map[], 0), After(Rebound(), 1), Some("prog"), Some(Some("/b")), None)
  {
    assert "prog" in Rebound();
    assert Bindings.Bound(map[], "/a", Some("prog"), Some(Some("/b")), None) == Rebound();
  }

  /** A full search goes to the new directory. */
  lemma SearchesElsewhere(epoch: nat) returns (nodes: Nodes)
    ensures FullSearch(Example(), After(Rebound(), epoch), Asked(), nodes, [FileIn("/b")], Some(HitIn("/b")))
  {
    var w, q, s, a := Example(), Asked(), After(Rebound(), epoch), ArgsIn("/b");
    ParsedDe();
    OtherFile();
    nodes := s.nodes[FileIn("/b") := Info(false, [])];
    PlainVisit(w, s.nodes, a, "de", FileIn("/b"));
    assert DirOf(w, s.bound, q.domainname) == Some("/b");
    assert ArgsOf(w, s.bound, q, "/b") == a && LocalesOf(w, q) == ["de"];
  }

  lemma LongerRun(w: World, asked: iset<Query>, states: seq<State>, s: State)
    requires Run(w, asked, states) && Step(w, asked, states[|states| - 1], s)
    ensures Run(w, asked, states + [s])
  {
    var more := states + [s];
    forall i | 0 < i < |more| ensures Step(w, asked, more[i - 1], more[i]) {
      if i < |states| { assert more[i - 1] == states[i - 1] && more[i] == states[i]; }
    }
  }

  lemma {:induction false} ManyChanges(n: nat) returns (states: seq<State>)
    requires n > 0
    ensures Run(Example(), iset{Asked()}, states) && states[|states| - 1] == After(Rebound(), n)
  {
    var w, asked := Example(), iset{Asked()};
    if n == 1 {
      var s0, s1, s2 := State(map[], 0, map[], map[], map[]), After(map[], 0), After(Rebound(), 1);
      FirstLookup(s0);
      ThenBind();
      LongerRun(w, asked, [s0], s1);
      LongerRun(w, asked, [s0] + [s1], s2);
      states := [s0] + [s1] + [s2];
    } else {
      var before := ManyChanges(n - 1);
      var s := After(Rebound(), n);
      assert TextDomainStep(After(Rebound(), n - 1), s);
      LongerRun(w, asked, before, s);
      states := before + [s];
    }
  }

  /** The run ends with a hit that says something else than a full search would. */
  ghost predicate WrongHit(w: World, asked: iset<Query>, states: seq<State>, q: Query, nodes: Nodes, gs: seq<string>, r: Option<Hit>) {
    && Run(w, asked, states)
    && var s := states[|states| - 1];
       Hits(s, q) && FullSearch(w, s, q, nodes, gs, r) && r != Some(s.cache[q].hit)
  }

  /** After exactly 2^32 changes the cache answers from the directory bound before. */
  lemma StaleHit() returns (states: seq<State>, nodes: Nodes)
    ensures WrongHit(Example(), iset{Asked()}, states, Asked(), nodes, [FileIn("/b")], Some(HitIn("/b")))
    ensures states[|states| - 1].epoch == WRAP
  {
    states := ManyChanges(WRAP);
    nodes := SearchesElsewhere(WRAP);
    OtherFile();
  }

  lemma ExampleIsSteady()
    ensures Steady(Example(), iset{Asked()}, Asked())
  {
    ParsedDe();
    assert LocalesOf(Example(), Asked()) == ["de"];
  }

  /** A query for steady locales can meet a wrong hit after at most n changes. */
  ghost predicate SteadyWrongPossible(n: nat) {
    exists w, asked, states: seq<State>, q, nodes, gs, r ::
      Steady(w, asked, q) && WrongHit(w, asked, states, q, nodes, gs, r) && states[|states| - 1].epoch <= n
  }

  /** For steady locales the cache can be wrong exactly when the counter has had time
      to come round. */
  lemma WrongIffWrapped(n: nat)
    ensures SteadyWrongPossible(n) <==> n >= WRAP
  {
    if n >= WRAP {
      var states, nodes := StaleHit();
      ExampleIsSteady();
    } else if SteadyWrongPossible(n) {
      var w, asked, states: seq<State>, q, nodes, gs, r :|
        Steady(w, asked, q) && WrongHit(w, asked, states, q, nodes, gs, r) && states[|states| - 1].epoch <= n;
      SteadyCoherent(w, asked, states, |states| - 1, q, nodes, gs, r);
      assert false;
    }
  }
}
