/** The cache of found translations, and exactly when what it says is still true. */
module TranslationCache {
  import opened Options
  import opened Int32
  import opened CStrings
  import opened CatalogList
  import opened TranslationSearch
  import opened SeparatePaths
  import opened SearchAgain
  import opened SettledSearch
  import opened TwoNodeLocales
  import Bindings
  import FindDomain
  import LocaleName
  import Plural

  /** What an entry of the search tree is filed under. */
  datatype Query = Query(msgid: string, domainname: string, localename: string, category: int)

  /** transcmp, by the sign of its result. */
  function Transcmp(p: Query, q: Query): int {
    var byMsgid := Strcmp(p.msgid, q.msgid);
    if byMsgid != 0 then byMsgid
    else
      var byDomain := Strcmp(p.domainname, q.domainname);
      if byDomain != 0 then byDomain
      else
        var byLocale := Strcmp(p.localename, q.localename);
        if byLocale != 0 then byLocale else p.category - q.category
  }

  /** The tree is ordered by it, and tells any two queries apart: it is a map. */
  lemma TranscmpOrders(p: Query, q: Query, r: Query)
    ensures Transcmp(p, q) == 0 <==> p == q
    ensures Transcmp(p, q) < 0 <==> Transcmp(q, p) > 0
    ensures Transcmp(p, q) < 0 && Transcmp(q, r) < 0 ==> Transcmp(p, r) < 0
  {
    StrcmpZero(p.msgid, q.msgid);
    StrcmpZero(p.domainname, q.domainname);
    StrcmpZero(p.localename, q.localename);
    StrcmpSwap(p.msgid, q.msgid);
    StrcmpSwap(p.domainname, q.domainname);
    StrcmpSwap(p.localename, q.localename);
    if Transcmp(p, q) < 0 && Transcmp(q, r) < 0 { TranscmpTrans(p, q, r); }
  }

  lemma StrcmpTrans(a: string, b: string, c: string)
    requires Strcmp(a, b) <= 0 && Strcmp(b, c) <= 0
    ensures Strcmp(a, c) <= 0 && (Strcmp(a, c) == 0 <==> Strcmp(a, b) == 0 && Strcmp(b, c) == 0)
  {
    StrcmpZero(a, b);
    StrcmpZero(b, c);
    StrcmpZero(a, c);
    if Strcmp(a, b) < 0 && Strcmp(b, c) < 0 { BeforeTrans(a, b, c); }
  }

  lemma TranscmpTrans(p: Query, q: Query, r: Query)
    requires Transcmp(p, q) < 0 && Transcmp(q, r) < 0
    ensures Transcmp(p, r) < 0
  {
    StrcmpTrans(p.msgid, q.msgid, r.msgid);
    if Strcmp(p.msgid, r.msgid) == 0 {
      StrcmpTrans(p.domainname, q.domainname, r.domainname);
      if Strcmp(p.domainname, r.domainname) == 0 { StrcmpTrans(p.localename, q.localename, r.localename); }
    }
  }

  // ---- states ------------------------------------------------------------------

  /** A translation, where it is from, and the counter when it was found. */
  datatype Entry = Entry(epoch: nat, hit: Hit)

  /** epoch counts the changes; _nl_msg_cat_cntr holds its low 32 bits.  paths is a
      record for the proofs: which nodes the search behind an entry started from. */
  datatype State = State(bound: map<string, Bindings.Value>, epoch: nat, nodes: Nodes, cache: map<Query, Entry>,
                         paths: map<Query, seq<string>>)

  /** The directory of a domain; None if it is relative and there is no knowing to what. */
  function DirOf(w: World, bound: map<string, Bindings.Value>, domainname: string): Option<string> {
    if domainname !in bound then Some(w.defaultDir)
    else
      var dir := bound[domainname].dirname;
      if Absolute(dir) then Some(dir)
      else if w.cwd.Some? then Some(w.cwd.value + ['/'] + dir)
      else None
  }

  function CodesetOf(bound: map<string, Bindings.Value>, domainname: string): Option<string> {
    if domainname in bound then bound[domainname].codeset else None
  }

  function LocalesOf(w: World, q: Query): seq<string> { w.locales(q.category, q.localename) }

  function FileAsked(w: World, q: Query): string { FileOf(w.categoryName(q.category), q.domainname) }

  function ArgsOf(w: World, bound: map<string, Bindings.Value>, q: Query, dir: string): Args {
    Args(dir, FileAsked(w, q), CodesetOf(bound, q.domainname), q.msgid)
  }

  /** A full search, from the list that there is: it leaves the list nodes, has
      started from the nodes of the path, and finds r. */
  ghost predicate FullSearch(w: World, s: State, q: Query, nodes: Nodes, path: seq<string>, r: Option<Hit>) {
    match DirOf(w, s.bound, q.domainname)
    case None => nodes == s.nodes && path == [] && r == None
    case Some(dir) => Searches(w, s.nodes, nodes, ArgsOf(w, s.bound, q, dir), LocalesOf(w, q), 0, path, r)
  }

  /** The entry is there and its counter is the current one. */
  predicate Hits(s: State, q: Query) {
    q in s.cache && Signed(s.cache[q].epoch) == Signed(s.epoch)
  }

  /** What a full search leaves behind. */
  function Filed(s: State, q: Query, nodes: Nodes, path: seq<string>, r: Option<Hit>): State {
    if r.None? then s.(nodes := nodes)
    else State(s.bound, s.epoch, nodes, s.cache[q := Entry(s.epoch, r.value)], s.paths[q := path])
  }

  ghost predicate LookupStep(w: World, s: State, s': State, q: Query, r: Option<Hit>) {
    if Hits(s, q) then s' == s && r == Some(s.cache[q].hit)
    else exists path :: FullSearch(w, s, q, s'.nodes, path, r) && s' == Filed(s, q, s'.nodes, path, r)
  }

  /** bindtextdomain and bind_textdomain_codeset. */
  ghost predicate BindStep(w: World, s: State, s': State, domainname: Option<string>, dirname: Bindings.Arg, codeset: Bindings.Arg) {
    && s'.bound == Bindings.Bound(s.bound, w.defaultDir, domainname, dirname, codeset)
    && s' == State(s'.bound, s.epoch + if s'.bound != s.bound then 1 else 0, s.nodes, s.cache, s.paths)
  }

  /** textdomain counts as a change whatever it does. */
  ghost predicate TextDomainStep(s: State, s': State) { s' == s.(epoch := s.epoch + 1) }

  ghost predicate Step(w: World, asked: iset<Query>, s: State, s': State) {
    || TextDomainStep(s, s')
    || (exists d, dirname, codeset :: BindStep(w, s, s', d, dirname, codeset))
    || (exists q, r :: q in asked && LookupStep(w, s, s', q, r))
  }

  ghost predicate Init(s: State) { s == State(map[], 0, map[], map[], map[]) }

  /** Any changes and lookups from the start; only what is in asked is looked up. */
  ghost predicate Run(w: World, asked: iset<Query>, states: seq<State>) {
    && states != [] && Init(states[0])
    && forall i :: 0 < i < |states| ==> Step(w, asked, states[i - 1], states[i])
  }

  /** Neither domains nor categories nor locales hold a slash, and no codeset a dot. */
  ghost predicate Apart(w: World, asked: iset<Query>) {
    forall q :: q in asked ==>
      Component(w.categoryName(q.category)) && Component(q.domainname) && AllFit(w, LocalesOf(w, q))
  }

  /** After a domain has been bound its files are looked for in that directory, behind
      the working directory if it is relative, and read in that codeset. */
  lemma BoundIsSearched(w: World, s: State, s': State, d: string, dir: string, codeset: Bindings.Arg)
    requires BindStep(w, s, s', Some(d), Some(Some(dir)), codeset) && d != []
    ensures DirOf(w, s'.bound, d)
         == if dir != [] && dir[0] == '/' then Some(dir)
            else if w.cwd.Some? then Some(w.cwd.value + "/" + dir)
            else None
    ensures CodesetOf(s'.bound, d) == if codeset.Some? && codeset.value.Some? then codeset.value else CodesetOf(s.bound, d)
    ensures forall e :: e != d ==> DirOf(w, s'.bound, e) == DirOf(w, s.bound, e) && CodesetOf(s'.bound, e) == CodesetOf(s.bound, e)
    ensures d !in s.bound ==> DirOf(w, s.bound, d) == Some(w.defaultDir) && CodesetOf(s.bound, d) == None
  {
  }

  /** The file of a locale: directory, locale, category and domain. */
  lemma FileIs(w: World, s: State, q: Query, dir: string, locale: string)
    requires DirOf(w, s.bound, q.domainname) == Some(dir) && !Absolute(locale)
    ensures var a := ArgsOf(w, s.bound, q, dir);
            && NodeOf(locale, a) == dir + "/" + locale + "/" + w.categoryName(q.category) + "/" + q.domainname + ".mo"
            && a.msgid == q.msgid && a.codeset == CodesetOf(s.bound, q.domainname)
  {
    FindDomain.WholePrinted(locale);
  }

  // ---- what every step keeps ---------------------------------------------------

  /** The search behind the entry would, node by node, find the same now. */
  ghost predicate Current(w: World, asked: iset<Query>, s: State, q: Query, hit: Hit, path: seq<string>) {
    && DirOf(w, s.bound, q.domainname).Some?
    && var a := ArgsOf(w, s.bound, q, DirOf(w, s.bound, q.domainname).value);
       && Known(w, s.nodes, a, LocalesOf(w, q), path, hit)
       && (Apart(w, asked) ==> AllTogether(w, s.nodes, a, LocalesOf(w, q), path))
  }

  ghost predicate EntryOk(w: World, asked: iset<Query>, s: State, q: Query)
    requires q in s.cache
  {
    && q in asked && q in s.paths && s.cache[q].epoch <= s.epoch
    && (s.cache[q].epoch == s.epoch ==> Current(w, asked, s, q, s.cache[q].hit, s.paths[q]))
  }

  ghost predicate Inv(w: World, asked: iset<Query>, s: State) {
    && Closed(s.nodes) && (Apart(w, asked) ==> Orderly(s.nodes))
    && forall q :: q in s.cache ==> EntryOk(w, asked, s, q)
  }

  lemma CurrentStays(w: World, asked: iset<Query>, s: State, s': State, q: Query, hit: Hit, path: seq<string>)
    requires Current(w, asked, s, q, hit, path) && Closed(s.nodes)
    requires s'.bound == s.bound && FindDomain.Extends(s.nodes, s'.nodes)
    ensures Current(w, asked, s', q, hit, path)
  {
    var a, ls := ArgsOf(w, s.bound, q, DirOf(w, s.bound, q.domainname).value), LocalesOf(w, q);
    KnownStays(w, s.nodes, s'.nodes, a, ls, path, hit);
    if Apart(w, asked) {
      forall j | 0 <= j < |path| ensures Together(w, s'.nodes, a, ls[j], path[j]) {
        TogetherStays(w, s.nodes, s'.nodes, a, ls[j], path[j]);
      }
    }
  }

  lemma ApartFits(w: World, asked: iset<Query>, q: Query)
    requires Apart(w, asked) && q in asked
    ensures AllFit(w, LocalesOf(w, q)) && FileFits(FileAsked(w, q))
  {
    assert FileAsked(w, q) == FileOf(w.categoryName(q.category), q.domainname);
  }

  /** A full search keeps the list in order, and what it finds is current. */
  lemma SearchIsCurrent(w: World, asked: iset<Query>, s: State, s': State, q: Query, path: seq<string>, r: Option<Hit>)
    requires Inv(w, asked, s) && q in asked && s'.bound == s.bound && FullSearch(w, s, q, s'.nodes, path, r)
    ensures FindDomain.Extends(s.nodes, s'.nodes) && Closed(s'.nodes) && (Apart(w, asked) ==> Orderly(s'.nodes))
    ensures r.Some? ==> Current(w, asked, s', q, r.value, path)
  {
    if DirOf(w, s.bound, q.domainname).Some? {
      var a, ls := ArgsOf(w, s.bound, q, DirOf(w, s.bound, q.domainname).value), LocalesOf(w, q);
      SearchGrows(w, s.nodes, s'.nodes, a, ls, path, r);
      if Apart(w, asked) {
        ApartFits(w, asked, q);
        SearchOrderly(w, s.nodes, s'.nodes, a, ls, path, r);
      }
    }
  }

  lemma LookupKeepsInv(w: World, asked: iset<Query>, s: State, s': State, q: Query, r: Option<Hit>)
    requires Inv(w, asked, s) && q in asked && LookupStep(w, s, s', q, r)
    ensures Inv(w, asked, s')
  {
    if !Hits(s, q) {
      var path :| FullSearch(w, s, q, s'.nodes, path, r) && s' == Filed(s, q, s'.nodes, path, r);
      SearchIsCurrent(w, asked, s, s', q, path, r);
      forall p | p in s'.cache ensures EntryOk(w, asked, s', p) {
        if p != q || r.None? { OldEntry(w, asked, s, s', p); }
      }
    }
  }

  lemma OldEntry(w: World, asked: iset<Query>, s: State, s': State, p: Query)
    requires Closed(s.nodes) && FindDomain.Extends(s.nodes, s'.nodes) && s'.bound == s.bound && s'.epoch == s.epoch
    requires p in s.cache && p in s'.cache && s'.cache[p] == s.cache[p] && EntryOk(w, asked, s, p)
    requires p in s'.paths && s'.paths[p] == s.paths[p]
    ensures EntryOk(w, asked, s', p)
  {
    if s.cache[p].epoch == s.epoch { CurrentStays(w, asked, s, s', p, s.cache[p].hit, s.paths[p]); }
  }

  lemma ChangeKeepsInv(w: World, asked: iset<Query>, s: State, s': State)
    requires Inv(w, asked, s) && s'.nodes == s.nodes && s'.cache == s.cache && s'.paths == s.paths
    requires s'.epoch > s.epoch || (s'.epoch == s.epoch && s'.bound == s.bound)
    ensures Inv(w, asked, s')
  {
    forall p | p in s'.cache ensures EntryOk(w, asked, s', p) { assert EntryOk(w, asked, s, p); }
  }

  lemma StepKeepsInv(w: World, asked: iset<Query>, s: State, s': State)
    requires Inv(w, asked, s) && Step(w, asked, s, s')
    ensures Inv(w, asked, s')
  {
    if q, r :| q in asked && LookupStep(w, s, s', q, r) {
      LookupKeepsInv(w, asked, s, s', q, r);
    } else {
      ChangeKeepsInv(w, asked, s, s');
    }
  }

  lemma {:induction false} AlwaysInv(w: World, asked: iset<Query>, states: seq<State>, i: nat)
    requires Run(w, asked, states) && i < |states|
    ensures Inv(w, asked, states[i])
  {
    if i > 0 {
      AlwaysInv(w, asked, states, i - 1);
      StepKeepsInv(w, asked, states[i - 1], states[i]);
    }
  }

  const WRAP: nat := 0x1_0000_0000

  lemma SameCounter(a: nat, b: nat)
    requires a <= b < a + WRAP && Signed(a) == Signed(b)
    ensures a == b
  {
  }

  // ---- what a hit is worth -----------------------------------------------------

  /** A hit, from an entry less than 2^32 changes old, and what a full search made at
      this moment would do. */
  ghost predicate FreshHit(w: World, s: State, q: Query, nodes: Nodes, gs: seq<string>, r: Option<Hit>) {
    Hits(s, q) && s.epoch < s.cache[q].epoch + WRAP && FullSearch(w, s, q, nodes, gs, r)
  }

  lemma FreshIsCurrent(w: World, asked: iset<Query>, states: seq<State>, i: nat, q: Query)
    requires Run(w, asked, states) && i < |states|
    requires Hits(states[i], q) && states[i].epoch < states[i].cache[q].epoch + WRAP
    ensures q in asked && q in states[i].paths
    ensures Current(w, asked, states[i], q, states[i].cache[q].hit, states[i].paths[q])
    ensures Apart(w, asked) ==> Orderly(states[i].nodes)
  {
    AlwaysInv(w, asked, states, i);
    assert EntryOk(w, asked, states[i], q);
    SameCounter(states[i].cache[q].epoch, states[i].epoch);
  }

  ghost predicate Recorded(w: World, s: State, q: Query) {
    && q in s.cache && q in s.paths && DirOf(w, s.bound, q.domainname).Some?
    && 0 < |s.paths[q]| <= |LocalesOf(w, q)|
  }

  function ArgsNow(w: World, s: State, q: Query): Args
    requires DirOf(w, s.bound, q.domainname).Some?
  {
    ArgsOf(w, s.bound, q, DirOf(w, s.bound, q.domainname).value)
  }

  /** For a locale that the search behind the entry visited, the node of the whole
      name has appeared, and the search started from another. */
  ghost predicate SomeMoved(w: World, s: State, q: Query)
    requires Recorded(w, s, q)
  {
    exists j :: 0 <= j < |s.paths[q]| && Moved(w, s.nodes, ArgsNow(w, s, q), LocalesOf(w, q)[j], s.paths[q][j])
  }

  /** Cache coherence, on every run and for any locales: a fresh hit says what a full
      search made at that moment would find, unless a locale has moved. */
  lemma Coherent(w: World, asked: iset<Query>, states: seq<State>, i: nat, q: Query, nodes: Nodes, gs: seq<string>, r: Option<Hit>)
    requires Run(w, asked, states) && i < |states| && FreshHit(w, states[i], q, nodes, gs, r)
    ensures Recorded(w, states[i], q) && (r == Some(states[i].cache[q].hit) || SomeMoved(w, states[i], q))
  {
    var s := states[i];
    FreshIsCurrent(w, asked, states, i, q);
    SameUnlessMoved(w, s.nodes, nodes, ArgsNow(w, s, q), LocalesOf(w, q), s.paths[q], s.cache[q].hit, gs, r);
  }

  ghost predicate NoAliases(w: World, q: Query) { forall l :: l in LocalesOf(w, q) ==> w.alias(l) == None }

  /** The entry is from the first call for a codeset that is not normalised, out of a
      file named by the normalised codeset. */
  ghost predicate FromFirstOdd(w: World, s: State, q: Query)
    requires Recorded(w, s, q)
  {
    LastOdd(w, s.nodes, ArgsNow(w, s, q), LocalesOf(w, q), s.paths[q])
  }

  /** A full search finds nothing in the locale of the hit, and the hit behind it. */
  ghost predicate FoundBehind(w: World, s: State, q: Query, nodes: Nodes)
    requires Recorded(w, s, q)
  {
    FoundLater(w, s.nodes, nodes, ArgsNow(w, s, q), LocalesOf(w, q), s.paths[q], s.cache[q].hit)
  }

  /** Exactly when a fresh hit is wrong: it came from the first call for a codeset that
      is not normalised, out of a file named by the normalised codeset, and no locale
      behind leads to that file again. */
  lemma WrongExactly(w: World, asked: iset<Query>, states: seq<State>, i: nat, q: Query, nodes: Nodes, gs: seq<string>, r: Option<Hit>)
    requires Run(w, asked, states) && i < |states| && FreshHit(w, states[i], q, nodes, gs, r)
    requires Apart(w, asked) && NoAliases(w, q)
    ensures Recorded(w, states[i], q)
    ensures r != Some(states[i].cache[q].hit) <==> FromFirstOdd(w, states[i], q) && !FoundBehind(w, states[i], q, nodes)
    ensures FoundBehind(w, states[i], q, nodes) ==> !Over(LocalesOf(w, q), |states[i].paths[q]|)
  {
    FreshIsCurrent(w, asked, states, i, q);
    CurrentSettled(w, asked, states[i], q);
    SettledExactly(w, states[i], q, nodes, gs, r);
    NotBehind(w, states[i], q, nodes);
  }

  lemma CurrentSettled(w: World, asked: iset<Query>, s: State, q: Query)
    requires Apart(w, asked) && q in asked && NoAliases(w, q) && Orderly(s.nodes)
    requires q in s.cache && q in s.paths && Current(w, asked, s, q, s.cache[q].hit, s.paths[q])
    ensures Recorded(w, s, q) && AllSettled(w, s.nodes, ArgsNow(w, s, q), LocalesOf(w, q), s.paths[q])
  {
    ApartFits(w, asked, q);
    PathSettled(w, s.nodes, ArgsNow(w, s, q), LocalesOf(w, q), s.paths[q]);
  }

  lemma SettledExactly(w: World, s: State, q: Query, nodes: Nodes, gs: seq<string>, r: Option<Hit>)
    requires Recorded(w, s, q) && FullSearch(w, s, q, nodes, gs, r)
    requires Known(w, s.nodes, ArgsNow(w, s, q), LocalesOf(w, q), s.paths[q], s.cache[q].hit)
    requires AllSettled(w, s.nodes, ArgsNow(w, s, q), LocalesOf(w, q), s.paths[q])
    ensures r != Some(s.cache[q].hit) <==> FromFirstOdd(w, s, q) && !FoundBehind(w, s, q, nodes)
  {
    DiffersExactly(w, s.nodes, nodes, ArgsNow(w, s, q), LocalesOf(w, q), s.paths[q], s.cache[q].hit, gs, r);
  }

  lemma NotBehind(w: World, s: State, q: Query, nodes: Nodes)
    requires Recorded(w, s, q)
    ensures FoundBehind(w, s, q, nodes) ==> !Over(LocalesOf(w, q), |s.paths[q]|)
  {
    if FoundBehind(w, s, q, nodes) {
      LaterIsLeft(w, s.nodes, nodes, ArgsNow(w, s, q), LocalesOf(w, q), |s.paths[q]|, s.cache[q].hit);
    }
  }

  /** No locale of the query has a codeset that makes its two nodes differ. */
  ghost predicate Steady(w: World, asked: iset<Query>, q: Query) {
    && NoAliases(w, q)
    && ((forall l :: l in LocalesOf(w, q) ==> FindDomain.Regular(l))
        || (Apart(w, asked) && forall l :: l in LocalesOf(w, q) ==> !(TwoNodes(l) && LocaleName.Odd(LocaleName.Parsed(l).codeset))))
  }

  /** For such locales a fresh hit is never wrong. */
  lemma SteadyCoherent(w: World, asked: iset<Query>, states: seq<State>, i: nat, q: Query, nodes: Nodes, gs: seq<string>, r: Option<Hit>)
    requires Run(w, asked, states) && i < |states| && FreshHit(w, states[i], q, nodes, gs, r) && Steady(w, asked, q)
    ensures r == Some(states[i].cache[q].hit)
  {
    if forall l :: l in LocalesOf(w, q) ==> FindDomain.Regular(l) {
      Coherent(w, asked, states, i, q, nodes, gs, r);
      NoneMoved(w, states[i], q);
    } else {
      WrongExactly(w, asked, states, i, q, nodes, gs, r);
    }
  }

  lemma NoneMoved(w: World, s: State, q: Query)
    requires Recorded(w, s, q) && NoAliases(w, q) && forall l :: l in LocalesOf(w, q) ==> FindDomain.Regular(l)
    ensures !SomeMoved(w, s, q)
  {
    if SomeMoved(w, s, q) {
      var a := ArgsNow(w, s, q);
      var j :| 0 <= j < |s.paths[q]| && Moved(w, s.nodes, a, LocalesOf(w, q)[j], s.paths[q][j]);
      FindDomain.RegularBuiltIsWhole(a.dir, LocalesOf(w, q)[j], a.file);
      assert false;
    }
  }

  /** The string handed out for a hit. */
  function Delivered(w: World, hit: Hit, plural: bool, n: nat): string {
    if plural then Plural.Lookup(hit.text, w.pluralEval(hit.file, n), w.nplurals(hit.file)) else Key(hit.text)
  }
}
