/** The calls of the library, on the bindings, the list of catalogs and the cache. */
module Translator {
  import opened Options
  import opened Int32
  import opened CStrings
  import opened CatalogList
  import opened TranslationSearch
  import opened TranslationCache
  import opened SearchLoops
  import Bindings
  import Plural

  const DEFAULT_DOMAIN := "messages"

  lemma Looked(w: World, s: State, s': State, q: Query, path: seq<string>, r: Option<Hit>)
    requires !Hits(s, q) && FullSearch(w, s, q, s'.nodes, path, r) && s' == Filed(s, q, s'.nodes, path, r)
    ensures LookupStep(w, s, s', q, r)
  {
  }

  /** s is the form that the catalog's plural rule picks for n or, if no plural is asked
      for or the catalog has no such form, the first one. */
  ghost predicate HandsOut(w: World, hit: Hit, plural: bool, n: nat, s: string) {
    forall forms :: Plural.Holds(hit.text, forms) ==>
      var i := w.pluralEval(hit.file, n);
      s == if plural && i < w.nplurals(hit.file) && i < |forms| then forms[i] else forms[0]
  }

  lemma DeliveredForm(w: World, hit: Hit, plural: bool, n: nat)
    ensures HandsOut(w, hit, plural, n, Delivered(w, hit, plural, n))
  {
    forall forms | Plural.Holds(hit.text, forms)
      ensures var i := w.pluralEval(hit.file, n);
              Delivered(w, hit, plural, n) == if plural && i < w.nplurals(hit.file) && i < |forms| then forms[i] else forms[0]
    {
      Plural.LookupForm(hit.text, w.pluralEval(hit.file, n), w.nplurals(hit.file), forms);
      Plural.FormOfJoined(forms, 0);
    }
  }

  class Library {
    const table: Bindings.Table
    const domains: Domains
    var cache: map<Query, Entry>
    var current: string             // _nl_current_default_domain
    ghost var paths: map<Query, seq<string>>

    ghost predicate Valid()
      reads this, table, domains, domains.list
    {
      table.Valid() && domains.Valid()
    }

    ghost function Abs(): State
      reads this, table, domains, domains.list
      requires Valid()
    {
      State(table.bound, table.epoch, domains.View(), cache, paths)
    }

    constructor (defaultDir: string)
      ensures Valid() && Init(Abs()) && table.defaultDir == defaultDir && current == "messages"
    {
      table := new Bindings.Table(defaultDir);
      domains := new Domains();
      cache, current, paths := map[], DEFAULT_DOMAIN, map[];
    }

    /** set_binding_values, on behalf of both ways to bind. */
    method Bind(w: World, domainname: Option<string>, dirname: Bindings.Arg, codeset: Bindings.Arg)
      returns (dirname': Option<string>, codeset': Option<string>)
      requires Valid() && table.defaultDir == w.defaultDir
      modifies table
      ensures Valid() && BindStep(w, old(Abs()), Abs(), domainname, dirname, codeset)
    {
      dirname', codeset' := table.SetBindingValues(domainname, dirname, codeset);
    }

    /** textdomain. */
    method TextDomain(domainname: Option<string>) returns (r: string)
      requires Valid()
      modifies this`current, table`epoch
      ensures Valid() && r == current
      ensures current == match domainname
                         case None => old(current)
                         case Some(d) => if d == "" then "messages" else d
      ensures if domainname.Some? then TextDomainStep(old(Abs()), Abs()) else Abs() == old(Abs())
    {
      if domainname.None? { return current; }
      ghost var nodes := domains.View();
      var next := Choose(domainname.value);
      current := next;
      table.Bump();
      assert domains.View() == nodes;
      r := current;
    }

    method Choose(d: string) returns (next: string)
      ensures next == if d == [] then DEFAULT_DOMAIN else d
    {
      StrcmpZero(d, DEFAULT_DOMAIN);
      StrcmpZero(d, current);
      if d == [] || Strcmp(d, DEFAULT_DOMAIN) == 0 { return DEFAULT_DOMAIN; }
      next := if Strcmp(d, current) == 0 then current else d;
    }

    /** dcigettext: a string, and where it is from. */
    method Translate(w: World, domainname: Option<string>, msgid1: string, msgid2: string, plural: bool, n: nat,
                     category: int, localename: string)
      returns (s: string, r: Option<Hit>)
      requires Valid() && table.defaultDir == w.defaultDir
      modifies this`cache, this`paths, domains
      ensures Valid() && LookupStep(w, old(Abs()), Abs(), Query(msgid1, domainname.GetOr(current), localename, category), r)
      ensures if r.Some? then s == Delivered(w, r.value, plural, n) && HandsOut(w, r.value, plural, n, s)
              else s == if !plural || n == 1 then msgid1 else msgid2
    {
      var q := Query(msgid1, domainname.GetOr(current), localename, category);
      ghost var before := Abs();
      r := Find(w, q);
      ghost var after := Abs();
      assert LookupStep(w, before, after, q, r);
      s := Text(w, r, msgid1, msgid2, plural, n);
      assert Abs() == after;
    }

    /** The string for a hit, or, failing that, one of the two given. */
    method Text(w: World, r: Option<Hit>, msgid1: string, msgid2: string, plural: bool, n: nat) returns (s: string)
      ensures if r.Some? then s == Delivered(w, r.value, plural, n) && HandsOut(w, r.value, plural, n, s)
              else s == if !plural || n == 1 then msgid1 else msgid2
    {
      if r.Some? { DeliveredForm(w, r.value, plural, n); }
      if r.None? { return if !plural || n == 1 then msgid1 else msgid2; }
      if !plural { return Key(r.value.text); }
      var buffer := r.value.text + [NUL];
      var at := Plural.PluralLookup(buffer, w.pluralEval(r.value.file, n), w.nplurals(r.value.file));
      assert buffer[..|buffer| - 1] == r.value.text;
      s := Key(buffer[at..]);
    }

    /** The cache, and failing that a full search whose result the cache takes up. */
    method Find(w: World, q: Query) returns (r: Option<Hit>)
      requires Valid() && table.defaultDir == w.defaultDir
      modifies this`cache, this`paths, domains
      ensures Valid() && LookupStep(w, old(Abs()), Abs(), q, r)
    {
      if q in cache && Signed(cache[q].epoch) == Signed(table.epoch) { return Some(cache[q].hit); }
      ghost var before := Abs();
      ghost var path;
      r, path := SearchAll(w, q);
      ghost var nodes := domains.View();
      assert Abs() == before.(nodes := nodes);
      if r.Some? { Remember(q, r.value, path); }
      Looked(w, before, Abs(), q, path, r);
    }

    /** Takes a hit up into the cache. */
    method Remember(q: Query, hit: Hit, ghost path: seq<string>)
      requires Valid()
      modifies this`cache, this`paths
      ensures Valid() && Abs() == Filed(old(Abs()), q, old(Abs()).nodes, path, Some(hit))
    {
      cache := cache[q := Entry(table.epoch, hit)];
      paths := paths[q := path];
    }

    method SearchAll(w: World, q: Query) returns (r: Option<Hit>, ghost path: seq<string>)
      requires Valid() && table.defaultDir == w.defaultDir
      modifies domains
      ensures Valid() && FullSearch(w, old(Abs()), q, domains.View(), path, r)
    {
      ghost var before := Abs();
      var dirname, codeset := Directory(w, q.domainname);
      assert Abs() == before;
      if dirname.None? { return None, []; }
      var a := Args(dirname.value, FileAsked(w, q), codeset, q.msgid);
      assert a == ArgsOf(w, before.bound, q, dirname.value);
      r, path := Search(w, domains, a, w.locales(q.category, q.localename));
    }

    /** The binding of a domain, its directory made absolute. */
    method Directory(w: World, domainname: string) returns (dirname: Option<string>, codeset: Option<string>)
      requires table.Valid() && table.defaultDir == w.defaultDir
      ensures dirname == DirOf(w, table.bound, domainname) && codeset == CodesetOf(table.bound, domainname)
    {
      var at := table.Find(domainname);
      if at.None? { return Some(w.defaultDir), None; }
      var value := table.list[at.value].value;
      codeset := value.codeset;
      if Absolute(value.dirname) { dirname := Some(value.dirname); }
      else if w.cwd.None? { dirname := None; }
      else { dirname := Some(w.cwd.value + ['/'] + value.dirname); }
    }
  }
}
