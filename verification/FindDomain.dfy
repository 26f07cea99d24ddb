/** Finding the catalog node of a locale: first by the whole name, and only then
    by taking the name apart. */
module FindDomain {
  import opened Options
  import opened LocaleName
  import opened CatalogList

  /** The locale as it stands, all of it taken for the language. */
  function Whole(locale: string): Exploded { Exploded(0, locale, None, None, None, None) }

  function WholePath(dir: string, locale: string, file: string): string {
    FileName(dir, 0, Whole(locale), file)
  }

  function BuiltPath(dir: string, locale: string, file: string): string {
    FileName(dir, Explode(locale).mask, Explode(locale), file)
  }

  /** The name of the node that is returned, by what is already in the list. */
  ghost function Returned(names: set<string>, dir: string, locale: string, file: string, alias: Option<string>): string {
    if WholePath(dir, locale, file) in names then WholePath(dir, locale, file)
    else BuiltPath(dir, alias.GetOr(locale), file)
  }

  /** The names in the list afterwards. */
  ghost function NamesAfter(names: set<string>, dir: string, locale: string, file: string, alias: Option<string>): set<string> {
    var name := alias.GetOr(locale);
    if WholePath(dir, locale, file) in names || BuiltPath(dir, name, file) in names then names
    else AllMade(names, dir, Explode(name).mask, Explode(name), file)
  }

  /** _nl_find_domain.  alias is what the alias files say about the locale. */
  method Find(d: Domains, dir: string, locale: string, file: string, alias: Option<string>) returns (r: Node)
    requires d.Valid()
    modifies d
    ensures d.Valid() && r in d.list
    ensures Extends(old(d.View()), d.View())
    ensures AllMadeFor(old(d.View()), d.View(), dir, Explode(alias.GetOr(locale)), file)
    ensures r.filename == Returned(old(d.Names()), dir, locale, file, alias)
    ensures d.Names() == NamesAfter(old(d.Names()), dir, locale, file, alias)
  {
    label start:
    var known := d.Make(dir, 0, Whole(locale), file, false);
    SameView@start(d);
    if known != null { return known; }
    r := Build(d, dir, alias.GetOr(locale), file);
  }

  /** The name taken apart. */
  method Build(d: Domains, dir: string, name: string, file: string) returns (r: Node)
    requires d.Valid()
    modifies d
    ensures d.Valid() && r in d.list && r.filename == BuiltPath(dir, name, file)
    ensures Extends(old(d.View()), d.View())
    ensures AllMadeFor(old(d.View()), d.View(), dir, Explode(name), file)
    ensures d.Names() == if BuiltPath(dir, name, file) in old(d.Names()) then old(d.Names())
                         else AllMade(old(d.Names()), dir, Explode(name).mask, Explode(name), file)
  {
    ghost var nodes, before := d.list, d.View();
    label start:
    var e := Explode(name);
    r := d.Make(dir, e.mask, e, file, true);
    ViewGrows@start(d);
    MadeInAll(d, nodes, before, dir, e, file);
  }

  lemma MadeInAll(d: Domains, nodes: seq<Node>, before: Nodes, dir: string, e: Exploded, file: string)
    requires d.Valid() && forall n :: n in d.list && n !in nodes ==> MadeIn(n, dir, e.mask, e, file)
    requires forall n :: n in nodes ==> n.filename in before
    ensures AllMadeFor(before, d.View(), dir, e, file)
  {
    var after := d.View();
    forall f | f in after && f !in before ensures IsMade(after[f], f, dir, e, file) {
      var n :| n in d.list && n.filename == f && after[f] == InfoOf(n);
      MadeInView(n, dir, e, file);
    }
  }

  /** A node called f, as it is made for some mask of the exploded name. */
  ghost predicate IsMade(info: Info, f: string, dir: string, e: Exploded, file: string) {
    exists m: Mask :: (m == e.mask || Lesser(m, e.mask)) && IsMadeFor(info, f, dir, m, e, file)
  }

  ghost predicate IsMadeFor(info: Info, f: string, dir: string, m: Mask, e: Exploded, file: string) {
    f == FileName(dir, m, e, file) && info == MadeInfo(dir, m, e, file)
  }

  lemma MadeInView(n: Node, dir: string, e: Exploded, file: string)
    requires MadeIn(n, dir, e.mask, e, file)
    ensures IsMade(InfoOf(n), n.filename, dir, e, file)
  {
    if MadeFor(n, dir, e.mask, e, file) {
      assert IsMadeFor(InfoOf(n), n.filename, dir, e.mask, e, file);
    } else {
      var m: Mask :| Lesser(m, e.mask) && MadeFor(n, dir, m, e, file);
      assert IsMadeFor(InfoOf(n), n.filename, dir, m, e, file);
    }
  }

  /** Every node that is new was made for the exploded name. */
  ghost predicate AllMadeFor(before: Nodes, after: Nodes, dir: string, e: Exploded, file: string) {
    forall f :: f in after && f !in before ==> IsMade(after[f], f, dir, e, file)
  }

  ghost predicate Extends(before: Nodes, after: Nodes) {
    forall name :: name in before ==> name in after && after[name] == before[name]
  }

  /** Nodes are never changed once they are made. */
  twostate lemma ViewGrows(d: Domains)
    requires old(d.Valid()) && d.Valid() && Kept(old(d.list), d.list)
    requires forall n :: n in old(d.list) ==> n.successor == old(n.successor)
    ensures Extends(old(d.View()), d.View())
  {
    forall n | n in old(d.list) ensures old(InfoOf(n)) == InfoOf(n) { }
  }

  twostate lemma SameView(d: Domains)
    requires old(d.Valid()) && d.Valid() && d.list == old(d.list)
    requires forall n :: n in old(d.list) ==> n.successor == old(n.successor)
    ensures d.View() == old(d.View())
  {
    forall n | n in d.list ensures old(InfoOf(n)) == InfoOf(n) { }
  }

  // ---- the same node again -----------------------------------------------------

  lemma WholePrinted(locale: string)
    ensures Printed(0, Whole(locale)) == locale
  {
    assert locale + [] == locale;
  }

  lemma PathInjective(dir: string, p: string, q: string, absolute: bool, file: string)
    requires PathOf(dir, p, absolute, file) == PathOf(dir, q, absolute, file)
    ensures p == q
  {
    var pre := if absolute then [] else dir + ['/'];
    var s, t := PathOf(dir, p, absolute, file), PathOf(dir, q, absolute, file);
    assert s == pre + p + (['/'] + file) && t == pre + q + (['/'] + file);
    assert |p| == |q|;
    assert s[|pre|..|pre| + |p|] == p && t[|pre|..|pre| + |q|] == q;
  }

  lemma SameDirectory(locale: string)
    ensures Absolute(Explode(locale).language) == Absolute(locale)
  {
    if Parsed(locale).language != [] { assert Parsed(locale).language[0] == locale[0]; }
  }

  lemma SamePath(dir: string, mask: Mask, locale: string, file: string)
    ensures FileName(dir, mask, Explode(locale), file) == WholePath(dir, locale, file) <==> Printed(mask, Explode(locale)) == locale
  {
    SameDirectory(locale);
    WholePrinted(locale);
    if FileName(dir, mask, Explode(locale), file) == WholePath(dir, locale, file) {
      PathInjective(dir, Printed(mask, Explode(locale)), locale, Absolute(locale), file);
    }
  }

  /** A locale whose name survives being taken apart: no part is present and empty,
      and the codeset, if any, is already normalised and not followed by a modifier. */
  predicate Regular(locale: string) {
    Parsed(locale).language == [] || (!SomePartEmpty(Parsed(locale)) && !Split(locale))
  }

  /** The normalised codeset becomes a part of its own. */
  predicate Split(locale: string) { Respelled(Parsed(locale).codeset, Parsed(locale).modifier) }

  lemma RegularBuiltIsWhole(dir: string, locale: string, file: string)
    ensures BuiltPath(dir, locale, file) == WholePath(dir, locale, file) <==> Regular(locale)
  {
    PrintsBack(locale);
    SamePath(dir, Explode(locale).mask, locale, file);
  }

  lemma LesserIsWhole(dir: string, locale: string, file: string, m: Mask)
    requires Lesser(m, Explode(locale).mask)
    ensures FileName(dir, m, Explode(locale), file) == WholePath(dir, locale, file)
       <==> && !SomePartEmpty(Parsed(locale)) && Split(locale)
            && (m == Explode(locale).mask - NORM_CODESET || (m == Explode(locale).mask - CODESET && !Odd(Parsed(locale).codeset)))
  {
    SamePath(dir, m, locale, file);
    SmallerPrintsName(m, locale);
  }

  /** Making the nodes of an irregular locale also makes a node of its whole name
      just when no part is empty, that is, when the codeset is what splits it. */
  lemma MakesWhole(dir: string, locale: string, file: string)
    requires !Regular(locale)
    ensures WholePath(dir, locale, file) in LesserNames(dir, Explode(locale).mask, Explode(locale), file)
       <==> !SomePartEmpty(Parsed(locale))
  {
    var e := Explode(locale);
    if WholePath(dir, locale, file) in LesserNames(dir, e.mask, e, file) {
      var m: Mask :| m < 16 && Lesser(m, e.mask) && FileName(dir, m, e, file) == WholePath(dir, locale, file);
      LesserIsWhole(dir, locale, file, m);
    } else if !SomePartEmpty(Parsed(locale)) {
      SplitMinus(locale);
      LesserIsWhole(dir, locale, file, e.mask - NORM_CODESET);
    }
  }

  lemma SplitMinus(locale: string)
    requires Parsed(locale).language != [] && Split(locale)
    ensures var mask := Explode(locale).mask;
            BothCodesets(mask) && mask >= 3 && Lesser(mask - NORM_CODESET, mask)
  {
    MaskBits(Explode(locale), locale);
    DropNorm(Explode(locale).mask);
    DropCodeset(Explode(locale).mask);
  }

  /** A second call returns the node of the first, always, except when the first
      call had to make it, no part is empty, and the codeset is not normalised or a
      modifier follows it: then the second call finds the node of the whole name, a
      different one. */
  lemma SecondCall(names: set<string>, dir: string, locale: string, file: string)
    ensures Returned(NamesAfter(names, dir, locale, file, None), dir, locale, file, None)
              == Returned(names, dir, locale, file, None)
       <==> || WholePath(dir, locale, file) in names || BuiltPath(dir, locale, file) in names
            || Regular(locale) || SomePartEmpty(Parsed(locale))
  {
    RegularBuiltIsWhole(dir, locale, file);
    if !Regular(locale) { MakesWhole(dir, locale, file); }
  }

  /** From the second call on nothing changes any more. */
  lemma ThirdCall(names: set<string>, dir: string, locale: string, file: string)
    ensures var once := NamesAfter(names, dir, locale, file, None);
            var twice := NamesAfter(once, dir, locale, file, None);
            twice == once && Returned(twice, dir, locale, file, None) == Returned(once, dir, locale, file, None)
  {
  }

  /** A name without an empty part and with a normalised codeset that is split all
      the same: its own mask prints "de.utf8.utf8@x". */
  lemma NormalisedYetSplit(name: string)
    requires name == "de.utf8@x"
    ensures var e, r := Explode(name), Parsed(name);
            && e.mask == 11 && Printed(e.mask, e) == "de.utf8.utf8@x"
            && !SomePartEmpty(r) && !Odd(r.codeset) && !Regular(name)
  {
    ExampleParsed(name);
    var r := Parsed(name);
    ExampleNormalised(r.codeset.value);
    SplitName(name);
    ExamplePrinted(r.language, r.codeset.value, r.modifier.value);
  }

  lemma ExamplePrinted(l: string, c: string, m: string)
    requires l == "de" && c == "utf8" && m == "x"
    ensures l + [] + (['.'] + c) + (['.'] + c) + (['@'] + m) == "de.utf8.utf8@x"
  {
  }

  lemma ExampleParsed(name: string)
    requires name == "de.utf8@x"
    ensures Parsed(name) == Raw("de", None, Some("utf8"), Some("x"))
  {
    var r := Raw("de", None, Some("utf8"), Some("x"));
    assert Written(r) == name;
    ParsedOfWritten(r);
  }

  lemma SplitName(name: string)
    requires var r := Parsed(name);
             r.language != [] && r.territory == None && Filled(r.codeset) && !Odd(r.codeset) && Filled(r.modifier)
    ensures var e, r := Explode(name), Parsed(name);
            && e.mask == 11 && !Regular(name)
            && Printed(11, e) == r.language + [] + (['.'] + r.codeset.value) + (['.'] + r.codeset.value) + (['@'] + r.modifier.value)
  {
    MaskOfHas(false, true, true, true);
  }

  lemma ExampleNormalised(c: string)
    requires c == "utf8"
    ensures Normalised(c) == c
  {
    SqueezedIs(c);
    assert IsAlpha(c[0]);
  }
}
