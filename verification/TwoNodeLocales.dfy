/** Locales without an empty part whose codeset is not normalised or is followed by
    a modifier.  Such a locale gets two nodes: the first call builds one, later calls
    look up the other. */
module TwoNodeLocales {
  import opened LocaleName
  import opened CatalogList
  import opened FindDomain
  import opened TranslationSearch
  import opened SplitSearch

  predicate TwoNodes(locale: string) {
    Parsed(locale).language != [] && !SomePartEmpty(Parsed(locale)) && Split(locale)
  }

  /** The two nodes differ by a second spelling of the same codeset. */
  predicate Twin(locale: string) { TwoNodes(locale) && !Odd(Parsed(locale).codeset) }

  lemma TwinIsAlike(locale: string)
    requires Twin(locale)
    ensures Alike(Explode(locale))
  {
    SplitMinus(locale);
  }

  /** The node built has a name of its own. */
  lemma BuiltIsOwn(locale: string, e: Exploded, m: Mask, a: Args)
    requires e == Explode(locale) && TwoNodes(locale) && Lesser(m, e.mask)
    ensures Name(e, m, a) != Name(e, e.mask, a)
  {
    SplitMinus(locale);
    MaskBits(e, locale);
    ReadsBack(m, locale);
    ReadsBack(e.mask, locale);
    Longer(Or(e.codeset), Or(e.normalized));
    LongerFront(Or(e.codeset), Or(e.normalized));
    assert Masked(m, e).codeset != Masked(e.mask, e).codeset;
    if Name(e, m, a) == Name(e, e.mask, a) {
      PathInjective(a.dir, Printed(m, e), Printed(e.mask, e), Absolute(e.language), a.file);
    }
  }

  lemma LongerFront(c: string, n: string)
    ensures c + ['.'] + n != n
  {
    assert |c + ['.'] + n| > |n|;
  }

  lemma WholeName(locale: string, e: Exploded, a: Args)
    requires e == Explode(locale) && TwoNodes(locale)
    ensures e.mask >= 3 && Lesser(e.mask - 1, e.mask) && BothCodesets(e.mask)
    ensures NodeOf(locale, a) == Name(e, e.mask - 1, a) && BuiltPath(a.dir, locale, a.file) == Name(e, e.mask, a)
    ensures forall m: Mask :: Lesser(m, e.mask) && Name(e, m, a) == NodeOf(locale, a) ==>
              m == e.mask - 1 || (m == e.mask - 2 && !Odd(Parsed(locale).codeset))
  {
    SplitMinus(locale);
    LesserIsWhole(a.dir, locale, a.file, e.mask - 1);
    forall m: Mask | Lesser(m, e.mask) && Name(e, m, a) == NodeOf(locale, a)
      ensures m == e.mask - 1 || (m == e.mask - 2 && !Odd(Parsed(locale).codeset))
    {
      LesserIsWhole(a.dir, locale, a.file, m);
    }
  }

  /** The first call for the locale has made both nodes. */
  ghost predicate FirstCall(before: Nodes, after: Nodes, locale: string, a: Args) {
    && BuiltPath(a.dir, locale, a.file) !in before && BuiltPath(a.dir, locale, a.file) in after
    && NodeOf(locale, a) !in before && NodeOf(locale, a) in after
    && AllMadeFor(before, after, a.dir, Explode(locale), a.file)
  }

  /** Both nodes are there, as they were made. */
  ghost predicate BothMade(nodes: Nodes, locale: string, a: Args) {
    var e := Explode(locale);
    && e.mask >= 3 && AsMade(nodes, e, e.mask, a)
    && (AsMade(nodes, e, e.mask - 1, a) || (!Odd(Parsed(locale).codeset) && AsMade(nodes, e, e.mask - 2, a)))
  }

  lemma BothAsMade(before: Nodes, after: Nodes, locale: string, e: Exploded, a: Args)
    requires e == Explode(locale) && TwoNodes(locale) && FirstCall(before, after, locale, a)
    ensures BothMade(after, locale, a)
  {
    WholeName(locale, e, a);
    BuiltAsMade(before, after, locale, e, a);
    WholeAsMade(before, after, locale, e, a);
  }

  lemma BuiltAsMade(before: Nodes, after: Nodes, locale: string, e: Exploded, a: Args)
    requires e == Explode(locale) && TwoNodes(locale) && FirstCall(before, after, locale, a)
    ensures AsMade(after, e, e.mask, a)
  {
    var n := Name(e, e.mask, a);
    assert IsMade(after[n], n, a.dir, e, a.file);
    var k: Mask :| (k == e.mask || Lesser(k, e.mask)) && IsMadeFor(after[n], n, a.dir, k, e, a.file);
    if k != e.mask { BuiltIsOwn(locale, e, k, a); }
  }

  lemma WholeAsMade(before: Nodes, after: Nodes, locale: string, e: Exploded, a: Args)
    requires e == Explode(locale) && TwoNodes(locale) && FirstCall(before, after, locale, a)
    ensures exists m: Mask :: Lesser(m, e.mask) && Name(e, m, a) == NodeOf(locale, a) && AsMade(after, e, m, a)
  {
    WholeName(locale, e, a);
    BuiltIsOwn(locale, e, e.mask - 1, a);
    var n := NodeOf(locale, a);
    assert IsMade(after[n], n, a.dir, e, a.file);
    var m: Mask :| (m == e.mask || Lesser(m, e.mask)) && IsMadeFor(after[n], n, a.dir, m, e, a.file);
    assert m != e.mask;
  }

  /** What the first call finds, from the node that it has built, is what later calls
      find from the node of the whole name. */
  lemma TwinFindsSame(w: World, nodes: Nodes, locale: string, a: Args)
    requires Twin(locale) && BothMade(nodes, locale, a)
    ensures TryNode(w, nodes, BuiltPath(a.dir, locale, a.file), a) == TryNode(w, nodes, NodeOf(locale, a), a)
  {
    var e := Explode(locale);
    TwinIsAlike(locale);
    WholeName(locale, e, a);
    TopTwin(e, a);
    if AsMade(nodes, e, e.mask - 1, a) {
      SameFind(w, nodes, e, e.mask - 1, a);
    } else {
      SameFind(w, nodes, e, e.mask - 2, a);
    }
  }

  lemma TopTwin(e: Exploded, a: Args)
    requires Alike(e)
    ensures e.mask >= 3 && Name(e, e.mask - 1, a) == Name(e, e.mask - 2, a)
  {
    var t := TopOf(e.mask);
    AlikeNames(e, t, a);
  }

  /** With a codeset that is not normalised a first and a later search differ exactly
      when the first file to have the message is named by the normalised codeset,
      which later searches never try. */
  lemma FirstAndLater(w: World, nodes: Nodes, locale: string, a: Args)
    requires TwoNodes(locale) && Odd(Parsed(locale).codeset) && BothMade(nodes, locale, a)
    ensures TryNode(w, nodes, BuiltPath(a.dir, locale, a.file), a) != TryNode(w, nodes, NodeOf(locale, a), a)
       <==> NormalisedFirst(w, nodes, Explode(locale), a)
  {
    var e := Explode(locale);
    WholeName(locale, e, a);
    FilesDecide(w, nodes, locale, e, a);
  }
}
