/** File names whose parts hold no slash tell their parts.  So the two nodes of a
    locale are always made together, and a name with an empty part never gets a node. */
module SeparatePaths {
  import opened Options
  import opened LocaleName
  import opened CatalogList
  import opened FindDomain
  import opened TwoNodeLocales

  ghost predicate Component(s: string) { '/' !in s }

  function FileOf(category: string, domainname: string): string { category + "/" + domainname + ".mo" }

  lemma LastMark(mark: char, x: string, y: string, x': string, y': string)
    requires x + [mark] + y == x' + [mark] + y' && mark !in y && mark !in y'
    ensures x == x' && y == y'
  {
    var s := x + [mark] + y;
    assert s[|x|] == mark && s[|x'|] == mark;
    Tail(mark, x, y);
    Tail(mark, x', y');
    assert x == s[..|x|] && x' == s[..|x'|] && y == s[|x| + 1..] && y' == s[|x'| + 1..];
  }

  lemma Tail(mark: char, x: string, y: string)
    ensures forall i :: |x| < i < |x| + 1 + |y| ==> (x + [mark] + y)[i] in y
  {
  }

  lemma PathParts(dir: string, p: string, c: string, d: string, dir': string, p': string, c': string, d': string)
    requires PathOf(dir, p, false, FileOf(c, d)) == PathOf(dir', p', false, FileOf(c', d'))
    requires Component(p) && Component(c) && Component(d) && Component(p') && Component(c') && Component(d')
    ensures dir == dir' && p == p' && c == c' && d == d'
  {
    Reshaped(dir, p, c, d);
    Reshaped(dir', p', c', d');
    LastMark('/', dir + ['/'] + p + ['/'] + c, d + ".mo", dir' + ['/'] + p' + ['/'] + c', d' + ".mo");
    LastMark('/', dir + ['/'] + p, c, dir' + ['/'] + p', c');
    LastMark('/', dir, p, dir', p');
    assert (d + ".mo")[..|d|] == d && (d' + ".mo")[..|d'|] == d';
  }

  lemma Reshaped(dir: string, p: string, c: string, d: string)
    ensures PathOf(dir, p, false, FileOf(c, d)) == dir + ['/'] + p + ['/'] + c + ['/'] + (d + ".mo")
    ensures Component(d) ==> Component(d + ".mo")
  {
  }

  /** Nothing that a slash-free locale prints holds a slash. */
  lemma PrintedComponent(locale: string, m: Mask)
    requires Component(locale) && Dominated(m, Explode(locale).mask)
    ensures Component(Printed(m, Explode(locale))) && !Absolute(Explode(locale).language)
  {
    var e, r := Explode(locale), Parsed(locale);
    if r.language == [] {
      NoLanguage(locale);
    } else {
      ParsedIs(locale);
      InParts(r);
      MaskBits(e, locale);
      if e.codeset.Some? { NormalisedIs(e.codeset.value); }
    }
  }

  lemma NoLanguage(locale: string)
    ensures Parsed(locale).language == [] ==> Printed(0, Explode(locale)) == locale
  {
    assert locale + [] == locale;
  }

  ghost predicate PartComponent(p: Option<string>) { p.Some? ==> Component(p.value) }

  lemma InParts(r: Raw)
    requires Component(Written(r))
    ensures Component(r.language) && PartComponent(r.territory) && PartComponent(r.codeset) && PartComponent(r.modifier)
  {
    var m := Part('@', r.modifier);
    var c := Part('.', r.codeset) + m;
    assert Written(r) == r.language + (Part('_', r.territory) + c);
  }

  // ---- names that others print -------------------------------------------------

  /** A name that holds no slash, and whose codeset holds no dot. */
  ghost predicate Fit(name: string) {
    Component(name) && (Parsed(name).codeset.Some? ==> '.' !in Parsed(name).codeset.value)
  }

  /** Whoever prints the name of a locale's first node has the same parts. */
  lemma SameParts(l: string, v: string, m: Mask)
    requires TwoNodes(l) && Fit(l) && Fit(v) && (m == Explode(v).mask || Lesser(m, Explode(v).mask))
    requires Printed(Explode(l).mask, Explode(l)) == Printed(m, Explode(v))
    ensures m == Explode(v).mask == Explode(l).mask && Parsed(v).language != []
    ensures forall k: Mask :: Dominated(k, m) ==> Printed(k, Explode(v)) == Printed(k, Explode(l))
  {
    var e, f := Explode(l), Explode(v);
    SplitMinus(l);
    ReadsBack(e.mask, l);
    HasLanguage(l, v, m);
    ReadsBack(m, v);
    CodesetsAlike(l, v, m);
    MasksAlike(l, v, m);
  }

  lemma HasLanguage(l: string, v: string, m: Mask)
    requires TwoNodes(l) && (m == Explode(v).mask || Lesser(m, Explode(v).mask))
    requires Printed(Explode(l).mask, Explode(l)) == Printed(m, Explode(v))
    ensures Parsed(v).language != []
  {
    ReadsBack(Explode(l).mask, l);
    NoLanguage(v);
  }

  ghost predicate Agree(l: string, v: string, m: Mask) {
    Masked(Explode(l).mask, Explode(l)) == Masked(m, Explode(v))
  }

  /** The pair of codesets can only come from a pair of codesets, the same. */
  lemma CodesetsAlike(l: string, v: string, m: Mask)
    requires TwoNodes(l) && Fit(l) && Fit(v) && Parsed(v).language != [] && Agree(l, v, m)
    requires m == Explode(v).mask || Lesser(m, Explode(v).mask)
    ensures m == Explode(v).mask && BothCodesets(m)
    ensures Or(Explode(l).codeset) == Or(Explode(v).codeset) && Or(Explode(l).normalized) == Or(Explode(v).normalized)
  {
    var e, f := Explode(l), Explode(v);
    SplitMinus(l);
    MaskBits(f, v);
    HasDot(Or(e.codeset), Or(e.normalized));
    NoDot(Or(e.codeset));
    if f.codeset.Some? { NoDot(f.codeset.value); }
    if BothCodesets(m) { LastMark('.', Or(e.codeset), Or(e.normalized), Or(f.codeset), Or(f.normalized)); }
  }

  lemma NoDot(c: string)
    ensures '.' !in Normalised(c)
  {
    NormalisedIs(c);
  }

  lemma HasDot(c: string, n: string)
    ensures '.' in c + ['.'] + n
  {
    assert (c + ['.'] + n)[|c|] == '.';
  }

  lemma MasksAlike(l: string, v: string, m: Mask)
    requires TwoNodes(l) && Parsed(v).language != [] && Agree(l, v, m) && m == Explode(v).mask && BothCodesets(m)
    requires Or(Explode(l).codeset) == Or(Explode(v).codeset) && Or(Explode(l).normalized) == Or(Explode(v).normalized)
    ensures m == Explode(l).mask
    ensures forall k: Mask :: Dominated(k, m) ==> Printed(k, Explode(v)) == Printed(k, Explode(l))
  {
    var e, f := Explode(l), Explode(v);
    SplitMinus(l);
    MaskBits(e, l);
    MaskBits(f, v);
    Digits(m);
    Digits(e.mask);
  }

  /** Nobody prints a name with an empty part. */
  lemma NoneEmpty(l: string, v: string, m: Mask)
    requires Parsed(l).language != [] && SomePartEmpty(Parsed(l)) && (m == Explode(v).mask || Lesser(m, Explode(v).mask))
    ensures Printed(m, Explode(v)) != l
  {
    if Parsed(v).language == [] {
      NoLanguage(v);
    } else {
      ReadsBack(m, v);
      MaskBits(Explode(v), v);
      if Explode(v).codeset.Some? { NormalisedIs(Explode(v).codeset.value); }
    }
  }

  // ---- made together -----------------------------------------------------------

  /** Where there is the first node of a locale there is the second. */
  ghost predicate PairedAt(nodes: Nodes, dir: string, l: string, c: string, d: string) {
    TwoNodes(l) && Fit(l) && Component(c) && Component(d) ==>
      BuiltPath(dir, l, FileOf(c, d)) in nodes ==> WholePath(dir, l, FileOf(c, d)) in nodes
  }

  ghost predicate Paired(nodes: Nodes) { forall dir, l, c, d :: PairedAt(nodes, dir, l, c, d) }

  /** A name with an empty part has no node. */
  ghost predicate NoEmptyAt(nodes: Nodes, dir: string, l: string, c: string, d: string) {
    Parsed(l).language != [] && SomePartEmpty(Parsed(l)) && Component(l) && Component(c) && Component(d) ==>
      WholePath(dir, l, FileOf(c, d)) !in nodes
  }

  ghost predicate NoEmpty(nodes: Nodes) { forall dir, l, c, d :: NoEmptyAt(nodes, dir, l, c, d) }

  /** What making the nodes of a fit name does to the list. */
  ghost predicate MadeBy(before: Nodes, after: Nodes, dir: string, v: string, c: string, d: string) {
    && Fit(v) && Component(c) && Component(d) && Extends(before, after)
    && AllMadeFor(before, after, dir, Explode(v), FileOf(c, d))
    && (after.Keys == before.Keys || after.Keys == AllMade(before.Keys, dir, Explode(v).mask, Explode(v), FileOf(c, d)))
  }

  /** A name that is new was printed for v, in this directory and for this file. */
  lemma NewIsPrinted(info: Info, dir: string, v: string, c: string, d: string, dir': string, p: string, c': string, d': string)
    returns (m: Mask)
    requires Fit(v) && Component(c) && Component(d) && Component(p) && Component(c') && Component(d')
    requires IsMade(info, PathOf(dir', p, false, FileOf(c', d')), dir, Explode(v), FileOf(c, d))
    ensures m == Explode(v).mask || Lesser(m, Explode(v).mask)
    ensures dir' == dir && c' == c && d' == d && p == Printed(m, Explode(v))
  {
    m :| (m == Explode(v).mask || Lesser(m, Explode(v).mask))
         && IsMadeFor(info, PathOf(dir', p, false, FileOf(c', d')), dir, m, Explode(v), FileOf(c, d));
    PrintedComponent(v, m);
    PathParts(dir', p, c', d', dir, Printed(m, Explode(v)), c, d);
  }

  lemma PairedStays(before: Nodes, after: Nodes, dir: string, v: string, c: string, d: string)
    requires Paired(before) && MadeBy(before, after, dir, v, c, d)
    ensures Paired(after)
  {
    forall dir', l, c', d' ensures PairedAt(after, dir', l, c', d') {
      assert PairedAt(before, dir', l, c', d');
      if TwoNodes(l) && Fit(l) && Component(c') && Component(d') {
        var n := BuiltPath(dir', l, FileOf(c', d'));
        if n in after && n !in before { NewPair(before, after, dir, v, c, d, dir', l, c', d'); }
      }
    }
  }

  lemma NewPair(before: Nodes, after: Nodes, dir: string, v: string, c: string, d: string, dir': string, l: string, c': string, d': string)
    requires MadeBy(before, after, dir, v, c, d) && TwoNodes(l) && Fit(l) && Component(c') && Component(d')
    requires BuiltPath(dir', l, FileOf(c', d')) in after && BuiltPath(dir', l, FileOf(c', d')) !in before
    ensures WholePath(dir', l, FileOf(c', d')) in after
  {
    var e, f, n := Explode(l), Explode(v), BuiltPath(dir', l, FileOf(c', d'));
    SplitMinus(l);
    PrintedComponent(l, e.mask);
    assert IsMade(after[n], n, dir, f, FileOf(c, d));
    var m := NewIsPrinted(after[n], dir, v, c, d, dir', Printed(e.mask, e), c', d');
    SameParts(l, v, m);
    PrintedComponent(v, m);
    LesserIsWhole(dir, l, FileOf(c, d), m - NORM_CODESET);
    assert FileName(dir, m - NORM_CODESET, f, FileOf(c, d)) in LesserNames(dir, m, f, FileOf(c, d));
    assert Printed(m - NORM_CODESET, f) == Printed(m - NORM_CODESET, e);
  }

  lemma NoEmptyStays(before: Nodes, after: Nodes, dir: string, v: string, c: string, d: string)
    requires NoEmpty(before) && MadeBy(before, after, dir, v, c, d)
    ensures NoEmpty(after)
  {
    forall dir', l, c', d' ensures NoEmptyAt(after, dir', l, c', d') {
      assert NoEmptyAt(before, dir', l, c', d');
      var n := WholePath(dir', l, FileOf(c', d'));
      if Parsed(l).language != [] && SomePartEmpty(Parsed(l)) && Component(l) && Component(c') && Component(d') && n in after {
        WholePrinted(l);
        NotAbsolute(l);
        assert IsMade(after[n], n, dir, Explode(v), FileOf(c, d));
        var m := NewIsPrinted(after[n], dir, v, c, d, dir', l, c', d');
        NoneEmpty(l, v, m);
        assert false;
      }
    }
  }

  lemma NotAbsolute(l: string)
    requires Component(l)
    ensures !Absolute(l)
  {
    if l != [] { assert l[0] in l; }
  }
}
