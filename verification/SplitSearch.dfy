/** Searching from the two nodes that a locale with a split codeset can get: the one
    built for it, with both codesets in its name, and the one of its whole name. */
module SplitSearch {
  import opened Options
  import opened LocaleName
  import opened CatalogList
  import opened TranslationSearch
  import opened FindDomain

  function OrElse(r: Option<Hit>, s: Option<Hit>): Option<Hit> { if r.Some? then r else s }

  function Name(e: Exploded, m: Mask, a: Args): string { FileName(a.dir, m, e, a.file) }

  /** Trying the fallbacks of mask, from mask cnt - 1 down. */
  function TryMasks(w: World, nodes: Nodes, e: Exploded, cnt: nat, mask: Mask, a: Args): Option<Hit>
    requires cnt <= mask
  {
    if cnt == 0 then None
    else
      var here := if Lesser(cnt - 1, mask) then TryFile(w, nodes, Name(e, cnt - 1, a), a) else None;
      if here.Some? then here else TryMasks(w, nodes, e, cnt - 1, mask, a)
  }

  lemma {:induction false} TryRest(w: World, nodes: Nodes, f: string, rest: seq<string>, i: nat, a: Args)
    requires i <= |rest|
    ensures TryFrom(w, nodes, [f] + rest, i + 1, a) == TryFrom(w, nodes, rest, i, a)
    decreases |rest| - i
  {
    if i < |rest| { TryRest(w, nodes, f, rest, i + 1, a); }
  }

  lemma TryCons(w: World, nodes: Nodes, f: string, rest: seq<string>, a: Args)
    ensures TryFrom(w, nodes, [f] + rest, 0, a)
         == if TryFile(w, nodes, f, a).Some? then TryFile(w, nodes, f, a) else TryFrom(w, nodes, rest, 0, a)
  {
    TryRest(w, nodes, f, rest, 0, a);
    assert ([f] + rest)[0] == f;
  }

  lemma {:induction false} TryMasksIs(w: World, nodes: Nodes, e: Exploded, cnt: nat, mask: Mask, a: Args)
    requires cnt <= mask
    ensures TryFrom(w, nodes, FallbackNames(FallbacksBelow(cnt, mask), a.dir, e, a.file), 0, a) == TryMasks(w, nodes, e, cnt, mask, a)
  {
    if cnt > 0 {
      var k: nat := cnt - 1;
      TryMasksIs(w, nodes, e, k, mask, a);
      NextName(w, nodes, e, k, mask, a);
      OneTurn(w, nodes, e, k, mask, a);
    }
  }

  lemma NextName(w: World, nodes: Nodes, e: Exploded, k: Mask, mask: Mask, a: Args)
    requires k < mask
    ensures TryFrom(w, nodes, FallbackNames(FallbacksBelow(k + 1, mask), a.dir, e, a.file), 0, a)
         == OrElse(if Lesser(k, mask) then TryFile(w, nodes, Name(e, k, a), a) else None,
                   TryFrom(w, nodes, FallbackNames(FallbacksBelow(k, mask), a.dir, e, a.file), 0, a))
  {
    FallbacksStep(k, a.dir, mask, e, a.file);
    var rest := FallbackNames(FallbacksBelow(k, mask), a.dir, e, a.file);
    if Lesser(k, mask) { TryCons(w, nodes, Name(e, k, a), rest, a); } else { EmptyFirst(rest); }
  }

  /** The node of mask m as it was made. */
  ghost predicate AsMade(nodes: Nodes, e: Exploded, m: Mask, a: Args) {
    Name(e, m, a) in nodes && nodes[Name(e, m, a)] == MadeInfo(a.dir, m, e, a.file)
  }

  /** What a node made for a mask finds. */
  lemma TryMade(w: World, nodes: Nodes, e: Exploded, m: Mask, a: Args)
    requires AsMade(nodes, e, m, a)
    ensures var own := TryFile(w, nodes, Name(e, m, a), a);
            && (BothCodesets(m) ==> own == None)
            && TryNode(w, nodes, Name(e, m, a), a) == if own.Some? then own else TryMasks(w, nodes, e, m, m, a)
  {
    TryMasksIs(w, nodes, e, m, m, a);
  }

  // ---- a normalised codeset ----------------------------------------------------

  /** The two codesets are spelled alike. */
  ghost predicate Alike(e: Exploded) { BothCodesets(e.mask) && e.codeset.Some? && e.normalized == e.codeset }

  lemma AlikeNames(e: Exploded, t: nat, a: Args)
    requires Alike(e) && t < 4
    ensures Name(e, 4 * t + 1, a) == Name(e, 4 * t + 2, a)
  {
    assert !Has(4 * t + 1, CODESET) && Has(4 * t + 1, NORM_CODESET) && Has(4 * t + 2, CODESET) && !Has(4 * t + 2, NORM_CODESET);
    assert Has(4 * t + 1, TERRITORY) == Has(4 * t + 2, TERRITORY) && Has(4 * t + 1, MODIFIER) == Has(4 * t + 2, MODIFIER);
  }

  /** Trying names rather than masks: those that keep a codeset, then those without,
      for the choices of territory and modifier below t. */
  function TryBlocks(w: World, nodes: Nodes, e: Exploded, t: nat, a: Args): Option<Hit>
    requires t <= 4
  {
    if t == 0 then None
    else
      var u := t - 1;
      if !Dominated(4 * u, e.mask) then TryBlocks(w, nodes, e, u, a)
      else if TryFile(w, nodes, Name(e, 4 * u + 2, a), a).Some? then TryFile(w, nodes, Name(e, 4 * u + 2, a), a)
      else if TryFile(w, nodes, Name(e, 4 * u, a), a).Some? then TryFile(w, nodes, Name(e, 4 * u, a), a)
      else TryBlocks(w, nodes, e, u, a)
  }

  /** Four masks in a row. */
  lemma FourMasks(x: Mask, u: nat)
    requires u < 4
    ensures Dominated(4 * u + 1, x) <==> Dominated(4 * u, x) && Has(x, NORM_CODESET)
    ensures Dominated(4 * u + 2, x) <==> Dominated(4 * u, x) && Has(x, CODESET)
    ensures !BothCodesets(4 * u) && !BothCodesets(4 * u + 1) && !BothCodesets(4 * u + 2) && BothCodesets(4 * u + 3)
  {
  }

  /** Dropping codesets from a mask that has both. */
  lemma CodesetsOff(m: Mask, u: nat)
    requires BothCodesets(m) && u < 4
    ensures m >= 3 && Dominated(4 * u, m - 1) == Dominated(4 * u, m) && Dominated(4 * u, m - 2) == Dominated(4 * u, m)
    ensures Has(m - 1, CODESET) && !Has(m - 1, NORM_CODESET) && !Has(m - 2, CODESET) && Has(m - 2, NORM_CODESET)
  {
    DropNorm(m);
    DropCodeset(m);
  }

  ghost predicate OneOfThree(x: Mask, m: Mask) { BothCodesets(m) && (x == m || x == m - 1 || x == m - 2) }

  lemma OneTurn(w: World, nodes: Nodes, e: Exploded, k: nat, x: Mask, a: Args)
    requires k < x
    ensures TryMasks(w, nodes, e, k + 1, x, a)
         == if Lesser(k, x) && TryFile(w, nodes, Name(e, k, a), a).Some? then TryFile(w, nodes, Name(e, k, a), a)
            else TryMasks(w, nodes, e, k, x, a)
  {
  }

  /** Four turns of the loop. */
  lemma FourTurns(w: World, nodes: Nodes, e: Exploded, u: nat, x: Mask, a: Args, h0: Option<Hit>, h1: Option<Hit>, h2: Option<Hit>)
    requires 4 * u + 4 <= x && u < 4
    requires h0 == TryFile(w, nodes, Name(e, 4 * u, a), a) && h1 == TryFile(w, nodes, Name(e, 4 * u + 1, a), a)
    requires h2 == TryFile(w, nodes, Name(e, 4 * u + 2, a), a)
    ensures TryMasks(w, nodes, e, 4 * u + 4, x, a)
         == if Dominated(4 * u, x) && Has(x, CODESET) && h2.Some? then h2
            else if Dominated(4 * u, x) && Has(x, NORM_CODESET) && h1.Some? then h1
            else if Dominated(4 * u, x) && h0.Some? then h0
            else TryMasks(w, nodes, e, 4 * u, x, a)
  {
    FourMasks(x, u);
    OneTurn(w, nodes, e, 4 * u + 3, x, a);
    OneTurn(w, nodes, e, 4 * u + 2, x, a);
    OneTurn(w, nodes, e, 4 * u + 1, x, a);
    OneTurn(w, nodes, e, 4 * u, x, a);
  }

  lemma {:induction false} MasksAreBlocks(w: World, nodes: Nodes, e: Exploded, t: nat, n: nat, x: Mask, a: Args)
    requires Alike(e) && OneOfThree(x, e.mask) && n == 4 * t <= x
    ensures TryMasks(w, nodes, e, n, x, a) == TryBlocks(w, nodes, e, t, a)
  {
    if t > 0 {
      MasksAreBlocks(w, nodes, e, t - 1, n - 4, x, a);
      OneBlock(w, nodes, e, t - 1, n - 4, x, a);
    }
  }

  lemma OneBlock(w: World, nodes: Nodes, e: Exploded, u: nat, n: nat, x: Mask, a: Args)
    requires Alike(e) && OneOfThree(x, e.mask) && n == 4 * u && n + 4 <= x
    requires TryMasks(w, nodes, e, n, x, a) == TryBlocks(w, nodes, e, u, a)
    ensures TryMasks(w, nodes, e, n + 4, x, a) == TryBlocks(w, nodes, e, u + 1, a)
  {
    CodesetsOff(e.mask, u);
    AlikeNames(e, u, a);
    var h0, h2 := TryFile(w, nodes, Name(e, 4 * u, a), a), TryFile(w, nodes, Name(e, 4 * u + 2, a), a);
    FourTurns(w, nodes, e, u, x, a, h0, h2, h2);
  }

  lemma TopOf(m: Mask) returns (t: nat)
    requires BothCodesets(m)
    ensures m == 4 * t + 3 && t < 4
  {
    t := m / 4;
    Digits(m);
  }

  /** The node built and the node of the whole name find the same, for whichever of
      its two masks the latter was made. */
  lemma SameFind(w: World, nodes: Nodes, e: Exploded, x: Mask, a: Args)
    requires Alike(e) && (x == e.mask - 1 || x == e.mask - 2)
    requires AsMade(nodes, e, e.mask, a) && AsMade(nodes, e, x, a)
    ensures TryNode(w, nodes, Name(e, e.mask, a), a) == TryNode(w, nodes, Name(e, x, a), a)
  {
    var m := e.mask;
    var t := TopOf(m);
    TryMade(w, nodes, e, m, a);
    TryMade(w, nodes, e, x, a);
    AlikeNames(e, t, a);
    FourMasks(m, t);
    CodesetsOff(m, t);
    MasksAreBlocks(w, nodes, e, t, 4 * t, m, a);
    MasksAreBlocks(w, nodes, e, t, 4 * t, x, a);
    TopTurns(w, nodes, e, t, m, a);
    FourMasks(x, t);
    TopTurnsOne(w, nodes, e, t, x, a);
  }

  /** From the node built: its own name is no file, then come the whole name twice
      and the name without a codeset. */
  lemma TopTurns(w: World, nodes: Nodes, e: Exploded, t: nat, m: Mask, a: Args)
    requires Alike(e) && m == e.mask == 4 * t + 3 && t < 4
    ensures TryMasks(w, nodes, e, m, m, a)
         == if TryFile(w, nodes, Name(e, m - 1, a), a).Some? then TryFile(w, nodes, Name(e, m - 1, a), a)
            else if TryFile(w, nodes, Name(e, 4 * t, a), a).Some? then TryFile(w, nodes, Name(e, 4 * t, a), a)
            else TryMasks(w, nodes, e, 4 * t, m, a)
  {
    FourMasks(m, t);
    AlikeNames(e, t, a);
    NoCodeset(m, t);
    OneTurn(w, nodes, e, 4 * t + 2, m, a);
    OneTurn(w, nodes, e, 4 * t + 1, m, a);
    OneTurn(w, nodes, e, 4 * t, m, a);
  }

  lemma NoCodeset(m: Mask, t: nat)
    requires BothCodesets(m) && m == 4 * t + 3
    ensures Dominated(4 * t, m) && Dominated(4 * t, m - 1) && Dominated(4 * t, m - 2)
  {
  }

  lemma TopTurnsOne(w: World, nodes: Nodes, e: Exploded, t: nat, x: Mask, a: Args)
    requires Alike(e) && e.mask == 4 * t + 3 && t < 4 && (x == e.mask - 1 || x == e.mask - 2)
    ensures TryMasks(w, nodes, e, x, x, a)
         == if TryFile(w, nodes, Name(e, 4 * t, a), a).Some? then TryFile(w, nodes, Name(e, 4 * t, a), a)
            else TryMasks(w, nodes, e, 4 * t, x, a)
  {
    FourMasks(x, t);
    NoCodeset(e.mask, t);
    CodesetsOff(e.mask, t);
    if x == 4 * t + 2 { OneTurn(w, nodes, e, 4 * t + 1, x, a); }
    OneTurn(w, nodes, e, 4 * t, x, a);
  }

  // ---- a codeset that is not normalised ----------------------------------------

  /** Found in a file named by the normalised codeset. */
  ghost predicate ByNormalised(e: Exploded, r: Option<Hit>, a: Args) {
    r.Some? && exists m: Mask :: Lesser(m, e.mask) && Has(m, NORM_CODESET) && r.value.file == Name(e, m, a)
  }

  lemma NormalisedApart(l: string, e: Exploded, m: Mask, k: Mask, a: Args)
    requires e == Explode(l) && Parsed(l).language != [] && Odd(Parsed(l).codeset)
    requires Lesser(m, e.mask) && Has(m, NORM_CODESET) && Lesser(k, e.mask) && !Has(k, NORM_CODESET)
    ensures Name(e, m, a) != Name(e, k, a)
  {
    ReadsBack(m, l);
    ReadsBack(k, l);
    MaskBits(e, l);
    assert Masked(m, e).codeset == e.normalized && Masked(k, e).codeset != e.normalized;
    if Name(e, m, a) == Name(e, k, a) {
      PathInjective(a.dir, Printed(m, e), Printed(k, e), Absolute(e.language), a.file);
    }
  }

  lemma {:induction false} HitsByMask(w: World, nodes: Nodes, e: Exploded, cnt: nat, x: Mask, a: Args) returns (m: Mask)
    requires cnt <= x && TryMasks(w, nodes, e, cnt, x, a).Some?
    ensures Lesser(m, x) && m < cnt && TryMasks(w, nodes, e, cnt, x, a).value.file == Name(e, m, a)
    ensures TryFile(w, nodes, Name(e, m, a), a) == TryMasks(w, nodes, e, cnt, x, a)
    ensures forall k: Mask :: m < k < cnt && Lesser(k, x) ==> TryFile(w, nodes, Name(e, k, a), a).None?
  {
    if Lesser(cnt - 1, x) && TryFile(w, nodes, Name(e, cnt - 1, a), a).Some? {
      m := cnt - 1;
    } else {
      m := HitsByMask(w, nodes, e, cnt - 1, x, a);
    }
  }

  lemma LesserWithout(k: Mask, m: Mask)
    requires BothCodesets(m) && k < m - 1
    ensures Lesser(k, m - 1) <==> Lesser(k, m) && !Has(k, NORM_CODESET)
  {
    CodesetsOff(m, 0);
    DropNorm(m);
  }

  ghost predicate OddSplit(l: string, e: Exploded) {
    e == Explode(l) && Parsed(l).language != [] && Odd(Parsed(l).codeset) && BothCodesets(e.mask) && e.mask >= 3
  }

  lemma {:induction false} TriesDiffer(w: World, nodes: Nodes, l: string, e: Exploded, cnt: nat, a: Args)
    requires OddSplit(l, e) && cnt <= e.mask - 1
    ensures TryMasks(w, nodes, e, cnt, e.mask, a) != TryMasks(w, nodes, e, cnt, e.mask - 1, a)
       <==> ByNormalised(e, TryMasks(w, nodes, e, cnt, e.mask, a), a)
  {
    if cnt > 0 {
      var k := cnt - 1;
      TriesDiffer(w, nodes, l, e, k, a);
      LesserWithout(k, e.mask);
      OneTurn(w, nodes, e, k, e.mask, a);
      OneTurn(w, nodes, e, k, e.mask - 1, a);
      if Lesser(k, e.mask) && TryFile(w, nodes, Name(e, k, a), a).Some? { HitDiffers(w, nodes, l, e, k, a); }
    }
  }

  /** A hit at mask k: by the normalised codeset, which the other node never tries,
      or not. */
  lemma HitDiffers(w: World, nodes: Nodes, l: string, e: Exploded, k: Mask, a: Args)
    requires OddSplit(l, e) && Lesser(k, e.mask) && k < e.mask - 1
    ensures Has(k, NORM_CODESET) ==>
              var r := TryMasks(w, nodes, e, k, e.mask - 1, a); r.Some? ==> r.value.file != Name(e, k, a)
    ensures !Has(k, NORM_CODESET) ==>
              forall m: Mask :: Lesser(m, e.mask) && Has(m, NORM_CODESET) ==> Name(e, m, a) != Name(e, k, a)
  {
    if Has(k, NORM_CODESET) { NeverTried(w, nodes, l, e, k, a); } else { NotNormalised(l, e, k, a); }
  }

  lemma NeverTried(w: World, nodes: Nodes, l: string, e: Exploded, k: Mask, a: Args)
    requires OddSplit(l, e) && Lesser(k, e.mask) && k < e.mask - 1 && Has(k, NORM_CODESET)
    ensures var r := TryMasks(w, nodes, e, k, e.mask - 1, a); r.Some? ==> r.value.file != Name(e, k, a)
  {
    if TryMasks(w, nodes, e, k, e.mask - 1, a).Some? {
      var j := HitsByMask(w, nodes, e, k, e.mask - 1, a);
      LesserWithout(j, e.mask);
      NormalisedApart(l, e, k, j, a);
    }
  }

  lemma NotNormalised(l: string, e: Exploded, k: Mask, a: Args)
    requires OddSplit(l, e) && Lesser(k, e.mask) && !Has(k, NORM_CODESET)
    ensures forall m: Mask :: Lesser(m, e.mask) && Has(m, NORM_CODESET) ==> Name(e, m, a) != Name(e, k, a)
  {
    forall m: Mask | Lesser(m, e.mask) && Has(m, NORM_CODESET) ensures Name(e, m, a) != Name(e, k, a) {
      NormalisedApart(l, e, m, k, a);
    }
  }

  /** With a codeset that is not normalised the search from the node built and the
      search from the node of the whole name differ exactly when the former finds
      its translation in a file named by the normalised codeset. */
  lemma FindsDiffer(w: World, nodes: Nodes, l: string, e: Exploded, a: Args)
    requires OddSplit(l, e) && AsMade(nodes, e, e.mask, a) && AsMade(nodes, e, e.mask - 1, a)
    ensures TryNode(w, nodes, Name(e, e.mask, a), a) != TryNode(w, nodes, Name(e, e.mask - 1, a), a)
       <==> ByNormalised(e, TryNode(w, nodes, Name(e, e.mask, a), a), a)
  {
    BuiltFinds(w, nodes, l, e, a);
    WholeFinds(w, nodes, l, e, a);
    if TryFile(w, nodes, Name(e, e.mask - 1, a), a).Some? {
      HitByWhole(w, nodes, l, e, a);
    } else {
      TriesDiffer(w, nodes, l, e, e.mask - 1, a);
    }
  }

  lemma BuiltFinds(w: World, nodes: Nodes, l: string, e: Exploded, a: Args)
    requires OddSplit(l, e) && AsMade(nodes, e, e.mask, a)
    ensures TryNode(w, nodes, Name(e, e.mask, a), a)
         == OrElse(TryFile(w, nodes, Name(e, e.mask - 1, a), a), TryMasks(w, nodes, e, e.mask - 1, e.mask, a))
  {
    var k: nat := e.mask - 1;
    SplitMinus(l);
    TryMade(w, nodes, e, e.mask, a);
    FirstTurn(w, nodes, e, k, a);
  }

  lemma FirstTurn(w: World, nodes: Nodes, e: Exploded, k: nat, a: Args)
    requires e.mask == k + 1 && Lesser(k, e.mask)
    ensures TryMasks(w, nodes, e, e.mask, e.mask, a)
         == OrElse(TryFile(w, nodes, Name(e, k, a), a), TryMasks(w, nodes, e, k, e.mask, a))
  {
    OneTurn(w, nodes, e, k, e.mask, a);
  }

  lemma WholeFinds(w: World, nodes: Nodes, l: string, e: Exploded, a: Args)
    requires OddSplit(l, e) && AsMade(nodes, e, e.mask - 1, a)
    ensures TryNode(w, nodes, Name(e, e.mask - 1, a), a)
         == OrElse(TryFile(w, nodes, Name(e, e.mask - 1, a), a), TryMasks(w, nodes, e, e.mask - 1, e.mask - 1, a))
  {
    TryMade(w, nodes, e, e.mask - 1, a);
  }

  lemma HitByWhole(w: World, nodes: Nodes, l: string, e: Exploded, a: Args)
    requires OddSplit(l, e) && TryFile(w, nodes, Name(e, e.mask - 1, a), a).Some?
    ensures !ByNormalised(e, TryFile(w, nodes, Name(e, e.mask - 1, a), a), a)
  {
    CodesetsOff(e.mask, 0);
    SplitMinus(l);
    NotNormalised(l, e, e.mask - 1, a);
  }

  // ---- told by the catalog files -----------------------------------------------

  /** The file named by mask m has the message, and none that comes before it has. */
  ghost predicate FirstFile(w: World, nodes: Nodes, e: Exploded, m: Mask, a: Args) {
    && Lesser(m, e.mask) && TryFile(w, nodes, Name(e, m, a), a).Some?
    && forall k: Mask :: m < k && Lesser(k, e.mask) ==> TryFile(w, nodes, Name(e, k, a), a).None?
  }

  /** The first file to have the message is named by the normalised codeset. */
  ghost predicate NormalisedFirst(w: World, nodes: Nodes, e: Exploded, a: Args) {
    exists m: Mask :: Has(m, NORM_CODESET) && FirstFile(w, nodes, e, m, a)
  }

  lemma {:induction false} FirstFileFound(w: World, nodes: Nodes, e: Exploded, m: Mask, cnt: nat, a: Args)
    requires FirstFile(w, nodes, e, m, a) && m < cnt <= e.mask
    ensures TryMasks(w, nodes, e, cnt, e.mask, a) == TryFile(w, nodes, Name(e, m, a), a)
  {
    var k: nat := cnt - 1;
    OneTurn(w, nodes, e, k, e.mask, a);
    if m < k { FirstFileFound(w, nodes, e, m, k, a); }
  }

  lemma NormalisedFirstIs(w: World, nodes: Nodes, l: string, e: Exploded, a: Args)
    requires OddSplit(l, e) && AsMade(nodes, e, e.mask, a)
    ensures ByNormalised(e, TryNode(w, nodes, Name(e, e.mask, a), a), a) <==> NormalisedFirst(w, nodes, e, a)
  {
    var r := TryMasks(w, nodes, e, e.mask, e.mask, a);
    TryMade(w, nodes, e, e.mask, a);
    if r.Some? {
      var m := HitsByMask(w, nodes, e, e.mask, e.mask, a);
      assert FirstFile(w, nodes, e, m, a);
      if !Has(m, NORM_CODESET) { NotNormalised(l, e, m, a); }
    }
    if NormalisedFirst(w, nodes, e, a) {
      var m: Mask :| Has(m, NORM_CODESET) && FirstFile(w, nodes, e, m, a);
      FirstFileFound(w, nodes, e, m, e.mask, a);
    }
  }

  /** With a codeset that is not normalised the search from the node built and the
      search from the node of the whole name differ exactly when the first file to
      have the message is named by the normalised codeset. */
  lemma FilesDecide(w: World, nodes: Nodes, l: string, e: Exploded, a: Args)
    requires OddSplit(l, e) && AsMade(nodes, e, e.mask, a) && AsMade(nodes, e, e.mask - 1, a)
    ensures TryNode(w, nodes, Name(e, e.mask, a), a) != TryNode(w, nodes, Name(e, e.mask - 1, a), a)
       <==> NormalisedFirst(w, nodes, e, a)
  {
    FindsDiffer(w, nodes, l, e, a);
    NormalisedFirstIs(w, nodes, l, e, a);
  }
}
