/** Locale names, language[_territory][.codeset][@modifier]: taking them apart
    and printing them by a mask of their parts. */
module LocaleName {
  import opened Options

  // ---- the shape of a name -----------------------------------------------------

  /** A name as it is written; a part can be present and empty. */
  datatype Raw = Raw(language: string, territory: Option<string>, codeset: Option<string>, modifier: Option<string>)

  function Part(mark: char, part: Option<string>): string {
    if part.Some? then [mark] + part.value else []
  }

  function Written(r: Raw): string {
    r.language + (Part('_', r.territory) + (Part('.', r.codeset) + Part('@', r.modifier)))
  }

  ghost predicate Lacks(s: string, marks: string) {
    forall i :: 0 <= i < |s| ==> s[i] !in marks
  }

  ghost predicate PartLacks(p: Option<string>, marks: string) { p.Some? ==> Lacks(p.value, marks) }

  ghost predicate WellFormed(r: Raw) {
    && r.language != [] && Lacks(r.language, "_@.")
    && PartLacks(r.territory, ".@") && PartLacks(r.codeset, "@")
  }

  /** How far it is to the first of the marks, or to the end. */
  function Span(s: string, marks: string): (n: nat)
    ensures n <= |s|
  {
    if s == [] || s[0] in marks then 0 else 1 + Span(s[1..], marks)
  }

  /** A part introduced by mark and ended by one of the marks, and what follows. */
  function TakePart(s: string, mark: char, ends: string): (Option<string>, string) {
    if s == [] || s[0] != mark then (None, s)
    else var n := Span(s[1..], ends); (Some(s[1..][..n]), s[1..][n..])
  }

  function Parsed(name: string): Raw {
    var n := Span(name, "_@.");
    var (territory, rest) := TakePart(name[n..], '_', ".@");
    var (codeset, rest') := TakePart(rest, '.', "@");
    var (modifier, _) := TakePart(rest', '@', "");
    Raw(name[..n], territory, codeset, modifier)
  }

  lemma {:induction false} SpanIs(s: string, marks: string)
    ensures Lacks(s[..Span(s, marks)], marks)
    ensures Span(s, marks) < |s| ==> s[Span(s, marks)] in marks
  {
    if s != [] && s[0] !in marks {
      SpanIs(s[1..], marks);
      var n := Span(s[1..], marks);
      assert s[..n + 1] == [s[0]] + s[1..][..n];
    }
  }

  lemma {:induction false} SpanOf(p: string, rest: string, marks: string)
    requires Lacks(p, marks) && (rest == [] || rest[0] in marks)
    ensures Span(p + rest, marks) == |p|
  {
    if p == [] {
      assert p + rest == rest;
    } else {
      assert (p + rest)[1..] == p[1..] + rest && (p + rest)[0] == p[0];
      SpanOf(p[1..], rest, marks);
    }
  }

  lemma TakePartIs(s: string, mark: char, ends: string)
    ensures var (part, rest) := TakePart(s, mark, ends);
            && Part(mark, part) + rest == s && PartLacks(part, ends)
            && (part.Some? && rest != [] ==> rest[0] in ends)
            && (part.None? && s != [] ==> s[0] != mark)
  {
    if s != [] && s[0] == mark {
      SpanIs(s[1..], ends);
      var n := Span(s[1..], ends);
      assert [mark] + s[1..][..n] + s[1..][n..] == s;
    }
  }

  lemma TakePartOf(mark: char, part: Option<string>, rest: string, ends: string)
    requires PartLacks(part, ends) && (rest == [] || (rest[0] in ends && rest[0] != mark))
    ensures TakePart(Part(mark, part) + rest, mark, ends) == (part, rest)
  {
    var s := Part(mark, part) + rest;
    if part.Some? {
      assert s[1..] == part.value + rest;
      SpanOf(part.value, rest, ends);
      assert s[1..][..|part.value|] == part.value && s[1..][|part.value|..] == rest;
    } else {
      assert s == rest;
    }
  }

  /** Every name is written from its parts ... */
  lemma ParsedIs(name: string)
    ensures Written(Parsed(name)) == name || Parsed(name).language == []
    ensures Parsed(name).language != [] ==> WellFormed(Parsed(name))
  {
    var n := Span(name, "_@.");
    SpanIs(name, "_@.");
    if n > 0 {
      var s := name[n..];
      var (territory, rest) := TakePart(s, '_', ".@");
      var (codeset, rest') := TakePart(rest, '.', "@");
      var (modifier, left) := TakePart(rest', '@', "");
      TakePartIs(s, '_', ".@");
      TakePartIs(rest, '.', "@");
      TakePartIs(rest', '@', "");
      AtModifier(s);
      LeftNothing(rest');
      assert Part('@', modifier) + left == Part('@', modifier);
      Together(name, n, Part('_', territory), Part('.', codeset), Part('@', modifier), s, rest, rest');
    }
  }

  /** Behind territory and codeset only a modifier can follow. */
  lemma AtModifier(s: string)
    requires s == [] || s[0] in "_@."
    ensures var rest := TakePart(TakePart(s, '_', ".@").1, '.', "@").1; rest == [] || rest[0] == '@'
  {
    AfterTerritory(s);
    TakePartIs(TakePart(s, '_', ".@").1, '.', "@");
  }

  lemma AfterTerritory(s: string)
    requires s == [] || s[0] in "_@."
    ensures var rest := TakePart(s, '_', ".@").1; rest == [] || rest[0] in ".@"
  {
    TakePartIs(s, '_', ".@");
  }

  lemma LeftNothing(s: string)
    requires s == [] || s[0] == '@'
    ensures TakePart(s, '@', "").1 == []
  {
    if s != [] {
      SpanIs(s[1..], "");
      assert Span(s[1..], "") == |s[1..]|;
    }
  }

  lemma Together(name: string, n: nat, t: string, c: string, m: string, s: string, rest: string, rest': string)
    requires n <= |name| && s == name[n..] && t + rest == s && c + rest' == rest && m == rest'
    ensures name[..n] + (t + (c + m)) == name
  {
  }

  /** ... and well-formed parts are read back as they were written. */
  lemma ParsedOfWritten(r: Raw)
    requires WellFormed(r)
    ensures Parsed(Written(r)) == r
  {
    var m := Part('@', r.modifier);
    var c := Part('.', r.codeset) + m;
    var t := Part('_', r.territory) + c;
    SpanOf(r.language, t, "_@.");
    assert (r.language + t)[|r.language|..] == t && (r.language + t)[..|r.language|] == r.language;
    TakePartOf('_', r.territory, c, ".@");
    TakePartOf('.', r.codeset, m, "@");
    TakePartOf('@', r.modifier, [], "");
    assert m + [] == m;
  }

  /** For instance. */
  lemma ParsedExample(name: string)
    requires name == "de_DE.UTF-8@euro"
    ensures Parsed(name) == Raw("de", Some("DE"), Some("UTF-8"), Some("euro"))
  {
    var r := Raw("de", Some("DE"), Some("UTF-8"), Some("euro"));
    assert Written(r) == name;
    ParsedOfWritten(r);
  }

  // ---- codesets ----------------------------------------------------------------

  predicate IsDigit(c: char) { '0' <= c <= '9' }
  predicate IsUpper(c: char) { 'A' <= c <= 'Z' }
  predicate IsLower(c: char) { 'a' <= c <= 'z' }
  predicate IsAlpha(c: char) { IsUpper(c) || IsLower(c) }

  function ToLower(c: char): char {
    if IsUpper(c) then c - 'A' + 'a' else c
  }

  /** Letters in lower case and digits; everything else is dropped. */
  function Squeezed(c: string): string {
    if c == [] then []
    else (if IsAlpha(c[0]) then [ToLower(c[0])] else if IsDigit(c[0]) then [c[0]] else []) + Squeezed(c[1..])
  }

  predicate NoLetter(c: string) { c == [] || (!IsAlpha(c[0]) && NoLetter(c[1..])) }

  function Normalised(c: string): string {
    if NoLetter(c) then "iso" + Squeezed(c) else Squeezed(c)
  }

  predicate Simple(c: char) { IsLower(c) || IsDigit(c) }

  lemma {:induction false} SqueezedIs(c: string)
    ensures forall i :: 0 <= i < |Squeezed(c)| ==> Simple(Squeezed(c)[i])
    ensures NoLetter(Squeezed(c)) == NoLetter(c)
    ensures (forall i :: 0 <= i < |c| ==> Simple(c[i])) ==> Squeezed(c) == c
  {
    if c != [] {
      SqueezedIs(c[1..]);
      assert c == [c[0]] + c[1..];
      assert IsAlpha(c[0]) || IsDigit(c[0]) ==> Squeezed(c)[1..] == Squeezed(c[1..]);
      if !IsAlpha(c[0]) && !IsDigit(c[0]) { assert Squeezed(c) == Squeezed(c[1..]); }
    }
  }

  /** Normalising gives a nonempty string of small letters and digits, and a
      second time changes nothing. */
  lemma NormalisedIs(c: string)
    ensures Normalised(c) != [] && !NoLetter(Normalised(c))
    ensures forall i :: 0 <= i < |Normalised(c)| ==> Simple(Normalised(c)[i])
    ensures Normalised(Normalised(c)) == Normalised(c)
  {
    SqueezedIs(c);
    SqueezedIs(Normalised(c));
  }

  /** ks are the places of the letters and digits of c from number i on, in order. */
  ghost predicate LettersAt(c: string, i: nat, ks: seq<nat>) {
    && (forall j, k :: 0 <= j < k < |ks| ==> ks[j] < ks[k])
    && (forall k: nat :: k in ks <==>
          i <= k < |c| && ('A' <= c[k] <= 'Z' || 'a' <= c[k] <= 'z' || '0' <= c[k] <= '9'))
  }

  /** n spells the characters of c at these places, capital letters moved up by 32. */
  ghost predicate Lowered(n: string, c: string, ks: seq<nat>) {
    |n| == |ks| && forall j :: 0 <= j < |ks| ==> ks[j] < |c| && IsLowered(n[j], c[ks[j]])
  }

  predicate IsLowered(d: char, c: char) { d as int == c as int + if 'A' <= c <= 'Z' then 32 else 0 }

  lemma {:induction false} SqueezedSpells(c: string, i: nat) returns (ks: seq<nat>)
    requires i <= |c|
    ensures LettersAt(c, i, ks) && Lowered(Squeezed(c[i..]), c, ks)
    decreases |c| - i
  {
    if i == |c| {
      ks := [];
    } else {
      var rest := SqueezedSpells(c, i + 1);
      var n := Squeezed(c[i + 1..]);
      assert c[i..] == [c[i]] + c[i + 1..];
      SqueezedCons(c[i], c[i + 1..]);
      if IsAlpha(c[i]) || IsDigit(c[i]) {
        OneKept(c, i, rest);
        OneLowered(c, i, rest, n);
        ks := [i] + rest;
      } else {
        ks := rest;
        NoneKept(c, i, rest);
        assert Squeezed(c[i..]) == n;
      }
    }
  }

  lemma SqueezedCons(x: char, rest: string)
    ensures Squeezed([x] + rest)
         == if IsAlpha(x) || IsDigit(x) then [ToLower(x)] + Squeezed(rest) else Squeezed(rest)
  {
    assert ([x] + rest)[1..] == rest;
  }

  lemma OneKept(c: string, i: nat, ks: seq<nat>)
    requires i < |c| && LettersAt(c, i + 1, ks) && (IsAlpha(c[i]) || IsDigit(c[i]))
    ensures LettersAt(c, i, [i] + ks)
  {
    forall j | 0 <= j < |ks| ensures i < ks[j] { assert ks[j] in ks; }
  }

  lemma NoneKept(c: string, i: nat, ks: seq<nat>)
    requires i < |c| && LettersAt(c, i + 1, ks) && !IsAlpha(c[i]) && !IsDigit(c[i])
    ensures LettersAt(c, i, ks)
  {
  }

  lemma OneLowered(c: string, i: nat, ks: seq<nat>, n: string)
    requires i < |c| && Lowered(n, c, ks) && (IsAlpha(c[i]) || IsDigit(c[i]))
    ensures Lowered([ToLower(c[i])] + n, c, [i] + ks)
  {
  }

  lemma {:induction false} LetterIn(c: string)
    ensures NoLetter(c) <==> forall i :: 0 <= i < |c| ==> !('A' <= c[i] <= 'Z' || 'a' <= c[i] <= 'z')
  {
    if c != [] {
      LetterIn(c[1..]);
      if i: nat :| i < |c| && ('A' <= c[i] <= 'Z' || 'a' <= c[i] <= 'z') {
        if i > 0 { assert c[1..][i - 1] == c[i]; }
      }
    }
  }

  /** The normalised codeset, character by character: the letters and digits in order,
      in small letters, and "iso" in front exactly if there is no letter. */
  lemma NormalisedSpells(c: string) returns (ks: seq<nat>)
    ensures LettersAt(c, 0, ks)
    ensures (exists i :: 0 <= i < |c| && ('A' <= c[i] <= 'Z' || 'a' <= c[i] <= 'z')) ==> Lowered(Normalised(c), c, ks)
    ensures !(exists i :: 0 <= i < |c| && ('A' <= c[i] <= 'Z' || 'a' <= c[i] <= 'z')) ==>
              |Normalised(c)| >= 3 && Normalised(c)[..3] == "iso" && Lowered(Normalised(c)[3..], c, ks)
  {
    ks := SqueezedSpells(c, 0);
    assert c[0..] == c;
    LetterIn(c);
  }

  /** For instance. */
  lemma NormalisedExamples(c: string, d: string)
    requires c == "UTF-8" && d == "8859-1"
    ensures Normalised(c) == "utf8" && Normalised(d) == "iso88591"
  {
    LetterIn(c);
    assert IsUpper(c[0]);
    LetterIn(d);
    SqueezedFive('U', 'T', 'F', '-', '8');
    SqueezedFive('8', '5', '9', '-', '1');
    assert c == ['U', 'T', 'F', '-', '8'];
    SqueezedCons('8', ['8', '5', '9', '-', '1']);
    assert d == ['8'] + ['8', '5', '9', '-', '1'];
  }

  lemma SqueezedFive(v: char, w: char, x: char, y: char, z: char)
    requires (IsAlpha(v) || IsDigit(v)) && (IsAlpha(w) || IsDigit(w)) && (IsAlpha(x) || IsDigit(x)) && IsDigit(z) && y == '-'
    ensures Squeezed([v, w, x, y, z]) == [ToLower(v), ToLower(w), ToLower(x), z]
  {
    var s := [v, w, x, y, z];
    assert s[1..] == [w, x, y, z] && s[1..][1..] == [x, y, z] && s[1..][1..][1..] == [y, z];
    assert [y, z][1..] == [z] && [z][1..] == [];
    assert Squeezed([y, z]) == Squeezed([z]) == [z];
    assert Squeezed([x, y, z]) == [ToLower(x)] + [z];
    assert Squeezed([w, x, y, z]) == [ToLower(w)] + ([ToLower(x)] + [z]);
  }

  // ---- masks -------------------------------------------------------------------

  const NORM_CODESET: nat := 1
  const CODESET: nat := 2
  const TERRITORY: nat := 4
  const MODIFIER: nat := 8

  type Mask = m: nat | m < 16

  predicate Has(mask: Mask, bit: nat)
    requires bit > 0
  {
    mask / bit % 2 == 1
  }

  /** mask & ~of == 0 */
  predicate Dominated(mask: Mask, of: Mask) {
    && (Has(mask, NORM_CODESET) ==> Has(of, NORM_CODESET)) && (Has(mask, CODESET) ==> Has(of, CODESET))
    && (Has(mask, TERRITORY) ==> Has(of, TERRITORY)) && (Has(mask, MODIFIER) ==> Has(of, MODIFIER))
  }

  function MaskOf(territory: bool, codeset: bool, norm: bool, modifier: bool): Mask {
    (if modifier then MODIFIER else 0) + (if territory then TERRITORY else 0)
    + (if codeset then CODESET else 0) + (if norm then NORM_CODESET else 0)
  }

  lemma MaskOfHas(t: bool, c: bool, n: bool, m: bool)
    ensures Has(MaskOf(t, c, n, m), TERRITORY) == t && Has(MaskOf(t, c, n, m), CODESET) == c
    ensures Has(MaskOf(t, c, n, m), NORM_CODESET) == n && Has(MaskOf(t, c, n, m), MODIFIER) == m
  {
  }

  predicate BothCodesets(mask: Mask) { Has(mask, CODESET) && Has(mask, NORM_CODESET) }

  // ---- a name taken apart ------------------------------------------------------

  /** What _nl_explode_name hands back.  normalized is kept only when its bit is set. */
  datatype Exploded = Exploded(mask: Mask, language: string, territory: Option<string>, codeset: Option<string>,
                               normalized: Option<string>, modifier: Option<string>)

  predicate Filled(p: Option<string>) { p.Some? && p.value != [] }

  /** A codeset that is not spelled the normal way. */
  predicate Odd(codeset: Option<string>) { Filled(codeset) && Normalised(codeset.value) != codeset.value }

  /** When the normalised codeset becomes a part of its own.  The comparison that
      decides it is made while the modifier still hangs on to the codeset, so with
      a modifier it always does. */
  predicate Respelled(codeset: Option<string>, modifier: Option<string>) {
    Filled(codeset) && (modifier.Some? || Odd(codeset))
  }

  function Explode(name: string): Exploded {
    var r := Parsed(name);
    if r.language == [] then Exploded(0, name, None, None, None, None)
    else
      var norm := Respelled(r.codeset, r.modifier);
      Exploded(MaskOf(Filled(r.territory), Filled(r.codeset), norm, Filled(r.modifier)),
               r.language, r.territory, r.codeset, if norm then Some(Normalised(r.codeset.value)) else None, r.modifier)
  }

  function Or(part: Option<string>): string { if part.Some? then part.value else [] }

  /** The name without its directory, as the list of catalogs spells it. */
  function Printed(mask: Mask, e: Exploded): string {
    e.language
    + (if Has(mask, TERRITORY) then ['_'] + Or(e.territory) else [])
    + (if Has(mask, CODESET) then ['.'] + Or(e.codeset) else [])
    + (if Has(mask, NORM_CODESET) then ['.'] + Or(e.normalized) else [])
    + (if Has(mask, MODIFIER) then ['@'] + Or(e.modifier) else [])
  }

  /** The parts that a mask selects. */
  function Masked(mask: Mask, e: Exploded): Raw {
    Raw(e.language,
        if Has(mask, TERRITORY) then e.territory else None,
        if BothCodesets(mask) then Some(Or(e.codeset) + ['.'] + Or(e.normalized))
        else if Has(mask, CODESET) then e.codeset
        else if Has(mask, NORM_CODESET) then e.normalized
        else None,
        if Has(mask, MODIFIER) then e.modifier else None)
  }

  lemma MaskBits(e: Exploded, name: string)
    requires e == Explode(name) && Parsed(name).language != []
    ensures Has(e.mask, TERRITORY) == Filled(e.territory) && Has(e.mask, CODESET) == Filled(e.codeset)
    ensures Has(e.mask, NORM_CODESET) == Respelled(e.codeset, e.modifier) && Has(e.mask, MODIFIER) == Filled(e.modifier)
  {
    MaskOfHas(Filled(e.territory), Filled(e.codeset), Respelled(e.codeset, e.modifier), Filled(e.modifier));
  }

  lemma PrintedIsWritten(mask: Mask, name: string)
    requires Parsed(name).language != [] && Dominated(mask, Explode(name).mask)
    ensures Printed(mask, Explode(name)) == Written(Masked(mask, Explode(name)))
  {
    var e := Explode(name);
    MaskBits(e, name);
    var q := Masked(mask, e);
    CodesetPart(mask, e);
    Regroup(e.language, Part('_', q.territory), CodesetText(mask, e), NormText(mask, e), Part('@', q.modifier));
  }

  function CodesetText(mask: Mask, e: Exploded): string { if Has(mask, CODESET) then ['.'] + Or(e.codeset) else [] }

  function NormText(mask: Mask, e: Exploded): string { if Has(mask, NORM_CODESET) then ['.'] + Or(e.normalized) else [] }

  lemma CodesetPart(mask: Mask, e: Exploded)
    requires Has(mask, CODESET) ==> e.codeset.Some?
    requires Has(mask, NORM_CODESET) ==> e.normalized.Some?
    ensures Part('.', Masked(mask, e).codeset) == CodesetText(mask, e) + NormText(mask, e)
  {
  }

  lemma Regroup(a: string, b: string, c: string, d: string, f: string)
    ensures a + b + c + d + f == a + (b + ((c + d) + f))
  {
  }

  lemma MaskedWellFormed(mask: Mask, name: string)
    requires Parsed(name).language != [] && Dominated(mask, Explode(name).mask)
    ensures WellFormed(Masked(mask, Explode(name)))
  {
    var e := Explode(name);
    MaskBits(e, name);
    ParsedIs(name);
    if e.codeset.Some? {
      NormalisedLacks(e.codeset.value);
      BothLack(Or(e.codeset), Normalised(e.codeset.value));
    }
  }

  lemma NormalisedLacks(c: string)
    ensures Lacks(Normalised(c), "@")
  {
    NormalisedIs(c);
  }

  lemma BothLack(c: string, n: string)
    requires Lacks(c, "@") && Lacks(n, "@")
    ensures Lacks(c + ['.'] + n, "@")
  {
  }

  predicate EmptyPart(p: Option<string>) { p.Some? && p.value == [] }

  predicate SomePartEmpty(r: Raw) { EmptyPart(r.territory) || EmptyPart(r.codeset) || EmptyPart(r.modifier) }

  /** The parts printed under a mask that explosion allows, read back, are the
      parts that went in. */
  lemma ReadsBack(mask: Mask, name: string)
    requires Parsed(name).language != [] && Dominated(mask, Explode(name).mask)
    ensures Parsed(Printed(mask, Explode(name))) == Masked(mask, Explode(name))
  {
    PrintedIsWritten(mask, name);
    MaskedWellFormed(mask, name);
    ParsedOfWritten(Masked(mask, Explode(name)));
  }

  /** Which selections of parts print the whole name. */
  lemma PrintsName(mask: Mask, name: string)
    requires Parsed(name).language != [] && Dominated(mask, Explode(name).mask)
    ensures Printed(mask, Explode(name)) == name <==> Masked(mask, Explode(name)) == Parsed(name)
  {
    ReadsBack(mask, name);
    PrintedIsWritten(mask, name);
    ParsedIs(name);
  }

  /** Exploding a name and printing it by its own mask gives the name back exactly
      when there is no language, or no part is present and empty and the codeset,
      if any, is normalised and not followed by a modifier. */
  lemma PrintsBack(name: string)
    ensures Printed(Explode(name).mask, Explode(name)) == name
       <==> || Parsed(name).language == []
            || (!SomePartEmpty(Parsed(name)) && !Respelled(Parsed(name).codeset, Parsed(name).modifier))
  {
    var e, r := Explode(name), Parsed(name);
    if r.language == [] {
      assert name + [] == name;
    } else {
      PrintsName(e.mask, name);
      MaskedWhole(name);
    }
  }

  lemma MaskedWhole(name: string)
    requires Parsed(name).language != []
    ensures var (e, r) := (Explode(name), Parsed(name));
            Masked(e.mask, e) == r <==> !SomePartEmpty(r) && !Respelled(r.codeset, r.modifier)
  {
    var e, r := Explode(name), Parsed(name);
    MaskBits(e, name);
    if Respelled(r.codeset, r.modifier) {
      Longer(r.codeset.value, Or(e.normalized));
      assert Masked(e.mask, e).codeset != r.codeset;
    }
  }

  lemma Longer(c: string, n: string)
    ensures c + ['.'] + n != c
  {
    assert |c + ['.'] + n| > |c|;
  }

  /** Which smaller masks print the whole name: none if a part is empty or there is
      no normalised codeset; else the one without the normalised codeset and, if
      the codeset was normalised already, the one without the codeset. */
  lemma SmallerPrintsName(mask: Mask, name: string)
    requires Parsed(name).language != [] && mask < Explode(name).mask
    requires Dominated(mask, Explode(name).mask) && !BothCodesets(mask)
    ensures Printed(mask, Explode(name)) == name
       <==> && !SomePartEmpty(Parsed(name)) && Respelled(Parsed(name).codeset, Parsed(name).modifier)
            && ( || mask == Explode(name).mask - NORM_CODESET
                 || (mask == Explode(name).mask - CODESET && !Odd(Parsed(name).codeset)))
  {
    PrintsName(mask, name);
    MaskedSmaller(mask, name);
    SelectsSmaller(mask, name);
  }

  /** The mask asks for just the parts that are there. */
  predicate Selects(mask: Mask, r: Raw) {
    && Has(mask, TERRITORY) == r.territory.Some? && Has(mask, MODIFIER) == r.modifier.Some?
    && (Has(mask, CODESET) || Has(mask, NORM_CODESET)) == r.codeset.Some?
    && (Has(mask, NORM_CODESET) ==> !Odd(r.codeset))
  }

  lemma MaskedSmaller(mask: Mask, name: string)
    requires Parsed(name).language != [] && Dominated(mask, Explode(name).mask) && !BothCodesets(mask)
    ensures Masked(mask, Explode(name)) == Parsed(name) <==> Selects(mask, Parsed(name))
  {
    MaskBits(Explode(name), name);
  }

  lemma SelectsSmaller(mask: Mask, name: string)
    requires Parsed(name).language != [] && mask < Explode(name).mask
    requires Dominated(mask, Explode(name).mask) && !BothCodesets(mask)
    ensures Selects(mask, Parsed(name))
       <==> && !SomePartEmpty(Parsed(name)) && Respelled(Parsed(name).codeset, Parsed(name).modifier)
            && ( || mask == Explode(name).mask - NORM_CODESET
                 || (mask == Explode(name).mask - CODESET && !Odd(Parsed(name).codeset)))
  {
    MaskBits(Explode(name), name);
    OneCodesetLess(mask, Explode(name).mask);
  }

  /** Smaller masks that keep territory and modifier and one of two codesets. */
  lemma OneCodesetLess(m: Mask, q: Mask)
    requires m < q && Dominated(m, q) && !BothCodesets(m)
    ensures Has(m, TERRITORY) == Has(q, TERRITORY) && Has(m, MODIFIER) == Has(q, MODIFIER) && Has(m, CODESET)
       <==> BothCodesets(q) && m == q - NORM_CODESET
    ensures Has(m, TERRITORY) == Has(q, TERRITORY) && Has(m, MODIFIER) == Has(q, MODIFIER) && Has(m, NORM_CODESET) && Has(q, CODESET)
       <==> BothCodesets(q) && m == q - CODESET
    ensures Has(m, TERRITORY) == Has(q, TERRITORY) && Has(m, MODIFIER) == Has(q, MODIFIER)
            ==> Has(q, CODESET) || Has(q, NORM_CODESET)
  {
    Digits(m);
    Digits(q);
    if m == q - NORM_CODESET && BothCodesets(q) { DropNorm(q); }
    if m == q - CODESET && BothCodesets(q) { DropCodeset(q); }
  }

  lemma DropCodeset(q: Mask)
    requires Has(q, CODESET)
    ensures q >= 2 && !Has(q - 2, CODESET) && Has(q - 2, NORM_CODESET) == Has(q, NORM_CODESET)
    ensures Has(q - 2, TERRITORY) == Has(q, TERRITORY) && Has(q - 2, MODIFIER) == Has(q, MODIFIER)
  {
  }

  lemma DropNorm(q: Mask)
    requires Has(q, NORM_CODESET)
    ensures q >= 1 && !Has(q - 1, NORM_CODESET) && Has(q - 1, CODESET) == Has(q, CODESET)
    ensures Has(q - 1, TERRITORY) == Has(q, TERRITORY) && Has(q - 1, MODIFIER) == Has(q, MODIFIER)
  {
  }

  lemma Digits(m: Mask)
    ensures m == Bit(m, MODIFIER) + Bit(m, TERRITORY) + Bit(m, CODESET) + Bit(m, NORM_CODESET)
  {
  }

  function Bit(m: Mask, bit: nat): nat
    requires bit > 0
  {
    if Has(m, bit) then bit else 0
  }
}
