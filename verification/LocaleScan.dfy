/** The scans that take a locale name apart in its own buffer. */
module LocaleScan {
  import opened Options
  import opened CStrings
  import opened LocaleName

  method NormalizeCodeset(codeset: string) returns (r: string)
    ensures r == Normalised(codeset)
  {
    var onlyDigit := true;
    var cnt := 0;
    while cnt < |codeset|
      invariant 0 <= cnt <= |codeset|
      invariant NoLetter(codeset) == (onlyDigit && NoLetter(codeset[cnt..]))
    {
      if IsAlpha(codeset[cnt]) || IsDigit(codeset[cnt]) {
        if IsAlpha(codeset[cnt]) { onlyDigit := false; }
      }
      cnt := cnt + 1;
    }
    var prefix := if onlyDigit then "iso" else "";
    r := prefix;
    cnt := 0;
    while cnt < |codeset|
      invariant 0 <= cnt <= |codeset|
      invariant r + Squeezed(codeset[cnt..]) == prefix + Squeezed(codeset)
    {
      ghost var rest, before := codeset[cnt..], r;
      if IsAlpha(codeset[cnt]) { r := r + [ToLower(codeset[cnt])]; }
      else if IsDigit(codeset[cnt]) { r := r + [codeset[cnt]]; }
      cnt := cnt + 1;
      assert rest[1..] == codeset[cnt..];
      SqueezedStep(before, r, rest);
    }
    assert prefix + Squeezed(codeset) == r;
  }

  lemma SqueezedStep(before: string, after: string, rest: string)
    requires rest != []
    requires after == if IsAlpha(rest[0]) then before + [ToLower(rest[0])] else if IsDigit(rest[0]) then before + [rest[0]] else before
    ensures after + Squeezed(rest[1..]) == before + Squeezed(rest)
  {
    var piece := if IsAlpha(rest[0]) then [ToLower(rest[0])] else if IsDigit(rest[0]) then [rest[0]] else [];
    assert Squeezed(rest) == piece + Squeezed(rest[1..]);
    assert after == before + piece;
    Appended(before, piece, Squeezed(rest[1..]));
  }

  lemma Appended(a: string, b: string, c: string)
    ensures (a + b) + c == a + (b + c)
  {
  }

  /** The results of exploding: where in the buffer each part starts. */
  datatype Pointers = Pointers(mask: Mask, language: nat, territory: Option<nat>, codeset: Option<nat>,
                               normalized: Option<string>, modifier: Option<nat>)

  ghost function Read(buffer: string, at: nat): string
    requires at <= |buffer|
  {
    Key(buffer[at..])
  }

  /** The part whose text starts at the pointer. */
  ghost predicate PointsTo(buffer: string, at: Option<nat>, part: Option<string>) {
    && at.Some? == part.Some?
    && (at.Some? ==> at.value <= |buffer| && Read(buffer, at.value) == part.value)
  }

  /** The buffer, read through the pointers, holds these parts. */
  ghost predicate Holds(buffer: string, p: Pointers, e: Exploded) {
    && p.mask == e.mask && p.normalized == e.normalized
    && Reads(buffer, p, Raw(e.language, e.territory, e.codeset, e.modifier))
  }

  ghost predicate Reads(buffer: string, p: Pointers, r: Raw) {
    && PointsTo(buffer, Some(p.language), Some(r.language)) && PointsTo(buffer, p.territory, r.territory)
    && PointsTo(buffer, p.codeset, r.codeset) && PointsTo(buffer, p.modifier, r.modifier)
  }

  /** A part in the buffer, its mark overwritten. */
  ghost function Cut(part: Option<string>): string { Part(NUL, part) }

  lemma {:induction false} KeyOfPart(p: string, rest: string)
    requires Plain(p) && rest != [] && rest[0] == NUL
    ensures Key(p + rest) == p
  {
    if p == [] {
      assert p + rest == rest;
    } else {
      assert p[0] in p;
      assert (p + rest)[1..] == p[1..] + rest;
      KeyOfPart(p[1..], rest);
      assert p == [p[0]] + p[1..];
    }
  }

  /** A part is read through its pointer as long as a NUL follows it. */
  lemma ReadPart(before: string, part: Option<string>, after: string, buffer: string, at: Option<nat>)
    requires buffer == before + Cut(part) + after && after != [] && after[0] == NUL
    requires part.Some? ==> Plain(part.value)
    requires at == if part.Some? then Some(|before| + 1) else None
    ensures PointsTo(buffer, at, part)
  {
    if part.Some? {
      assert buffer[|before| + 1..] == part.value + after;
      KeyOfPart(part.value, after);
    }
  }

  method Scan(a: array<char>, start: nat, marks: string, ghost done: string, ghost rest: string) returns (cp: nat)
    requires a[..] == done + rest + [NUL] && start == |done| && NUL !in rest
    ensures cp == start + Span(rest, marks)
  {
    cp := start;
    assert rest[0..] == rest;
    while a[cp] != NUL && a[cp] !in marks
      invariant start <= cp <= start + |rest|
      invariant Span(rest, marks) == cp - start + Span(rest[cp - start..], marks)
      decreases start + |rest| - cp
    {
      assert a[cp] == a[..][cp];
      Ahead(a[..], done, rest, cp);
      ghost var r := rest[cp - start..];
      assert r[0] == a[cp] && r[1..] == rest[cp + 1 - start..];
      cp := cp + 1;
    }
    Ahead(a[..], done, rest, cp);
    assert a[cp] == a[..][cp];
    assert a[cp] == NUL ==> cp == start + |rest|;
  }

  lemma Ahead(buffer: string, done: string, rest: string, cp: nat)
    requires buffer == done + rest + [NUL] && |done| <= cp <= |done| + |rest| && NUL !in rest
    ensures cp < |buffer| && (buffer[cp] == NUL <==> cp == |done| + |rest|)
    ensures cp < |done| + |rest| ==> buffer[cp] == rest[cp - |done|]
  {
    if cp < |done| + |rest| { assert buffer[cp] == rest[cp - |done|]; assert rest[cp - |done|] in rest; }
  }

  ghost predicate PlainPart(p: Option<string>) { p.Some? ==> Plain(p.value) }

  ghost function Start(before: nat, part: Option<string>): Option<nat> {
    if part.Some? then Some(before + 1) else None
  }

  /** A part that starts with mark, if there is one at cp. */
  method CutPart(a: array<char>, start: nat, mark: char, marks: string, ghost done: string, ghost rest: string)
    returns (at: Option<nat>, cp: nat, ghost part: Option<string>, ghost rest': string)
    requires a[..] == done + rest + [NUL] && start == |done| && NUL !in rest && mark != NUL
    modifies a
    ensures (part, rest') == TakePart(rest, mark, marks) && NUL !in rest'
    ensures at == Start(start, part) && PlainPart(part)
    ensures a[..] == (done + Cut(part)) + rest' + [NUL] && cp == |done + Cut(part)|
  {
    at, cp, part, rest' := None, start, None, rest;
    Ahead(a[..], done, rest, start);
    assert a[start] == a[..][start];
    if a[cp] == mark {
      a[cp] := NUL;
      cp := cp + 1;
      at := Some(cp);
      ghost var tail := rest[1..];
      assert a[..] == (done + [NUL]) + tail + [NUL];
      cp := Scan(a, cp, marks, done + [NUL], tail);
      ghost var n := Span(tail, marks);
      rest' := tail[n..];
      part := Some(tail[..n]);
      assert (done + Cut(part)) + rest' == (done + [NUL]) + tail;
    } else {
      assert done + Cut(None) == done;
    }
  }

  /** The modifier runs to the end. */
  method CutModifier(a: array<char>, cp: nat, ghost done: string, ghost rest: string) returns (at: Option<nat>, ghost part: Option<string>)
    requires a[..] == done + rest + [NUL] && cp == |done| && NUL !in rest && (rest == [] || rest[0] == '@')
    modifies a
    ensures part == TakePart(rest, '@', "").0 && at == Start(cp, part) && PlainPart(part)
    ensures a[..] == done + Cut(part) + [NUL]
  {
    at, part := None, None;
    Ahead(a[..], done, rest, cp);
    assert a[cp] == a[..][cp];
    if a[cp] == '@' {
      a[cp] := NUL;
      at := Some(cp + 1);
      part := Some(rest[1..]);
      SpanIs(rest[1..], "");
      assert rest[1..][..|rest| - 1] == rest[1..];
      assert rest == ['@'] + rest[1..];
    } else {
      assert done + Cut(None) == done && done + rest == done;
    }
  }

  lemma AllRead(buffer: string, l: string, t: Option<string>, c: Option<string>, m: Option<string>, p: Pointers)
    requires buffer == l + Cut(t) + Cut(c) + Cut(m) + [NUL]
    requires Plain(l) && PlainPart(t) && PlainPart(c) && PlainPart(m)
    requires p.language == 0 && p.territory == Start(|l|, t) && p.codeset == Start(|l + Cut(t)|, c)
    requires p.modifier == Start(|l + Cut(t) + Cut(c)|, m)
    ensures Reads(buffer, p, Raw(l, t, c, m))
  {
    var behindC := Cut(m) + [NUL];
    var behindT := Cut(c) + behindC;
    var behindL := Cut(t) + behindT;
    NulFirst(m, [NUL]);
    NulFirst(c, behindC);
    NulFirst(t, behindT);
    Regrouped(l, Cut(t), Cut(c), Cut(m), [NUL]);
    assert buffer[0..] == buffer;
    KeyOfPart(l, behindL);
    ReadPart(l, t, behindT, buffer, p.territory);
    ReadPart(l + Cut(t), c, behindC, buffer, p.codeset);
    ReadPart(l + Cut(t) + Cut(c), m, [NUL], buffer, p.modifier);
  }

  lemma NulFirst(part: Option<string>, after: string)
    requires after != [] && after[0] == NUL
    ensures Cut(part) + after != [] && (Cut(part) + after)[0] == NUL
  {
  }

  lemma Regrouped(l: string, t: string, c: string, m: string, n: string)
    ensures l + t + c + m + n == l + (t + (c + (m + n)))
    ensures l + t + c + m + n == l + t + (c + (m + n))
    ensures l + t + c + m + n == (l + t) + c + (m + n)
  {
  }

  /** _nl_explode_name: overwrites the marks between the parts and hands back
      where each part starts. */
  method ExplodeName(a: array<char>, ghost name: string) returns (p: Pointers)
    requires a[..] == name + [NUL] && Plain(name)
    modifies a
    ensures Holds(a[..], p, Explode(name))
  {
    assert a[..] == [] + name + [NUL];
    var cp := Scan(a, 0, "_@.", [], name);
    SpanIs(name, "_@.");
    if cp == 0 {
      assert a[..][0..] == name + [NUL];
      KeyOfPart(name, [NUL]);
      return Pointers(0, 0, None, None, None, None);
    }
    assert name == name[..cp] + name[cp..];
    ghost var r;
    p, r := ExplodeParts(a, cp, name[..cp], name[cp..]);
    assert r == Parsed(name);
  }

  /** The name has a language, which ends at cp. */
  method ExplodeParts(a: array<char>, cp: nat, ghost language: string, ghost rest: string) returns (p: Pointers, ghost r: Raw)
    requires a[..] == language + rest + [NUL] && cp == |language| && Plain(language) && NUL !in rest
    requires rest == [] || rest[0] in "_@."
    modifies a
    ensures r.language == language && IsRest(rest, r.territory, r.codeset, r.modifier)
    ensures Reads(a[..], p, r) && p.normalized == Respelling(r.codeset, r.modifier)
    ensures p.mask == MaskOf(Filled(r.territory), Filled(r.codeset), p.normalized.Some?, Filled(r.modifier))
  {
    ghost var t, c, m;
    var territory, codeset, normalized, modifier;
    territory, codeset, normalized, modifier, t, c, m := CutParts(a, cp, language, rest);
    r := Raw(language, t, c, m);
    p := Pointers(0, 0, territory, codeset, normalized, modifier);
    AllRead(a[..], language, t, c, m, p);
    p := Assemble(a, p, r);
  }

  /** What follows the language, by its parts. */
  ghost predicate IsRest(rest: string, t: Option<string>, c: Option<string>, m: Option<string>) {
    var (t', rest1) := TakePart(rest, '_', ".@");
    var (c', rest2) := TakePart(rest1, '.', "@");
    t == t' && c == c' && m == TakePart(rest2, '@', "").0
  }

  method CutParts(a: array<char>, cp: nat, ghost language: string, ghost rest: string)
    returns (territory: Option<nat>, codeset: Option<nat>, normalized: Option<string>, modifier: Option<nat>,
             ghost t: Option<string>, ghost c: Option<string>, ghost m: Option<string>)
    requires a[..] == language + rest + [NUL] && cp == |language| && NUL !in rest
    requires rest == [] || rest[0] in "_@."
    modifies a
    ensures IsRest(rest, t, c, m)
    ensures PlainPart(t) && PlainPart(c) && PlainPart(m) && normalized == Respelling(c, m)
    ensures territory == Start(|language|, t) && codeset == Start(|language + Cut(t)|, c)
    ensures modifier == Start(|language + Cut(t) + Cut(c)|, m)
    ensures a[..] == language + Cut(t) + Cut(c) + Cut(m) + [NUL]
  {
    var cp1;
    ghost var rest1;
    territory, cp1, t, rest1 := CutPart(a, cp, '_', ".@", language, rest);
    TakePartIs(rest, '_', ".@");
    codeset, normalized, modifier, c, m := CutTail(a, cp1, language + Cut(t), rest1);
  }

  ghost function Respelling(codeset: Option<string>, modifier: Option<string>): Option<string> {
    if Respelled(codeset, modifier) then Some(Normalised(codeset.value)) else None
  }

  /** Whether the normalised codeset is kept.  The modifier has not been cut off yet,
      so the string compared with it goes on to the end of the name. */
  method Respell(a: array<char>, codeset: nat, cp: nat, ghost done: string, ghost c: string, ghost rest: string)
    returns (normalized: Option<string>)
    requires codeset == |done| && cp == |done + c| && a[..] == done + (c + rest) + [NUL]
    requires NUL !in c && NUL !in rest && (rest == [] || rest[0] == '@')
    ensures normalized == Respelling(Some(c), TakePart(rest, '@', "").0)
  {
    normalized := None;
    if codeset != cp {
      assert a[codeset..cp] == c;
      var norm := NormalizeCodeset(a[codeset..cp]);
      var text := Text(a, codeset);
      assert a[..][codeset..] == (c + rest) + [NUL];
      KeyOfPart(c + rest, [NUL]);
      StrcmpZero(text, norm);
      if rest != [] { HasMark(text, |c|, norm, c); } else { assert c + rest == c; }
      if Strcmp(text, norm) != 0 { normalized := Some(norm); }
    }
  }

  lemma HasMark(text: string, i: nat, norm: string, c: string)
    requires i < |text| && text[i] == '@' && norm == Normalised(c)
    ensures text != norm
  {
    NormalisedIs(c);
  }

  method CutTail(a: array<char>, cp: nat, ghost done: string, ghost rest: string)
    returns (codeset: Option<nat>, normalized: Option<string>, modifier: Option<nat>, ghost c: Option<string>, ghost m: Option<string>)
    requires a[..] == done + rest + [NUL] && cp == |done| && NUL !in rest
    requires rest == [] || rest[0] in ".@"
    modifies a
    ensures c == TakePart(rest, '.', "@").0 && m == TakePart(TakePart(rest, '.', "@").1, '@', "").0
    ensures codeset == Start(cp, c) && modifier == Start(|done + Cut(c)|, m) && PlainPart(c) && PlainPart(m)
    ensures a[..] == done + Cut(c) + Cut(m) + [NUL] && normalized == Respelling(c, m)
  {
    var cp2;
    ghost var rest2;
    codeset, normalized, cp2, c, rest2 := CutCodeset(a, cp, done, rest);
    modifier, m := CutModifier(a, cp2, done + Cut(c), rest2);
  }

  method CutCodeset(a: array<char>, cp: nat, ghost done: string, ghost rest: string)
    returns (codeset: Option<nat>, normalized: Option<string>, cp': nat, ghost c: Option<string>, ghost rest': string)
    requires a[..] == done + rest + [NUL] && cp == |done| && NUL !in rest
    requires rest == [] || rest[0] in ".@"
    modifies a
    ensures (c, rest') == TakePart(rest, '.', "@") && NUL !in rest' && (rest' == [] || rest'[0] == '@')
    ensures codeset == Start(cp, c) && PlainPart(c)
    ensures a[..] == (done + Cut(c)) + rest' + [NUL] && cp' == |done + Cut(c)|
    ensures normalized == Respelling(c, TakePart(rest', '@', "").0)
  {
    codeset, cp', c, rest' := CutPart(a, cp, '.', "@", done, rest);
    TakePartIs(rest, '.', "@");
    normalized := None;
    if codeset.Some? {
      assert (done + Cut(c)) + rest' == (done + [NUL]) + (c.value + rest');
      normalized := Respell(a, codeset.value, cp', done + [NUL], c.value, rest');
    }
  }

  /** The mask: a bit for each part that is there and not empty, and one for the
      normalised codeset. */
  method Assemble(a: array<char>, p: Pointers, ghost r: Raw) returns (p': Pointers)
    requires Reads(a[..], p, r)
    ensures p' == p.(mask := MaskOf(Filled(r.territory), Filled(r.codeset), p.normalized.Some?, Filled(r.modifier)))
  {
    var mask := 0;
    if p.territory.Some? { mask := mask + TERRITORY; }
    if p.codeset.Some? { mask := mask + CODESET; }
    if p.normalized.Some? { mask := mask + NORM_CODESET; }
    if p.modifier.Some? {
      var text := Text(a, p.modifier.value);
      if text != [] { mask := mask + MODIFIER; }
    }
    if p.territory.Some? {
      var text := Text(a, p.territory.value);
      if text == [] { mask := mask - TERRITORY; }
    }
    if p.codeset.Some? {
      var text := Text(a, p.codeset.value);
      if text == [] { mask := mask - CODESET; }
    }
    p' := p.(mask := mask);
  }

  /** The C string at a pointer. */
  method Text(a: array<char>, at: nat) returns (s: string)
    requires at <= a.Length
    ensures s == Read(a[..], at)
  {
    s := Key(a[at..]);
    assert a[at..] == a[..][at..];
  }
}
