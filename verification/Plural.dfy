/** Picking a plural form: the forms of a translation stand one after the other,
    each ended by a NUL. */
module Plural {
  import opened Options
  import opened CStrings

  /** Form number i of a text whose final NUL is left out. */
  function Form(text: string, i: nat): Option<string>
    decreases i
  {
    if i == 0 then Some(Key(text))
    else if |Key(text)| >= |text| then None
    else Form(text[|Key(text)| + 1..], i - 1)
  }

  /** The forms of an entry, put together as msgfmt does. */
  function Joined(forms: seq<string>): string
    requires forms != []
  {
    if |forms| == 1 then forms[0] else forms[0] + [NUL] + Joined(forms[1..])
  }

  lemma {:induction false} KeyOfFirst(form: string, rest: string)
    requires Plain(form)
    ensures Key(form + [NUL] + rest) == form
  {
    if form == [] {
      assert (form + [NUL] + rest)[0] == NUL;
    } else {
      assert form[0] in form;
      assert (form + [NUL] + rest)[1..] == form[1..] + [NUL] + rest;
      KeyOfFirst(form[1..], rest);
      assert form == [form[0]] + form[1..];
    }
  }

  /** The forms come back one by one, and no others. */
  lemma {:induction false} FormOfJoined(forms: seq<string>, i: nat)
    requires forms != [] && forall f :: f in forms ==> Plain(f)
    ensures Form(Joined(forms), i) == if i < |forms| then Some(forms[i]) else None
  {
    assert forms[0] in forms;
    if |forms| == 1 {
      KeyOfPlain(forms[0]);
    } else {
      var rest := Joined(forms[1..]);
      KeyOfFirst(forms[0], rest);
      if i > 0 {
        assert Joined(forms)[|forms[0]| + 1..] == rest;
        forall f | f in forms[1..] ensures Plain(f) { assert f in forms; }
        FormOfJoined(forms[1..], i - 1);
      }
    }
  }

  /** What plural_lookup returns: the form asked for, or the first one when the
      catalog does not have it. */
  function Lookup(text: string, index: nat, nplurals: nat): string {
    var i := if index >= nplurals then 0 else index;
    Form(text, i).GetOr(Key(text))
  }

  /** The forms that a text holds. */
  ghost predicate Holds(text: string, forms: seq<string>) {
    forms != [] && text == Joined(forms) && forall f :: f in forms ==> Plain(f)
  }

  /** Every text holds some forms, and no other ones. */
  lemma {:induction false} HoldsSome(text: string) returns (forms: seq<string>)
    ensures Holds(text, forms)
    decreases |text|
  {
    var first := Key(text);
    KeyIs(text);
    if |first| == |text| {
      forms := [text];
    } else {
      var rest := HoldsSome(text[|first| + 1..]);
      forms := [first] + rest;
      assert forms[1..] == rest;
      assert text == first + [NUL] + text[|first| + 1..];
    }
  }

  lemma HoldsOne(text: string, forms: seq<string>, forms': seq<string>)
    requires Holds(text, forms) && Holds(text, forms')
    ensures forms == forms'
  {
    FormOfJoined(forms, |forms'|);
    FormOfJoined(forms', |forms|);
    FormOfJoined(forms, |forms|);
    FormOfJoined(forms', |forms'|);
    forall i | 0 <= i < |forms| && i < |forms'| ensures forms[i] == forms'[i] {
      FormOfJoined(forms, i);
      FormOfJoined(forms', i);
    }
  }

  /** What is looked up is the form asked for, and the first one if the catalog has no
      such form. */
  lemma LookupForm(text: string, index: nat, nplurals: nat, forms: seq<string>)
    requires Holds(text, forms)
    ensures Lookup(text, index, nplurals) == if index < nplurals && index < |forms| then forms[index] else forms[0]
  {
    FormOfJoined(forms, 0);
    FormOfJoined(forms, if index >= nplurals then 0 else index);
  }

  /** plural_lookup.  buffer is the text and its final NUL; at is where the returned
      string starts. */
  method PluralLookup(buffer: string, evaluated: nat, nplurals: nat) returns (at: nat)
    requires buffer != [] && buffer[|buffer| - 1] == NUL
    ensures at < |buffer| && Key(buffer[at..]) == Lookup(buffer[..|buffer| - 1], evaluated, nplurals)
    ensures ShowsForm(Key(buffer[at..]), buffer[..|buffer| - 1], evaluated, nplurals)
  {
    var index: nat := if evaluated >= nplurals then 0 else evaluated;
    ghost var wanted, text := index, buffer[..|buffer| - 1];
    var p: nat := 0;
    assert text[0..] == text && buffer[0..] == buffer;
    KeyWithNul(buffer);
    while index > 0
      invariant p < |buffer| && Form(text, wanted) == Form(text[p..], index)
    {
      PointsInto(buffer, p);
      index := index - 1;
      p := p + |Key(buffer[p..])| + 1;
      if p >= |buffer| {
        LookupShows(text, evaluated, nplurals);
        return 0;
      }
    }
    PointsInto(buffer, p);
    LookupShows(text, evaluated, nplurals);
    return p;
  }

  /** Whatever forms the text holds, this is the one asked for, or the first one if the
      catalog has no such form. */
  ghost predicate ShowsForm(shown: string, text: string, index: nat, nplurals: nat) {
    forall forms :: Holds(text, forms) ==>
      shown == if index < nplurals && index < |forms| then forms[index] else forms[0]
  }

  lemma LookupShows(text: string, index: nat, nplurals: nat)
    ensures ShowsForm(Lookup(text, index, nplurals), text, index, nplurals)
  {
    forall forms | Holds(text, forms)
      ensures Lookup(text, index, nplurals) == if index < nplurals && index < |forms| then forms[index] else forms[0]
    {
      LookupForm(text, index, nplurals, forms);
    }
  }

  lemma PointsInto(buffer: string, p: nat)
    requires buffer != [] && buffer[|buffer| - 1] == NUL && p < |buffer|
    ensures var text := buffer[..|buffer| - 1]; var k := |Key(buffer[p..])|;
            && Key(text[p..]) == Key(buffer[p..])
            && (p + k + 1 < |buffer| ==> text[p..][k + 1..] == text[p + k + 1..])
  {
    KeyWithNul(buffer[p..]);
    KeyIs(buffer[p..]);
    assert buffer[p..][..|buffer[p..]| - 1] == buffer[..|buffer| - 1][p..];
  }

  /** A final NUL makes no difference to what a pointer shows. */
  lemma {:induction false} KeyWithNul(buffer: string)
    requires buffer != [] && buffer[|buffer| - 1] == NUL
    ensures Key(buffer) == Key(buffer[..|buffer| - 1])
  {
    if buffer[0] != NUL {
      assert buffer[1..][..|buffer[1..]| - 1] == buffer[..|buffer| - 1][1..];
      KeyWithNul(buffer[1..]);
    }
  }
}
