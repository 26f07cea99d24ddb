/** The list of bound domains: a map kept as a sorted list, and the counter that
    tells the cache of every change. */
module Bindings {
  import opened Options
  import opened CStrings

  datatype Value = Value(dirname: string, codeset: Option<string>)

  datatype Binding = Binding(domainname: string, value: Value)

  /** An in-out argument: not passed at all, or passed with a value or a null. */
  type Arg = Option<Option<string>>

  predicate Sets(a: Arg) { a.Some? && a.value.Some? }

  // ---- what binding means ------------------------------------------------------

  function Updated(v: Value, dirname: Arg, codeset: Arg): Value {
    Value(if Sets(dirname) then dirname.value.value else v.dirname,
          if Sets(codeset) then codeset.value else v.codeset)
  }

  function Initial(defaultDir: string): Value { Value(defaultDir, None) }

  ghost function Bound(m: map<string, Value>, defaultDir: string, domainname: Option<string>, dirname: Arg, codeset: Arg): map<string, Value> {
    if domainname.None? || domainname.value == [] || (!Sets(dirname) && !Sets(codeset)) then m
    else
      var before := if domainname.value in m then m[domainname.value] else Initial(defaultDir);
      m[domainname.value := Updated(before, dirname, codeset)]
  }

  /** What the two arguments hold afterwards: the values now in force. */
  ghost function Answer(m: map<string, Value>, defaultDir: string, domainname: Option<string>): (Option<string>, Option<string>) {
    if domainname.None? || domainname.value == [] then (None, None)
    else if domainname.value in m then (Some(m[domainname.value].dirname), m[domainname.value].codeset)
    else (Some(defaultDir), None)
  }

  /** What has been bound is in force: the directory and the codeset given last, each by
      itself, and the default directory and no codeset before that; other domains keep
      theirs. */
  lemma BoundAnswers(m: map<string, Value>, defaultDir: string, d: string, dirname: Arg, codeset: Arg, other: string)
    requires d != []
    ensures var before, after := Answer(m, defaultDir, Some(d)), Answer(Bound(m, defaultDir, Some(d), dirname, codeset), defaultDir, Some(d));
            && after.0 == (if Sets(dirname) then dirname.value else before.0)
            && after.1 == (if Sets(codeset) then codeset.value else before.1)
            && (d !in m ==> before == (Some(defaultDir), None))
    ensures other != d ==>
              Answer(Bound(m, defaultDir, Some(d), dirname, codeset), defaultDir, Some(other)) == Answer(m, defaultDir, Some(other))
  {
  }

  // ---- the list ----------------------------------------------------------------

  ghost predicate Increasing(list: seq<Binding>) {
    forall i, j :: 0 <= i < j < |list| ==> Before(list[i].domainname, list[j].domainname)
  }

  /** The list holds exactly the map. */
  ghost predicate Lists(list: seq<Binding>, m: map<string, Value>) {
    && (forall b :: b in list ==> b.domainname in m && m[b.domainname] == b.value)
    && (forall d :: d in m ==> Binding(d, m[d]) in list)
  }

  lemma ListsOneMap(list: seq<Binding>, m: map<string, Value>, m': map<string, Value>)
    requires Lists(list, m) && Lists(list, m')
    ensures m == m'
  {
    forall d | d in m ensures d in m' && m'[d] == m[d] { assert Binding(d, m[d]) in list; }
    forall d | d in m' ensures d in m { assert Binding(d, m'[d]) in list; }
  }

  lemma NotListed(list: seq<Binding>, domainname: string, at: nat)
    requires Increasing(list) && at <= |list|
    requires forall i :: 0 <= i < at ==> Before(list[i].domainname, domainname)
    requires at < |list| ==> Before(domainname, list[at].domainname)
    ensures forall i :: at <= i < |list| ==> Before(domainname, list[i].domainname)
    ensures forall b :: b in list ==> b.domainname != domainname
  {
    forall i | at <= i < |list| ensures Before(domainname, list[i].domainname) {
      if i > at { BeforeTrans(domainname, list[at].domainname, list[i].domainname); }
    }
    StrcmpZero(domainname, domainname);
  }

  lemma Replaced(list: seq<Binding>, m: map<string, Value>, at: nat, v: Value)
    requires Increasing(list) && Lists(list, m) && at < |list|
    ensures Increasing(list[at := list[at].(value := v)])
    ensures Lists(list[at := list[at].(value := v)], m[list[at].domainname := v])
  {
    var d := list[at].domainname;
    var list' := list[at := list[at].(value := v)];
    StrcmpZero(d, d);
    forall b | b in list' ensures b.domainname in m[d := v] && m[d := v][b.domainname] == b.value {
      var i :| 0 <= i < |list'| && list'[i] == b;
      if i != at { assert list[i] in list; assert list[i].domainname != d; }
    }
    var m' := m[d := v];
    forall e | e in m' ensures Binding(e, m'[e]) in list' {
      if e == d { assert list'[at] == Binding(d, v); }
      else {
        var i :| 0 <= i < |list| && list[i] == Binding(e, m[e]);
        assert list'[i] == list[i];
      }
    }
  }

  lemma Inserted(list: seq<Binding>, m: map<string, Value>, at: nat, d: string, v: Value)
    requires Increasing(list) && Lists(list, m) && at <= |list|
    requires forall i :: 0 <= i < at ==> Before(list[i].domainname, d)
    requires forall i :: at <= i < |list| ==> Before(d, list[i].domainname)
    requires d !in m
    ensures Increasing(list[..at] + [Binding(d, v)] + list[at..])
    ensures Lists(list[..at] + [Binding(d, v)] + list[at..], m[d := v])
  {
    InsertedOrder(list, at, Binding(d, v));
    InsertedMap(list, m, at, d, v);
  }

  lemma InsertedOrder(list: seq<Binding>, at: nat, b: Binding)
    requires Increasing(list) && at <= |list|
    requires forall i :: 0 <= i < at ==> Before(list[i].domainname, b.domainname)
    requires forall i :: at <= i < |list| ==> Before(b.domainname, list[i].domainname)
    ensures Increasing(list[..at] + [b] + list[at..])
  {
    var list' := list[..at] + [b] + list[at..];
    forall i, j | 0 <= i < j < |list'| ensures Before(list'[i].domainname, list'[j].domainname) {
      var x, y := if i <= at then i else i - 1, if j <= at then j else j - 1;
      if i != at && j != at { assert list'[i] == list[x] && list'[j] == list[y]; }
    }
  }

  lemma InsertedMap(list: seq<Binding>, m: map<string, Value>, at: nat, d: string, v: Value)
    requires Lists(list, m) && at <= |list| && d !in m
    ensures Lists(list[..at] + [Binding(d, v)] + list[at..], m[d := v])
  {
    var list' := list[..at] + [Binding(d, v)] + list[at..];
    assert list == list[..at] + list[at..];
    var m' := m[d := v];
    forall e | e in m' ensures Binding(e, m'[e]) in list' {
      if e == d { assert list'[at] == Binding(d, v); } else { assert Binding(e, m[e]) in list; }
    }
  }

  class Table {
    var list: seq<Binding>
    var epoch: nat                  // _nl_msg_cat_cntr holds its low 32 bits
    const defaultDir: string
    ghost var bound: map<string, Value>

    ghost predicate Valid()
      reads this
    {
      Increasing(list) && Lists(list, bound)
    }

    constructor (defaultDir: string)
      ensures Valid() && bound == map[] && epoch == 0 && this.defaultDir == defaultDir
    {
      this.defaultDir := defaultDir;
      list, bound, epoch := [], map[], 0;
    }

    /** The walk to a binding, leaving early once it cannot come any more. */
    method Find(domainname: string) returns (at: Option<nat>)
      requires Valid()
      ensures at.Some? <==> domainname in bound
      ensures at.Some? ==> at.value < |list| && list[at.value] == Binding(domainname, bound[domainname])
    {
      var i := 0;
      while i < |list|
        invariant 0 <= i <= |list|
        invariant forall k :: 0 <= k < i ==> Before(list[k].domainname, domainname)
      {
        var compare := Strcmp(domainname, list[i].domainname);
        StrcmpZero(domainname, list[i].domainname);
        StrcmpSwap(domainname, list[i].domainname);
        if compare == 0 { assert list[i] in list; return Some(i); }
        if compare < 0 { break; }
        i := i + 1;
      }
      NotListed(list, domainname, i);
      return None;
    }

    /** The walk to where a new binding belongs. */
    method Place(domainname: string) returns (at: nat)
      requires Valid() && domainname !in bound
      ensures at <= |list|
      ensures forall i :: 0 <= i < at ==> Before(list[i].domainname, domainname)
      ensures forall i :: at <= i < |list| ==> Before(domainname, list[i].domainname)
    {
      at := 0;
      while at < |list| && Strcmp(domainname, list[at].domainname) > 0
        invariant 0 <= at <= |list|
        invariant forall k :: 0 <= k < at ==> Before(list[k].domainname, domainname)
      {
        StrcmpSwap(domainname, list[at].domainname);
        at := at + 1;
      }
      if at < |list| {
        StrcmpZero(domainname, list[at].domainname);
        assert list[at] in list;
      }
      NotListed(list, domainname, at);
    }

    /** set_binding_values, with memory to spare. */
    method SetBindingValues(domainname: Option<string>, dirname: Arg, codeset: Arg)
      returns (dirname': Option<string>, codeset': Option<string>)
      requires Valid()
      modifies this
      ensures Valid() && bound == Bound(old(bound), defaultDir, domainname, dirname, codeset)
      ensures epoch == old(epoch) + if bound != old(bound) then 1 else 0
      ensures dirname.Some? ==> dirname' == Answer(bound, defaultDir, domainname).0
      ensures codeset.Some? ==> codeset' == Answer(bound, defaultDir, domainname).1
    {
      if domainname.None? || domainname.value == [] { return None, None; }
      var modified := false;
      var at := Find(domainname.value);
      if at.Some? {
        dirname', codeset', modified := Rebind(at.value, dirname, codeset);
      } else if !Sets(dirname) && !Sets(codeset) {
        return Some(defaultDir), None;
      } else {
        var value := Updated(Initial(defaultDir), dirname, codeset);
        dirname', codeset' := Some(value.dirname), value.codeset;
        var place := Place(domainname.value);
        Inserted(list, bound, place, domainname.value, value);
        list := list[..place] + [Binding(domainname.value, value)] + list[place..];
        bound := bound[domainname.value := value];
        modified := true;
      }
      if modified { Bump(); }
    }

    /** ++_nl_msg_cat_cntr */
    method Bump()
      requires Valid()
      modifies this`epoch
      ensures Valid() && epoch == old(epoch) + 1
    {
      epoch := epoch + 1;
    }

    /** The branch for a domain that is bound already. */
    method Rebind(at: nat, dirname: Arg, codeset: Arg)
      returns (dirname': Option<string>, codeset': Option<string>, modified: bool)
      requires Valid() && at < |list| && list[at].domainname in bound && bound[list[at].domainname] == list[at].value
      modifies this`list, this`bound
      ensures Valid() && bound == old(bound[list[at].domainname := Updated(list[at].value, dirname, codeset)])
      ensures modified == (bound != old(bound))
      ensures dirname' == old(Some(Updated(list[at].value, dirname, codeset).dirname))
      ensures codeset' == old(Updated(list[at].value, dirname, codeset).codeset)
    {
      var value := list[at].value;
      modified := false;
      if Sets(dirname) && dirname.value.value != value.dirname {
        value := value.(dirname := dirname.value.value);
        modified := true;
      }
      if Sets(codeset) && codeset.value != value.codeset {
        value := value.(codeset := codeset.value);
        modified := true;
      }
      dirname', codeset' := Some(value.dirname), value.codeset;
      Replaced(list, bound, at, value);
      SameOrNot(bound, list[at].domainname, value);
      bound := bound[list[at].domainname := value];
      list := list[at := list[at].(value := value)];
    }
  }

  lemma SameOrNot(m: map<string, Value>, d: string, v: Value)
    requires d in m
    ensures m[d := v] == m <==> m[d] == v
  {
    if m[d] == v { assert m[d := v] == m; } else { assert m[d := v][d] != m[d]; }
  }
}
