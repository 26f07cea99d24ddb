/** Loading a catalog that has system-dependent strings, and translating by it. */
module CatalogLoading {
  import opened Options
  import opened CStrings
  import opened Primes
  import opened MessageTable
  import opened Catalog
  import opened SysdepStrings
  import opened SysdepFill

  /** A loaded catalog: all msgids, and the translation of each, by number. */
  datatype Domain = Domain(strings: Strings, trans: seq<string>, transSysdep: seq<string>)

  ghost predicate Complete(d: Domain) {
    |d.trans| == |d.strings.orig| && |d.transSysdep| == |d.strings.sysdep|
  }

  function Translation(d: Domain, act: nat): string
    requires Complete(d) && act < Size(d.strings)
  {
    if act < |d.strings.orig| then d.trans[act] else d.transSysdep[act - |d.strings.orig|]
  }

  /** The texts that the kept pairs stand for. */
  ghost predicate Texts(origs: seq<string>, transes: seq<string>, data: string, kept: seq<Pair>, values: Values) {
    && |origs| == |transes| == |kept|
    && forall q :: 0 <= q < |kept| ==> PairTexts(origs[q], transes[q], data, kept[q], values)
  }

  ghost predicate PairTexts(o: string, t: string, data: string, pair: Pair, values: Values) {
    && Usable(data, pair.orig, values) && Usable(data, pair.trans, values)
    && o == SysdepStrings.Text(data, pair.orig, values) && t == SysdepStrings.Text(data, pair.trans, values)
  }

  /** Following a descriptor. */
  method Follow(d: Desc, data: string, block: array<char>) returns (s: string)
    requires Within(d, data, block[..])
    ensures s == TextAt(d, data, block[..])
  {
    match d.pointer
    case File(at) => s := data[at..at + d.length];
    case Block(at) =>
      s := block[at..at + d.length];
      assert s == block[..][at..at + d.length];
  }

  method FollowAll(orig: array<Desc>, trans: array<Desc>, data: string, block: array<char>, ghost kept: seq<Pair>, values: Values)
    returns (origs: seq<string>, transes: seq<string>)
    requires Tables(orig[..], trans[..], data, block[..], kept, values)
    ensures Texts(origs, transes, data, kept, values)
  {
    origs, transes := [], [];
    var k := 0;
    while k < orig.Length
      invariant 0 <= k <= orig.Length == |kept| && |origs| == |transes| == k
      invariant forall q :: 0 <= q < k ==> PairTexts(origs[q], transes[q], data, kept[q], values)
    {
      assert PairShown(orig[..][k], trans[..][k], data, block[..], kept[k], values);
      var o := Follow(orig[k], data, block);
      var t := Follow(trans[k], data, block);
      origs, transes := origs + [o], transes + [t];
      k := k + 1;
    }
  }

  lemma IndexesMore(tab: Table, orig: seq<string>, sysdep: seq<string>, hashOf: string -> nat)
    requires Indexes(tab, Strings(orig, []), |orig|, hashOf)
    ensures Indexes(tab, Strings(orig, sysdep), |orig|, hashOf)
  {
    forall i | 0 <= i < |orig| ensures IsPlaced(tab, Strings(orig, sysdep), i, hashOf) {
      assert IsPlaced(tab, Strings(orig, []), i, hashOf);
    }
  }

  /** The part of _nl_load_domain that deals with system-dependent strings: both
      passes over them, and then the table.  None: the file is invalid. */
  method LoadDomain(orig: seq<string>, trans: seq<string>, tab: Table, pairs: seq<Pair>, values: Values, data: string,
                    hashOf: string -> nat) returns (r: Option<(Domain, array<nat>)>)
    requires AllInFile(data, pairs) && |trans| == |orig|
    requires Indexes(tab, Strings(orig, []), |orig|, hashOf) && Prime(|tab|)
    requires |Kept(pairs, values, |pairs|)| < |Free(tab)|
    ensures r.None? <==> NeedTo(pairs, values, |pairs|).Invalid?
    ensures r.Some? ==>
              var (d, a) := r.value;
              && d.strings.orig == orig && d.trans == trans && Complete(d)
              && Texts(d.strings.sysdep, d.transSysdep, data, Kept(pairs, values, |pairs|), values)
              && a.Length == |tab| && Indexes(a[..], d.strings, Size(d.strings), hashOf) && Free(a[..]) != {}
  {
    var loaded, end := Load(pairs, values, data, |tab|);
    if loaded.None? { return None; }
    var (origTab, transTab, block) := loaded.value;
    var sysdep, transSysdep := FollowAll(origTab, transTab, data, block, Kept(pairs, values, |pairs|), values);
    var c := Strings(orig, sysdep);
    IndexesMore(tab, orig, sysdep, hashOf);
    var a := Augment(tab, c, hashOf);
    r := Some((Domain(c, trans, transSysdep), a));
  }

  /** Every system-dependent msgid of the file ends with a NUL, as C strings do. */
  ghost predicate MsgidsEnd(data: string, pairs: seq<Pair>)
    requires AllInFile(data, pairs)
  {
    forall i :: 0 <= i < |pairs| ==> MsgidEnds(data, pairs[i])
  }

  ghost predicate MsgidEnds(data: string, pair: Pair) {
    PairInFile(data, pair) && NulEnded(data, pair.orig.offset, pair.orig.segments, 0)
  }

  lemma TextsEnd(d: Domain, data: string, pairs: seq<Pair>, values: Values)
    requires AllInFile(data, pairs) && MsgidsEnd(data, pairs)
    requires Texts(d.strings.sysdep, d.transSysdep, data, Kept(pairs, values, |pairs|), values)
    ensures Terminated(d.strings)
  {
    var kept := Kept(pairs, values, |pairs|);
    forall q | 0 <= q < |d.strings.sysdep| ensures NUL in d.strings.sysdep[q] {
      assert PairTexts(d.strings.sysdep[q], d.transSysdep[q], data, kept[q], values);
      KeptArePairs(pairs, values, |pairs|, kept[q]);
      assert MsgidEnds(data, kept[q]);
      TextHasNul(data, kept[q].orig.offset, kept[q].orig.segments, values, 0);
    }
  }

  /** _nl_find_msg on a loaded catalog with a hash table. */
  method FindMessage(d: Domain, a: array<nat>, msgid: string, hashOf: string -> nat) returns (act: Option<nat>, text: Option<string>)
    requires Complete(d) && Terminated(d.strings) && a.Length > 2 && Prime(a.Length) && Free(a[..]) != {}
    requires Indexes(a[..], d.strings, Size(d.strings), hashOf)
    ensures Found(d.strings, msgid, act)
    ensures text == match act case Some(i) => Some(Translation(d, i)) case None => None
  {
    PrimeStops(a[..], hashOf(msgid));
    act := FindByHash(d.strings, a[..], msgid, hashOf);
    if act.None? { return act, None; }
    if act.value < |d.strings.orig| {
      text := Some(d.trans[act.value]);
    } else {
      text := Some(d.transSysdep[act.value - |d.strings.orig|]);
    }
  }

  /** A translation of msgid: of a string of the file, or the text of a pair. */
  ghost predicate Translates(orig: seq<string>, trans: seq<string>, data: string, kept: seq<Pair>, values: Values, msgid: string, t: string)
    requires |trans| == |orig|
  {
    || (exists i :: 0 <= i < |orig| && Key(orig[i]) == msgid && t == trans[i])
    || (exists q :: 0 <= q < |kept| && PairTranslates(data, kept[q], values, msgid, t))
  }

  ghost predicate PairTranslates(data: string, pair: Pair, values: Values, msgid: string, t: string) {
    && Usable(data, pair.orig, values) && Usable(data, pair.trans, values)
    && Key(SysdepStrings.Text(data, pair.orig, values)) == msgid && t == SysdepStrings.Text(data, pair.trans, values)
  }

  /** Loading a catalog and then asking it for a message: a translation from the
      file or put together from segments, and nothing only if there is none. */
  method LoadAndFind(orig: seq<string>, trans: seq<string>, tab: Table, pairs: seq<Pair>, values: Values, data: string,
                     hashOf: string -> nat, msgid: string) returns (loaded: bool, text: Option<string>)
    requires AllInFile(data, pairs) && MsgidsEnd(data, pairs) && |trans| == |orig|
    requires Indexes(tab, Strings(orig, []), |orig|, hashOf) && Prime(|tab|)
    requires |Kept(pairs, values, |pairs|)| < |Free(tab)|
    ensures loaded <==> !NeedTo(pairs, values, |pairs|).Invalid?
    ensures text.Some? ==> Translates(orig, trans, data, Kept(pairs, values, |pairs|), values, msgid, text.value)
    ensures loaded && text.None? ==> forall t :: !Translates(orig, trans, data, Kept(pairs, values, |pairs|), values, msgid, t)
  {
    var r := LoadDomain(orig, trans, tab, pairs, values, data, hashOf);
    if r.None? { return false, None; }
    var (d, a) := r.value;
    TextsEnd(d, data, pairs, values);
    var act;
    act, text := FindMessage(d, a, msgid, hashOf);
    loaded := true;
    FoundTranslates(d, data, Kept(pairs, values, |pairs|), values, msgid, act);
  }

  lemma FoundTranslates(d: Domain, data: string, kept: seq<Pair>, values: Values, msgid: string, act: Option<nat>)
    requires Complete(d) && Texts(d.strings.sysdep, d.transSysdep, data, kept, values) && Found(d.strings, msgid, act)
    ensures match act
            case Some(i) => Translates(d.strings.orig, d.trans, data, kept, values, msgid, Translation(d, i))
            case None => forall t :: !Translates(d.strings.orig, d.trans, data, kept, values, msgid, t)
  {
    var n := |d.strings.orig|;
    match act
    case Some(i) =>
      if i < n {
        assert Key(d.strings.orig[i]) == msgid;
      } else {
        assert PairTexts(d.strings.sysdep[i - n], d.transSysdep[i - n], data, kept[i - n], values);
        assert PairTranslates(data, kept[i - n], values, msgid, Translation(d, i));
      }
    case None =>
      forall t ensures !Translates(d.strings.orig, d.trans, data, kept, values, msgid, t) {
        NoneTranslates(d, data, kept, values, msgid, t);
      }
  }

  lemma NoneTranslates(d: Domain, data: string, kept: seq<Pair>, values: Values, msgid: string, t: string)
    requires Complete(d) && Texts(d.strings.sysdep, d.transSysdep, data, kept, values) && Found(d.strings, msgid, None)
    ensures !Translates(d.strings.orig, d.trans, data, kept, values, msgid, t)
  {
    var n := |d.strings.orig|;
    forall i | 0 <= i < n ensures Key(d.strings.orig[i]) != msgid { assert KeyAt(d.strings, i) != msgid; }
    forall q | 0 <= q < |kept| ensures !PairTranslates(data, kept[q], values, msgid, t) {
      assert PairTexts(d.strings.sysdep[q], d.transSysdep[q], data, kept[q], values);
      assert KeyAt(d.strings, n + q) != msgid;
    }
  }
}
