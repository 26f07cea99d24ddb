/** The list of message catalogs: one node per file name, in strictly decreasing
    order of file names, each with the less specific nodes to fall back on. */
module CatalogList {
  import opened CStrings
  import opened LocaleName

  predicate Absolute(language: string) { language != [] && language[0] == '/' }

  /** A directory, a printed locale name, and the file of the domain. */
  function PathOf(dir: string, printed: string, absolute: bool, file: string): string {
    (if absolute then [] else dir + ['/']) + printed + ['/'] + file
  }

  function FileName(dir: string, mask: Mask, e: Exploded, file: string): string {
    PathOf(dir, Printed(mask, e), Absolute(e.language), file)
  }

  /** The masks that node mask falls back on. */
  predicate Lesser(cnt: Mask, mask: Mask) {
    cnt < mask && Dominated(cnt, mask) && !BothCodesets(cnt)
  }

  /** Those of them from cnt - 1 down, in the order of the loop. */
  function FallbacksBelow(cnt: nat, mask: Mask): seq<Mask>
    requires cnt <= mask
  {
    if cnt == 0 then []
    else (if Lesser(cnt - 1, mask) then [cnt - 1] else []) + FallbacksBelow(cnt - 1, mask)
  }

  function Fallbacks(mask: Mask): seq<Mask> { FallbacksBelow(mask, mask) }

  class Node {
    const filename: string
    const pseudo: bool          // decided from the start: no file of this name is worth a look
    var successor: seq<Node>

    constructor (filename: string, pseudo: bool)
      ensures this.filename == filename && this.pseudo == pseudo && successor == []
    {
      this.filename, this.pseudo := filename, pseudo;
      successor := [];
    }
  }

  ghost predicate Decreasing(list: seq<Node>) {
    forall i, j :: 0 <= i < j < |list| ==> Before(list[j].filename, list[i].filename)
  }

  ghost function NamesOf(list: seq<Node>): set<string> { set n | n in list :: n.filename }

  ghost function SuccessorNames(s: seq<Node>): seq<string> {
    seq(|s|, i requires 0 <= i < |s| => s[i].filename)
  }

  ghost function FallbackNames(masks: seq<Mask>, dir: string, e: Exploded, file: string): seq<string> {
    seq(|masks|, i requires 0 <= i < |masks| => FileName(dir, masks[i], e, file))
  }

  ghost predicate Linked(n: Node, list: seq<Node>)
    reads n
  {
    forall s :: s in n.successor ==> s in list
  }

  /** What a node offers a lookup: whether its own file counts, and the files to
      fall back on. */
  datatype Info = Info(pseudo: bool, fallbacks: seq<string>)

  type Nodes = map<string, Info>

  ghost function InfoOf(n: Node): Info
    reads n
  {
    Info(n.pseudo, SuccessorNames(n.successor))
  }

  lemma OneName(list: seq<Node>, n: Node, m: Node)
    requires Decreasing(list) && n in list && m in list && n.filename == m.filename
    ensures n == m
  {
    StrcmpZero(n.filename, n.filename);
  }

  ghost predicate OneNodePerName(list: seq<Node>) {
    forall n, m :: n in list && m in list && n.filename == m.filename ==> n == m
  }

  lemma DecreasingIsUnique(list: seq<Node>)
    requires Decreasing(list)
    ensures OneNodePerName(list)
  {
    forall n, m | n in list && m in list && n.filename == m.filename ensures n == m { OneName(list, n, m); }
  }

  class Domains {
    var list: seq<Node>

    /** The nodes by their file names. */
    ghost function View(): Nodes
      reads this, list
      requires Valid()
    {
      DecreasingIsUnique(list);
      map n | n in list :: n.filename := InfoOf(n)
    }

    constructor ()
      ensures Valid() && list == []
    {
      list := [];
    }

    ghost predicate Valid()
      reads this, list
    {
      && Decreasing(list)
      && forall n :: n in list ==> Linked(n, list)
    }

    ghost function Names(): set<string>
      reads this
    {
      NamesOf(list)
    }

    /** Where the name is, or, if it is not there, where it belongs. */
    method Find(name: string) returns (found: bool, at: nat)
      requires Decreasing(list)
      ensures at <= |list| && (found <==> name in Names())
      ensures found ==> at < |list| && list[at].filename == name
      ensures !found ==> forall i :: 0 <= i < at ==> Before(name, list[i].filename)
      ensures !found ==> forall i :: at <= i < |list| ==> Before(list[i].filename, name)
    {
      at := 0;
      while at < |list|
        invariant 0 <= at <= |list|
        invariant forall i :: 0 <= i < at ==> Before(name, list[i].filename)
      {
        var compare := Strcmp(list[at].filename, name);
        StrcmpZero(list[at].filename, name);
        StrcmpSwap(list[at].filename, name);
        if compare == 0 { return true, at; }
        if compare < 0 { break; }
        at := at + 1;
      }
      AllOthers(list, name, at);
      return false, at;
    }

    method Insert(node: Node, at: nat)
      requires Valid() && at <= |list| && node !in list && node.successor == []
      requires forall i :: 0 <= i < at ==> Before(node.filename, list[i].filename)
      requires forall i :: at <= i < |list| ==> Before(list[i].filename, node.filename)
      modifies this
      ensures Valid() && list == old(list[..at] + [node] + list[at..])
      ensures Names() == old(Names()) + {node.filename}
    {
      InsertedNames(list, node, at);
      InsertedLinks(list, node, at);
      list := list[..at] + [node] + list[at..];
    }

    /** _nl_make_l10nflist for a single directory: finds the node of a name or,
        if that is allowed, makes it and every node that it falls back on. */
    method Make(dir: string, mask: Mask, e: Exploded, file: string, allocate: bool) returns (r: Node?)
      requires Valid()
      modifies this
      ensures Valid() && Kept(old(list), list)
      ensures !allocate || FileName(dir, mask, e, file) in old(Names()) ==> list == old(list)
      ensures r == null <==> !allocate && FileName(dir, mask, e, file) !in old(Names())
      ensures r != null ==> r in list && r.filename == FileName(dir, mask, e, file)
      ensures allocate && FileName(dir, mask, e, file) !in old(Names()) ==>
                && fresh(r) && r.pseudo == BothCodesets(mask)
                && SuccessorNames(r.successor) == FallbackNames(Fallbacks(mask), dir, e, file)
                && Names() == AllMade(old(Names()), dir, mask, e, file)
      ensures forall n :: n in list && n !in old(list) ==> MadeIn(n, dir, mask, e, file)
      decreases mask, 1
    {
      var name := FileName(dir, mask, e, file);
      var found, at := Find(name);
      if found { return list[at]; }
      if !allocate { return null; }
      var node := new Node(name, BothCodesets(mask));
      NewNode(list, node);
      Insert(node, at);
      Fill(node, dir, mask, e, file);
      r := node;
    }

    /** Fills the fallbacks of a node, most specific first. */
    method Fill(node: Node, dir: string, mask: Mask, e: Exploded, file: string)
      requires Valid() && node in list && node.successor == []
      modifies this, node
      ensures Valid() && Kept(old(list), list)
      ensures SuccessorNames(node.successor) == FallbackNames(Fallbacks(mask), dir, e, file)
      ensures Names() == old(Names()) + LesserNames(dir, mask, e, file)
      ensures forall n :: n in list && n !in old(list) ==> MadeUnder(n, dir, mask, e, file)
      decreases mask, 0
    {
      ghost var names, start := Names(), list;
      FillStart(names, dir, mask, e, file);
      assert SuccessorNames(node.successor) == [];
      var cnt: nat := mask;
      while cnt > 0
        invariant cnt <= mask && Valid() && Kept(old(list), list) && node in list
        invariant Filling(names, SuccessorNames(node.successor), Names(), cnt, dir, mask, e, file)
        invariant forall n :: n in list && n !in start ==> MadeUnder(n, dir, mask, e, file)
      {
        cnt := cnt - 1;
        FillTurn(node, cnt, dir, mask, e, file, names, start);
      }
    }

    /** One turn of the loop. */
    method FillTurn(node: Node, cnt: Mask, dir: string, mask: Mask, e: Exploded, file: string, ghost names: set<string>, ghost start: seq<Node>)
      requires Valid() && node in list && node in start && cnt < mask
      requires forall n :: n in list && n !in start ==> MadeUnder(n, dir, mask, e, file)
      requires Filling(names, SuccessorNames(node.successor), Names(), cnt + 1, dir, mask, e, file)
      modifies this, node
      ensures Valid() && Kept(old(list), list)
      ensures Filling(names, SuccessorNames(node.successor), Names(), cnt, dir, mask, e, file)
      ensures forall n :: n in list && n !in start ==> MadeUnder(n, dir, mask, e, file)
      decreases cnt, 2
    {
      FillStep(names, SuccessorNames(node.successor), Names(), cnt, dir, mask, e, file);
      if Dominated(cnt, mask) && !BothCodesets(cnt) {
        ghost var before, nodes := Names(), list;
        var s := Make(dir, cnt, e, file, true);
        forall n | n in list && n !in start ensures MadeUnder(n, dir, mask, e, file) {
          if n !in nodes { UnderLesser(n, dir, cnt, mask, e, file); }
        }
        LesserStep(before, Names(), cnt, dir, mask, e, file, names);
        AppendName(node.successor, s);
        node.successor := node.successor + [s];
      }
    }
  }

  /** The node as it is made for a mask. */
  ghost predicate MadeFor(n: Node, dir: string, m: Mask, e: Exploded, file: string)
    reads n
  {
    n.filename == FileName(dir, m, e, file) && InfoOf(n) == MadeInfo(dir, m, e, file)
  }

  ghost function MadeInfo(dir: string, m: Mask, e: Exploded, file: string): Info {
    Info(BothCodesets(m), FallbackNames(Fallbacks(m), dir, e, file))
  }

  /** The node was made for a lesser mask; for the mask or a lesser one. */
  ghost predicate MadeUnder(n: Node, dir: string, mask: Mask, e: Exploded, file: string)
    reads n
  {
    exists m: Mask :: Lesser(m, mask) && MadeFor(n, dir, m, e, file)
  }

  ghost predicate MadeIn(n: Node, dir: string, mask: Mask, e: Exploded, file: string)
    reads n
  {
    MadeFor(n, dir, mask, e, file) || MadeUnder(n, dir, mask, e, file)
  }

  lemma UnderLesser(n: Node, dir: string, cnt: Mask, mask: Mask, e: Exploded, file: string)
    requires Lesser(cnt, mask) && MadeIn(n, dir, cnt, e, file)
    ensures MadeUnder(n, dir, mask, e, file)
  {
    if !MadeFor(n, dir, cnt, e, file) {
      var m: Mask :| Lesser(m, cnt) && MadeFor(n, dir, m, e, file);
      LesserTrans(m, cnt, mask);
    }
  }

  /** The loop over the fallbacks, down to mask cnt. */
  ghost predicate Filling(names: set<string>, done: seq<string>, now: set<string>, cnt: nat, dir: string, mask: Mask, e: Exploded, file: string)
    requires cnt <= mask
  {
    && done + FallbackNames(FallbacksBelow(cnt, mask), dir, e, file) == FallbackNames(Fallbacks(mask), dir, e, file)
    && names + LesserFrom(cnt, dir, mask, e, file) <= now <= names + LesserNames(dir, mask, e, file)
  }

  lemma FillStart(names: set<string>, dir: string, mask: Mask, e: Exploded, file: string)
    ensures Filling(names, [], names, mask, dir, mask, e, file)
    ensures forall done, now :: Filling(names, done, now, 0, dir, mask, e, file) ==>
              done == FallbackNames(Fallbacks(mask), dir, e, file) && now == names + LesserNames(dir, mask, e, file)
  {
    assert LesserFrom(mask, dir, mask, e, file) == {};
    forall done, now | Filling(names, done, now, 0, dir, mask, e, file)
      ensures done == FallbackNames(Fallbacks(mask), dir, e, file)
    {
      assert done + [] == done;
      assert FallbackNames(FallbacksBelow(0, mask), dir, e, file) == [];
    }
  }

  lemma FillStep(names: set<string>, done: seq<string>, now: set<string>, cnt: Mask, dir: string, mask: Mask, e: Exploded, file: string)
    requires cnt < mask && Filling(names, done, now, cnt + 1, dir, mask, e, file)
    ensures Lesser(cnt, mask) ==> done + [FileName(dir, cnt, e, file)] + FallbackNames(FallbacksBelow(cnt, mask), dir, e, file)
                                    == FallbackNames(Fallbacks(mask), dir, e, file)
    ensures !Lesser(cnt, mask) ==> Filling(names, done, now, cnt, dir, mask, e, file)
  {
    FallbacksStep(cnt, dir, mask, e, file);
    if Lesser(cnt, mask) {
      Appended(done, [FileName(dir, cnt, e, file)], FallbackNames(FallbacksBelow(cnt, mask), dir, e, file));
    } else {
      EmptyFirst(FallbackNames(FallbacksBelow(cnt, mask), dir, e, file));
      SameLesser(cnt, dir, mask, e, file);
    }
  }

  lemma Appended<T>(a: seq<T>, b: seq<T>, c: seq<T>)
    ensures (a + b) + c == a + (b + c)
  {
  }

  lemma AppendName(s: seq<Node>, n: Node)
    ensures SuccessorNames(s + [n]) == SuccessorNames(s) + [n.filename]
  {
  }

  /** The names of the nodes that a node falls back on; those from mask cnt on. */
  ghost function LesserFrom(cnt: nat, dir: string, mask: Mask, e: Exploded, file: string): set<string> {
    set m: Mask | m < 16 && cnt <= m && Lesser(m, mask) :: FileName(dir, m, e, file)
  }

  ghost function LesserNames(dir: string, mask: Mask, e: Exploded, file: string): set<string> {
    LesserFrom(0, dir, mask, e, file)
  }

  ghost function AllMade(names: set<string>, dir: string, mask: Mask, e: Exploded, file: string): set<string> {
    names + {FileName(dir, mask, e, file)} + LesserNames(dir, mask, e, file)
  }

  lemma FallbacksStep(cnt: Mask, dir: string, mask: Mask, e: Exploded, file: string)
    requires cnt < mask
    ensures FallbackNames(FallbacksBelow(cnt + 1, mask), dir, e, file)
         == (if Lesser(cnt, mask) then [FileName(dir, cnt, e, file)] else []) + FallbackNames(FallbacksBelow(cnt, mask), dir, e, file)
  {
    var rest := FallbacksBelow(cnt, mask);
    if Lesser(cnt, mask) {
      assert FallbacksBelow(cnt + 1, mask) == [cnt] + rest;
      NamesCons(cnt, rest, dir, e, file);
    } else {
      assert FallbacksBelow(cnt + 1, mask) == [] + rest;
      EmptyFirst(rest);
      EmptyFirst(FallbackNames(rest, dir, e, file));
    }
  }

  lemma NamesCons(m: Mask, rest: seq<Mask>, dir: string, e: Exploded, file: string)
    ensures FallbackNames([m] + rest, dir, e, file) == [FileName(dir, m, e, file)] + FallbackNames(rest, dir, e, file)
  {
  }

  lemma EmptyFirst<T>(s: seq<T>)
    ensures [] + s == s
  {
  }

  lemma SameLesser(cnt: Mask, dir: string, mask: Mask, e: Exploded, file: string)
    requires !Lesser(cnt, mask)
    ensures LesserFrom(cnt, dir, mask, e, file) == LesserFrom(cnt + 1, dir, mask, e, file)
  {
  }

  lemma LesserTrans(a: Mask, b: Mask, c: Mask)
    requires Lesser(a, b) && Lesser(b, c)
    ensures Lesser(a, c)
  {
  }

  lemma LesserStep(before: set<string>, after: set<string>, cnt: Mask, dir: string, mask: Mask, e: Exploded, file: string, names: set<string>)
    requires Lesser(cnt, mask)
    requires names + LesserFrom(cnt + 1, dir, mask, e, file) <= before <= names + LesserNames(dir, mask, e, file)
    requires if FileName(dir, cnt, e, file) in before then after == before else after == AllMade(before, dir, cnt, e, file)
    ensures names + LesserFrom(cnt, dir, mask, e, file) <= after <= names + LesserNames(dir, mask, e, file)
  {
    forall m: Mask | m < 16 && Lesser(m, cnt) ensures FileName(dir, m, e, file) in LesserNames(dir, mask, e, file) {
      LesserTrans(m, cnt, mask);
    }
    forall m: Mask | m < 16 && cnt <= m && Lesser(m, mask) ensures FileName(dir, m, e, file) in after {
      if m > cnt { assert FileName(dir, m, e, file) in LesserFrom(cnt + 1, dir, mask, e, file); }
    }
  }

  lemma InsertedLinks(list: seq<Node>, node: Node, at: nat)
    requires at <= |list| && node.successor == [] && forall n :: n in list ==> Linked(n, list)
    ensures forall n :: n in list[..at] + [node] + list[at..] ==> Linked(n, list[..at] + [node] + list[at..])
  {
    var longer := list[..at] + [node] + list[at..];
    forall n | n in longer ensures Linked(n, longer) {
      if n != node {
        assert list == list[..at] + list[at..];
        assert n in list;
      }
    }
  }

  /** No node is lost, and whatever is new is new. */
  ghost predicate Kept(before: seq<Node>, after: seq<Node>) {
    forall n :: n in before ==> n in after
  }

  lemma InsertedNames(list: seq<Node>, node: Node, at: nat)
    requires at <= |list|
    ensures NamesOf(list[..at] + [node] + list[at..]) == NamesOf(list) + {node.filename}
  {
    var longer := list[..at] + [node] + list[at..];
    assert list == list[..at] + list[at..];
    forall n | n in list ensures n in longer { }
  }

  lemma NewNode(list: seq<Node>, node: Node)
    requires node.filename !in NamesOf(list)
    ensures node !in list
  {
  }

  /** Early exit is safe in a decreasing list. */
  lemma AllOthers(list: seq<Node>, name: string, at: nat)
    requires Decreasing(list) && at <= |list|
    requires forall i :: 0 <= i < at ==> Before(name, list[i].filename)
    requires at < |list| ==> Before(list[at].filename, name)
    ensures forall i :: at <= i < |list| ==> Before(list[i].filename, name)
    ensures name !in NamesOf(list)
  {
    forall i | at <= i < |list| ensures Before(list[i].filename, name) {
      if i > at { BeforeTrans(list[i].filename, list[at].filename, name); }
    }
    StrcmpZero(name, name);
  }

  // ---- the order of the fallbacks ----------------------------------------------

  lemma {:induction false} FallbacksBelowAre(cnt: nat, mask: Mask)
    requires cnt <= mask
    ensures forall m: Mask :: m in FallbacksBelow(cnt, mask) <==> m < cnt && Lesser(m, mask)
    ensures DecreasingMasks(FallbacksBelow(cnt, mask))
  {
    if cnt > 0 {
      FallbacksBelowAre(cnt - 1, mask);
      OneBelow(cnt, cnt - 1, mask, FallbacksBelow(cnt - 1, mask));
    }
  }

  lemma OneBelow(cnt: nat, k: Mask, mask: Mask, rest: seq<Mask>)
    requires cnt == k + 1 <= mask && rest == FallbacksBelow(k, mask) && DecreasingMasks(rest)
    requires forall m: Mask :: m in rest <==> m < k && Lesser(m, mask)
    ensures forall m: Mask :: m in FallbacksBelow(cnt, mask) <==> m < cnt && Lesser(m, mask)
    ensures DecreasingMasks(FallbacksBelow(cnt, mask))
  {
    if Lesser(k, mask) {
      assert FallbacksBelow(cnt, mask) == [k] + rest;
      MembersCons(k, rest);
      DecreasingCons(k, rest);
    } else {
      assert FallbacksBelow(cnt, mask) == [] + rest;
      EmptyFirst(rest);
    }
  }

  lemma MembersCons(m: Mask, rest: seq<Mask>)
    ensures forall k: Mask :: k in [m] + rest <==> k == m || k in rest
  {
  }

  ghost predicate DecreasingMasks(s: seq<Mask>) { forall i, j :: 0 <= i < j < |s| ==> s[i] > s[j] }

  lemma DecreasingCons(m: Mask, rest: seq<Mask>)
    requires DecreasingMasks(rest) && forall k :: k in rest ==> k < m
    ensures DecreasingMasks([m] + rest)
  {
    var s := [m] + rest;
    forall i, j | 0 <= i < j < |s| ensures s[i] > s[j] {
      assert s[j] == rest[j - 1] && rest[j - 1] in rest;
      if i > 0 { assert s[i] == rest[i - 1]; }
    }
  }

  /** Whatever keeps the modifier comes before whatever drops it. */
  lemma DropsModifierLast(mask: Mask, i: nat, j: nat)
    requires i < |Fallbacks(mask)| && j < |Fallbacks(mask)|
    requires Has(Fallbacks(mask)[i], MODIFIER) && !Has(Fallbacks(mask)[j], MODIFIER)
    ensures i < j && Lesser(Fallbacks(mask)[i], mask)
  {
    FallbacksBelowAre(mask, mask);
    var a, b := Fallbacks(mask)[i], Fallbacks(mask)[j];
    assert a in Fallbacks(mask);
    Digits(a);
    Digits(b);
  }

  /** The fallbacks by the four bits of a mask, from the top: modifier, territory,
      codeset as written, normalised codeset. */
  lemma FallbackBits(m: Mask, mask: Mask)
    ensures m in Fallbacks(mask) <==>
              && m < mask && m % 4 != 3
              && m / 8 <= mask / 8 && m / 4 % 2 <= mask / 4 % 2 && m / 2 % 2 <= mask / 2 % 2 && m % 2 <= mask % 2
  {
    FallbacksBelowAre(mask, mask);
    TwoCodesets(m);
    LesserBits(m, mask, m / 8, mask / 8);
  }

  lemma TwoCodesets(m: Mask)
    ensures BothCodesets(m) <==> m % 4 == 3
  {
  }

  lemma LesserBits(m: Mask, mask: Mask, top: nat, top': nat)
    requires top == m / 8 && top' == mask / 8
    ensures Dominated(m, mask) <==>
              top <= top' && m / 4 % 2 <= mask / 4 % 2 && m / 2 % 2 <= mask / 2 % 2 && m % 2 <= mask % 2
  {
    assert top % 2 == top && top' % 2 == top';
  }

  /** The file of a mask, character by character. */
  lemma SpelledOut(e: Exploded, mask: Mask, dir: string, file: string)
    ensures FileName(dir, mask, e, file)
         == (if e.language != [] && e.language[0] == '/' then "" else dir + "/") + e.language
            + (if mask / 4 % 2 == 1 then "_" + Or(e.territory) else "")
            + (if mask / 2 % 2 == 1 then "." + Or(e.codeset) else "")
            + (if mask % 2 == 1 then "." + Or(e.normalized) else "")
            + (if mask / 8 == 1 then "@" + Or(e.modifier) else "")
            + "/" + file
  {
    var head := if e.language != [] && e.language[0] == '/' then "" else dir + "/";
    RegroupedName(head, e.language, if mask / 4 % 2 == 1 then "_" + Or(e.territory) else "",
                  if mask / 2 % 2 == 1 then "." + Or(e.codeset) else "", if mask % 2 == 1 then "." + Or(e.normalized) else "",
                  if mask / 8 == 1 then "@" + Or(e.modifier) else "", file);
  }

  lemma RegroupedName(head: string, l: string, t: string, c: string, n: string, m: string, file: string)
    ensures head + (l + t + c + n + m) + ['/'] + file == head + l + t + c + n + m + "/" + file
  {
  }
}
