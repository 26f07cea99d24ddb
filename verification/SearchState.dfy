/** The search state as a value, its invariant, and what each part of the
    recursive procedure does to it. */
module SearchState {
  import opened Graphs

  datatype Search<T> = Search(stack: seq<T>, index: map<T, nat>, counter: nat, result: seq<seq<T>>)

  /** y occurs in one of the tuples 0 to i. */
  ghost predicate OutBy<T(!new)>(result: seq<seq<T>>, i: int, y: T)
    requires 0 <= i < |result|
  {
    exists j :: 0 <= j <= i && y in result[j]
  }

  /** The emitted tuples are whole, pairwise disjoint components, and an edge
      never leads from a tuple to one that is emitted after it. */
  ghost predicate Emitted<T(!new)>(g: map<T, seq<T>>, result: seq<seq<T>>) {
    && (forall i :: 0 <= i < |result| ==> IsComponent(g, result[i]))
    && (forall i, j, x :: 0 <= i < j < |result| && x in result[i] ==> x !in result[j])
    && (forall i, x, y {:trigger x in result[i], OutBy(result, i, y)} ::
          0 <= i < |result| && x in result[i] && y in Successors(g, x) ==> OutBy(result, i, y))
  }

  ghost predicate InOrder<T(!new)>(s: Search<T>, i: int, j: int)
    requires 0 <= i < j < |s.stack| && forall x :: x in s.stack ==> x in s.index
  {
    s.index[s.stack[i]] < s.index[s.stack[j]]
  }

  /** The stack is ordered by discovery index. */
  ghost predicate Ordered<T(!new)>(s: Search<T>) {
    && (forall x :: x in s.stack ==> x in s.index)
    && (forall x :: x in s.index ==> s.index[x] < s.counter)
    && (forall i, j {:trigger InOrder(s, i, j)} :: 0 <= i < j < |s.stack| ==> InOrder(s, i, j))
  }

  /** Every visited node is either on the stack or emitted, never both. */
  ghost predicate Partitioned<T(!new)>(s: Search<T>) {
    forall x {:trigger x in Members(s.result)} ::
      (x in s.index <==> x in s.stack || x in Members(s.result)) && (x in s.stack ==> x !in Members(s.result))
  }

  /** A node on the stack reaches every node above it. */
  ghost predicate Upward<T(!new)>(g: map<T, seq<T>>, s: Search<T>)
    requires Ordered(s)
  {
    forall x, y {:trigger Reach(g, x, y)} ::
      x in s.stack && y in s.stack && s.index[x] <= s.index[y] ==> Reach(g, x, y)
  }

  ghost predicate HasAnchor<T(!new)>(g: map<T, seq<T>>, s: Search<T>, grey: set<T>, x: T)
    requires Ordered(s) && x in s.index
  {
    exists a :: a in grey && a in s.index && s.index[a] <= s.index[x] && Reach(g, x, a)
  }

  /** A node on the stack reaches a grey node at or below it. */
  ghost predicate Anchored<T(!new)>(g: map<T, seq<T>>, s: Search<T>, grey: set<T>)
    requires Ordered(s)
  {
    && (forall a :: a in grey ==> a in s.stack)
    && forall x {:trigger HasAnchor(g, s, grey, x)} :: x in s.stack ==> HasAnchor(g, s, grey, x)
  }

  ghost predicate BlackDone<T(!new)>(g: map<T, seq<T>>, s: Search<T>, grey: set<T>) {
    forall x, y :: x in s.index && x !in grey && y in Successors(g, x) ==> y in s.index
  }

  /** grey is the set of nodes whose call has not returned yet. */
  ghost predicate Inv<T(!new)>(g: map<T, seq<T>>, s: Search<T>, grey: set<T>) {
    Ordered(s) && Partitioned(s) && Emitted(g, s.result) && Upward(g, s) && Anchored(g, s, grey) && BlackDone(g, s, grey)
  }

  function Push<T(==)>(s: Search<T>, v: T): Search<T> {
    Search(s.stack + [v], s.index[v := s.counter], s.counter + 1, s.result)
  }

  lemma PushUpward<T(!new)>(g: map<T, seq<T>>, s: Search<T>, grey: set<T>, v: T)
    requires Ordered(s) && Ordered(Push(s, v)) && v !in s.index && Upward(g, s) && Anchored(g, s, grey)
    requires forall a :: a in grey ==> Reach(g, a, v)
    ensures Upward(g, Push(s, v))
  {
    var t := Push(s, v);
    ReachSelf(g, v);
    forall x, y | x in t.stack && y in t.stack && t.index[x] <= t.index[y] ensures Reach(g, x, y) {
      if x in s.stack && y == v {
        assert HasAnchor(g, s, grey, x);
        var a :| a in grey && a in s.index && s.index[a] <= s.index[x] && Reach(g, x, a);
        ReachTrans(g, x, a, v);
      }
    }
  }

  lemma PushAnchored<T(!new)>(g: map<T, seq<T>>, s: Search<T>, grey: set<T>, v: T)
    requires Ordered(s) && Ordered(Push(s, v)) && v !in s.index && Anchored(g, s, grey)
    ensures Anchored(g, Push(s, v), grey + {v})
  {
    var t := Push(s, v);
    ReachSelf(g, v);
    forall x | x in t.stack ensures HasAnchor(g, t, grey + {v}, x) {
      if x == v {
        assert v in grey + {v};
      } else {
        assert HasAnchor(g, s, grey, x);
        var a :| a in grey && a in s.index && s.index[a] <= s.index[x] && Reach(g, x, a);
        assert a in grey + {v} && t.index[a] <= t.index[x];
      }
    }
  }

  /** Entering strongconnect. */
  lemma PushKeepsInv<T(!new)>(g: map<T, seq<T>>, s: Search<T>, grey: set<T>, v: T)
    requires Inv(g, s, grey) && v !in s.index
    requires forall a :: a in grey ==> Reach(g, a, v)
    ensures Inv(g, Push(s, v), grey + {v})
  {
    var t := Push(s, v);
    PushOrdered(s, v);
    assert Partitioned(t);
    PushUpward(g, s, grey, v);
    PushAnchored(g, s, grey, v);
  }

  /** The smallest index known to be reached from v belongs to a stack node. */
  ghost predicate LowWitness<T(!new)>(g: map<T, seq<T>>, s: Search<T>, v: T, low: nat)
    requires Ordered(s)
  {
    exists y :: y in s.stack && s.index[y] == low && Reach(g, v, y)
  }

  /** No edge from above index lo to a stack node below v undercuts low. */
  ghost predicate EdgesCovered<T(!new)>(g: map<T, seq<T>>, s: Search<T>, lo: nat, v: T, low: nat)
    requires Ordered(s) && v in s.index
  {
    forall x, y :: (x in s.stack && y in s.stack && s.index[x] >= lo && s.index[y] < s.index[v]
                    && y in Successors(g, x)) ==> low <= s.index[y]
  }

  ghost predicate Scanned<T(!new)>(g: map<T, seq<T>>, s: Search<T>, v: T, low: nat, done: set<T>)
    requires Ordered(s)
  {
    forall y :: y in done ==> y in s.index && (y in s.stack ==> low <= s.index[y])
  }

  /** What the loop over the successors of v has established about lowlinks[v]
      when the successors in done are dealt with. */
  ghost predicate Scanning<T(!new)>(g: map<T, seq<T>>, s: Search<T>, v: T, low: nat, done: set<T>) {
    && Ordered(s) && v in s.stack
    && low <= s.index[v]
    && LowWitness(g, s, v, low)
    && EdgesCovered(g, s, s.index[v] + 1, v, low)
    && Scanned(g, s, v, low, done)
  }

  /** What strongconnect(v) leaves behind. */
  ghost predicate Settled<T(!new)>(g: map<T, seq<T>>, s: Search<T>, v: T, low: nat) {
    && Ordered(s) && v in s.index
    && (v !in s.stack ==> low == s.index[v] && forall x :: x in s.stack ==> s.index[x] < s.index[v])
    && (v in s.stack ==> low < s.index[v] && LowWitness(g, s, v, low))
    && EdgesCovered(g, s, s.index[v], v, low)
  }

  /** t is a later state than s: nothing recorded in s is lost or changed. */
  ghost predicate Extends<T(!new)>(s: Search<T>, t: Search<T>) {
    && s.stack <= t.stack && s.result <= t.result && s.counter <= t.counter
    && (forall x :: x in s.index ==> x in t.index && t.index[x] == s.index[x] && (x in t.stack ==> x in s.stack))
    && (forall x :: x in t.index && x !in s.index ==> s.counter <= t.index[x])
  }

  lemma ExtendsTrans<T(!new)>(s: Search<T>, t: Search<T>, u: Search<T>)
    requires Extends(s, t) && Extends(t, u)
    ensures Extends(s, u)
  {
  }

  function Min(a: nat, b: nat): nat { if a <= b then a else b }

  lemma CallWitness<T(!new)>(g: map<T, seq<T>>, s: Search<T>, t: Search<T>, v: T, low: nat, w: T, wlow: nat)
    requires Ordered(s) && Ordered(t) && Extends(s, t)
    requires LowWitness(g, s, v, low) && low < t.counter && w in Successors(g, v)
    requires wlow < low ==> LowWitness(g, t, w, wlow)
    ensures LowWitness(g, t, v, Min(low, wlow))
  {
    if wlow < low {
      ReachEdge(g, v, w);
      var y :| y in t.stack && t.index[y] == wlow && Reach(g, w, y);
      ReachTrans(g, v, w, y);
    } else {
      var y :| y in s.stack && s.index[y] == low && Reach(g, v, y);
      assert y in t.stack && t.index[y] == low;
    }
  }

  lemma CallEdges<T(!new)>(g: map<T, seq<T>>, s: Search<T>, t: Search<T>, v: T, low: nat, w: T, wlow: nat)
    requires Ordered(s) && Ordered(t) && Extends(s, t) && v in s.stack
    requires EdgesCovered(g, s, s.index[v] + 1, v, low)
    requires w in t.index && t.index[w] == s.counter && EdgesCovered(g, t, t.index[w], w, wlow)
    ensures EdgesCovered(g, t, t.index[v] + 1, v, Min(low, wlow))
  {
    forall x, y | x in t.stack && y in t.stack && t.index[x] >= t.index[v] + 1 && t.index[y] < t.index[v]
                  && y in Successors(g, x)
      ensures Min(low, wlow) <= t.index[y]
    {
      assert y in s.stack;
      if x in s.index { assert x in s.stack; }
    }
  }

  /** The successor w was unvisited and its call has just returned. */
  lemma ScanAfterCall<T(!new)>(g: map<T, seq<T>>, s: Search<T>, t: Search<T>, v: T,
                               low: nat, done: set<T>, w: T, wlow: nat)
    requires Scanning(g, s, v, low, done) && w in Successors(g, v)
    requires w !in s.index && Extends(s, t) && Settled(g, t, w, wlow) && t.index[w] == s.counter
    ensures Scanning(g, t, v, Min(low, wlow), done + {w})
  {
    CallWitness(g, s, t, v, low, w, wlow);
    CallEdges(g, s, t, v, low, w, wlow);
    assert v in t.stack && t.index[v] == s.index[v];
    assert w in t.stack ==> wlow < t.index[w];
    assert Scanned(g, t, v, Min(low, wlow), done + {w});
  }

  /** The successor w had been visited before. */
  lemma ScanVisited<T(!new)>(g: map<T, seq<T>>, s: Search<T>, v: T, low: nat, done: set<T>, w: T)
    requires Scanning(g, s, v, low, done) && w in Successors(g, v) && w in s.index
    ensures Scanning(g, s, v, if w in s.stack then Min(low, s.index[w]) else low, done + {w})
  {
    ReachEdge(g, v, w);
    if w in s.stack && s.index[w] < low {
      assert LowWitness(g, s, v, s.index[w]);
    }
  }

  lemma Reanchor<T(!new)>(g: map<T, seq<T>>, s: Search<T>, grey: set<T>, v: T, b: T, x: T)
    requires Ordered(s) && x in s.index && v in s.index && HasAnchor(g, s, grey + {v}, x)
    requires b in grey && b in s.index && s.index[b] < s.index[v] && Reach(g, v, b)
    ensures HasAnchor(g, s, grey, x)
  {
    var a :| a in grey + {v} && a in s.index && s.index[a] <= s.index[x] && Reach(g, x, a);
    if a == v {
      ReachTrans(g, x, v, b);
    } else {
      assert a in grey;
    }
  }

  lemma LowerGrey<T(!new)>(g: map<T, seq<T>>, s: Search<T>, grey: set<T>, v: T, low: nat) returns (b: T)
    requires Ordered(s) && Anchored(g, s, grey + {v}) && v in s.stack
    requires LowWitness(g, s, v, low) && low < s.index[v]
    ensures b in grey && b in s.index && s.index[b] < s.index[v] && Reach(g, v, b)
  {
    var y :| y in s.stack && s.index[y] == low && Reach(g, v, y);
    assert HasAnchor(g, s, grey + {v}, y);
    b :| b in grey + {v} && b in s.index && s.index[b] <= s.index[y] && Reach(g, y, b);
    ReachTrans(g, v, y, b);
  }

  /** v has reached a lower stack node, so whatever hung on v hangs on a lower grey node. */
  lemma NonRootAnchored<T(!new)>(g: map<T, seq<T>>, s: Search<T>, grey: set<T>, v: T, low: nat)
    requires Ordered(s) && Anchored(g, s, grey + {v}) && v in s.stack
    requires LowWitness(g, s, v, low) && low < s.index[v]
    ensures Anchored(g, s, grey)
  {
    var b := LowerGrey(g, s, grey, v, low);
    forall x | x in s.stack ensures HasAnchor(g, s, grey, x) {
      assert HasAnchor(g, s, grey + {v}, x);
      Reanchor(g, s, grey, v, b, x);
    }
    assert forall a :: a in grey ==> a in grey + {v};
  }

  /** All successors are done and v is not a root: v stays on the stack. */
  lemma FinishNonRoot<T(!new)>(g: map<T, seq<T>>, s: Search<T>, grey: set<T>, v: T, low: nat)
    requires Inv(g, s, grey + {v})
    requires Scanning(g, s, v, low, Elements(Successors(g, v))) && low < s.index[v]
    ensures Inv(g, s, grey) && Settled(g, s, v, low)
  {
    NonRootAnchored(g, s, grey, v, low);
    EdgesFromV(g, s, v, low);
    assert BlackDone(g, s, grey);
  }

  lemma EdgesFromV<T(!new)>(g: map<T, seq<T>>, s: Search<T>, v: T, low: nat)
    requires Scanning(g, s, v, low, Elements(Successors(g, v)))
    ensures EdgesCovered(g, s, s.index[v], v, low)
  {
    forall x, y | x in s.stack && y in s.stack && s.index[x] >= s.index[v] && s.index[y] < s.index[v]
                  && y in Successors(g, x)
      ensures low <= s.index[y]
    {
      if s.index[x] == s.index[v] { SameIndex(s, x, v); }
    }
  }

  lemma SameIndex<T(!new)>(s: Search<T>, x: T, y: T)
    requires Ordered(s) && x in s.stack && y in s.stack && s.index[x] == s.index[y]
    ensures x == y
  {
    var i :| 0 <= i < |s.stack| && s.stack[i] == x;
    var j :| 0 <= j < |s.stack| && s.stack[j] == y;
    assert i < j ==> InOrder(s, i, j);
    assert j < i ==> InOrder(s, j, i);
  }

  /** The part of the stack from position n upwards, by index. */
  lemma StackTop<T(!new)>(s: Search<T>, n: nat, x: T)
    requires Ordered(s) && n < |s.stack|
    ensures x in s.stack[n..] <==> x in s.stack && s.index[x] >= s.index[s.stack[n]]
    ensures x in s.stack[..n] <==> x in s.stack && s.index[x] < s.index[s.stack[n]]
  {
    forall j | 0 <= j < n ensures s.index[s.stack[j]] < s.index[s.stack[n]] {
      assert InOrder(s, j, n);
    }
    forall j | n <= j < |s.stack| ensures s.index[s.stack[j]] >= s.index[s.stack[n]] {
      assert n < j ==> InOrder(s, n, j);
    }
    assert s.stack == s.stack[..n] + s.stack[n..];
  }

  ghost function Elements<T>(s: seq<T>): set<T> { set x | x in s }

  lemma TakeElements<T>(s: seq<T>, i: nat)
    requires i <= |s|
    ensures i == 0 ==> Elements(s[..i]) == {}
    ensures i < |s| ==> Elements(s[..i + 1]) == Elements(s[..i]) + {s[i]}
    ensures s[..|s|] == s
  {
    if i < |s| { assert s[..i + 1] == s[..i] + [s[i]]; }
  }

  lemma MembersClosed<T(!new)>(g: map<T, seq<T>>, result: seq<seq<T>>)
    requires Emitted(g, result)
    ensures Closed(g, Members(result))
  {
    forall x, y | x in Members(result) && y in Successors(g, x) ensures y in Members(result) {
      var i :| 0 <= i < |result| && x in result[i];
      assert OutBy(result, i, y);
    }
  }

  lemma PushOrdered<T(!new)>(s: Search<T>, v: T)
    requires Ordered(s) && v !in s.index
    ensures Ordered(Push(s, v))
  {
    var t := Push(s, v);
    forall i, j | 0 <= i < j < |t.stack| ensures InOrder(t, i, j) {
      if j < |s.stack| { assert InOrder(s, i, j); }
    }
  }

  lemma RootIsClosed<T(!new)>(g: map<T, seq<T>>, s: Search<T>, grey: set<T>, v: T, c: set<T>)
    requires Ordered(s) && Partitioned(s) && Emitted(g, s.result) && BlackDone(g, s, grey + {v})
    requires v in s.index && forall a :: a in grey ==> a in s.index && s.index[a] < s.index[v]
    requires Scanning(g, s, v, s.index[v], Elements(Successors(g, v)))
    requires forall x :: x in c <==> x in s.stack && s.index[x] >= s.index[v]
    ensures Closed(g, Members(s.result) + c)
  {
    EdgesFromV(g, s, v, s.index[v]);
    MembersClosed(g, s.result);
    forall x, y | x in c && y in Successors(g, x) ensures y in c || y in Members(s.result) {
      assert x == v || x !in grey + {v};
      assert y in s.index;
    }
  }

  /** v is a root: the stack nodes with an index not below v's are one component. */
  lemma RootIsComponent<T(!new)>(g: map<T, seq<T>>, s: Search<T>, grey: set<T>, v: T, c: set<T>)
    requires Inv(g, s, grey + {v}) && forall a :: a in grey ==> a in s.index && s.index[a] < s.index[v]
    requires Closed(g, Members(s.result) + c) && v in s.stack
    requires forall x :: x in c <==> x in s.stack && s.index[x] >= s.index[v]
    ensures forall x, y {:trigger SameClass(g, x, y)} :: x in c ==> (y in c <==> SameClass(g, x, y))
  {
    ReachSelf(g, v);
    MembersClosed(g, s.result);
    forall x | x in c ensures Reach(g, v, x) && Reach(g, x, v) {
      assert HasAnchor(g, s, grey + {v}, x);
      var a :| a in grey + {v} && a in s.index && s.index[a] <= s.index[x] && Reach(g, x, a);
      assert Reach(g, a, v);
      ReachTrans(g, x, a, v);
    }
    forall x, y | x in c ensures y in c <==> SameClass(g, x, y) {
      if y in c {
        ReachTrans(g, x, v, y);
        ReachTrans(g, y, v, x);
      } else if SameClass(g, x, y) {
        ReachStaysInClosed(g, Members(s.result) + c, x, y);
        ReachStaysInClosed(g, Members(s.result), y, x);
      }
    }
  }

  /** The tuple built by popping: the last element first. */
  function Reversed<T>(s: seq<T>): (r: seq<T>)
    ensures |r| == |s|
  {
    if s == [] then [] else Reversed(s[1..]) + [s[0]]
  }

  lemma {:induction false} ReversedAt<T(!new)>(s: seq<T>)
    ensures forall i :: 0 <= i < |s| ==> Reversed(s)[i] == s[|s| - 1 - i]
  {
    if s != [] {
      ReversedAt(s[1..]);
      forall i | 0 <= i < |s| ensures Reversed(s)[i] == s[|s| - 1 - i] {
        if i < |s| - 1 { assert Reversed(s)[i] == Reversed(s[1..])[i]; }
      }
    }
  }

  lemma ReversedElements<T(!new)>(s: seq<T>)
    ensures forall x :: x in Reversed(s) <==> x in s
    ensures Distinct(s) ==> Distinct(Reversed(s))
  {
    ReversedAt(s);
    forall i | 0 <= i < |s| ensures s[i] in Reversed(s) {
      assert Reversed(s)[|s| - 1 - i] == s[i];
    }
  }

  lemma MembersAppend<T(!new)>(result: seq<seq<T>>, c: seq<T>)
    ensures Members(result + [c]) == Members(result) + Elements(c)
  {
    var r := result + [c];
    forall x | x in Members(result) + Elements(c) ensures x in Members(r) {
      if x in Elements(c) {
        assert x in r[|result|];
      } else {
        var i :| 0 <= i < |result| && x in result[i];
        assert x in r[i];
      }
    }
  }

  lemma EmittedAppend<T(!new)>(g: map<T, seq<T>>, result: seq<seq<T>>, c: seq<T>)
    requires Emitted(g, result) && IsComponent(g, c)
    requires forall x :: x in c ==> x !in Members(result)
    requires Closed(g, Members(result) + Elements(c))
    ensures Emitted(g, result + [c])
  {
    var r := result + [c];
    assert forall i, x :: 0 <= i < |result| && x in result[i] ==> x in Members(result);
    forall i, x, y | 0 <= i < |r| && x in r[i] && y in Successors(g, x)
      ensures OutBy(r, i, y)
    {
      if i < |result| {
        assert x in result[i] && OutBy(result, i, y);
        var j :| 0 <= j <= i && y in result[j];
        assert y in r[j];
      } else if y in Members(result) {
        var j :| 0 <= j < |result| && y in result[j];
        assert y in r[j];
      } else {
        assert y in r[i];
      }
    }
  }

  /** The stack below v and the stack from v up, by their indices. */
  lemma Halves<T(!new)>(s: Search<T>, base: seq<T>, v: T, top: seq<T>)
    requires Ordered(s) && base + [v] <= s.stack && top == s.stack[|base|..] && v in s.index
    ensures forall x :: x in top <==> x in s.stack && s.index[x] >= s.index[v]
    ensures forall x :: x in base <==> x in s.stack && s.index[x] < s.index[v]
  {
    assert base == s.stack[..|base|] && s.stack[|base|] == v;
    forall x ensures x in top <==> x in s.stack && s.index[x] >= s.index[v]
      ensures x in base <==> x in s.stack && s.index[x] < s.index[v]
    {
      StackTop(s, |base|, x);
    }
  }

  /** Emitting the component of a root v, which was pushed on base. */
  lemma EmitKeepsInv<T(!new)>(g: map<T, seq<T>>, s: Search<T>, grey: set<T>, base: seq<T>, v: T, c: seq<T>)
    requires Inv(g, s, grey + {v}) && forall a :: a in grey ==> a in s.index && s.index[a] < s.index[v]
    requires Scanning(g, s, v, s.index[v], Elements(Successors(g, v))) && base + [v] <= s.stack
    requires c == Reversed(s.stack[|base|..])
    ensures Inv(g, s.(stack := base, result := s.result + [c]), grey)
    ensures Settled(g, s.(stack := base, result := s.result + [c]), v, s.index[v])
  {
    var t := s.(stack := base, result := s.result + [c]);
    var top := s.stack[|base|..];
    assert base == s.stack[..|base|];
    ReversedElements(top);
    Halves(s, base, v, top);
    OrderedDistinct(s, |base|);
    EmitOrdered(s, base, t.result);
    RootIsClosed(g, s, grey, v, Elements(c));
    RootIsComponent(g, s, grey, v, Elements(c));
    MembersAppend(s.result, c);
    EmittedAppend(g, s.result, c);
    EmitAnchored(g, s, t, grey, v);
  }

  lemma OrderedDistinct<T(!new)>(s: Search<T>, n: nat)
    requires Ordered(s) && n <= |s.stack|
    ensures Distinct(s.stack[n..])
  {
    var top := s.stack[n..];
    forall i, j | 0 <= i < j < |top| ensures top[i] != top[j] {
      assert InOrder(s, n + i, n + j);
    }
  }

  lemma EmitOrdered<T(!new)>(s: Search<T>, base: seq<T>, result: seq<seq<T>>)
    requires Ordered(s) && base <= s.stack
    ensures Ordered(s.(stack := base, result := result))
  {
    var t := s.(stack := base, result := result);
    forall i, j | 0 <= i < j < |base| ensures InOrder(t, i, j) {
      assert InOrder(s, i, j);
    }
  }

  lemma EmitAnchored<T(!new)>(g: map<T, seq<T>>, s: Search<T>, t: Search<T>, grey: set<T>, v: T)
    requires Ordered(s) && Ordered(t) && t.index == s.index && v in s.stack && Anchored(g, s, grey + {v})
    requires forall x :: x in t.stack <==> x in s.stack && s.index[x] < s.index[v]
    requires forall a :: a in grey ==> a in s.index && s.index[a] < s.index[v]
    ensures Anchored(g, t, grey)
  {
    forall x | x in t.stack ensures HasAnchor(g, t, grey, x) {
      assert HasAnchor(g, s, grey + {v}, x);
      var a :| a in grey + {v} && a in s.index && s.index[a] <= s.index[x] && Reach(g, x, a);
      assert a in grey;
    }
  }

  /** Recorded index and lowlink of every node in low0 are untouched. */
  ghost predicate KeepsLow<T(!new)>(low0: map<T, nat>, low: map<T, nat>, s: Search<T>) {
    low.Keys == s.index.Keys && forall x :: x in low0 ==> x in low && low[x] == low0[x]
  }

  ghost predicate FoundFrom<T(!new)>(g: map<T, seq<T>>, s0: Search<T>, s: Search<T>, v: T) {
    forall x :: x in s.index && x !in s0.index ==> Reach(g, v, x)
  }

  /** What a call strongconnect(v) turns (s0, low0) into. */
  ghost predicate Visited<T(!new)>(g: map<T, seq<T>>, grey: set<T>, v: T,
                                   s0: Search<T>, low0: map<T, nat>, s: Search<T>, low: map<T, nat>)
  {
    && Inv(g, s, grey) && Extends(s0, s) && KeepsLow(low0, low, s)
    && v in s.index && s.index[v] == s0.counter
    && FoundFrom(g, s0, s, v)
    && Settled(g, s, v, low[v])
  }

  /** The state inside that call when the successors in done are dealt with. */
  ghost predicate Visiting<T(!new)>(g: map<T, seq<T>>, grey: set<T>, v: T, done: set<T>,
                                    s0: Search<T>, low0: map<T, nat>, s: Search<T>, low: map<T, nat>)
  {
    && Inv(g, s, grey + {v}) && Extends(Push(s0, v), s) && KeepsLow(low0, low, s)
    && low0.Keys == s0.index.Keys && v !in s0.index && v in s.index && s.index[v] == s0.counter
    && FoundFrom(g, s0, s, v)
    && Scanning(g, s, v, low[v], done)
  }

  lemma EnterCall<T(!new)>(g: map<T, seq<T>>, grey: set<T>, v: T, s0: Search<T>, low0: map<T, nat>)
    requires Inv(g, s0, grey) && low0.Keys == s0.index.Keys && v !in s0.index
    requires forall a :: a in grey ==> Reach(g, a, v)
    ensures Visiting(g, grey, v, {}, s0, low0, Push(s0, v), low0[v := s0.counter])
  {
    PushKeepsInv(g, s0, grey, v);
    ReachSelf(g, v);
    assert Scanning(g, Push(s0, v), v, s0.counter, {});
  }

  lemma GreyReach<T(!new)>(g: map<T, seq<T>>, grey: set<T>, v: T, w: T)
    requires forall a :: a in grey ==> Reach(g, a, v)
    requires w in Successors(g, v)
    ensures forall a :: a in grey + {v} ==> Reach(g, a, w)
  {
    ReachEdge(g, v, w);
    forall a | a in grey ensures Reach(g, a, w) {
      ReachTrans(g, a, v, w);
    }
  }

  lemma KeepsLowThroughCall<T(!new)>(low0: map<T, nat>, low: map<T, nat>, tlow: map<T, nat>, s: Search<T>, t: Search<T>,
                                     v: T, m: nat)
    requires KeepsLow(low0, low, s) && KeepsLow(low, tlow, t) && v in t.index && v !in low0
    ensures KeepsLow(low0, tlow[v := m], t)
  {
  }

  lemma AfterRecursion<T(!new)>(g: map<T, seq<T>>, grey: set<T>, v: T, done: set<T>, w: T,
                                s0: Search<T>, low0: map<T, nat>, s: Search<T>, low: map<T, nat>,
                                t: Search<T>, tlow: map<T, nat>)
    requires Visiting(g, grey, v, done, s0, low0, s, low) && w in Successors(g, v) && w !in s.index
    requires Visited(g, grey + {v}, w, s, low, t, tlow)
    ensures Visiting(g, grey, v, done + {w}, s0, low0, t, tlow[v := Min(tlow[v], tlow[w])])
  {
    ScanAfterCall(g, s, t, v, low[v], done, w, tlow[w]);
    KeepsLowThroughCall(low0, low, tlow, s, t, v, Min(tlow[v], tlow[w]));
    ExtendsTrans(Push(s0, v), s, t);
    ReachEdge(g, v, w);
    forall x | x in t.index && x !in s0.index ensures Reach(g, v, x) {
      if x !in s.index { ReachTrans(g, v, w, x); }
    }
  }

  lemma AfterSeen<T(!new)>(g: map<T, seq<T>>, grey: set<T>, v: T, done: set<T>, w: T,
                           s0: Search<T>, low0: map<T, nat>, s: Search<T>, low: map<T, nat>)
    requires Visiting(g, grey, v, done, s0, low0, s, low) && w in Successors(g, v) && w in s.index
    ensures Visiting(g, grey, v, done + {w}, s0, low0, s,
                     if w in s.stack then low[v := Min(low[v], s.index[w])] else low)
  {
    ScanVisited(g, s, v, low[v], done, w);
  }

  lemma GreyBelow<T(!new)>(s0: Search<T>, s: Search<T>, grey: set<T>, v: T)
    requires Ordered(s0) && Ordered(s) && Extends(Push(s0, v), s) && v !in s0.index
    requires forall a :: a in grey ==> a in s0.stack
    ensures forall a :: a in grey ==> a in s.index && s.index[a] < s.index[v]
  {
    forall a | a in grey ensures a in s.index && s.index[a] < s.index[v] {
      assert a in Push(s0, v).index;
    }
  }

  lemma FinishAtRoot<T(!new)>(g: map<T, seq<T>>, grey: set<T>, v: T,
                              s0: Search<T>, low0: map<T, nat>, s: Search<T>, low: map<T, nat>)
    requires Inv(g, s0, grey)
    requires Visiting(g, grey, v, Elements(Successors(g, v)), s0, low0, s, low) && low[v] == s.index[v]
    ensures Visited(g, grey, v, s0, low0,
                    s.(stack := s0.stack, result := s.result + [Reversed(s.stack[|s0.stack|..])]), low)
  {
    GreyBelow(s0, s, grey, v);
    EmitKeepsInv(g, s, grey, s0.stack, v, Reversed(s.stack[|s0.stack|..]));
  }

  lemma RootPosition<T(!new)>(s0: Search<T>, s: Search<T>, v: T)
    requires Extends(Push(s0, v), s) && Ordered(s)
    ensures |s0.stack| < |s.stack| && s.stack[|s0.stack|] == v && s.stack[..|s0.stack|] == s0.stack
    ensures Distinct(s.stack)
  {
    assert s.stack[|s0.stack|] == Push(s0, v).stack[|s0.stack|];
    OrderedDistinct(s, 0);
    assert s.stack[0..] == s.stack;
  }

  lemma FinishElsewhere<T(!new)>(g: map<T, seq<T>>, grey: set<T>, v: T,
                                 s0: Search<T>, low0: map<T, nat>, s: Search<T>, low: map<T, nat>)
    requires Visiting(g, grey, v, Elements(Successors(g, v)), s0, low0, s, low) && low[v] != s.index[v]
    ensures Visited(g, grey, v, s0, low0, s, low)
  {
    FinishNonRoot(g, s, grey, v, low[v]);
  }
}
