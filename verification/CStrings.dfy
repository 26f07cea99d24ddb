/** C strings and their order.  A character stands for a byte; '\0' ends a string. */
module CStrings {

  const NUL: char := '\0'

  /** What a pointer to s means to strcmp and strlen: everything up to a NUL. */
  function Key(s: string): string {
    if s == [] || s[0] == NUL then [] else [s[0]] + Key(s[1..])
  }

  ghost predicate Plain(s: string) { NUL !in s }

  /** strcmp, by the sign of its result. */
  function Strcmp(a: string, b: string): int {
    if a == [] then (if b == [] then 0 else -1)
    else if b == [] || a[0] > b[0] then 1
    else if a[0] < b[0] then -1
    else Strcmp(a[1..], b[1..])
  }

  predicate Before(a: string, b: string) { Strcmp(a, b) < 0 }

  lemma {:induction false} StrcmpZero(a: string, b: string)
    ensures Strcmp(a, b) == 0 <==> a == b
  {
    if a != [] && b != [] && a[0] == b[0] {
      StrcmpZero(a[1..], b[1..]);
      assert a == [a[0]] + a[1..] && b == [b[0]] + b[1..];
    }
  }

  lemma {:induction false} StrcmpSwap(a: string, b: string)
    ensures Strcmp(a, b) == -Strcmp(b, a)
  {
    if a != [] && b != [] && a[0] == b[0] { StrcmpSwap(a[1..], b[1..]); }
  }

  /** The first difference decides, and a string comes before what it starts. */
  lemma {:induction false} StrcmpFirst(a: string, b: string, k: nat)
    requires k <= |a| && k <= |b| && a[..k] == b[..k]
    ensures k < |a| && k < |b| && a[k] < b[k] ==> Strcmp(a, b) < 0
    ensures k < |a| && k < |b| && a[k] > b[k] ==> Strcmp(a, b) > 0
    ensures k == |a| < |b| ==> Strcmp(a, b) < 0
    ensures k == |b| < |a| ==> Strcmp(a, b) > 0
  {
    if k > 0 {
      assert a[0] == a[..k][0] == b[..k][0] == b[0];
      assert a[1..][..k - 1] == a[..k][1..] && b[1..][..k - 1] == b[..k][1..];
      StrcmpFirst(a[1..], b[1..], k - 1);
    }
  }

  lemma {:induction false} BeforeTrans(a: string, b: string, c: string)
    requires Before(a, b) && Before(b, c)
    ensures Before(a, c)
  {
    if a != [] && a[0] == b[0] == c[0] { BeforeTrans(a[1..], b[1..], c[1..]); }
  }

  lemma {:induction false} KeyIs(s: string)
    ensures Plain(Key(s)) && Key(s) <= s
    ensures |Key(s)| == |s| || s[|Key(s)|] == NUL
  {
    if s != [] && s[0] != NUL {
      KeyIs(s[1..]);
      assert s == [s[0]] + s[1..];
    }
  }

  lemma {:induction false} KeyOfPlain(s: string)
    requires Plain(s)
    ensures Key(s) == s
  {
    if s != [] {
      assert s[0] in s;
      KeyOfPlain(s[1..]);
      assert s == [s[0]] + s[1..];
    }
  }
}
