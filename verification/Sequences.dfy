/** Two notions on sequences that several parts of the gateway use: the last position of an element, and
    having no element twice. */
module Sequences {
  import opened Wrappers

  function LastIndexOf<T(==)>(s: seq<T>, x: T): Option<nat> {
    if s == [] then None
    else if s[|s| - 1] == x then Some(|s| - 1)
    else LastIndexOf(s[..|s| - 1], x)
  }

  lemma {:induction false} LastIndexOfIsLast<T>(s: seq<T>, x: T)
    ensures match LastIndexOf(s, x)
      case None => x !in s
      case Some(i) => i < |s| && s[i] == x && forall j :: i < j < |s| ==> s[j] != x
  {
    if s != [] {
      LastIndexOfIsLast(s[..|s| - 1], x);
    }
  }

  lemma LastIndexOfAppend<T>(s: seq<T>, y: T, x: T)
    ensures LastIndexOf(s + [y], x) == if y == x then Some(|s|) else LastIndexOf(s, x)
  {
    assert (s + [y])[..|s|] == s;
  }

  lemma LastIndexOfEnd<T>(s: seq<T>, more: seq<T>, x: T)
    requires more != [] && more[|more| - 1] == x
    ensures LastIndexOf(s + more, x) == Some(|s| + |more| - 1)
  {
    assert (s + more)[|s + more| - 1] == x;
  }

  lemma {:induction false} LastIndexOfSkips<T>(s: seq<T>, more: seq<T>, x: T)
    requires x !in more
    ensures LastIndexOf(s + more, x) == LastIndexOf(s, x)
  {
    if more == [] {
      assert s + more == s;
    } else {
      assert (s + more)[..|s + more| - 1] == s + more[..|more| - 1];
      LastIndexOfSkips(s, more[..|more| - 1], x);
    }
  }

  lemma {:induction false} LastIndexOfAgrees<S, T>(a: seq<S>, x: S, b: seq<T>, y: T)
    requires |a| == |b| && forall i :: 0 <= i < |a| ==> (a[i] == x <==> b[i] == y)
    ensures LastIndexOf(a, x) == LastIndexOf(b, y)
  {
    if a != [] {
      LastIndexOfAgrees(a[..|a| - 1], x, b[..|b| - 1], y);
    }
  }

  ghost predicate Distinct<T(!new)>(s: seq<T>) {
    forall i, j :: 0 <= i < j < |s| ==> s[i] != s[j]
  }

  lemma LastIndexOfDistinct<T(!new)>(s: seq<T>, i: nat)
    requires Distinct(s) && i < |s|
    ensures LastIndexOf(s, s[i]) == Some(i)
  {
    LastIndexOfIsLast(s, s[i]);
  }
}
