/** Orders, sorting and the C string comparison that the rankings are built on. */
module Order {

  /** Names a chain of three elements, so that transitivity is used only where it is asked for. */
  ghost predicate Chain<T(!new)>(a: T, b: T, c: T, cmp: (T, T) -> int)
  {
    cmp(a, b) <= 0 && cmp(b, c) <= 0
  }

  /** A comparison in the style of `qsort`: negative, zero or positive. */
  ghost predicate TotalPreorder<T(!new)>(cmp: (T, T) -> int)
  {
    && (forall a, b :: cmp(a, b) <= 0 || cmp(b, a) <= 0)
    && (forall a, b, c {:trigger Chain(a, b, c, cmp)} :: Chain(a, b, c, cmp) ==> cmp(a, c) <= 0)
  }

  ghost predicate Antisymmetric<T(!new)>(cmp: (T, T) -> int)
  {
    forall a, b :: cmp(a, b) <= 0 && cmp(b, a) <= 0 ==> a == b
  }

  ghost predicate Sorted<T(!new)>(s: seq<T>, cmp: (T, T) -> int)
  {
    forall i, j :: 0 <= i < j < |s| ==> cmp(s[i], s[j]) <= 0
  }

  /** Stands for `qsort`: some arrangement of the input that the comparison accepts. */
  method Sort<T(!new)>(s: seq<T>, cmp: (T, T) -> int) returns (r: seq<T>)
    requires TotalPreorder(cmp)
    ensures multiset(r) == multiset(s)
    ensures Sorted(r, cmp)
  {
    r := [];
    for n := 0 to |s|
      invariant multiset(r) == multiset(s[..n])
      invariant Sorted(r, cmp)
    {
      r := Insert(r, s[n], cmp);
      assert s[..n + 1] == s[..n] + [s[n]];
    }
    assert s[..|s|] == s;
  }

  method Insert<T(!new)>(s: seq<T>, x: T, cmp: (T, T) -> int) returns (r: seq<T>)
    requires TotalPreorder(cmp)
    requires Sorted(s, cmp)
    ensures multiset(r) == multiset(s) + multiset{x}
    ensures Sorted(r, cmp)
  {
    var k := |s|;
    while 0 < k && cmp(s[k - 1], x) > 0
      invariant 0 <= k <= |s|
      invariant forall i :: k <= i < |s| ==> cmp(x, s[i]) <= 0
    {
      k := k - 1;
    }
    r := s[..k] + [x] + s[k..];
    InsertedIsSorted(s, k, x, cmp);
    InsertedMultiset(s, k, x);
  }

  lemma InsertedMultiset<T>(s: seq<T>, k: nat, x: T)
    requires k <= |s|
    ensures multiset(s[..k] + [x] + s[k..]) == multiset(s) + multiset{x}
  {
    assert s == s[..k] + s[k..];
  }

  lemma InsertedIsSorted<T(!new)>(s: seq<T>, k: nat, x: T, cmp: (T, T) -> int)
    requires TotalPreorder(cmp) && Sorted(s, cmp)
    requires k <= |s|
    requires 0 < k ==> cmp(s[k - 1], x) <= 0
    requires forall i :: k <= i < |s| ==> cmp(x, s[i]) <= 0
    ensures Sorted(s[..k] + [x] + s[k..], cmp)
  {
    var r := s[..k] + [x] + s[k..];
    forall i, j | 0 <= i < j < |r|
      ensures cmp(r[i], r[j]) <= 0
    {
      if j == k {
        assert i < k - 1 ==> Chain(s[i], s[k - 1], x, cmp);
      } else if i != k {
        var i0 := if i < k then i else i - 1;
        var j0 := if j < k then j else j - 1;
        assert cmp(s[i0], s[j0]) <= 0;
      }
    }
  }

  /** The first element of a sorted sequence is below every element. */
  lemma HeadIsLeast<T(!new)>(s: seq<T>, x: T, cmp: (T, T) -> int)
    requires TotalPreorder(cmp) && Sorted(s, cmp) && x in multiset(s)
    ensures s != [] && cmp(s[0], x) <= 0
  {
    var i :| 0 <= i < |s| && s[i] == x;
    assert cmp(x, x) <= 0;
  }

  lemma HeadsAgree<T(!new)>(s: seq<T>, t: seq<T>, cmp: (T, T) -> int)
    requires TotalPreorder(cmp) && Antisymmetric(cmp) && Sorted(s, cmp) && Sorted(t, cmp)
    requires s != [] && t != [] && multiset(s) == multiset(t)
    ensures s[0] == t[0]
  {
    assert s[0] in multiset(s) && t[0] in multiset(t);
    HeadIsLeast(s, t[0], cmp);
    HeadIsLeast(t, s[0], cmp);
  }

  lemma SortedTail<T(!new)>(s: seq<T>, cmp: (T, T) -> int)
    requires Sorted(s, cmp) && s != []
    ensures Sorted(s[1..], cmp)
  {
  }

  lemma Rebuilt<T>(s: seq<T>, t: seq<T>)
    requires s != [] && t != [] && s[0] == t[0] && s[1..] == t[1..]
    ensures s == t
  {
    assert s == [s[0]] + s[1..] && t == [t[0]] + t[1..];
  }

  lemma TailMultiset<T>(s: seq<T>)
    requires s != []
    ensures multiset(s[1..]) == multiset(s) - multiset{s[0]}
  {
    assert s == [s[0]] + s[1..];
  }

  /** Two sorted arrangements of the same elements are the same sequence. */
  lemma {:induction false} SortedIsUnique<T(!new)>(s: seq<T>, t: seq<T>, cmp: (T, T) -> int)
    requires TotalPreorder(cmp) && Antisymmetric(cmp)
    requires multiset(s) == multiset(t)
    requires Sorted(s, cmp) && Sorted(t, cmp)
    ensures s == t
  {
    assert |s| == |multiset(s)| == |multiset(t)| == |t|;
    if s != [] {
      HeadsAgree(s, t, cmp);
      TailMultiset(s);
      TailMultiset(t);
      SortedTail(s, cmp);
      SortedTail(t, cmp);
      SortedIsUnique(s[1..], t[1..], cmp);
      Rebuilt(s, t);
    }
  }

  /** `strcmp`, up to the sign of the result. */
  function Strcmp(a: string, b: string): int
  {
    if a == [] then (if b == [] then 0 else -1)
    else if b == [] then 1
    else if a[0] != b[0] then a[0] as int - b[0] as int
    else Strcmp(a[1..], b[1..])
  }

  lemma {:induction false} StrcmpTotal(a: string, b: string)
    ensures Strcmp(a, b) < 0 <==> Strcmp(b, a) > 0
    ensures Strcmp(a, b) == 0 <==> a == b
  {
    if a != [] && b != [] {
      assert a == [a[0]] + a[1..] && b == [b[0]] + b[1..];
      StrcmpTotal(a[1..], b[1..]);
    }
  }

  lemma {:induction false} StrcmpTransitive(a: string, b: string, c: string)
    requires Strcmp(a, b) <= 0 && Strcmp(b, c) <= 0
    ensures Strcmp(a, c) <= 0
  {
    if a != [] && b != [] && c != [] && a[0] == b[0] == c[0] {
      StrcmpTransitive(a[1..], b[1..], c[1..]);
    }
  }

  /** The one string is a proper prefix of the other, or has the smaller character where they first differ. */
  ghost predicate Smaller(a: string, b: string)
  {
    exists k: nat :: DiffersAt(a, b, k) && (k == |a| || a[k] < b[k])
  }

  predicate DiffersAt(a: string, b: string, k: nat)
  {
    k <= |a| && k < |b| && (forall i :: 0 <= i < k ==> a[i] == b[i]) && (k < |a| ==> a[k] != b[k])
  }

  lemma {:induction false} StrcmpMeaning(a: string, b: string)
    ensures Strcmp(a, b) < 0 <==> Smaller(a, b)
  {
    if a == [] && b != [] {
      assert DiffersAt(a, b, 0);
    } else if a != [] && b != [] && a[0] != b[0] {
      assert DiffersAt(a, b, 0);
    } else if a != [] && b != [] {
      StrcmpMeaning(a[1..], b[1..]);
      TailsDiffer(a, b);
    }
  }

  lemma TailsDiffer(a: string, b: string)
    requires a != [] && b != [] && a[0] == b[0]
    ensures Smaller(a, b) <==> Smaller(a[1..], b[1..])
  {
    if Smaller(a, b) {
      var k: nat :| DiffersAt(a, b, k) && (k == |a| || a[k] < b[k]);
      assert k > 0;
      assert DiffersAt(a[1..], b[1..], k - 1);
    }
    if Smaller(a[1..], b[1..]) {
      var k: nat :| DiffersAt(a[1..], b[1..], k) && (k == |a[1..]| || a[1..][k] < b[1..][k]);
      assert forall i :: 0 < i <= k ==> a[i] == a[1..][i - 1] && b[i] == b[1..][i - 1];
      assert DiffersAt(a, b, k + 1);
    }
  }

  /** A sequence without repetitions over a set has exactly the set's size. */
  lemma {:induction false} EnumerationSize<T>(s: seq<T>)
    requires forall i, j :: 0 <= i < j < |s| ==> s[i] != s[j]
    ensures |s| == |set x | x in s|
  {
    if s != [] {
      var t := s[..|s| - 1];
      EnumerationSize(t);
      assert s == t + [s[|s| - 1]];
      assert (set x | x in s) == (set x | x in t) + {s[|s| - 1]};
    }
  }

  function Map<A, B>(s: seq<A>, f: A -> B): (r: seq<B>)
    ensures |r| == |s| && forall i :: 0 <= i < |s| ==> r[i] == f(s[i])
  {
    seq(|s|, i requires 0 <= i < |s| => f(s[i]))
  }

  /** Splits `b` around the place of `a`'s first element. */
  lemma SplitAtHead<T>(a: seq<T>, b: seq<T>) returns (l: seq<T>, r: seq<T>)
    requires a != [] && multiset(a) == multiset(b)
    ensures b == l + [a[0]] + r && multiset(a[1..]) == multiset(l + r)
  {
    assert a[0] in multiset(b);
    var i :| 0 <= i < |b| && b[i] == a[0];
    l, r := b[..i], b[i + 1..];
    assert b == l + [a[0]] + r;
    assert a == [a[0]] + a[1..];
    assert multiset(a) == multiset{a[0]} + multiset(a[1..]);
    assert multiset(b) == multiset(l) + multiset{a[0]} + multiset(r);
    assert multiset(l + r) == multiset(b) - multiset{a[0]};
    assert multiset(a[1..]) == multiset(a) - multiset{a[0]};
  }

  lemma {:induction false} MapIgnoresOrder<A, B>(a: seq<A>, b: seq<A>, f: A -> B)
    requires multiset(a) == multiset(b)
    ensures multiset(Map(a, f)) == multiset(Map(b, f))
  {
    if a == [] {
      assert |b| == |multiset(b)|;
    } else {
      var l, r := SplitAtHead(a, b);
      MapIgnoresOrder(a[1..], l + r, f);
      assert Map(a, f) == [f(a[0])] + Map(a[1..], f);
      assert Map(b, f) == Map(l, f) + [f(a[0])] + Map(r, f);
      assert Map(l + r, f) == Map(l, f) + Map(r, f);
    }
  }

  /** Two listings of one set without repetitions hold the same elements equally often. */
  lemma {:induction false} EnumerationsAgree<T(!new)>(p: seq<T>, q: seq<T>)
    requires (set u | u in p) == (set u | u in q)
    requires forall i, j :: 0 <= i < j < |p| ==> p[i] != p[j]
    requires forall i, j :: 0 <= i < j < |q| ==> q[i] != q[j]
    ensures multiset(p) == multiset(q)
  {
    forall u: T
      ensures multiset(p)[u] == multiset(q)[u]
    {
      Occurrences(p, u);
      Occurrences(q, u);
      var setP, setQ := set v | v in p, set v | v in q;
      assert u in p <==> u in setP;
      assert u in q <==> u in setQ;
    }
  }

  lemma {:induction false} Occurrences<T>(p: seq<T>, u: T)
    requires forall i, j :: 0 <= i < j < |p| ==> p[i] != p[j]
    ensures multiset(p)[u] == if u in p then 1 else 0
  {
    if p != [] {
      var front := p[..|p| - 1];
      Occurrences(front, u);
      assert p == front + [p[|p| - 1]];
    }
  }

  lemma TwiceMeansTwo<T>(s: seq<T>, i: nat, j: nat)
    requires i < j < |s| && s[i] == s[j]
    ensures multiset(s)[s[i]] >= 2
  {
    assert s == s[..j] + s[j..];
    assert s[i] in s[..j] && s[j] in s[j..];
  }

  /** Rearranging a listing without repetitions gives another one of the same set. */
  lemma RearrangedEnumeration<T(!new)>(s: seq<T>, t: seq<T>)
    requires multiset(s) == multiset(t)
    requires forall i, j :: 0 <= i < j < |t| ==> t[i] != t[j]
    ensures (set x | x in s) == (set x | x in t)
    ensures forall i, j :: 0 <= i < j < |s| ==> s[i] != s[j]
  {
    assert forall x :: x in s <==> x in multiset(s);
    assert forall x :: x in t <==> x in multiset(t);
    forall i, j | 0 <= i < j < |s|
      ensures s[i] != s[j]
    {
      if s[i] == s[j] {
        TwiceMeansTwo(s, i, j);
        Occurrences(t, s[i]);
      }
    }
  }
}
