/** Small vocabulary shared by every component: options and ordered lists. */
module Common {
  datatype Option<+T> = None | Some(value: T)

  /** Panel, workspace and window identifiers; a UUID is a 128-bit number compared as one. */
  type Id = nat

  ghost predicate Distinct<T>(s: seq<T>) {
    forall i, j :: 0 <= i < j < |s| ==> s[i] != s[j]
  }

  function HeadOpt<T>(s: seq<T>): Option<T> {
    if s == [] then None else Some(s[0])
  }

  function LastOpt<T>(s: seq<T>): Option<T> {
    if s == [] then None else Some(s[|s| - 1])
  }

  function OrElse<T>(a: Option<T>, b: Option<T>): Option<T> {
    if a.Some? then a else b
  }

  /** The index of the first occurrence, as `Iterator::position` finds it. */
  function IndexOf<T(==)>(s: seq<T>, x: T): (k: nat)
    requires x in s
    ensures k < |s| && s[k] == x && x !in s[..k]
  {
    if s[0] == x then 0 else 1 + IndexOf(s[1..], x)
  }

  function RemoveAt<T>(s: seq<T>, k: nat): seq<T>
    requires k < |s|
  {
    s[..k] + s[k + 1..]
  }

  function InsertAt<T>(s: seq<T>, k: nat, x: T): seq<T>
    requires k <= |s|
  {
    s[..k] + [x] + s[k..]
  }

  /** The list without the first occurrence of `x`. */
  function RemoveFirst<T(==)>(s: seq<T>, x: T): seq<T> {
    if s == [] then [] else if s[0] == x then s[1..] else [s[0]] + RemoveFirst(s[1..], x)
  }

  function Filter<T>(s: seq<T>, keep: T -> bool): seq<T> {
    if s == [] then [] else (if keep(s[0]) then [s[0]] else []) + Filter(s[1..], keep)
  }

  lemma DistinctParts<T>(a: seq<T>, b: seq<T>)
    ensures Distinct(a + b) <==> Distinct(a) && Distinct(b) && forall x | x in a :: x !in b
  {
    var c := a + b;
    assert forall i | 0 <= i < |a| :: c[i] == a[i];
    assert forall j | 0 <= j < |b| :: c[|a| + j] == b[j];
    if Distinct(c) {
      forall i, j | 0 <= i < j < |b| ensures b[i] != b[j] {
        assert c[|a| + i] != c[|a| + j];
      }
      forall i, j | 0 <= i < |a| && 0 <= j < |b| ensures a[i] != b[j] {
        assert c[i] != c[|a| + j];
      }
      assert forall i, j | 0 <= i < j < |a| :: c[i] != c[j];
      assert Distinct(a) && Distinct(b);
      forall x | x in a ensures x !in b {
        var i :| 0 <= i < |a| && a[i] == x;
        assert forall j | 0 <= j < |b| :: a[i] != b[j];
      }
    } else if Distinct(a) && Distinct(b) {
      var i, j :| 0 <= i < j < |c| && c[i] == c[j];
      assert i < |a| <= j;
      assert a[i] in a && b[j - |a|] in b;
    }
  }

  /** Removing at the position found is removing the first occurrence. */
  lemma {:induction false} RemoveAtIndexOf<T>(s: seq<T>, x: T)
    requires x in s
    ensures RemoveAt(s, IndexOf(s, x)) == RemoveFirst(s, x)
  {
    if s[0] != x {
      RemoveAtIndexOf(s[1..], x);
      RemoveAtTail(s, IndexOf(s[1..], x));
    }
  }

  lemma RemoveAtTail<T>(s: seq<T>, k: nat)
    requires k + 1 < |s|
    ensures RemoveAt(s, k + 1) == [s[0]] + RemoveAt(s[1..], k)
  {
  }

  lemma {:induction false} RemoveFirstConcat<T>(a: seq<T>, b: seq<T>, x: T)
    ensures RemoveFirst(a + b, x) == if x in a then RemoveFirst(a, x) + b else a + RemoveFirst(b, x)
  {
    if a == [] {
      assert a + b == b;
    } else {
      var h, t := a[0], a[1..];
      assert a == [h] + t;
      Assoc([h], t, b);
      RemoveFirstHead(h, t, x);
      RemoveFirstHead(h, t + b, x);
      if h != x {
        RemoveFirstConcat(t, b, x);
        Assoc([h], RemoveFirst(t, x), b);
        Assoc([h], t, RemoveFirst(b, x));
      }
    }
  }

  lemma Assoc<T>(a: seq<T>, b: seq<T>, c: seq<T>)
    ensures (a + b) + c == a + (b + c)
  {
  }

  lemma RemoveFirstHead<T>(h: T, t: seq<T>, x: T)
    ensures RemoveFirst([h] + t, x) == if h == x then t else [h] + RemoveFirst(t, x)
  {
    assert ([h] + t)[1..] == t;
  }

  lemma {:induction false} RemoveFirstMembers<T>(s: seq<T>, x: T)
    requires Distinct(s)
    ensures Distinct(RemoveFirst(s, x))
    ensures forall y :: y in RemoveFirst(s, x) <==> y in s && y != x
    ensures |RemoveFirst(s, x)| == if x in s then |s| - 1 else |s|
    ensures multiset(s) == multiset(RemoveFirst(s, x)) + if x in s then multiset{x} else multiset{}
  {
    if s != [] {
      assert s == [s[0]] + s[1..];
      DistinctParts([s[0]], s[1..]);
      if s[0] != x {
        RemoveFirstMembers(s[1..], x);
        DistinctParts([s[0]], RemoveFirst(s[1..], x));
      }
    }
  }

  lemma {:induction false} FilterConcat<T>(a: seq<T>, b: seq<T>, keep: T -> bool)
    ensures Filter(a + b, keep) == Filter(a, keep) + Filter(b, keep)
  {
    if a == [] {
      assert a + b == b;
    } else {
      var t := a[1..];
      var h := if keep(a[0]) then [a[0]] else [];
      assert (a + b)[1..] == t + b && (a + b)[0] == a[0];
      FilterConcat(t, b, keep);
      assert Filter(a, keep) == h + Filter(t, keep);
      assert h + (Filter(t, keep) + Filter(b, keep)) == (h + Filter(t, keep)) + Filter(b, keep);
    }
  }

  // ----- which elements of a list are kept, and in which order

  /** `after` are the elements of `before` at the places `at`, in order. */
  ghost predicate KeptAt<T>(before: seq<T>, after: seq<T>, at: seq<nat>) {
    && |at| == |after| && (forall i, j | 0 <= i < j < |at| :: at[i] < at[j])
    && forall i | 0 <= i < |at| :: at[i] < |before| && after[i] == before[at[i]]
  }

  /** The places `at` of a list are just those whose elements meet `keep`. */
  ghost predicate Picks<T>(s: seq<T>, at: seq<nat>, keep: T -> bool) {
    forall j | 0 <= j < |s| :: j in at <==> keep(s[j])
  }

  ghost function Shifted(at: seq<nat>, n: nat): (r: seq<nat>)
    ensures |r| == |at| && (forall i | 0 <= i < |at| :: r[i] == at[i] + n)
    ensures forall j: nat :: j + n in r <==> j in at
    ensures forall j: nat :: j in r ==> j >= n
  {
    var r := seq(|at|, i requires 0 <= i < |at| => at[i] + n);
    assert forall j: nat | j in at :: exists i :: 0 <= i < |at| && at[i] == j && r[i] == j + n;
    r
  }

  lemma KeptInParts<T>(a: seq<T>, b: seq<T>, x: seq<T>, y: seq<T>, p: seq<nat>, q: seq<nat>)
    requires KeptAt(a, x, p) && KeptAt(b, y, q)
    ensures KeptAt(a + b, x + y, p + Shifted(q, |a|))
  {
  }

  lemma {:induction false} FilterKeepsOrder<T>(s: seq<T>, keep: T -> bool) returns (at: seq<nat>)
    ensures KeptAt(s, Filter(s, keep), at) && Picks(s, at, keep)
  {
    if s == [] {
      at := [];
    } else {
      var rest := FilterKeepsOrder(s[1..], keep);
      var first: seq<nat> := if keep(s[0]) then [0] else [];
      at := first + Shifted(rest, 1);
      assert s == [s[0]] + s[1..];
      KeptInParts([s[0]], s[1..], if keep(s[0]) then [s[0]] else [], Filter(s[1..], keep), first, rest);
      OneMorePicked(s, rest, keep);
    }
  }

  lemma OneMorePicked<T>(s: seq<T>, rest: seq<nat>, keep: T -> bool)
    requires s != [] && Picks(s[1..], rest, keep)
    ensures Picks(s, (if keep(s[0]) then [0] else []) + Shifted(rest, 1), keep)
  {
    var at := (if keep(s[0]) then [0] else []) + Shifted(rest, 1);
    forall j | 0 <= j < |s| ensures j in at <==> keep(s[j]) {
      if j > 0 {
        assert s[j] == s[1..][j - 1] && j - 1 + 1 == j;
      }
    }
  }

  /** Everything of a list, at its places. */
  lemma AllKept<T>(s: seq<T>) returns (at: seq<nat>)
    ensures KeptAt(s, s, at) && forall j | 0 <= j < |s| :: j in at
  {
    at := seq(|s|, i requires 0 <= i < |s| => i);
    forall j | 0 <= j < |s| ensures j in at {
      assert at[j] == j;
    }
  }

  lemma KeptOnBothSides<T>(s: seq<T>, k: nat, x: seq<T>, y: seq<T>, p: seq<nat>, q: seq<nat>) returns (at: seq<nat>)
    requires k <= |s| && KeptAt(s[..k], x, p) && KeptAt(s[k..], y, q)
    ensures KeptAt(s, x + y, at)
    ensures forall j | 0 <= j < |s| :: j in at <==> if j < k then j in p else j - k in q
  {
    at := p + Shifted(q, k);
    KeptInParts(s[..k], s[k..], x, y, p, q);
    assert s == s[..k] + s[k..];
    PlacesInParts(k, p, q);
  }

  lemma PlacesInParts(k: nat, p: seq<nat>, q: seq<nat>)
    requires forall i | 0 <= i < |p| :: p[i] < k
    ensures forall j: nat :: j in p + Shifted(q, k) <==> if j < k then j in p else j - k in q
  {
    forall j: nat ensures j in p + Shifted(q, k) <==> if j < k then j in p else j - k in q {
      if j >= k {
        assert j - k + k == j;
      }
    }
  }

  /** Filtering the front of a list only. */
  lemma FilteredBefore<T>(s: seq<T>, k: nat, keep: T -> bool) returns (at: seq<nat>)
    requires k <= |s|
    ensures KeptAt(s, Filter(s[..k], keep) + s[k..], at) && forall j | 0 <= j < |s| :: j in at <==> j >= k || keep(s[j])
  {
    var p := FilterKeepsOrder(s[..k], keep);
    var q := AllKept(s[k..]);
    at := KeptOnBothSides(s, k, Filter(s[..k], keep), s[k..], p, q);
    PickedInParts(s, k, p, q, keep);
  }

  lemma PickedInParts<T>(s: seq<T>, k: nat, p: seq<nat>, q: seq<nat>, keep: T -> bool)
    requires k <= |s|
    ensures Picks(s[..k], p, keep) ==> forall j | 0 <= j < k :: j in p <==> keep(s[j])
    ensures Picks(s[k..], q, keep) ==> forall j | k <= j < |s| :: j - k in q <==> keep(s[j])
  {
    assert forall j | 0 <= j < k :: s[..k][j] == s[j];
    assert forall j | k <= j < |s| :: s[k..][j - k] == s[j];
  }

  /** Filtering the back of a list only. */
  lemma FilteredFrom<T>(s: seq<T>, k: nat, keep: T -> bool) returns (at: seq<nat>)
    requires k <= |s|
    ensures KeptAt(s, s[..k] + Filter(s[k..], keep), at) && forall j | 0 <= j < |s| :: j in at <==> j < k || keep(s[j])
  {
    var p := AllKept(s[..k]);
    var q := FilterKeepsOrder(s[k..], keep);
    at := KeptOnBothSides(s, k, s[..k], Filter(s[k..], keep), p, q);
    PickedInParts(s, k, p, q, keep);
  }
}
