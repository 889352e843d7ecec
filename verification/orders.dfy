/** Sequences used as access orders: first-occurrence removal, filtering, subsequences. */
module Orders {
  ghost predicate NoDup<T(!new)>(s: seq<T>) {
    forall i, j | 0 <= i < j < |s| :: s[i] != s[j]
  }

  ghost function Elems<T(!new)>(s: seq<T>): set<T> {
    set x | x in s
  }

  lemma ElemsSnoc<T(!new)>(s: seq<T>, x: T)
    ensures Elems(s + [x]) == Elems(s) + {x}
  {
  }

  lemma SubsetSize<T>(a: set<T>, b: set<T>)
    requires a <= b
    ensures |a| <= |b| && |b - a| == |b| - |a|
  {
    assert b == a + (b - a);
  }

  lemma {:induction false} NoDupCardinality<T(!new)>(s: seq<T>)
    requires NoDup(s)
    ensures |Elems(s)| == |s|
  {
    if s != [] {
      NoDupCardinality(s[1..]);
      assert s == [s[0]] + s[1..];
      assert Elems(s) == Elems(s[1..]) + {s[0]};
    }
  }

  /** What removing `x` from an access order leaves: only its first occurrence goes. */
  function RemoveFirst<T(==,!new)>(s: seq<T>, x: T): (r: seq<T>)
    ensures x !in s ==> r == s
    ensures x in s ==> |r| == |s| - 1
    ensures forall y | y != x :: y in r <==> y in s
  {
    if s == [] then []
    else if s[0] == x then s[1..]
    else
      var rest := RemoveFirst(s[1..], x);
      assert s == [s[0]] + s[1..];
      [s[0]] + rest
  }

  /** The loop form: cutting `s` at the first `x` gives RemoveFirst. */
  lemma {:induction false} RemoveFirstAt<T(!new)>(s: seq<T>, x: T, i: nat)
    requires i < |s| && s[i] == x && x !in s[..i]
    ensures RemoveFirst(s, x) == s[..i] + s[i + 1..]
  {
    if i > 0 {
      assert s[0] == s[..i][0];
      assert forall y | y in s[1..][..i - 1] :: y in s[..i];
      RemoveFirstAt(s[1..], x, i - 1);
    }
  }

  lemma {:induction false} RemoveFirstNoDup<T(!new)>(s: seq<T>, x: T)
    requires NoDup(s)
    ensures NoDup(RemoveFirst(s, x))
    ensures Elems(RemoveFirst(s, x)) == Elems(s) - {x}
  {
    if s != [] {
      assert s == [s[0]] + s[1..];
      assert s[0] !in s[1..];
      if s[0] != x {
        RemoveFirstNoDup(s[1..], x);
        assert s[0] !in Elems(RemoveFirst(s[1..], x));
      }
    }
  }

  /** Removal keeps the relative order of what stays. */
  lemma {:induction false} RemoveFirstIndex<T(!new)>(s: seq<T>, x: T, i: nat, j: nat)
    requires NoDup(s) && i < j < |RemoveFirst(s, x)|
    ensures exists a, b | 0 <= a < b < |s| :: s[a] == RemoveFirst(s, x)[i] && s[b] == RemoveFirst(s, x)[j]
  {
    if x in s {
      var n :| 0 <= n < |s| && s[n] == x;
      assert x !in s[..n];
      RemoveFirstAt(s, x, n);
      var a, b := if i < n then i else i + 1, if j < n then j else j + 1;
      assert s[a] == RemoveFirst(s, x)[i] && s[b] == RemoveFirst(s, x)[j];
    }
  }

  /** `s` without the elements of `dead`, in order. */
  function Without<T(==,!new)>(s: seq<T>, dead: set<T>): (r: seq<T>)
    ensures forall x :: x in r <==> x in s && x !in dead
    ensures |r| <= |s|
  {
    if s == [] then []
    else
      assert s == [s[0]] + s[1..];
      (if s[0] in dead then [] else [s[0]]) + Without(s[1..], dead)
  }

  lemma {:induction false} WithoutNone<T(!new)>(s: seq<T>)
    ensures Without(s, {}) == s
  {
    if s != [] { WithoutNone(s[1..]); }
  }

  lemma {:induction false} WithoutNoDup<T(!new)>(s: seq<T>, dead: set<T>)
    requires NoDup(s)
    ensures NoDup(Without(s, dead))
    ensures Elems(Without(s, dead)) == Elems(s) - dead
  {
    if s != [] {
      WithoutNoDup(s[1..], dead);
      assert s[0] !in s[1..];
    }
  }

  lemma WithoutMember<T(!new)>(s: seq<T>, dead: set<T>, j: nat) returns (b: nat)
    requires j < |Without(s, dead)|
    ensures b < |s| && s[b] == Without(s, dead)[j]
  {
    assert Without(s, dead)[j] in s;
    b :| b < |s| && s[b] == Without(s, dead)[j];
  }

  lemma {:induction false} WithoutIndex<T(!new)>(s: seq<T>, dead: set<T>, i: nat, j: nat)
    requires i < j < |Without(s, dead)|
    ensures exists a, b | 0 <= a < b < |s| :: s[a] == Without(s, dead)[i] && s[b] == Without(s, dead)[j]
  {
    var tail := s[1..];
    if s[0] !in dead && i == 0 {
      var b := WithoutMember(tail, dead, j - 1);
      assert s[0] == Without(s, dead)[0] && s[b + 1] == Without(s, dead)[j];
    } else {
      var skip := if s[0] in dead then 0 else 1;
      WithoutIndex(tail, dead, i - skip, j - skip);
      var a, b :| 0 <= a < b < |tail| && tail[a] == Without(tail, dead)[i - skip] && tail[b] == Without(tail, dead)[j - skip];
      assert s[a + 1] == Without(s, dead)[i] && s[b + 1] == Without(s, dead)[j];
    }
  }

  /** Removing one more dead element: the cleanup loop's step. */
  lemma RemoveFirstCons<T(!new)>(h: T, t: seq<T>, x: T)
    ensures RemoveFirst([h] + t, x) == if h == x then t else [h] + RemoveFirst(t, x)
  {
    assert ([h] + t)[1..] == t;
  }

  lemma {:induction false} WithoutOneMore<T(!new)>(s: seq<T>, dead: set<T>, x: T)
    requires NoDup(s)
    ensures RemoveFirst(Without(s, dead), x) == Without(s, dead + {x})
  {
    if s != [] {
      var h, t := s[0], s[1..];
      var rest, less := Without(t, dead), Without(t, dead + {x});
      assert RemoveFirst(rest, x) == less by { WithoutOneMore(t, dead, x); }
      assert h == x ==> rest == less by { assert h !in t; }
      RemoveFirstCons(h, rest, x);
      assert Without(s, dead) == if h in dead then rest else [h] + rest;
      assert Without(s, dead + {x}) == if h in dead || h == x then less else [h] + less;
    }
  }

  /** `a` can be read off `b` by skipping elements. */
  predicate Subsequence<T(==)>(a: seq<T>, b: seq<T>)
    decreases |b|
  {
    a == [] || (b != [] && if a[0] == b[0] then Subsequence(a[1..], b[1..]) else Subsequence(a, b[1..]))
  }

  lemma {:induction false} SubsequenceElems<T>(a: seq<T>, b: seq<T>, x: T)
    requires Subsequence(a, b) && x in a
    ensures x in b
    decreases |b|
  {
    if a[0] == b[0] {
      if x != a[0] { SubsequenceElems(a[1..], b[1..], x); }
    } else {
      SubsequenceElems(a, b[1..], x);
    }
  }

  lemma {:induction false} SubsequenceTail<T>(a: seq<T>, b: seq<T>)
    requires Subsequence(a, b) && a != []
    ensures Subsequence(a[1..], b)
    decreases |b|
  {
    if a[0] == b[0] {
      SubsequenceSkip(a[1..], b);
    } else {
      SubsequenceTail(a, b[1..]);
      SubsequenceSkip(a[1..], b);
    }
  }

  /** A subsequence of the tail is a subsequence of the whole. */
  lemma {:induction false} SubsequenceSkip<T>(a: seq<T>, b: seq<T>)
    requires b != [] && Subsequence(a, b[1..])
    ensures Subsequence(a, b)
    decreases |b|, 0
  {
    if a != [] && a[0] == b[0] {
      SubsequenceTail(a, b[1..]);
    }
  }

  lemma {:induction false} SubsequenceAppend<T>(a: seq<T>, b: seq<T>, x: T)
    requires Subsequence(a, b)
    ensures Subsequence(a + [x], b + [x]) && Subsequence(a, b + [x])
    decreases |b|
  {
    if b == [] {
      assert a == [];
      assert Subsequence([x][1..], [x][1..]);
    } else {
      assert (b + [x])[1..] == b[1..] + [x];
      if a == [] {
        SubsequenceAppend(a, b[1..], x);
        assert a + [x] == [x];
        SubsequenceSkip([x], b + [x]);
      } else if a[0] == b[0] {
        assert (a + [x])[1..] == a[1..] + [x];
        SubsequenceAppend(a[1..], b[1..], x);
      } else {
        SubsequenceAppend(a, b[1..], x);
      }
    }
  }

  lemma {:induction false} SubsequenceRemove<T(!new)>(a: seq<T>, b: seq<T>, x: T)
    requires Subsequence(a, b) && NoDup(a) && NoDup(b)
    ensures Subsequence(RemoveFirst(a, x), RemoveFirst(b, x))
    decreases |b|
  {
    if a == [] || b == [] {
    } else if a[0] == b[0] {
      if a[0] != x {
        SubsequenceRemove(a[1..], b[1..], x);
        assert RemoveFirst(a, x)[1..] == RemoveFirst(a[1..], x);
        assert RemoveFirst(b, x)[1..] == RemoveFirst(b[1..], x);
      }
    } else if b[0] == x {
      if x in a { SubsequenceElems(a, b[1..], x); }
      assert b[0] !in b[1..];
      assert RemoveFirst(a, x) == a;
    } else {
      SubsequenceRemove(a, b[1..], x);
      assert RemoveFirst(b, x)[1..] == RemoveFirst(b[1..], x);
      SubsequenceSkip(RemoveFirst(a, x), RemoveFirst(b, x));
    }
  }

  /** Filtering both by sets that agree on the smaller one. */
  lemma {:induction false} SubsequenceWithout<T(!new)>(a: seq<T>, b: seq<T>, deadA: set<T>, deadB: set<T>)
    requires Subsequence(a, b) && forall x | x in a :: x in deadA <==> x in deadB
    ensures Subsequence(Without(a, deadA), Without(b, deadB))
    decreases |b|
  {
    if a != [] {
      if a[0] == b[0] {
        SubsequenceWithout(a[1..], b[1..], deadA, deadB);
        if a[0] in deadA {
          assert Without(a, deadA) == Without(a[1..], deadA) && Without(b, deadB) == Without(b[1..], deadB);
        } else {
          assert Without(a, deadA)[1..] == Without(a[1..], deadA);
          assert Without(b, deadB)[1..] == Without(b[1..], deadB);
        }
      } else {
        SubsequenceWithout(a, b[1..], deadA, deadB);
        if b[0] in deadB {
          assert Without(b, deadB) == Without(b[1..], deadB);
        } else {
          assert Without(b, deadB)[1..] == Without(b[1..], deadB);
          SubsequenceSkip(Without(a, deadA), Without(b, deadB));
        }
      }
    }
  }
}
