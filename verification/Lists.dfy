/** Duplicate-free lists and the size of finite sets. */
module Lists {
  predicate NoDuplicates<T(==)>(s: seq<T>) {
    forall i, j :: 0 <= i < j < |s| ==> s[i] != s[j]
  }

  function Members<T>(s: seq<T>): set<T> {
    set x | x in s
  }

  lemma {:induction false} SetOfBoundedNats(s: set<nat>, n: nat)
    requires forall x :: x in s ==> x < n
    ensures |s| <= n
  {
    if s != {} {
      var x :| x in s;
      SetOfBoundedNats(s - {n - 1}, n - 1);
    }
  }

  lemma {:induction false} DistinctHasSetSize<T>(s: seq<T>)
    requires NoDuplicates(s)
    ensures |Members(s)| == |s|
  {
    if s != [] {
      var init, last := s[..|s| - 1], s[|s| - 1];
      DistinctHasSetSize(init);
      assert Members(s) == Members(init) + {last};
      assert last !in init;
    }
  }

  /** The last element of a list can be taken out of any permutation of it. */
  lemma PermutationDropsLast<T>(a: seq<T>, b: seq<T>) returns (i: nat)
    requires multiset(a) == multiset(b) && a != []
    ensures i < |b| && b[i] == a[|a| - 1]
    ensures multiset(a[..|a| - 1]) == multiset(b[..i] + b[i + 1..])
  {
    var last := a[|a| - 1];
    assert a == a[..|a| - 1] + [last];
    assert last in multiset(b);
    i :| 0 <= i < |b| && b[i] == last;
    assert b == b[..i] + [last] + b[i + 1..];
    assert multiset(a[..|a| - 1]) == multiset(a) - multiset{last};
    assert multiset(b[..i] + b[i + 1..]) == multiset(b) - multiset{last};
  }

  // ---------------------------------------------------------------------------------------------
  // First occurrences
  // ---------------------------------------------------------------------------------------------

  /** The elements of a list in the order of their first occurrence. */
  function Dedup<T(==,!new)>(s: seq<T>): (d: seq<T>)
    ensures forall x :: x in d <==> x in s
    ensures NoDuplicates(d)
  {
    if s == [] then []
    else
      var d := Dedup(s[..|s| - 1]);
      if s[|s| - 1] in d then d else d + [s[|s| - 1]]
  }

  /** Removing duplicates from a part first changes nothing. */
  lemma DedupParts<T(!new)>(a: seq<T>, b: seq<T>)
    ensures Dedup(Dedup(a) + b) == Dedup(a + b)
    ensures Dedup(a + Dedup(b)) == Dedup(a + b)
  {
    DedupLeft(a, b);
    DedupRight(a, b);
  }

  lemma {:induction false} DedupLeft<T(!new)>(a: seq<T>, b: seq<T>)
    ensures Dedup(Dedup(a) + b) == Dedup(a + b)
  {
    if b == [] {
      DedupIdempotent(Dedup(a));
      assert Dedup(a) + b == Dedup(a) && a + b == a;
    } else {
      var init, last := b[..|b| - 1], b[|b| - 1];
      assert b == init + [last];
      DedupLeft(a, init);
      assert a + b == (a + init) + [last] && Dedup(a) + b == (Dedup(a) + init) + [last];
      DedupSnoc(a + init, last);
      DedupSnoc(Dedup(a) + init, last);
      assert last in a <==> last in Dedup(a);
    }
  }

  lemma {:induction false} DedupIdempotent<T(!new)>(s: seq<T>)
    requires NoDuplicates(s)
    ensures Dedup(s) == s
  {
    if s != [] {
      DedupIdempotent(s[..|s| - 1]);
      assert s == s[..|s| - 1] + [s[|s| - 1]];
    }
  }

  lemma DedupSnoc<T(!new)>(s: seq<T>, x: T)
    ensures Dedup(s + [x]) == if x in s then Dedup(s) else Dedup(s) + [x]
  {
  }

  lemma {:induction false} DedupRight<T(!new)>(a: seq<T>, b: seq<T>)
    ensures Dedup(a + Dedup(b)) == Dedup(a + b)
  {
    if b != [] {
      var init, last := b[..|b| - 1], b[|b| - 1];
      assert b == init + [last];
      DedupRight(a, init);
      DedupSnoc(init, last);
      assert a + b == (a + init) + [last];
      DedupSnoc(a + init, last);
      if last in init {
        assert last in a + init;
      } else {
        assert a + Dedup(b) == (a + Dedup(init)) + [last];
        DedupSnoc(a + Dedup(init), last);
        assert last in a + init <==> last in a;
        assert last in a + Dedup(init) <==> last in a;
      }
    }
  }

  // The order that Dedup keeps, told by where an element occurs first.

  function FirstIndex<T(==)>(s: seq<T>, x: T): (i: nat)
    ensures i <= |s|
    ensures i < |s| ==> s[i] == x
    ensures forall j :: 0 <= j < i ==> s[j] != x
  {
    if s == [] then 0 else if s[0] == x then 0 else 1 + FirstIndex(s[1..], x)
  }

  lemma FirstIndexOfPrefix<T>(s: seq<T>, last: T, x: T)
    ensures x in s ==> FirstIndex(s + [last], x) == FirstIndex(s, x) < |s|
    ensures x !in s ==> FirstIndex(s + [last], x) >= |s|
  {
    var i, j := FirstIndex(s, x), FirstIndex(s + [last], x);
    assert j < |s| ==> (s + [last])[j] == s[j];
    assert i < |s| ==> (s + [last])[i] == s[i];
  }

  lemma {:induction false} DedupKeepsOrder<T(!new)>(s: seq<T>, i: nat, j: nat)
    requires i < j < |Dedup(s)|
    ensures FirstIndex(s, Dedup(s)[i]) < FirstIndex(s, Dedup(s)[j])
  {
    var init, last := s[..|s| - 1], s[|s| - 1];
    assert s == init + [last];
    FirstIndexOfPrefix(init, last, Dedup(s)[i]);
    FirstIndexOfPrefix(init, last, Dedup(s)[j]);
    if j < |Dedup(init)| {
      DedupKeepsOrder(init, i, j);
    }
  }
}
