/** Recency lists, most recent first: container/list as the caches of internal/core use it. */
module Recency {
  import opened Ordering

  /** s with position i taken out and everything else in its place. */
  ghost predicate TakenOut<T>(s: seq<T>, i: nat, x: T, r: seq<T>) {
    i < |s| && s[i] == x && r == s[..i] + s[i + 1..]
  }

  /** In a list without duplicates, taking an element out leaves the others in their order. */
  lemma {:induction false} WithoutKeepsOrder<T(!new)>(s: seq<T>, x: T) returns (i: nat)
    requires NoDuplicates(s) && x in s
    ensures TakenOut(s, i, x, Without(s, x))
  {
    assert s == [s[0]] + s[1..];
    if s[0] == x {
      i := 0;
      assert x !in s[1..];
    } else {
      var j := WithoutKeepsOrder(s[1..], x);
      i := j + 1;
      assert s[1..][..j] == s[1..i];
    }
  }

  /** Moving an element to the front leaves the others in their order behind it. */
  lemma ToFrontKeepsOrder<T(!new)>(s: seq<T>, x: T)
    requires NoDuplicates(s)
    ensures ToFront(s, x)[0] == x
    ensures x !in s ==> ToFront(s, x)[1..] == s
    ensures x in s ==> exists i :: TakenOut(s, i, x, ToFront(s, x)[1..])
  {
    assert ToFront(s, x)[1..] == Without(s, x);
    if x in s {
      var i := WithoutKeepsOrder(s, x);
    }
  }

  function Without<T(==, !new)>(s: seq<T>, x: T): (r: seq<T>)
    ensures forall y :: y in r <==> y in s && y != x
    ensures NoDuplicates(s) ==> NoDuplicates(r)
    ensures x !in s ==> r == s
    ensures NoDuplicates(s) && x in s ==> |r| == |s| - 1
  {
    if s == [] then []
    else
      assert s == [s[0]] + s[1..];
      assert NoDuplicates(s) ==> NoDuplicates(s[1..]) && s[0] !in s[1..];
      var rest := Without(s[1..], x);
      if s[0] == x then rest else [s[0]] + rest
  }

  function ToFront<T(==, !new)>(s: seq<T>, x: T): (r: seq<T>)
    ensures Elements(r) == Elements(s) + {x}
    ensures NoDuplicates(s) ==> NoDuplicates(r)
    ensures NoDuplicates(s) && x in s ==> |r| == |s|
    ensures x !in s ==> |r| == |s| + 1
  {
    [x] + Without(s, x)
  }

  lemma DropOldest<T>(s: seq<T>)
    requires NoDuplicates(s) && s != []
    ensures NoDuplicates(s[..|s| - 1]) && Elements(s[..|s| - 1]) == Elements(s) - {s[|s| - 1]}
  {
    assert s == s[..|s| - 1] + [s[|s| - 1]];
  }

  lemma {:induction false} NoDuplicatesCount<T>(s: seq<T>)
    requires NoDuplicates(s)
    ensures |Elements(s)| == |s|
  {
    if s != [] {
      DropOldest(s);
      NoDuplicatesCount(s[..|s| - 1]);
    } else {
      assert Elements(s) == {};
    }
  }
}
