/**
  The list helpers the graph uses on its neighbour lists and root sets:
  an in-place bubble sort, an in-place two-pointer reversal, and a scan
  for the lowest member of a set.
*/
module Lists {

  predicate Ascending(s: seq<int>)
  {
    forall i, j :: 0 <= i < j < |s| ==> s[i] <= s[j]
  }

  predicate Descending(s: seq<int>)
  {
    forall i, j :: 0 <= i < j < |s| ==> s[i] >= s[j]
  }

  predicate StrictlyAscending(s: seq<int>)
  {
    forall i, j :: 0 <= i < j < |s| ==> s[i] < s[j]
  }

  predicate NoDuplicates(s: seq<int>)
  {
    forall i, j :: 0 <= i < j < |s| ==> s[i] != s[j]
  }

  /** A non-empty set has a member to pick. */
  lemma HasMember(s: set<int>)
    requires s != {}
    ensures exists x :: x in s
  {
    if forall x :: x !in s {
      assert false;
    }
  }

  /**
    The members of `list` that are not in `visited`, in list order and each
    taken once: what a scan appends when it marks every new member as it
    goes.
  */
  function Unvisited(list: seq<int>, visited: seq<int>): (r: seq<int>)
    ensures forall x :: x in r <==> x in list && x !in visited
    ensures NoDuplicates(r)
  {
    if list == [] then []
    else
      var prev := Unvisited(list[..|list| - 1], visited);
      var x := list[|list| - 1];
      assert forall y :: y in list <==> y in list[..|list| - 1] || y == x;
      if x in visited || x in prev then prev else prev + [x]
  }

  /**
    The members of `list` that are not in `visited`, in list order, repeats
    kept: what a scan appends when it does not mark what it appends.
  */
  function Outside(list: seq<int>, visited: seq<int>): (r: seq<int>)
    ensures forall x :: x in r <==> x in list && x !in visited
    ensures |r| <= |list|
  {
    if list == [] then []
    else
      var prev := Outside(list[..|list| - 1], visited);
      var x := list[|list| - 1];
      assert forall y :: y in list <==> y in list[..|list| - 1] || y == x;
      if x in visited then prev else prev + [x]
  }

  lemma Associative(a: seq<int>, b: seq<int>, c: seq<int>)
    ensures a + (b + c) == (a + b) + c
  {
  }

  /** What lies outside `visited` in a concatenation is what lies outside it in each part. */
  lemma {:induction false} OutsideAppend(a: seq<int>, b: seq<int>, visited: seq<int>)
    ensures Outside(a + b, visited) == Outside(a, visited) + Outside(b, visited)
    decreases |b|
  {
    if b == [] {
      assert a + b == a;
    } else {
      var init := b[..|b| - 1];
      OutsideAppend(a, init, visited);
      assert (a + b)[..|a + b| - 1] == a + init;
    }
  }

  /** Keeping what lies outside `visited` commutes with reversal. */
  lemma {:induction false} ReversedOutside(d: seq<int>, visited: seq<int>)
    ensures Reversed(Outside(d, visited)) == Outside(Reversed(d), visited)
  {
    if d != [] {
      var init := d[..|d| - 1];
      var x := d[|d| - 1];
      var tail := if x in visited then [] else [x];
      ReversedOutside(init, visited);
      assert Outside(d, visited) == Outside(init, visited) + tail;
      ReversedConcat(Outside(init, visited), tail);
      assert Reversed(tail) == tail;
      assert Reversed(d) == [x] + Reversed(init);
      OutsideAppend([x], Reversed(init), visited);
      assert [x][..0] == [];
      assert Outside([x], visited) == tail;
    }
  }

  /**
    The new members of a concatenation, each taken once, are the new members
    of its first part and then those of its second part that are new to the
    first part as well.
  */
  lemma {:induction false} UnvisitedAppend(a: seq<int>, b: seq<int>, visited: seq<int>)
    ensures Unvisited(a + b, visited) == Unvisited(a, visited) + Unvisited(b, visited + Unvisited(a, visited))
    decreases |b|
  {
    if b == [] {
      assert a + b == a;
    } else {
      var init := b[..|b| - 1];
      UnvisitedAppend(a, init, visited);
      assert (a + b)[..|a + b| - 1] == a + init;
    }
  }

  /** Dropping members of a part of `visited` first changes nothing about what is new to `visited`. */
  lemma {:induction false} UnvisitedOfOutside(list: seq<int>, part: seq<int>, visited: seq<int>)
    requires forall x :: x in part ==> x in visited
    ensures Unvisited(Outside(list, part), visited) == Unvisited(list, visited)
  {
    if list != [] {
      var init := list[..|list| - 1];
      var x := list[|list| - 1];
      UnvisitedOfOutside(init, part, visited);
      if x !in part {
        var o := Outside(init, part);
        assert (o + [x])[..|o|] == o;
      }
    }
  }

  /** The new members of a list that starts with u: u first when it is new, then the rest, new to u as well. */
  lemma UnvisitedCons(u: int, rest: seq<int>, visited: seq<int>)
    ensures Unvisited([u] + rest, visited)
         == if u in visited then Unvisited(rest, visited) else [u] + Unvisited(rest, visited + [u])
  {
    UnvisitedAppend([u], rest, visited);
    assert [u][..0] == [];
    assert Unvisited([u], visited) == if u in visited then [] else [u];
    if u in visited {
      assert visited + [] == visited;
      assert [] + Unvisited(rest, visited) == Unvisited(rest, visited);
    }
  }

  /** A non-empty list is its head followed by its tail. */
  lemma HeadTail(s: seq<int>)
    requires s != []
    ensures s == [s[0]] + s[1..]
  {
  }

  /** A single value is new exactly when it is not in `visited`. */
  lemma UnvisitedSingle(u: int, visited: seq<int>)
    ensures Unvisited([u] + [], visited) == if u in visited then [] else [u]
  {
    assert [u] + [] == [u];
    assert [u][..0] == [];
  }

  /** The members of a list that starts with x outside `visited`: x first when it is outside, then the rest. */
  lemma OutsideCons(x: int, rest: seq<int>, visited: seq<int>)
    ensures Outside([x] + rest, visited)
         == if x in visited then Outside(rest, visited) else [x] + Outside(rest, visited)
  {
    OutsideAppend([x], rest, visited);
    assert [x][..0] == [];
    assert Outside([x], visited) == if x in visited then [] else [x];
    if x in visited {
      assert [] + Outside(rest, visited) == Outside(rest, visited);
    }
  }

  /** Each value after position n of s is new to s; appending values that are new and distinct keeps it so. */
  predicate FreshAfter(s: seq<int>, n: int)
  {
    forall i, k :: 0 <= i < k && n < k < |s| ==> s[i] != s[k]
  }

  lemma AppendFresh(s: seq<int>, t: seq<int>, n: int)
    requires FreshAfter(s, n) && NoDuplicates(t) && n < |s|
    requires forall x :: x in t ==> x !in s
    ensures FreshAfter(s + t, n)
  {
    var st := s + t;
    forall i, k | 0 <= i < k && n < k < |st| ensures st[i] != st[k] {
      if k < |s| {
        assert st[i] == s[i] && st[k] == s[k];
      } else if i < |s| {
        assert st[i] == s[i] && st[k] == t[k - |s|];
        assert st[k] in t;
      } else {
        assert st[i] == t[i - |s|] && st[k] == t[k - |s|];
      }
    }
  }

  /**
    Starting from the lowest remaining root keeps the starts strictly
    ascending and below every root still to come.
  */
  lemma LaunchLowest(launches: seq<int>, roots: set<int>, start: int)
    requires StrictlyAscending(launches)
    requires forall i, r :: 0 <= i < |launches| && r in roots ==> launches[i] < r
    requires start in roots && forall r :: r in roots ==> start <= r
    ensures StrictlyAscending(launches + [start])
    ensures forall i, r :: 0 <= i < |launches + [start]| && r in roots - {start} ==> (launches + [start])[i] < r
    ensures Elems(launches + [start]) == Elems(launches) + {start}
  {
  }

  lemma PrefixKept(s: seq<int>, t: seq<int>, n: int)
    requires 0 <= n < |s|
    ensures (s + t)[..n] == s[..n] && (s + t)[n] == s[n]
  {
  }

  /** What a list holds, an extension of it holds too. */
  lemma PrefixElems(a: seq<int>, b: seq<int>)
    requires |b| >= |a| && b[..|a|] == a
    ensures Elems(a) <= Elems(b)
  {
    forall x | x in a ensures x in b {
      var i :| 0 <= i < |a| && a[i] == x;
      assert b[..|a|][i] == x;
    }
  }

  /** A list that extends an extension of a extends a. */
  lemma PrefixOfPrefix(a: seq<int>, b: seq<int>, c: seq<int>)
    requires |b| >= |a| && b[..|a|] == a
    requires |c| >= |b| && c[..|b|] == b
    ensures c[..|a|] == a
  {
    assert c[..|a|] == c[..|b|][..|a|];
  }

  /** Every value that occurs twice in s is a member of R. */
  predicate DuplicatesOnlyOf(s: seq<int>, R: set<int>)
  {
    forall i, j :: 0 <= i < j < |s| && s[i] == s[j] ==> s[i] in R
  }

  /**
    Restarting from r in R: `after` extends `before` by r and then by values
    each new to the list, so its only new repeat is r.
  */
  lemma DuplicatesAfterRestart(before: seq<int>, after: seq<int>, r: int, R: set<int>)
    requires DuplicatesOnlyOf(before, R) && r in R
    requires |after| > |before| && after[..|before|] == before && after[|before|] == r
    requires FreshAfter(after, |before|)
    ensures DuplicatesOnlyOf(after, R)
  {
    forall i, j | 0 <= i < j < |after| && after[i] == after[j] ensures after[i] in R {
      if j < |before| {
        assert before[i] == after[i] && before[j] == after[j];
      }
    }
  }

  /** A list without repeats, extended by a value new to it and then by values each new to the list, has no repeats. */
  lemma NoDuplicatesAfterFresh(before: seq<int>, after: seq<int>)
    requires NoDuplicates(before)
    requires |after| > |before| && after[..|before|] == before && after[|before|] !in before
    requires FreshAfter(after, |before|)
    ensures NoDuplicates(after)
  {
    forall i, j | 0 <= i < j < |after| ensures after[i] != after[j] {
      if j < |before| {
        assert after[i] == before[i] && after[j] == before[j];
      } else if j == |before| {
        assert after[i] == before[i];
      }
    }
  }

  /** Taking x out of what remains of V adds x to what is done. */
  lemma TakeOneMore(V: set<int>, remaining: set<int>, x: int)
    requires x in remaining && remaining <= V
    ensures V - (remaining - {x}) == (V - remaining) + {x}
  {
  }

  /** A part X of R that leaves nothing of R over is all of R. */
  lemma NothingLeft(R: set<int>, X: set<int>)
    requires X <= R && R - X == {}
    ensures X == R
  {
    forall x | x in R ensures x in X {
      assert x !in R - X;
    }
  }

  /** The members of a list, as a set. */
  function Elems(s: seq<int>): set<int>
  {
    set x | x in s
  }

  /** `s` read from its last element to its first. */
  function Reversed(s: seq<int>): (r: seq<int>)
    ensures |r| == |s|
    ensures forall x :: x in r <==> x in s
  {
    if s == [] then []
    else
      assert s == s[..|s| - 1] + [s[|s| - 1]];
      [s[|s| - 1]] + Reversed(s[..|s| - 1])
  }

  /** Reversing a concatenation reverses the order of its parts. */
  lemma {:induction false} ReversedConcat(a: seq<int>, b: seq<int>)
    ensures Reversed(a + b) == Reversed(b) + Reversed(a)
    decreases |b|
  {
    if b == [] {
      assert a + b == a;
    } else {
      var init := b[..|b| - 1];
      ReversedConcat(a, init);
      assert (a + b)[..|a + b| - 1] == a + init;
    }
  }

  /** Reversing twice gives the list back. */
  lemma {:induction false} ReversedTwice(s: seq<int>)
    ensures Reversed(Reversed(s)) == s
  {
    if s != [] {
      var init := s[..|s| - 1];
      ReversedTwice(init);
      ReversedConcat([s[|s| - 1]], Reversed(init));
      assert Reversed([s[|s| - 1]]) == [s[|s| - 1]];
      assert s == init + [s[|s| - 1]];
    }
  }

  lemma {:induction false} ReversedAt(s: seq<int>, k: nat)
    requires k < |s|
    ensures Reversed(s)[k] == s[|s| - 1 - k]
  {
    if k > 0 {
      ReversedAt(s[..|s| - 1], k - 1);
    }
  }

  lemma {:induction false} ReversedIsPermutation(s: seq<int>)
    ensures multiset(Reversed(s)) == multiset(s)
  {
    if s != [] {
      var init := s[..|s| - 1];
      ReversedIsPermutation(init);
      assert s == init + [s[|s| - 1]];
    }
  }

  /** Reversing an ascending list gives a descending list with the same members. */
  lemma ReversedAscendingIsDescending(s: seq<int>)
    requires Ascending(s)
    ensures Descending(Reversed(s))
    ensures multiset(Reversed(s)) == multiset(s)
  {
    forall i, j | 0 <= i < j < |s|
      ensures Reversed(s)[i] >= Reversed(s)[j]
    {
      ReversedAt(s, i);
      ReversedAt(s, j);
    }
    ReversedIsPermutation(s);
  }

  /**
    The lowest member of a non-empty set of vertices.  Defined by picking any
    member and comparing it with the lowest of the rest.
  */
  ghost function Lowest(s: set<int>): (m: int)
    requires s != {}
    ensures m in s
    ensures forall x :: x in s ==> m <= x
    decreases s
  {
    HasMember(s);
    var x :| x in s;
    if s == {x} then x
    else
      var rest := Lowest(s - {x});
      assert forall y :: y in s ==> y == x || y in s - {x};
      if x < rest then x else rest
  }

  /** x placed into an ascending list before the first member not below it. */
  function Insert(x: int, s: seq<int>): (r: seq<int>)
    requires Ascending(s)
    ensures forall y :: y in r <==> y == x || y in s
    ensures Ascending(r) && multiset(r) == multiset(s) + multiset{x}
  {
    if s == [] then [x]
    else if x <= s[0] then [x] + s
    else
      var rest := Insert(x, s[1..]);
      assert s == [s[0]] + s[1..];
      assert forall k :: 0 <= k < |rest| ==> s[0] <= rest[k] by {
        forall k | 0 <= k < |rest| ensures s[0] <= rest[k] {
          assert rest[k] in rest;
        }
      }
      [s[0]] + rest
  }

  /**
    Sorting as a value, by insertion: the reference against which an
    in-place sort of a neighbour list is read.
  */
  function Sort(s: seq<int>): (r: seq<int>)
    ensures forall x :: x in r <==> x in s
    ensures Ascending(r) && multiset(r) == multiset(s)
  {
    if s == [] then []
    else
      assert s == s[..|s| - 1] + [s[|s| - 1]];
      Insert(s[|s| - 1], Sort(s[..|s| - 1]))
  }

  /** The head of an ascending list is its least member. */
  lemma HeadIsLeast(a: seq<int>, y: int)
    requires Ascending(a) && y in multiset(a)
    ensures a[0] <= y
  {
    assert y in a;
  }

  /** Two non-empty ascending lists with the same members share their head, and then their tails have the same members. */
  lemma SameHead(a: seq<int>, b: seq<int>)
    requires Ascending(a) && Ascending(b) && multiset(a) == multiset(b) && a != [] && b != []
    ensures a[0] == b[0] && Ascending(a[1..]) && Ascending(b[1..]) && multiset(a[1..]) == multiset(b[1..])
  {
    assert a[0] in multiset(a) && b[0] in multiset(b);
    HeadIsLeast(a, b[0]);
    HeadIsLeast(b, a[0]);
    assert a == [a[0]] + a[1..] && b == [b[0]] + b[1..];
    assert multiset(a) == multiset{a[0]} + multiset(a[1..]);
    assert multiset(b) == multiset{b[0]} + multiset(b[1..]);
    forall z ensures multiset(a[1..])[z] == multiset(b[1..])[z] {
      assert multiset(a)[z] == multiset{a[0]}[z] + multiset(a[1..])[z];
      assert multiset(b)[z] == multiset{b[0]}[z] + multiset(b[1..])[z];
    }
  }

  /** Two ascending lists with the same members, counted with repeats, are the same list. */
  lemma {:induction false} AscendingUnique(a: seq<int>, b: seq<int>)
    requires Ascending(a) && Ascending(b) && multiset(a) == multiset(b)
    ensures a == b
  {
    if a == [] || b == [] {
      assert |multiset(a)| == |a| && |multiset(b)| == |b|;
    } else {
      SameHead(a, b);
      AscendingUnique(a[1..], b[1..]);
    }
  }

  /** Any ascending list with the members of s is the insertion sort of s. */
  lemma SortIsTheAscendingPermutation(s: seq<int>, t: seq<int>)
    requires Ascending(t) && multiset(t) == multiset(s)
    ensures t == Sort(s)
  {
    AscendingUnique(t, Sort(s));
  }

  /** Exchanges a[j] and a[j + 1]; the array keeps its elements. */
  method SwapNext(a: array<int>, j: int)
    requires 0 <= j < a.Length - 1
    modifies a
    ensures a[j] == old(a[j + 1]) && a[j + 1] == old(a[j])
    ensures forall k :: 0 <= k < a.Length && k != j && k != j + 1 ==> a[k] == old(a[k])
    ensures multiset(a[..]) == multiset(old(a[..]))
  {
    a[j], a[j + 1] := a[j + 1], a[j];
  }

  /**
    One inner pass of the bubble sort over a[0..last]: neighbours out of order
    are swapped, which carries the largest of them to a[last].  Nothing from
    last + 1 on is touched.
  */
  method BubblePass(a: array<int>, last: int, ghost bound: int)
    requires 0 <= last < a.Length
    modifies a
    ensures multiset(a[..]) == multiset(old(a[..]))
    ensures forall k :: last < k < a.Length ==> a[k] == old(a[k])
    ensures forall p :: 0 <= p <= last ==> a[p] <= a[last]
    ensures (forall p :: 0 <= p <= last ==> old(a[p]) <= bound) ==> forall p :: 0 <= p <= last ==> a[p] <= bound
  {
    var j := 0;
    while j < last
      invariant 0 <= j <= last
      invariant multiset(a[..]) == multiset(old(a[..]))
      invariant forall k :: last < k < a.Length ==> a[k] == old(a[k])
      invariant forall p :: 0 <= p <= j ==> a[p] <= a[j]
      invariant (forall p :: 0 <= p <= last ==> old(a[p]) <= bound) ==> forall p :: 0 <= p <= last ==> a[p] <= bound
    {
      if a[j] > a[j + 1] {
        SwapNext(a, j);
      }
      j := j + 1;
    }
  }

  /** Bubble sort in place: the array ends ascending and holds the same elements. */
  method SortList(a: array<int>)
    modifies a
    ensures Ascending(a[..])
    ensures multiset(a[..]) == multiset(old(a[..]))
  {
    var n := a.Length;
    var i := 0;
    while i < n - 1
      invariant 0 <= i <= n
      invariant n > 0 ==> i <= n - 1
      invariant multiset(a[..]) == multiset(old(a[..]))
      // the last i places are in order, and nothing before them is larger
      invariant forall p, q :: n - i <= p < q < n ==> a[p] <= a[q]
      invariant i > 0 ==> forall p :: 0 <= p < n - i ==> a[p] <= a[n - i]
    {
      BubblePass(a, n - i - 1, if i > 0 then a[n - i] else 0);
      i := i + 1;
    }
  }

  /** Two-pointer reversal in place. */
  method ReverseList(a: array<int>)
    modifies a
    ensures a[..] == Reversed(old(a[..]))
  {
    var start := 0;
    var end := a.Length - 1;
    while start < end
      invariant 0 <= start <= end + 1
      invariant end == a.Length - 1 - start
      invariant forall k :: 0 <= k < start ==> a[k] == old(a[a.Length - 1 - k]) && a[a.Length - 1 - k] == old(a[k])
      invariant forall k :: start <= k <= end ==> a[k] == old(a[k])
    {
      a[start], a[end] := a[end], a[start];
      start := start + 1;
      end := end - 1;
    }
    ghost var before := old(a[..]);
    forall k | 0 <= k < a.Length
      ensures a[k] == Reversed(before)[k]
    {
      ReversedAt(before, k);
    }
  }

  /**
    Scans the set and keeps the first element found that is strictly lower
    than the one kept so far; `found` plays the part of "lowest is not null".
  */
  method GetLowestValue(s: set<int>) returns (lowest: int)
    requires s != {}
    ensures lowest in s
    ensures forall x :: x in s ==> lowest <= x
  {
    var found := false;
    lowest := 0;
    var rest := s;
    while rest != {}
      invariant rest <= s
      invariant !found ==> rest == s
      invariant found ==> lowest in s && forall x :: x in s && x !in rest ==> lowest <= x
      decreases rest
    {
      HasMember(rest);
      var element :| element in rest;
      if !found || element < lowest {
        lowest := element;
        found := true;
      }
      rest := rest - {element};
    }
  }
}
