/** Insertion-ordered collections of module names (and command-line arguments) as sequences. A JavaScript `Set` (and the key
    list of a `Map`) iterates in insertion order and holds each element once;
    here it is a sequence without duplicates, `Add` is `Set.prototype.add`,
    `Remove` is `Set.prototype.delete` and `IndexOf` is `Array.prototype.indexOf`. */
module Ordered {

  /** No element occurs twice. */
  ghost predicate Distinct(s: seq<string>) {
    forall i, j :: 0 <= i < j < |s| ==> s[i] != s[j]
  }

  /** The position of the first occurrence of `x`, or -1 when there is none. */
  function IndexOf(s: seq<string>, x: string): (i: int)
    ensures -1 <= i < |s|
    ensures i == -1 <==> x !in s
    ensures 0 <= i ==> s[i] == x && x !in s[..i]
  {
    if s == [] then -1
    else if s[0] == x then 0
    else
      var k := IndexOf(s[1..], x);
      if k == -1 then -1
      else
        assert s[1..][..k] == s[1..k + 1];
        k + 1
  }

  /** `set.add(x)`: appends `x` unless it is already present. */
  function Add(s: seq<string>, x: string): seq<string> {
    if x in s then s else s + [x]
  }

  /** Adds every element of `xs`, front to back, as `xs.forEach(set.add, set)` does. */
  function AddAll(s: seq<string>, xs: seq<string>): seq<string> {
    if xs == [] then s else Add(AddAll(s, xs[..|xs| - 1]), xs[|xs| - 1])
  }

  /** `set.delete(x)`: drops `x` and keeps the order of the rest. */
  function Remove(s: seq<string>, x: string): (r: seq<string>)
    ensures forall y :: y in r <==> y in s && y != x
    ensures |r| <= |s|
  {
    if s == [] then []
    else (if s[0] == x then [] else [s[0]]) + Remove(s[1..], x)
  }

  lemma {:induction false} AddAllMembers(s: seq<string>, xs: seq<string>)
    ensures forall y :: y in AddAll(s, xs) <==> y in s || y in xs
  {
    if xs != [] {
      var init := xs[..|xs| - 1];
      AddAllMembers(s, init);
      assert xs == init + [xs[|xs| - 1]];
    }
  }

  lemma {:induction false} AddAllDistinct(s: seq<string>, xs: seq<string>)
    requires Distinct(s)
    ensures Distinct(AddAll(s, xs))
  {
    if xs != [] {
      AddAllDistinct(s, xs[..|xs| - 1]);
    }
  }

  /** Adding never moves or drops what was already there. */
  lemma {:induction false} AddAllKeepsPrefix(s: seq<string>, xs: seq<string>)
    ensures |s| <= |AddAll(s, xs)| && AddAll(s, xs)[..|s|] == s
  {
    if xs != [] {
      AddAllKeepsPrefix(s, xs[..|xs| - 1]);
    }
  }

  /** Adding `a` and then `b` is adding `a + b`. */
  lemma {:induction false} AddAllConcat(s: seq<string>, a: seq<string>, b: seq<string>)
    ensures AddAll(s, a + b) == AddAll(AddAll(s, a), b)
  {
    if b == [] {
      assert a + b == a;
    } else {
      var init := b[..|b| - 1];
      AddAllConcat(s, a, init);
      assert (a + b)[..|a + b| - 1] == a + init;
    }
  }

  /** Adding distinct new elements appends them all. */
  lemma {:induction false} AddAllFresh(s: seq<string>, xs: seq<string>)
    requires Distinct(xs)
    requires forall x :: x in xs ==> x !in s
    ensures AddAll(s, xs) == s + xs
  {
    if xs != [] {
      var init := xs[..|xs| - 1];
      var last := xs[|xs| - 1];
      AddAllFresh(s, init);
      forall i | 0 <= i < |init| ensures init[i] != last {
        assert init[i] == xs[i];
      }
      assert xs == init + [last];
    }
  }

  /** Adding elements that are all present changes nothing. */
  lemma {:induction false} AddAllPresent(s: seq<string>, xs: seq<string>)
    requires forall x :: x in xs ==> x in s
    ensures AddAll(s, xs) == s
  {
    if xs != [] {
      AddAllPresent(s, xs[..|xs| - 1]);
    }
  }

  /** Starting from the empty set, the elements keep the order in which `xs`
      first mentions them. */
  lemma {:induction false} AddAllFirstSeen(xs: seq<string>)
    ensures var r := AddAll([], xs);
      forall i, j :: 0 <= i < j < |r| ==> IndexOf(xs, r[i]) < IndexOf(xs, r[j])
  {
    if xs != [] {
      var init := xs[..|xs| - 1];
      var last := xs[|xs| - 1];
      var r0 := AddAll([], init);
      var r := AddAll([], xs);
      AddAllFirstSeen(init);
      PrefixIndexes(xs, init, r0);
      if last in r0 {
        assert r == r0;
      } else {
        assert r == r0 + [last];
        assert IndexOf(xs, last) == |xs| - 1 by {
          AddAllMembers([], init);
          assert xs == init + [last];
        }
      }
    }
  }

  /** The elements added from a prefix of `xs` keep their first positions in `xs`. */
  lemma PrefixIndexes(xs: seq<string>, init: seq<string>, r0: seq<string>)
    requires xs != [] && init == xs[..|xs| - 1] && r0 == AddAll([], init)
    ensures forall i :: 0 <= i < |r0| ==> IndexOf(xs, r0[i]) == IndexOf(init, r0[i]) < |init|
  {
    AddAllMembers([], init);
    forall i | 0 <= i < |r0| ensures IndexOf(xs, r0[i]) == IndexOf(init, r0[i]) < |init| {
      IndexOfPrefix(xs, init, r0[i]);
    }
  }

  lemma {:induction false} IndexOfPrefix(xs: seq<string>, p: seq<string>, y: string)
    requires |p| <= |xs| && p == xs[..|p|] && y in p
    ensures IndexOf(xs, y) == IndexOf(p, y)
  {
    var i := IndexOf(p, y);
    assert xs[i] == y;
    forall t | 0 <= t < i ensures xs[t] != y {
      assert xs[t] == p[..i][t];
    }
  }

  lemma {:induction false} RemoveDistinct(s: seq<string>, x: string)
    requires Distinct(s)
    ensures Distinct(Remove(s, x))
  {
    if s != [] {
      RemoveDistinct(s[1..], x);
      assert s[0] !in s[1..] by {
        forall t | 0 <= t < |s[1..]| ensures s[1..][t] != s[0] {
          assert s[1..][t] == s[t + 1];
        }
      }
    }
  }

  /** Removing an element that is absent changes nothing. */
  lemma {:induction false} RemoveAbsent(s: seq<string>, x: string)
    requires x !in s
    ensures Remove(s, x) == s
  {
    if s != [] {
      RemoveAbsent(s[1..], x);
      assert s == [s[0]] + s[1..];
    }
  }

  /** In a duplicate-free sequence, removing the element at `j` closes the gap. */
  lemma {:induction false} RemoveAt(s: seq<string>, j: nat)
    requires Distinct(s) && j < |s|
    ensures Remove(s, s[j]) == s[..j] + s[j + 1..]
  {
    if j == 0 {
      RemoveAbsent(s[1..], s[0]);
    } else {
      RemoveAt(s[1..], j - 1);
      assert s[1..][..j - 1] == s[1..j];
      assert s[1..][j..] == s[j + 1..];
      assert s[..j] == [s[0]] + s[1..j];
    }
  }
}
