/** `unique`: order-preserving deduplication, as `[...new Set(array)]` does it
    (a JavaScript Set iterates in insertion order). */
module Dedup {

  predicate NoDup<T(==)>(s: seq<T>) {
    forall i, j :: 0 <= i < j < |s| ==> s[i] != s[j]
  }

  /** Position of the first occurrence of `x` in `s`. */
  function IndexOf<T(==)>(s: seq<T>, x: T): (k: nat)
    requires x in s
    ensures k < |s| && s[k] == x && x !in s[..k]
  {
    if s[0] == x then 0 else 1 + IndexOf(s[1..], x)
  }

  /** Insert the elements of `s` one by one into the already deduplicated `acc`. */
  function UniqueFrom<T(==)>(acc: seq<T>, s: seq<T>): seq<T>
    decreases |s|
  {
    if s == [] then acc
    else UniqueFrom(if s[0] in acc then acc else acc + [s[0]], s[1..])
  }

  /** The result has no duplicates, holds exactly the elements of `s`, and lists them in
      the order of their first occurrences in `s`. */
  function Unique<T(==)>(s: seq<T>): (r: seq<T>)
    ensures NoDup(r)
    ensures forall i :: 0 <= i < |r| ==> r[i] in s
    ensures forall i :: 0 <= i < |s| ==> s[i] in r
    ensures forall i, j :: 0 <= i < j < |r| ==> IndexOf(s, r[i]) < IndexOf(s, r[j])
  {
    UniqueFromFacts([], s);
    UniqueFrom([], s)
  }

  lemma UniqueFromFacts<T>(acc: seq<T>, s: seq<T>)
    requires NoDup(acc)
    ensures var r := UniqueFrom(acc, s);
      && |acc| <= |r| && r[..|acc|] == acc
      && NoDup(r)
      && (forall x :: x in r <==> x in acc || x in s)
      && (forall i :: |acc| <= i < |r| ==> r[i] !in acc && r[i] in s)
      && (forall i, j :: |acc| <= i < j < |r| ==> IndexOf(s, r[i]) < IndexOf(s, r[j]))
  {
    UniqueFromShape(acc, s);
    UniqueFromOrder(acc, s);
  }

  lemma {:induction false} UniqueFromShape<T>(acc: seq<T>, s: seq<T>)
    requires NoDup(acc)
    ensures var r := UniqueFrom(acc, s);
      && |acc| <= |r| && r[..|acc|] == acc
      && NoDup(r)
      && (forall x :: x in r <==> x in acc || x in s)
      && (forall i :: |acc| <= i < |r| ==> r[i] !in acc && r[i] in s)
    decreases |s|
  {
    if s != [] {
      var x, t := s[0], s[1..];
      var acc' := if x in acc then acc else acc + [x];
      assert acc'[..|acc|] == acc;
      UniqueFromShape(acc', t);
    }
  }

  lemma NoDupSnoc<T>(s: seq<T>, x: T)
    requires NoDup(s) && x !in s
    ensures NoDup(s + [x])
  {
    forall i, j | 0 <= i < j < |s| + 1 ensures (s + [x])[i] != (s + [x])[j] {
      if j == |s| { assert (s + [x])[i] == s[i]; }
    }
  }

  /** The accumulator stays at the front. */
  lemma {:induction false} UniqueFromPrefix<T>(acc: seq<T>, s: seq<T>)
    ensures var r := UniqueFrom(acc, s); |acc| <= |r| && r[..|acc|] == acc
    decreases |s|
  {
    if s != [] {
      var acc' := if s[0] in acc then acc else acc + [s[0]];
      assert acc'[..|acc|] == acc;
      UniqueFromPrefix(acc', s[1..]);
    }
  }

  lemma {:induction false} UniqueFromOrder<T>(acc: seq<T>, s: seq<T>)
    requires NoDup(acc)
    ensures var r := UniqueFrom(acc, s);
      (forall i :: |acc| <= i < |r| ==> r[i] in s) &&
      forall i, j :: |acc| <= i < j < |r| ==> IndexOf(s, r[i]) < IndexOf(s, r[j])
    decreases |s|
  {
    if s != [] {
      var x, t := s[0], s[1..];
      var acc' := if x in acc then acc else acc + [x];
      UniqueFromShape(acc', t);
      UniqueFromOrder(acc', t);
      var r := UniqueFrom(acc', t);
      assert r == UniqueFrom(acc, s);
      forall i | |acc'| <= i < |r|
        ensures IndexOf(s, r[i]) == 1 + IndexOf(t, r[i])
      {
        assert r[i] !in acc';
      }
      if x !in acc {
        assert r[|acc|] == acc'[|acc|] == x;
      }
    }
  }

  /** Deduplicating the concatenation continues from the deduplicated prefix. */
  lemma {:induction false} UniqueFromAppend<T>(acc: seq<T>, a: seq<T>, b: seq<T>)
    ensures UniqueFrom(acc, a + b) == UniqueFrom(UniqueFrom(acc, a), b)
    decreases |a|
  {
    if a == [] {
      assert a + b == b;
    } else {
      assert (a + b)[0] == a[0] && (a + b)[1..] == a[1..] + b;
      UniqueFromAppend(if a[0] in acc then acc else acc + [a[0]], a[1..], b);
    }
  }

  lemma UniqueAppend<T>(a: seq<T>, b: seq<T>)
    ensures Unique(a + b) == UniqueFrom(Unique(a), b)
  {
    UniqueFromAppend([], a, b);
  }

  /** A sequence without duplicates is its own deduplication. */
  lemma {:induction false} UniqueFromNoDup<T>(acc: seq<T>, s: seq<T>)
    requires NoDup(acc + s)
    ensures UniqueFrom(acc, s) == acc + s
    decreases |s|
  {
    if s != [] {
      assert s[0] == (acc + s)[|acc|];
      assert s[0] !in acc by {
        forall i | 0 <= i < |acc| ensures acc[i] != s[0] {
          assert acc[i] == (acc + s)[i];
        }
      }
      assert acc + s == (acc + [s[0]]) + s[1..];
      UniqueFromNoDup(acc + [s[0]], s[1..]);
    }
  }

  lemma UniqueOfNoDup<T>(s: seq<T>)
    requires NoDup(s)
    ensures Unique(s) == s
  {
    assert [] + s == s;
    UniqueFromNoDup([], s);
  }

  /** Feeding in a sequence whose repeats were already dropped changes nothing, as long as
      what was dropped is already in the accumulator. */
  lemma {:induction false} UniqueFromSkipsSeen<T>(acc: seq<T>, seen: seq<T>, s: seq<T>)
    requires NoDup(seen)
    requires forall x :: x in seen ==> x in acc
    ensures |seen| <= |UniqueFrom(seen, s)|
    ensures UniqueFrom(acc, UniqueFrom(seen, s)[|seen|..]) == UniqueFrom(acc, s)
    decreases |s|
  {
    UniqueFromFacts(seen, s);
    if s != [] {
      var x, t := s[0], s[1..];
      if x in seen {
        UniqueFromSkipsSeen(acc, seen, t);
      } else {
        var seen' := seen + [x];
        UniqueFromFacts(seen', t);
        var u := UniqueFrom(seen', t);
        assert u[|seen|..] == [x] + u[|seen'|..] by {
          assert u[|seen|] == seen'[|seen|] == x;
        }
        var acc2 := if x in acc then acc else acc + [x];
        assert UniqueFrom(acc, [x] + u[|seen'|..]) == UniqueFrom(acc2, u[|seen'|..]) by {
          assert ([x] + u[|seen'|..])[1..] == u[|seen'|..];
        }
        UniqueFromSkipsSeen(acc2, seen', t);
      }
    }
  }

  /** `unique(a.concat(b))` only depends on `b` through `unique(b)`. */
  lemma UniqueIgnoresRepeats<T>(a: seq<T>, b: seq<T>)
    ensures Unique(a + b) == Unique(a + Unique(b))
  {
    UniqueAppend(a, b);
    UniqueAppend(a, Unique(b));
    UniqueFromSkipsSeen(Unique(a), [], b);
    assert UniqueFrom([], b)[0..] == Unique(b);
  }
}
