/** Small value-level helpers shared by the model: an optional value and
    order-preserving filters over sequences of identifiers. */
module Util {

  datatype Option<+T> = None | Some(value: T)

  /** No element occurs twice. */
  predicate NoDups<T(==,!new)>(s: seq<T>)
  {
    forall i, j :: 0 <= i < j < |s| ==> s[i] != s[j]
  }

  /** The elements of `s` that belong to `keep`, in the order of `s`. */
  function Keep<T(==,!new)>(s: seq<T>, keep: set<T>): (r: seq<T>)
    ensures forall x :: x in r <==> x in s && x in keep
    ensures |r| <= |s|
  {
    if s == [] then []
    else
      var init := s[..|s| - 1];
      assert s == init + [s[|s| - 1]];
      Keep(init, keep) + (if s[|s| - 1] in keep then [s[|s| - 1]] else [])
  }

  /** The elements of `s` that do not belong to `drop`, in the order of `s`. */
  function Without<T(==,!new)>(s: seq<T>, drop: set<T>): (r: seq<T>)
    ensures forall x :: x in r <==> x in s && x !in drop
    ensures |r| <= |s|
  {
    if s == [] then []
    else
      var init := s[..|s| - 1];
      assert s == init + [s[|s| - 1]];
      Without(init, drop) + (if s[|s| - 1] in drop then [] else [s[|s| - 1]])
  }

  /** Filtering a sequence extended by one element. */
  lemma KeepSnoc<T(!new)>(s: seq<T>, x: T, keep: set<T>)
    ensures Keep(s + [x], keep) == Keep(s, keep) + (if x in keep then [x] else [])
  {
    assert (s + [x])[..|s|] == s;
  }

  lemma {:induction false} NoDupsInit<T(!new)>(s: seq<T>)
    requires NoDups(s) && s != []
    ensures NoDups(s[..|s| - 1]) && s[|s| - 1] !in s[..|s| - 1]
  {
  }

  /** Removing two sets of keys one after the other removes their union. */
  lemma MapMinusMinus<K, V>(m: map<K, V>, a: set<K>, b: set<K>)
    ensures m - a - b == m - (a + b)
  {
  }

  /** The set of the elements of `s`. */
  function Elements<T>(s: seq<T>): set<T>
  {
    set x | x in s
  }

  lemma ElementsSnoc<T>(s: seq<T>, x: T)
    ensures Elements(s + [x]) == Elements(s) + {x}
  {
  }

  /** The prefix of length `i + 1` extends the one of length `i`; in a
      sequence without duplicates, `s[i]` is not in the shorter one. */
  lemma TakeStep<T(!new)>(s: seq<T>, i: nat)
    requires i < |s|
    ensures s[..i + 1] == s[..i] + [s[i]]
    ensures s[..i + 1][..i] == s[..i]
    ensures NoDups(s) ==> s[i] !in s[..i]
  {
  }

  /** Filtering keeps a sequence free of duplicates. */
  lemma {:induction false} KeepNoDups<T(!new)>(s: seq<T>, keep: set<T>)
    requires NoDups(s)
    ensures NoDups(Keep(s, keep))
  {
    if s != [] {
      NoDupsInit(s);
      KeepNoDups(s[..|s| - 1], keep);
    }
  }

  lemma {:induction false} WithoutNoDups<T(!new)>(s: seq<T>, drop: set<T>)
    requires NoDups(s)
    ensures NoDups(Without(s, drop))
  {
    if s != [] {
      NoDupsInit(s);
      WithoutNoDups(s[..|s| - 1], drop);
    }
  }

  /** Dropping two sets one after the other drops their union. */
  lemma {:induction false} WithoutWithout<T(!new)>(s: seq<T>, a: set<T>, b: set<T>)
    ensures Without(Without(s, a), b) == Without(s, a + b)
  {
    if s != [] {
      var init := s[..|s| - 1];
      WithoutWithout(init, a, b);
      var last := s[|s| - 1];
      var w := Without(init, a);
      if last in a {
        assert Without(s, a) == w;
      } else {
        assert Without(s, a) == w + [last];
        assert (w + [last])[..|w + [last]| - 1] == w;
      }
    }
  }

  /** Keeping `a` and then `b` keeps their intersection. */
  lemma {:induction false} KeepKeep<T(!new)>(s: seq<T>, a: set<T>, b: set<T>)
    ensures Keep(Keep(s, a), b) == Keep(s, a * b)
  {
    if s != [] {
      var init := s[..|s| - 1];
      KeepKeep(init, a, b);
      var last := s[|s| - 1];
      var k := Keep(init, a);
      if last in a {
        assert Keep(s, a) == k + [last];
        assert (k + [last])[..|k + [last]| - 1] == k;
      } else {
        assert Keep(s, a) == k;
      }
    }
  }

  /** Dropping elements the sequence does not hold changes nothing. */
  lemma {:induction false} WithoutAbsent<T(!new)>(s: seq<T>, drop: set<T>)
    requires forall x :: x in drop ==> x !in s
    ensures Without(s, drop) == s
  {
    if s != [] {
      var init := s[..|s| - 1];
      WithoutAbsent(init, drop);
      assert s == init + [s[|s| - 1]];
    }
  }

  /** Two sets that agree on the elements of `s` keep the same elements. */
  lemma {:induction false} KeepSameOn<T(!new)>(s: seq<T>, a: set<T>, b: set<T>)
    requires forall x :: x in s ==> (x in a <==> x in b)
    ensures Keep(s, a) == Keep(s, b)
  {
    if s != [] {
      var init := s[..|s| - 1];
      KeepSameOn(init, a, b);
    }
  }

  /** Dropping the same element twice is dropping it once. */
  lemma WithoutTwice<T(!new)>(s: seq<T>, x: T)
    ensures Without(Without(s, {x}), {x}) == Without(s, {x})
  {
    WithoutWithout(s, {x}, {x});
    assert {x} + {x} == {x};
  }

  /** Growing `done` by one element grows `a * done` by that element exactly
      when it belongs to `a`. */
  lemma IntersectStep<T>(a: set<T>, done: set<T>, x: T)
    ensures x in a ==> a * (done + {x}) == a * done + {x}
    ensures x !in a ==> a * (done + {x}) == a * done
  {
  }
}
