/** Sequence operations shared by the table model: deleting rows that match a
    criterion (`Without`), "push if not already included" (`AppendMissing`), and their laws. */
module Seqs {

  function Elems<T>(s: seq<T>): set<T>
  {
    set x | x in s
  }

  predicate NoDup<T(==)>(s: seq<T>)
  {
    forall i, j :: 0 <= i < j < |s| ==> s[i] != s[j]
  }

  lemma EmptyIffNoElems<T>(s: seq<T>)
    ensures s == [] <==> Elems(s) == {}
  {
    if s != [] {
      assert s[0] in Elems(s);
    }
  }

  /** `s` with every element of `drop` removed, the rest in their original order:
      both `array.filter(x => !drop.has(x))` and a DELETE on a table. */
  function Without<T(==,!new)>(s: seq<T>, drop: set<T>): (r: seq<T>)
    ensures forall x :: x in r <==> x in s && x !in drop
    ensures |r| <= |s|
  {
    if s == [] then []
    else (if s[0] in drop then [] else [s[0]]) + Without(s[1..], drop)
  }

  lemma {:induction false} WithoutAppend<T(!new)>(a: seq<T>, b: seq<T>, drop: set<T>)
    ensures Without(a + b, drop) == Without(a, drop) + Without(b, drop)
    decreases |a|
  {
    if a == [] {
      assert a + b == b;
    } else {
      assert (a + b)[1..] == a[1..] + b;
      WithoutAppend(a[1..], b, drop);
    }
  }

  /** Only the members of `s` matter in the dropped set. */
  lemma {:induction false} WithoutAgree<T(!new)>(s: seq<T>, d1: set<T>, d2: set<T>)
    requires forall x :: x in s ==> (x in d1 <==> x in d2)
    ensures Without(s, d1) == Without(s, d2)
    decreases |s|
  {
    if s != [] {
      WithoutAgree(s[1..], d1, d2);
    }
  }

  /** Two deletions in a row are one deletion of both sets. */
  lemma {:induction false} WithoutTwice<T(!new)>(s: seq<T>, d1: set<T>, d2: set<T>)
    ensures Without(Without(s, d1), d2) == Without(s, d1 + d2)
    decreases |s|
  {
    if s != [] {
      WithoutTwice(s[1..], d1, d2);
      var head := if s[0] in d1 then [] else [s[0]];
      WithoutAppend(head, Without(s[1..], d1), d2);
    }
  }

  lemma {:induction false} WithoutNone<T(!new)>(s: seq<T>, drop: set<T>)
    requires forall x :: x in s ==> x !in drop
    ensures Without(s, drop) == s
    decreases |s|
  {
    if s != [] {
      WithoutNone(s[1..], drop);
    }
  }

  lemma {:induction false} WithoutKeepsNoDup<T(!new)>(s: seq<T>, drop: set<T>)
    requires NoDup(s)
    ensures NoDup(Without(s, drop))
    decreases |s|
  {
    if s != [] {
      assert NoDup(s[1..]) by {
        forall i, j | 0 <= i < j < |s[1..]| ensures s[1..][i] != s[1..][j] {
          assert s[1..][i] == s[i + 1] && s[1..][j] == s[j + 1];
        }
      }
      WithoutKeepsNoDup(s[1..], drop);
      var rest := Without(s[1..], drop);
      assert s[0] !in rest;
      if s[0] !in drop {
        var r := [s[0]] + rest;
        forall i, j | 0 <= i < j < |r| ensures r[i] != r[j] {
          if i == 0 { assert r[j] == rest[j - 1]; }
          else { assert r[i] == rest[i - 1] && r[j] == rest[j - 1]; }
        }
      }
    }
  }

  /** `for (x of xs) if (!acc.includes(x)) acc.push(x)`, as a function of the initial `acc`. */
  function AppendMissing<T(==)>(acc: seq<T>, xs: seq<T>): seq<T>
    decreases |xs|
  {
    if xs == [] then acc
    else AppendMissing(if xs[0] in acc then acc else acc + [xs[0]], xs[1..])
  }

  lemma {:induction false} AppendMissingElems<T>(acc: seq<T>, xs: seq<T>)
    ensures Elems(AppendMissing(acc, xs)) == Elems(acc) + Elems(xs)
    decreases |xs|
  {
    if xs != [] {
      var next := if xs[0] in acc then acc else acc + [xs[0]];
      AppendMissingElems(next, xs[1..]);
      assert Elems(xs) == {xs[0]} + Elems(xs[1..]) by {
        assert xs == [xs[0]] + xs[1..];
      }
      assert Elems(next) == Elems(acc) + {xs[0]};
    }
  }

  lemma {:induction false} AppendMissingPrefix<T>(acc: seq<T>, xs: seq<T>)
    ensures acc <= AppendMissing(acc, xs)
    decreases |xs|
  {
    if xs != [] {
      var next := if xs[0] in acc then acc else acc + [xs[0]];
      AppendMissingPrefix(next, xs[1..]);
    }
  }

  lemma {:induction false} AppendMissingNoDup<T>(acc: seq<T>, xs: seq<T>)
    requires NoDup(acc)
    ensures NoDup(AppendMissing(acc, xs))
    decreases |xs|
  {
    if xs != [] {
      var next := if xs[0] in acc then acc else acc + [xs[0]];
      assert NoDup(next) by {
        if xs[0] !in acc {
          forall i, j | 0 <= i < j < |next| ensures next[i] != next[j] {
            if j == |acc| { assert next[i] == acc[i]; }
          }
        }
      }
      AppendMissingNoDup(next, xs[1..]);
    }
  }

  /** Appending only what is already present changes nothing. */
  lemma {:induction false} AppendMissingPresent<T>(acc: seq<T>, xs: seq<T>)
    requires forall x :: x in xs ==> x in acc
    ensures AppendMissing(acc, xs) == acc
    decreases |xs|
  {
    if xs != [] {
      AppendMissingPresent(acc, xs[1..]);
    }
  }

  /** Filtering a list extended by one element. */
  lemma WithoutSnoc<T(!new)>(xs: seq<T>, i: nat, drop: set<T>)
    requires i < |xs|
    ensures Without(xs[..i + 1], drop) == Without(xs[..i], drop) + (if xs[i] in drop then [] else [xs[i]])
  {
    assert xs[..i + 1] == xs[..i] + [xs[i]];
    WithoutAppend(xs[..i], [xs[i]], drop);
    assert Without([xs[i]], drop) == if xs[i] in drop then [] else [xs[i]];
  }
}
