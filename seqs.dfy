/** Option, shared by every module of the model. */
module Wrappers {
  datatype Option<+T> = None | Some(value: T)
}

/**
 * Sequence helpers for the ordered collections of the feeding widget. A
 * JavaScript `Map` iterates its keys in insertion order and deleting a key
 * keeps the order of the others; an array used as a set (`fedMaterials`)
 * keeps the order of first insertion.
 */
module Seqs {

  /** No element occurs twice. */
  predicate NoDup<T(==)>(s: seq<T>) {
    forall i, j :: 0 <= i < j < |s| ==> s[i] != s[j]
  }

  /** The elements of `s` that are not in `r`, in their original order:
      what remains of a Map's key order after deleting the keys `r`. */
  function Except<T(==)>(s: seq<T>, r: set<T>): seq<T>
    decreases |s|
  {
    if s == [] then []
    else if s[0] in r then Except(s[1..], r)
    else [s[0]] + Except(s[1..], r)
  }

  /** What remains is exactly the elements of `s` outside `r`, no longer
      than `s`, and free of duplicates when `s` is. */
  lemma {:induction false} ExceptSpec<T>(s: seq<T>, r: set<T>)
    ensures forall x :: x in Except(s, r) <==> x in s && x !in r
    ensures NoDup(s) ==> NoDup(Except(s, r))
    ensures |Except(s, r)| <= |s|
    decreases |s|
  {
    if s != [] {
      ExceptSpec(s[1..], r);
      assert forall x :: x in s <==> x == s[0] || x in s[1..];
      if NoDup(s) {
        assert NoDup(s[1..]) by {
          assert forall i :: 0 <= i < |s| - 1 ==> s[1..][i] == s[i + 1];
        }
        assert s[0] !in s[1..];
      }
    }
  }

  /** Deleting `a` and then `b` is deleting `a + b` at once. */
  lemma {:induction false} ExceptExcept<T>(s: seq<T>, a: set<T>, b: set<T>)
    ensures Except(Except(s, a), b) == Except(s, a + b)
    decreases |s|
  {
    if s != [] {
      ExceptExcept(s[1..], a, b);
      if s[0] !in a {
        assert Except(s, a) == [s[0]] + Except(s[1..], a);
        assert Except(s, a)[1..] == Except(s[1..], a);
      }
    }
  }

  /** Deletion keeps the order of what survives: deleting from two
      consecutive stretches deletes from each in place, and a single key is
      kept exactly when it is not deleted. Together these pin the result down
      to the survivors in their original order. */
  lemma {:induction false} ExceptAppend<T>(a: seq<T>, b: seq<T>, r: set<T>)
    ensures Except(a + b, r) == Except(a, r) + Except(b, r)
    ensures forall x :: Except([x], r) == if x in r then [] else [x]
    decreases |a|
  {
    if a == [] {
      assert a + b == b;
    } else {
      var rest := Except(a[1..] + b, r);
      calc {
        Except(a + b, r);
        { assert (a + b)[0] == a[0] && (a + b)[1..] == a[1..] + b; }
        (if a[0] in r then [] else [a[0]]) + rest;
        { ExceptAppend(a[1..], b, r); }
        (if a[0] in r then [] else [a[0]]) + (Except(a[1..], r) + Except(b, r));
        Except(a, r) + Except(b, r);
      }
    }
    forall x ensures Except([x], r) == if x in r then [] else [x] {
      assert [x][1..] == [];
    }
  }

  /** Deleting keys that do not occur changes nothing. */
  lemma {:induction false} ExceptAbsent<T>(s: seq<T>, r: set<T>)
    requires forall x :: x in s ==> x !in r
    ensures Except(s, r) == s
    decreases |s|
  {
    if s != [] {
      assert forall x :: x in s[1..] ==> x in s;
      ExceptAbsent(s[1..], r);
      assert s[0] !in r;
      assert Except(s, r) == [s[0]] + Except(s[1..], r);
      assert [s[0]] + s[1..] == s;
    }
  }

  /** Every suffix of a sequence without duplicates has none. */
  lemma NoDupSuffix<T>(s: seq<T>, i: nat)
    requires NoDup(s) && i <= |s|
    ensures NoDup(s[i..])
  {
    assert forall a :: 0 <= a < |s| - i ==> s[i..][a] == s[i + a];
  }

  /** Deleting the first key of a key order without duplicates leaves the
      rest of the order. */
  lemma ExceptFirst<T>(s: seq<T>)
    requires |s| > 0 && NoDup(s)
    ensures Except(s, {s[0]}) == s[1..]
  {
    assert forall x :: x in s[1..] ==> x != s[0] by {
      assert forall j :: 0 < j < |s| ==> s[j] != s[0];
    }
    ExceptAbsent(s[1..], {s[0]});
  }

  /** `if (!xs.includes(x)) xs.push(x)`: idempotent insertion at the end. */
  function AppendAbsent<T(==)>(s: seq<T>, x: T): seq<T> {
    if x in s then s else s + [x]
  }

  /** Idempotent insertion keeps a sequence free of duplicates. */
  lemma AppendAbsentNoDup<T>(s: seq<T>, x: T)
    requires NoDup(s)
    ensures NoDup(AppendAbsent(s, x))
  {
  }

  /** Idempotent insertion of every element of `xs`, in the order of `xs`. */
  function AppendAllAbsent<T(==)>(s: seq<T>, xs: seq<T>): seq<T>
    decreases |xs|
  {
    if xs == [] then s
    else AppendAbsent(AppendAllAbsent(s, xs[..|xs| - 1]), xs[|xs| - 1])
  }

  /** Moving the head of `rest` to the end of `done` keeps their
      concatenation. */
  lemma MoveHead<T>(done: seq<T>, rest: seq<T>)
    requires rest != []
    ensures done + rest == (done + [rest[0]]) + rest[1..]
  {
    assert rest == [rest[0]] + rest[1..];
  }

  /** One more element of `xs` is one more idempotent insertion. */
  lemma AppendAllAbsentSnoc<T>(s: seq<T>, xs: seq<T>, x: T)
    ensures AppendAllAbsent(s, xs + [x]) == AppendAbsent(AppendAllAbsent(s, xs), x)
  {
    assert (xs + [x])[..|xs|] == xs;
  }

  /** Inserting the elements of a list without duplicates one by one, each
      unless present, appends exactly the ones not in `s`, in their order. */
  lemma {:induction false} AppendAllAbsentIsExcept<T>(s: seq<T>, xs: seq<T>)
    requires NoDup(xs)
    ensures AppendAllAbsent(s, xs) == s + Except(xs, set y | y in s)
    decreases |xs|
  {
    if xs != [] {
      var init, x := xs[..|xs| - 1], xs[|xs| - 1];
      var present := set y | y in s;
      assert xs == init + [x];
      assert NoDup(init);
      assert x !in init;
      AppendAllAbsentIsExcept(s, init);
      ExceptSpec(init, present);
      ExceptAppend(init, [x], present);
      if x in s {
        assert x in present;
      } else {
        assert x !in s + Except(init, present);
      }
    }
  }

  /** The result holds exactly the elements of `s` and `xs`, starts with `s`,
      and has no duplicates when `s` has none. */
  lemma {:induction false} AppendAllAbsentSpec<T>(s: seq<T>, xs: seq<T>)
    ensures forall y :: y in AppendAllAbsent(s, xs) <==> y in s || y in xs
    ensures |s| <= |AppendAllAbsent(s, xs)| && AppendAllAbsent(s, xs)[..|s|] == s
    ensures NoDup(s) ==> NoDup(AppendAllAbsent(s, xs))
    decreases |xs|
  {
    if xs != [] {
      var init := xs[..|xs| - 1];
      AppendAllAbsentSpec(s, init);
      var m := AppendAllAbsent(s, init);
      assert xs == init + [xs[|xs| - 1]];
      assert forall y :: y in xs <==> y in init || y == xs[|xs| - 1];
      assert AppendAllAbsent(s, xs)[..|m|] == m;
      assert m[..|s|] == s;
    }
  }
}
