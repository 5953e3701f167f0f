/**
 * An insertion-ordered, de-duplicating set held as a sequence: the behaviour of
 * Guava's ImmutableSet.Builder that the matcher accumulates positions into.
 * `Insert` is one `add`, `InsertAll` a run of them.
 */
module OrderedSets {
  import opened Sequences

  ghost predicate Distinct<T>(s: seq<T>)
  {
    forall i, j :: 0 <= i < j < |s| ==> s[i] != s[j]
  }

  /** Adds `x` at the end unless it is already present. */
  function Insert<T(==,!new)>(s: seq<T>, x: T): (r: seq<T>)
    ensures s <= r
    ensures forall y :: y in r <==> y in s || y == x
    ensures Distinct(s) ==> Distinct(r)
  {
    if x in s then s else s + [x]
  }

  /** Adds the elements of `xs` one after the other, first to last. */
  function InsertAll<T(==,!new)>(s: seq<T>, xs: seq<T>): (r: seq<T>)
    ensures s <= r
    ensures forall y :: y in r <==> y in s || y in xs
    ensures Distinct(s) ==> Distinct(r)
    decreases |xs|
  {
    if xs == [] then s
    else
      var front := xs[..|xs| - 1];
      assert xs == front + [xs[|xs| - 1]];
      Insert(InsertAll(s, front), xs[|xs| - 1])
  }

  /** Adding one more element after `xs` is one more `Insert`. */
  lemma InsertAllSnoc<T(!new)>(s: seq<T>, xs: seq<T>, x: T)
    ensures InsertAll(s, xs + [x]) == Insert(InsertAll(s, xs), x)
  {
    assert (xs + [x])[..|xs|] == xs;
  }

  /** Adding a single element is one `Insert`. */
  lemma InsertAllSingleton<T(!new)>(s: seq<T>, x: T)
    ensures InsertAll(s, [x]) == Insert(s, x)
  {
    assert [x][..0] == [];
  }

  /** Adding `xs` and then `ys` is the same as adding `xs + ys`. */
  lemma {:induction false} InsertAllConcat<T(!new)>(s: seq<T>, xs: seq<T>, ys: seq<T>)
    ensures InsertAll(InsertAll(s, xs), ys) == InsertAll(s, xs + ys)
    decreases |ys|
  {
    if ys == [] {
      assert xs + ys == xs;
    } else {
      var front := ys[..|ys| - 1];
      InsertAllConcat(s, xs, front);
      assert (xs + ys)[..|xs + ys| - 1] == xs + front;
      assert (xs + ys)[|xs + ys| - 1] == ys[|ys| - 1];
    }
  }

  /** Every two elements of `r` appear in `xs`, and in the order of their first occurrences there. */
  ghost predicate InFirstOccurrenceOrder<T>(r: seq<T>, xs: seq<T>)
  {
    forall i, j :: 0 <= i < j < |r| ==>
      r[i] in xs && r[j] in xs && FirstIndex(xs, r[i]) < FirstIndex(xs, r[j])
  }

  /**
   * Starting from nothing, the elements come out in the order of their first
   * occurrence in `xs`: an insertion-ordered set, not a sorted one.
   */
  lemma {:induction false} InsertAllFirstOccurrenceOrder<T(!new)>(xs: seq<T>)
    ensures InFirstOccurrenceOrder(InsertAll([], xs), xs)
    decreases |xs|
  {
    if xs != [] {
      var front, x := xs[..|xs| - 1], xs[|xs| - 1];
      assert xs == front + [x];
      InsertAllFirstOccurrenceOrder(front);
      var r0 := InsertAll([], front);
      var r := InsertAll([], xs);
      assert xs[..|xs| - 1] == front;
      assert r == Insert(r0, x);
      forall i, j | 0 <= i < j < |r|
        ensures FirstIndex(xs, r[i]) < FirstIndex(xs, r[j])
      {
        assert r0 <= r;
        assert r[i] == r0[i] && r0[i] in r0;
        FirstIndexOfPrefix(front, x, r[i]);
        if j < |r0| {
          assert r[j] == r0[j] && r0[j] in r0;
          FirstIndexOfPrefix(front, x, r[j]);
        } else {
          assert r[j] == x && x !in front;
          assert FirstIndex(xs, r[i]) < |front|;
          assert FirstIndex(xs, x) == |front|;
        }
      }
    }
  }
}
