/**
 * The department tally behind the "department with most sites" query, as
 * pure definitions over the sequence of registered departments.
 *
 * These functions are the reference the imperative query in module
 * Registry is proved against: how often a department occurs, the distinct
 * departments in order of first registration, their counts, and what it
 * means for a department to be the one the query reports.
 */
module Tally {

  /** The number of occurrences of `x` in `s`. */
  function Count(s: seq<string>, x: string): (c: nat)
    ensures c <= |s|
  {
    if s == [] then 0
    else Count(s[..|s| - 1], x) + (if s[|s| - 1] == x then 1 else 0)
  }

  /** An element has a zero count exactly when it does not occur. */
  lemma {:induction false} CountZero(s: seq<string>, x: string)
    ensures Count(s, x) == 0 <==> x !in s
  {
    if s != [] {
      var prefix := s[..|s| - 1];
      assert s == prefix + [s[|s| - 1]];
      CountZero(prefix, x);
    }
  }

  /** Registering one more element adds one occurrence of it and leaves
      every other count alone. */
  lemma CountAppend(s: seq<string>, y: string, x: string)
    ensures Count(s + [y], x) == Count(s, x) + (if y == x then 1 else 0)
  {
    assert (s + [y])[..|s|] == s;
  }

  predicate NoDuplicates(s: seq<string>) {
    forall i, j :: 0 <= i < j < |s| ==> s[i] != s[j]
  }

  /** The distinct elements of `s`, each listed once, in order of first
      occurrence: scanning left to right, an element is appended the first
      time it is met. */
  function Distinct(s: seq<string>): (u: seq<string>)
    ensures |u| <= |s|
  {
    if s == [] then []
    else
      var u := Distinct(s[..|s| - 1]);
      if s[|s| - 1] in u then u else u + [s[|s| - 1]]
  }

  /** The distinct list holds exactly the elements of `s`. */
  lemma {:induction false} DistinctContains(s: seq<string>, x: string)
    ensures x in Distinct(s) <==> x in s
  {
    if s != [] {
      var prefix := s[..|s| - 1];
      assert s == prefix + [s[|s| - 1]];
      DistinctContains(prefix, x);
    }
  }

  /** The distinct list holds each element once. */
  lemma {:induction false} DistinctNoDuplicates(s: seq<string>)
    ensures NoDuplicates(Distinct(s))
  {
    if s != [] {
      DistinctNoDuplicates(s[..|s| - 1]);
    }
  }

  lemma DistinctElements(s: seq<string>)
    ensures forall x :: x in Distinct(s) <==> x in s
    ensures NoDuplicates(Distinct(s))
  {
    forall x {
      DistinctContains(s, x);
    }
    DistinctNoDuplicates(s);
  }

  /** One step of the first-occurrence scan. */
  lemma DistinctAppend(s: seq<string>, y: string)
    ensures Distinct(s + [y]) == if y in Distinct(s) then Distinct(s) else Distinct(s) + [y]
  {
    assert (s + [y])[..|s|] == s;
  }

  /** The position where `x` first occurs in `s`. */
  function FirstIndex(s: seq<string>, x: string): (i: nat)
    requires x in s
    ensures i < |s| && s[i] == x
    ensures forall j :: 0 <= j < i ==> s[j] != x
  {
    if s[0] == x then 0 else 1 + FirstIndex(s[1..], x)
  }

  /** Appending to `s` does not move the first occurrence of anything
      already in `s`. */
  lemma FirstIndexAppend(s: seq<string>, y: string, x: string)
    requires x in s
    ensures FirstIndex(s + [y], x) == FirstIndex(s, x)
  {
    var i, k := FirstIndex(s + [y], x), FirstIndex(s, x);
    assert (s + [y])[k] == x;
    assert s[i] == x;
  }

  /** The distinct elements are listed in order of first occurrence: an
      element listed earlier was registered for the first time earlier. */
  lemma {:induction false} DistinctInFirstOccurrenceOrder(s: seq<string>, j: nat, k: nat)
    requires j < k < |Distinct(s)|
    ensures Distinct(s)[j] in s && Distinct(s)[k] in s
    ensures FirstIndex(s, Distinct(s)[j]) < FirstIndex(s, Distinct(s)[k])
  {
    var prefix, last := s[..|s| - 1], s[|s| - 1];
    var u := Distinct(prefix);
    assert s == prefix + [last];
    DistinctAppend(prefix, last);
    assert u[j] == Distinct(s)[j];
    DistinctContains(prefix, u[j]);
    FirstIndexAppend(prefix, last, u[j]);
    if k < |u| {
      DistinctInFirstOccurrenceOrder(prefix, j, k);
      DistinctContains(prefix, u[k]);
      FirstIndexAppend(prefix, last, u[k]);
    } else {
      DistinctContains(prefix, last);
      assert s[|prefix|] == last;
    }
  }

  /** The count of each listed element of `keys` in `s`, position by
      position. */
  function CountsOf(s: seq<string>, keys: seq<string>): seq<int> {
    seq(|keys|, j => if 0 <= j < |keys| then Count(s, keys[j]) else 0)
  }

  /** Registering an element already listed among distinct `keys` bumps
      its count, at its own position, and no other. */
  lemma CountsOfBump(s: seq<string>, y: string, keys: seq<string>, j: nat)
    requires NoDuplicates(keys) && j < |keys| && keys[j] == y
    ensures CountsOf(s + [y], keys) == CountsOf(s, keys)[j := CountsOf(s, keys)[j] + 1]
  {
    var after, before := CountsOf(s + [y], keys), CountsOf(s, keys);
    var bumped := before[j := before[j] + 1];
    forall t | 0 <= t < |keys|
      ensures after[t] == bumped[t]
    {
      CountAppend(s, y, keys[t]);
      if t != j {
        assert keys[t] != y;
      }
    }
  }

  /** Registering an element never seen before leaves the existing counts
      alone and lists it with count 1. */
  lemma CountsOfNew(s: seq<string>, y: string, keys: seq<string>)
    requires y !in s && y !in keys
    ensures CountsOf(s + [y], keys + [y]) == CountsOf(s, keys) + [1]
  {
    var after, before := CountsOf(s + [y], keys + [y]), CountsOf(s, keys) + [1];
    CountZero(s, y);
    forall t | 0 <= t < |keys| + 1
      ensures after[t] == before[t]
    {
      var key := (keys + [y])[t];
      CountAppend(s, y, key);
      if t < |keys| {
        assert key == keys[t] != y;
      }
    }
  }

  /** One step of the tally scan, for a department already listed: the
      list stays as it is and only that department's count goes up. */
  lemma TallyStepListed(s: seq<string>, y: string, u: seq<string>, j: nat)
    requires u == Distinct(s) && y in u && j == FirstIndex(u, y)
    ensures Distinct(s + [y]) == u
    ensures CountsOf(s + [y], u) == CountsOf(s, u)[j := CountsOf(s, u)[j] + 1]
  {
    DistinctAppend(s, y);
    DistinctNoDuplicates(s);
    CountsOfBump(s, y, u, j);
  }

  /** One step of the tally scan, for a department not yet listed: it is
      appended to the list with count 1. */
  lemma TallyStepNew(s: seq<string>, y: string)
    requires y !in Distinct(s)
    ensures Distinct(s + [y]) == Distinct(s) + [y]
    ensures CountsOf(s + [y], Distinct(s) + [y]) == CountsOf(s, Distinct(s)) + [1]
  {
    DistinctAppend(s, y);
    DistinctContains(s, y);
    CountsOfNew(s, y, Distinct(s));
  }

  /** One step of the tally scan on the listed departments and their
      counts: a department already listed has the count at its first listing
      bumped; any other is appended with count 1. */
  function AddToTally(listed: seq<string>, tally: seq<int>, y: string): (seq<string>, seq<int>)
    requires |tally| == |listed|
  {
    if y in listed then
      var j := FirstIndex(listed, y);
      (listed, tally[j := tally[j] + 1])
    else (listed + [y], tally + [1])
  }

  /** The scan step keeps the tally exact: applied to the tally of `seen`,
      it gives the tally of `seen` followed by `y`. */
  lemma TallyExtend(seen: seq<string>, y: string, listed: seq<string>, tally: seq<int>,
                    listed': seq<string>, tally': seq<int>)
    requires listed == Distinct(seen) && tally == CountsOf(seen, listed)
    requires (listed', tally') == AddToTally(listed, tally, y)
    ensures listed' == Distinct(seen + [y]) && tally' == CountsOf(seen + [y], listed')
  {
    if y in listed {
      TallyStepListed(seen, y, listed, FirstIndex(listed, y));
    } else {
      TallyStepNew(seen, y);
    }
  }

  function Sum(xs: seq<int>): int {
    if xs == [] then 0 else Sum(xs[..|xs| - 1]) + xs[|xs| - 1]
  }

  /** Registering one more element raises the summed counts of `keys` by
      the number of times the element is listed among them. */
  lemma {:induction false} SumCountsAppend(s: seq<string>, y: string, keys: seq<string>)
    ensures Sum(CountsOf(s + [y], keys)) == Sum(CountsOf(s, keys)) + Count(keys, y)
  {
    if keys != [] {
      var init, x := keys[..|keys| - 1], keys[|keys| - 1];
      var after, before := CountsOf(s + [y], keys), CountsOf(s, keys);
      SumCountsAppend(s, y, init);
      CountAppend(s, y, x);
      assert after[..|init|] == CountsOf(s + [y], init);
      assert before[..|init|] == CountsOf(s, init);
      assert Sum(after) == Sum(CountsOf(s + [y], init)) + Count(s + [y], x);
      assert Sum(before) == Sum(CountsOf(s, init)) + Count(s, x);
    }
  }

  /** Every element of `s` is listed exactly once in the distinct list,
      and nothing else is listed. */
  lemma {:induction false} CountInDistinct(s: seq<string>, x: string)
    ensures Count(Distinct(s), x) == if x in s then 1 else 0
  {
    if s != [] {
      var prefix, last := s[..|s| - 1], s[|s| - 1];
      assert s == prefix + [last];
      CountInDistinct(prefix, x);
      DistinctContains(prefix, last);
      DistinctAppend(prefix, last);
      CountAppend(Distinct(prefix), last, x);
    }
  }

  /** The tally accounts for every registration exactly once: the counts of
      the distinct elements add up to the length of the sequence. */
  lemma {:induction false} TallyTotal(s: seq<string>)
    ensures Sum(CountsOf(s, Distinct(s))) == |s|
  {
    if s != [] {
      var prefix, last := s[..|s| - 1], s[|s| - 1];
      var u := Distinct(prefix);
      assert s == prefix + [last];
      TallyTotal(prefix);
      DistinctAppend(prefix, last);
      DistinctContains(prefix, last);
      CountInDistinct(prefix, last);
      SumCountsAppend(prefix, last, u);
      if last !in u {
        var c := CountsOf(s, u + [last]);
        assert c[..|u|] == CountsOf(s, u);
        assert Sum(c) == Sum(CountsOf(s, u)) + Count(s, last);
        CountAppend(prefix, last, last);
        CountZero(prefix, last);
      }
    }
  }

  /** `d` with `m` sites is what the query reports for the departments `s`:
      `d` was registered, `m` is its count, no department has more, and
      every department registered for the first time before `d` has
      strictly fewer (ties go to the department seen first). */
  ghost predicate IsTop(s: seq<string>, d: string, m: int) {
    d in s && m == Count(s, d) &&
    (forall e :: e in s ==> Count(s, e) <= m) &&
    (forall i :: 0 <= i < FirstIndex(s, d) ==> Count(s, s[i]) < m)
  }

  /** A reported department has at least one site and no more than there
      are registrations. */
  lemma TopBounds(s: seq<string>, d: string, m: int)
    requires IsTop(s, d, m)
    ensures 1 <= m <= |s|
  {
    CountZero(s, d);
  }

  /** At most one department and count can be the report. */
  lemma TopUnique(s: seq<string>, d1: string, m1: int, d2: string, m2: int)
    requires IsTop(s, d1, m1) && IsTop(s, d2, m2)
    ensures d1 == d2 && m1 == m2
  {
    var i1, i2 := FirstIndex(s, d1), FirstIndex(s, d2);
    assert Count(s, s[i1]) == m1 == m2 == Count(s, s[i2]);
  }

  /** The argmax scan over the tally picks the report: position `k` of the
      distinct list whose count no entry exceeds and every earlier entry
      falls short of is the top department. */
  lemma TopFromTally(s: seq<string>, k: nat)
    requires k < |Distinct(s)|
    requires forall j :: 0 <= j < |Distinct(s)| ==> Count(s, Distinct(s)[j]) <= Count(s, Distinct(s)[k])
    requires forall j :: 0 <= j < k ==> Count(s, Distinct(s)[j]) < Count(s, Distinct(s)[k])
    ensures IsTop(s, Distinct(s)[k], Count(s, Distinct(s)[k]))
  {
    var u, d := Distinct(s), Distinct(s)[k];
    var m := Count(s, d);
    DistinctElements(s);
    forall e | e in s
      ensures Count(s, e) <= m
    {
      var j :| 0 <= j < |u| && u[j] == e;
    }
    forall i | 0 <= i < FirstIndex(s, d)
      ensures Count(s, s[i]) < m
    {
      var e := s[i];
      assert e in u;
      var j :| 0 <= j < |u| && u[j] == e;
      assert FirstIndex(s, e) <= i;
      if j > k {
        DistinctInFirstOccurrenceOrder(s, k, j);
      }
    }
  }

  /** Departments Valle, Cauca, Valle: Valle is reported, with 2 sites. */
  lemma TopExampleMajority()
    ensures IsTop(["Valle", "Cauca", "Valle"], "Valle", 2)
  {
    var s := ["Valle", "Cauca", "Valle"];
    assert s[..2] == ["Valle", "Cauca"] && s[..2][..1] == ["Valle"];
    assert Count(s, "Valle") == 2;
    assert Count(s, "Cauca") == 1;
  }

  /** Departments A, B with one site each: the tie goes to A, seen first. */
  lemma TopExampleTie(d: string, m: int)
    requires IsTop(["A", "B"], d, m)
    ensures d == "A" && m == 1
  {
    var s := ["A", "B"];
    assert s[..1] == ["A"];
    assert Count(s, "A") == 1 && Count(s, "B") == 1;
    assert FirstIndex(s, "B") == 1;
  }
}
