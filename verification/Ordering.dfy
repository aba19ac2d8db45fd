/** Sorting with a comparison, as the display code does before it numbers anything, and the
    code-unit order on text. */
module Ordering {
  import opened Results

  /** `less` compares like a sort key: "not after" is total and transitive. */
  ghost predicate Comparison<T(!new)>(less: (T, T) -> bool) {
    && (forall x, y :: less(x, y) ==> !less(y, x))
    && (forall x, y, z :: !less(y, x) && !less(z, y) ==> !less(z, x))
  }

  ghost predicate Sorted<T>(s: seq<T>, less: (T, T) -> bool) {
    forall i, j :: 0 <= i < j < |s| ==> !less(s[j], s[i])
  }

  function Insert<T>(x: T, s: seq<T>, less: (T, T) -> bool): seq<T> {
    if s == [] then [x]
    else if less(s[0], x) then [s[0]] + Insert(x, s[1..], less)
    else [x] + s
  }

  /** Insertion sort; items that compare equal keep their order. */
  function Sort<T>(s: seq<T>, less: (T, T) -> bool): (t: seq<T>)
    ensures |t| == |s|
    ensures multiset(t) == multiset(s)
  {
    if s == [] then []
    else
      var t := Insert(s[0], Sort(s[1..], less), less);
      InsertKeeps(s[0], Sort(s[1..], less), less);
      assert s == [s[0]] + s[1..];
      t
  }

  lemma {:induction false} InsertKeeps<T>(x: T, s: seq<T>, less: (T, T) -> bool)
    ensures |Insert(x, s, less)| == |s| + 1
    ensures multiset(Insert(x, s, less)) == multiset{x} + multiset(s)
  {
    if s != [] {
      assert s == [s[0]] + s[1..];
      if less(s[0], x) {
        InsertKeeps(x, s[1..], less);
      }
    }
  }

  lemma {:induction false} InsertSorts<T(!new)>(x: T, s: seq<T>, less: (T, T) -> bool)
    requires Comparison(less) && Sorted(s, less)
    ensures Sorted(Insert(x, s, less), less)
  {
    if s != [] {
      var t := Insert(x, s, less);
      if less(s[0], x) {
        InsertSorts(x, s[1..], less);
        InsertKeeps(x, s[1..], less);
        forall j | 1 <= j < |t| ensures !less(t[j], t[0]) {
          assert t[j] in multiset(Insert(x, s[1..], less));
          assert t[j] == x || t[j] in s[1..];
        }
      } else {
        forall j | 1 <= j < |t| ensures !less(t[j], t[0]) {
          assert t[j] == s[j - 1];
          assert !less(s[j - 1], s[0]);
        }
      }
    }
  }

  lemma {:induction false} SortSorts<T(!new)>(s: seq<T>, less: (T, T) -> bool)
    requires Comparison(less)
    ensures Sorted(Sort(s, less), less)
  {
    if s != [] {
      SortSorts(s[1..], less);
      InsertSorts(s[0], Sort(s[1..], less), less);
    }
  }

  lemma SameItems<T>(s: seq<T>, t: seq<T>)
    requires multiset(s) == multiset(t)
    ensures forall x :: x in s <==> x in t
  {
    forall x ensures x in s <==> x in t {
      assert x in s <==> x in multiset(s);
      assert x in t <==> x in multiset(t);
    }
  }

  lemma {:induction false} SubsetSize<T>(a: set<T>, b: set<T>)
    requires a <= b
    ensures |a| <= |b|
  {
    if a != {} {
      var x :| x in a;
      SubsetSize(a - {x}, b - {x});
    }
  }

  ghost predicate Distinct<T>(s: seq<T>) {
    forall i, j :: 0 <= i < j < |s| ==> s[i] != s[j]
  }

  lemma {:induction false} DistinctCounts<T>(s: seq<T>)
    ensures Distinct(s) <==> forall x :: multiset(s)[x] <= 1
  {
    if s != [] {
      var init, last := s[..|s| - 1], s[|s| - 1];
      assert s == init + [last];
      DistinctCounts(init);
      if Distinct(s) {
        assert Distinct(init);
        assert last !in init;
      } else if Distinct(init) {
        var i, j :| 0 <= i < j < |s| && s[i] == s[j];
        assert last in init;
        assert multiset(s)[last] >= 2;
      } else {
        var x :| multiset(init)[x] > 1;
        assert multiset(s)[x] > 1;
      }
    }
  }

  lemma DistinctAppend<T>(s: seq<T>, x: T)
    ensures Distinct(s + [x]) <==> Distinct(s) && x !in s
  {
    var t := s + [x];
    if Distinct(t) {
      assert forall i :: 0 <= i < |s| ==> s[i] == t[i] && t[i] != t[|s|];
    }
  }

  /** The list with an item added at its end unless it is there. */
  function Including<T(==)>(s: seq<T>, x: T): seq<T> {
    if x in s then s else s + [x]
  }

  lemma IncludingKeeps<T>(s: seq<T>, x: T)
    requires Distinct(s)
    ensures Distinct(Including(s, x)) && x in Including(s, x) && forall y :: y in s ==> y in Including(s, x)
  {
  }

  /** A list has as many different items as it has places exactly when no item repeats. */
  lemma {:induction false} DistinctSize<T>(s: seq<T>)
    ensures |set x | x in s| <= |s|
    ensures |set x | x in s| == |s| <==> Distinct(s)
  {
    if s != [] {
      var init, last := s[..|s| - 1], s[|s| - 1];
      assert s == init + [last];
      DistinctSize(init);
      DistinctAppend(init, last);
      assert (set x | x in s) == (set x | x in init) + {last};
    }
  }

  ghost function Numbers(n: nat): (s: set<nat>)
    ensures |s| == n && forall i: nat :: i in s <==> i < n
  {
    if n == 0 then {} else Numbers(n - 1) + {n - 1}
  }

  /** A list of different numbers below `n` has at most `n` items. */
  lemma DistinctBelow(s: seq<nat>, n: nat)
    requires Distinct(s) && forall i :: 0 <= i < |s| ==> s[i] < n
    ensures |s| <= n
  {
    DistinctSize(s);
    SubsetSize((set x | x in s), Numbers(n));
  }

  lemma DistinctPermutes<T>(s: seq<T>, t: seq<T>)
    requires multiset(s) == multiset(t) && Distinct(s)
    ensures Distinct(t)
  {
    DistinctCounts(s);
    DistinctCounts(t);
  }

  // ----- strictly ascending lists that continue another list -----

  ghost predicate Transitive<T(!new)>(less: (T, T) -> bool) {
    forall x, y, z :: less(x, y) && less(y, z) ==> less(x, z)
  }

  /** Strictly ascending, and above the item they continue after. */
  ghost predicate Ascends<T>(s: seq<T>, after: Option<T>, less: (T, T) -> bool) {
    && (forall i, j {:trigger less(s[i], s[j])} :: 0 <= i < j < |s| ==> less(s[i], s[j]))
    && (after.Some? ==> forall i {:trigger less(after.value, s[i])} :: 0 <= i < |s| ==> less(after.value, s[i]))
  }

  function Latest<T>(s: seq<T>, after: Option<T>): Option<T> {
    if s == [] then after else Some(s[|s| - 1])
  }

  lemma AscendsAt<T>(s: seq<T>, after: Option<T>, less: (T, T) -> bool, i: nat, j: nat)
    requires Ascends(s, after, less) && i < j < |s|
    ensures less(s[i], s[j])
  {
  }

  lemma AscendsSlice<T>(s: seq<T>, after: Option<T>, less: (T, T) -> bool, n: nat, m: nat)
    requires n <= m <= |s| && Ascends(s, after, less)
    ensures Ascends(s[n..m], Latest(s[..n], after), less)
  {
  }

  /** One turn of a loop over a list: its items so far ascend, and so do they with the next. */
  lemma AscendsStep<T(!new)>(s: seq<T>, after: Option<T>, less: (T, T) -> bool, i: nat)
    requires Transitive(less) && i < |s| && Ascends(s[..i], after, less)
    ensures Ascends(s[..i + 1], after, less) <==> Latest(s[..i], after).None? || less(Latest(s[..i], after).value, s[i])
    ensures Latest(s[..i + 1], after) == Some(s[i])
    ensures Ascends(s, after, less) ==> Ascends(s[..i + 1], after, less)
  {
  }

  /** Leaving out an item keeps the rest ascending. */
  lemma AscendsWithout<T>(s: seq<T>, after: Option<T>, less: (T, T) -> bool, i: nat)
    requires i < |s| && Ascends(s, after, less)
    ensures Ascends(s[..i] + s[i + 1..], after, less)
  {
    var t := s[..i] + s[i + 1..];
    forall j, k | 0 <= j < k < |t| ensures less(t[j], t[k]) {
      assert t[j] == s[if j < i then j else j + 1] && t[k] == s[if k < i then k else k + 1];
    }
    forall k | 0 <= k < |t| && after.Some? ensures less(after.value, t[k]) {
      assert t[k] == s[if k < i then k else k + 1];
    }
  }

  lemma AscendsJoins<T(!new)>(s: seq<T>, t: seq<T>, after: Option<T>, less: (T, T) -> bool)
    requires Transitive(less) && Ascends(s, after, less) && Ascends(t, Latest(s, after), less)
    ensures Ascends(s + t, after, less)
  {
    forall i, j | 0 <= i < |s| && 0 <= j < |t| ensures less(s[i], t[j]) {
      if i < |s| - 1 {
        assert less(s[i], s[|s| - 1]) && less(s[|s| - 1], t[j]);
      }
    }
    if after.Some? && s != [] {
      forall j | 0 <= j < |t| ensures less(after.value, t[j]) {
        assert less(after.value, s[|s| - 1]) && less(s[|s| - 1], t[j]);
      }
    }
  }

  // ----- numbers and text -----

  predicate Below(x: nat, y: nat) { x < y }

  /** Text order by code units. */
  predicate TextLess(a: string, b: string) {
    if b == [] then false
    else if a == [] then true
    else a[0] < b[0] || (a[0] == b[0] && TextLess(a[1..], b[1..]))
  }

  lemma {:induction false} TextTotal(a: string, b: string)
    ensures TextLess(a, b) || TextLess(b, a) || a == b
    ensures !(TextLess(a, b) && TextLess(b, a))
    ensures !TextLess(a, a)
  {
    if a != [] && b != [] {
      TextTotal(a[1..], b[1..]);
      assert a == [a[0]] + a[1..] && b == [b[0]] + b[1..];
    }
    if a != [] {
      TextIrreflexive(a);
    }
  }

  lemma {:induction false} TextIrreflexive(a: string)
    ensures !TextLess(a, a)
  {
    if a != [] {
      TextIrreflexive(a[1..]);
    }
  }

  lemma {:induction false} TextTransitive(a: string, b: string, c: string)
    requires TextLess(a, b) && TextLess(b, c)
    ensures TextLess(a, c)
  {
    if a != [] && b != [] && c != [] && a[0] == b[0] == c[0] {
      TextTransitive(a[1..], b[1..], c[1..]);
    }
  }

  /** Text order is decided at the first place where the texts differ, or by the end of the shorter one. */
  lemma {:induction false} TextLessAt(a: string, b: string) returns (k: nat)
    ensures k <= |a| && k <= |b| && a[..k] == b[..k]
    ensures k < |a| && k < |b| ==> a[k] != b[k]
    ensures TextLess(a, b) <==> k < |b| && (k == |a| || a[k] < b[k])
  {
    if a == [] || b == [] || a[0] != b[0] {
      k := 0;
    } else {
      k := TextLessAt(a[1..], b[1..]);
      k := k + 1;
      assert a[..k] == [a[0]] + a[1..][..k - 1] && b[..k] == [b[0]] + b[1..][..k - 1];
    }
  }

  lemma TextCompares()
    ensures Comparison(TextLess)
  {
    forall x: string, y: string | TextLess(x, y) ensures !TextLess(y, x) {
      TextTotal(x, y);
    }
    forall x: string, y: string, z: string | !TextLess(y, x) && !TextLess(z, y) ensures !TextLess(z, x) {
      TextTotal(x, y);
      TextTotal(y, z);
      TextTotal(x, z);
      if TextLess(x, y) && TextLess(y, z) {
        TextTransitive(x, y, z);
      }
    }
  }

  /** A sorted list of distinct numbers is strictly ascending. */
  lemma AscendingNumbers(s: seq<nat>)
    requires Distinct(s)
    ensures multiset(Sort(s, Below)) == multiset(s)
    ensures forall i, j :: 0 <= i < j < |s| ==> Sort(s, Below)[i] < Sort(s, Below)[j]
  {
    SortSorts(s, Below);
    DistinctPermutes(s, Sort(s, Below));
  }
}
