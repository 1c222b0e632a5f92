/** Sorting of adapter names, as `sort.Strings` orders them, and why a sorted list forgets the input order. */
module SortedNames {
  predicate LessEq(a: string, b: string) {
    if a == "" then true
    else if b == "" then false
    else if a[0] == b[0] then LessEq(a[1..], b[1..])
    else a[0] < b[0]
  }

  function Insert(x: string, s: seq<string>): seq<string> {
    if s == [] then [x]
    else if LessEq(x, s[0]) then [x] + s
    else [s[0]] + Insert(x, s[1..])
  }

  function SortStrings(s: seq<string>): seq<string> {
    if s == [] then [] else Insert(s[0], SortStrings(s[1..]))
  }

  function Filter(s: seq<string>, keep: string -> bool): seq<string> {
    if s == [] then []
    else
      var n := |s| - 1;
      Filter(s[..n], keep) + if keep(s[n]) then [s[n]] else []
  }

  ghost predicate IsSorted(s: seq<string>) {
    forall i, j :: 0 <= i < j < |s| ==> LessEq(s[i], s[j])
  }

  lemma {:induction false} Total(a: string, b: string)
    ensures LessEq(a, b) || LessEq(b, a)
  {
    if a != "" && b != "" && a[0] == b[0] { Total(a[1..], b[1..]); }
  }

  lemma {:induction false} Antisymmetric(a: string, b: string)
    requires LessEq(a, b) && LessEq(b, a)
    ensures a == b
  {
    if a != "" && b != "" {
      Antisymmetric(a[1..], b[1..]);
      assert a == [a[0]] + a[1..] && b == [b[0]] + b[1..];
    }
  }

  lemma {:induction false} Transitive(a: string, b: string, c: string)
    requires LessEq(a, b) && LessEq(b, c)
    ensures LessEq(a, c)
  {
    if a != "" && b != "" && c != "" && a[0] == b[0] == c[0] { Transitive(a[1..], b[1..], c[1..]); }
  }

  lemma {:induction false} InsertContents(x: string, s: seq<string>)
    ensures multiset(Insert(x, s)) == multiset{x} + multiset(s)
  {
    if s != [] && !LessEq(x, s[0]) {
      InsertContents(x, s[1..]);
      assert s == [s[0]] + s[1..];
    }
  }

  lemma {:induction false} InsertSorted(x: string, s: seq<string>)
    requires IsSorted(s)
    ensures IsSorted(Insert(x, s))
  {
    if s != [] {
      if LessEq(x, s[0]) {
        forall j | 0 <= j < |s| ensures LessEq(x, s[j]) {
          if j > 0 { Transitive(x, s[0], s[j]); }
        }
      } else {
        Total(x, s[0]);
        InsertSorted(x, s[1..]);
        InsertContents(x, s[1..]);
        var r := Insert(x, s[1..]);
        forall j | 0 <= j < |r| ensures LessEq(s[0], r[j]) {
          assert r[j] in multiset(r);
          if r[j] != x {
            assert r[j] in s[1..];
          }
        }
      }
    }
  }

  lemma {:induction false} SortIsSorted(s: seq<string>)
    ensures IsSorted(SortStrings(s)) && multiset(SortStrings(s)) == multiset(s)
  {
    if s != [] {
      SortIsSorted(s[1..]);
      InsertSorted(s[0], SortStrings(s[1..]));
      InsertContents(s[0], SortStrings(s[1..]));
      assert s == [s[0]] + s[1..];
    }
  }

  /** The first of a sorted list is the least of its contents. */
  lemma FirstIsLeast(a: seq<string>, x: string)
    requires IsSorted(a) && a != [] && x in a
    ensures LessEq(a[0], x)
  {
    Total(x, x);
    var i :| 0 <= i < |a| && a[i] == x;
  }

  lemma TailContents(a: seq<string>)
    requires a != []
    ensures multiset(a[1..]) == multiset(a) - multiset{a[0]}
  {
    assert a == [a[0]] + a[1..];
  }

  /** Two sorted lists with the same contents are the same list. */
  lemma SameFirst(a: seq<string>, b: seq<string>)
    requires IsSorted(a) && IsSorted(b) && multiset(a) == multiset(b) && a != []
    ensures b != [] && a[0] == b[0]
  {
    assert |multiset(a)| == |a| && |multiset(b)| == |b|;
    assert a[0] in multiset(b) && b[0] in multiset(a);
    FirstIsLeast(a, b[0]);
    FirstIsLeast(b, a[0]);
    Antisymmetric(a[0], b[0]);
  }

  lemma {:induction false} SortedUnique(a: seq<string>, b: seq<string>)
    requires IsSorted(a) && IsSorted(b) && multiset(a) == multiset(b)
    ensures a == b
  {
    if a != [] {
      SameFirst(a, b);
      TailContents(a);
      TailContents(b);
      SortedUnique(a[1..], b[1..]);
      assert a == [a[0]] + a[1..] && b == [b[0]] + b[1..];
    } else {
      assert |multiset(b)| == |b|;
    }
  }

  lemma OneMoreCounted(s: seq<string>, x: string)
    ensures multiset(s + [x]) == multiset(s) + multiset{x}
  {
  }

  lemma {:induction false} FilterCounts(s: seq<string>, keep: string -> bool, x: string)
    ensures multiset(Filter(s, keep))[x] == if keep(x) then multiset(s)[x] else 0
  {
    if s != [] {
      var n := |s| - 1;
      FilterCounts(s[..n], keep, x);
      OneMoreCounted(s[..n], s[n]);
      OneMoreCounted(Filter(s[..n], keep), s[n]);
      assert s == s[..n] + [s[n]];
      assert !keep(s[n]) ==> Filter(s, keep) == Filter(s[..n], keep);
    }
  }

  /** Filtering then sorting depends only on which names there are and how often. */
  lemma SortedFilterIgnoresOrder(s: seq<string>, t: seq<string>, keep: string -> bool)
    requires multiset(s) == multiset(t)
    ensures SortStrings(Filter(s, keep)) == SortStrings(Filter(t, keep))
  {
    var a, b := Filter(s, keep), Filter(t, keep);
    forall x ensures multiset(a)[x] == multiset(b)[x] {
      FilterCounts(s, keep, x);
      FilterCounts(t, keep, x);
    }
    assert multiset(a) == multiset(b);
    SortIsSorted(a);
    SortIsSorted(b);
    SortedUnique(SortStrings(a), SortStrings(b));
  }
}
