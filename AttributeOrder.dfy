/**
 * The in-place sort of an attribute list by name that `checkDuplicates`
 * performs (SemanticChecking.ts:40-55).
 *
 * The comparator orders names as JavaScript's `<` on strings does:
 * lexicographically, character by character, a proper prefix first. The sort
 * is taken to be stable, as Array.prototype.sort is from ES2019 on, so the
 * result is fully determined: `SortByName`, a stable insertion sort,
 * specifies it, and `SortInPlace` performs it on an array.
 */
module AttributeOrder {
  import opened Tree

  /** JavaScript's `a < b` on strings. */
  predicate LexLess(a: string, b: string)
    decreases |a|
  {
    if |a| == 0 then |b| > 0
    else if |b| == 0 then false
    else if a[0] != b[0] then a[0] < b[0]
    else LexLess(a[1..], b[1..])
  }

  lemma {:induction false} LexIrreflexive(a: string)
    ensures !LexLess(a, a)
    decreases |a|
  {
    if |a| > 0 {
      LexIrreflexive(a[1..]);
    }
  }

  lemma {:induction false} LexTransitive(a: string, b: string, c: string)
    requires LexLess(a, b) && LexLess(b, c)
    ensures LexLess(a, c)
    decreases |a|
  {
    if |a| > 0 && |b| > 0 && |c| > 0 && a[0] == b[0] && b[0] == c[0] {
      LexTransitive(a[1..], b[1..], c[1..]);
    }
  }

  /** Two different names are ordered one way or the other. */
  lemma {:induction false} LexTotal(a: string, b: string)
    requires a != b
    ensures LexLess(a, b) || LexLess(b, a)
    decreases |a|
  {
    if |a| > 0 && |b| > 0 && a[0] == b[0] {
      assert a == [a[0]] + a[1..] && b == [b[0]] + b[1..];
      LexTotal(a[1..], b[1..]);
    }
  }

  /** "Not after": the comparator does not put `b` before `a`. */
  predicate NameLe(a: Attr, b: Attr)
  {
    !LexLess(b.name, a.name)
  }

  lemma NameLeTransitive(a: Attr, b: Attr, c: Attr)
    requires NameLe(a, b) && NameLe(b, c)
    ensures NameLe(a, c)
  {
    if LexLess(c.name, a.name) {
      if a.name == b.name {
      } else {
        LexTotal(a.name, b.name);
        LexTransitive(c.name, a.name, b.name);
      }
    }
  }

  predicate Sorted(s: seq<Attr>)
  {
    forall i, j :: 0 <= i < j < |s| ==> NameLe(s[i], s[j])
  }

  /** Insert `x` after every attribute whose name does not sort after it. */
  function Insert(x: Attr, t: seq<Attr>): seq<Attr>
    decreases |t|
  {
    if t == [] then [x]
    else if LexLess(x.name, t[0].name) then [x] + t
    else [t[0]] + Insert(x, t[1..])
  }

  /** Stable insertion sort by name. */
  function SortByName(s: seq<Attr>): seq<Attr>
    decreases |s|
  {
    if s == [] then [] else Insert(s[|s| - 1], SortByName(s[..|s| - 1]))
  }

  /** Where Insert puts `x`: after a prefix not sorting after it, before the rest. */
  lemma {:induction false} InsertAt(x: Attr, t: seq<Attr>, j: nat)
    requires j <= |t|
    requires forall k :: 0 <= k < j ==> !LexLess(x.name, t[k].name)
    requires forall k :: j <= k < |t| ==> LexLess(x.name, t[k].name)
    ensures Insert(x, t) == t[..j] + [x] + t[j..]
    decreases |t|
  {
    if t == [] {
    } else if j == 0 {
      assert LexLess(x.name, t[0].name);
    } else {
      InsertAt(x, t[1..], j - 1);
      assert t[1..][..j - 1] == t[1..j];
      assert t[1..][j - 1..] == t[j..];
      assert t[..j] == [t[0]] + t[1..j];
    }
  }

  lemma {:induction false} InsertSorted(x: Attr, t: seq<Attr>)
    requires Sorted(t)
    ensures Sorted(Insert(x, t))
    ensures |Insert(x, t)| == |t| + 1
    decreases |t|
  {
    if t != [] && !LexLess(x.name, t[0].name) {
      assert Sorted(t[1..]) by {
        forall i, j | 0 <= i < j < |t[1..]| ensures NameLe(t[1..][i], t[1..][j]) {
          assert t[1..][i] == t[i + 1] && t[1..][j] == t[j + 1];
        }
      }
      InsertSorted(x, t[1..]);
      InsertAbove(t[0], x, t[1..]);
      ConsSorted(t[0], Insert(x, t[1..]));
    } else if t != [] {
      assert NameLe(x, t[0]) by { LexAsymmetric(x.name, t[0].name); }
      forall k | 0 <= k < |t| ensures NameLe(x, t[k]) {
        if k > 0 {
          NameLeTransitive(x, t[0], t[k]);
        }
      }
      ConsSorted(x, t);
    }
  }

  /** An attribute not after anything of a sorted list can go in front of it. */
  lemma ConsSorted(y: Attr, r: seq<Attr>)
    requires Sorted(r)
    requires forall k :: 0 <= k < |r| ==> NameLe(y, r[k])
    ensures Sorted([y] + r)
  {
    forall i, j | 0 <= i < j < |[y] + r| ensures NameLe(([y] + r)[i], ([y] + r)[j]) {
      assert ([y] + r)[j] == r[j - 1];
      if i > 0 {
        assert ([y] + r)[i] == r[i - 1];
      }
    }
  }

  /** Inserting keeps a lower bound that holds for the list and the new attribute. */
  lemma {:induction false} InsertAbove(y: Attr, x: Attr, t: seq<Attr>)
    requires NameLe(y, x)
    requires forall k :: 0 <= k < |t| ==> NameLe(y, t[k])
    ensures forall k :: 0 <= k < |Insert(x, t)| ==> NameLe(y, Insert(x, t)[k])
    decreases |t|
  {
    if t != [] && !LexLess(x.name, t[0].name) {
      InsertAbove(y, x, t[1..]);
      var r := Insert(x, t[1..]);
      assert Insert(x, t) == [t[0]] + r;
      forall k | 0 <= k < |r| + 1 ensures NameLe(y, ([t[0]] + r)[k]) {
        if k > 0 {
          assert ([t[0]] + r)[k] == r[k - 1];
        }
      }
    } else if t != [] {
      forall k | 0 <= k < |t| + 1 ensures NameLe(y, ([x] + t)[k]) {
        if k > 0 {
          assert ([x] + t)[k] == t[k - 1];
        }
      }
    }
  }

  lemma LexAsymmetric(a: string, b: string)
    requires LexLess(a, b)
    ensures !LexLess(b, a)
  {
    if LexLess(b, a) {
      LexTransitive(a, b, a);
      LexIrreflexive(a);
    }
  }

  lemma {:induction false} InsertMultiset(x: Attr, t: seq<Attr>)
    ensures multiset(Insert(x, t)) == multiset(t) + multiset{x}
    decreases |t|
  {
    if t != [] && !LexLess(x.name, t[0].name) {
      InsertMultiset(x, t[1..]);
      assert t == [t[0]] + t[1..];
    }
  }

  /** The sort's result is ordered by name. */
  lemma {:induction false} SortSorted(s: seq<Attr>)
    ensures Sorted(SortByName(s))
    ensures |SortByName(s)| == |s|
    decreases |s|
  {
    if s != [] {
      SortSorted(s[..|s| - 1]);
      InsertSorted(s[|s| - 1], SortByName(s[..|s| - 1]));
    }
  }

  /** The sort's result is a permutation of its input. */
  lemma {:induction false} SortPermutes(s: seq<Attr>)
    ensures multiset(SortByName(s)) == multiset(s)
    decreases |s|
  {
    if s != [] {
      SortPermutes(s[..|s| - 1]);
      InsertMultiset(s[|s| - 1], SortByName(s[..|s| - 1]));
      assert s == s[..|s| - 1] + [s[|s| - 1]];
    }
  }

  /** Sorting a prefix one element longer inserts that element. */
  lemma SortStep(s: seq<Attr>, i: nat)
    requires i < |s|
    ensures SortByName(s[..i + 1]) == Insert(s[i], SortByName(s[..i]))
  {
    assert s[..i + 1][..i] == s[..i];
  }

  /**
   * `attribs.sort(...)` (SemanticChecking.ts:43-47): an insertion sort in
   * place, growing a sorted prefix one attribute at a time.
   */
  method SortInPlace(a: array<Attr>)
    modifies a
    ensures a[..] == SortByName(old(a[..]))
    ensures Sorted(a[..]) && multiset(a[..]) == multiset(old(a[..]))
  {
    ghost var orig := a[..];
    if a.Length == 0 {
      assert orig == [];
      return;
    }
    var i := 1;
    assert orig[..1] == [orig[0]];
    assert SortByName(orig[..1]) == [orig[0]];
    while i < a.Length
      invariant 1 <= i <= a.Length
      invariant a[..i] == SortByName(orig[..i])
      invariant a[i..] == orig[i..]
    {
      SortSorted(orig[..i]);
      assert a[i] == orig[i];
      InsertNext(a, i);
      SortStep(orig, i);
      assert a[i + 1..] == orig[i + 1..];
      i := i + 1;
    }
    assert a[..] == a[..a.Length] && orig == orig[..a.Length];
    SortSorted(orig);
    SortPermutes(orig);
  }

  /** Moves `a[i]` into its place in the sorted prefix `a[..i]`. */
  method InsertNext(a: array<Attr>, i: nat)
    requires i < a.Length && Sorted(a[..i])
    modifies a
    ensures a[..i + 1] == Insert(old(a[i]), old(a[..i]))
    ensures a[i + 1..] == old(a[i + 1..])
  {
    ghost var orig := a[..];
    ghost var sorted := a[..i];
    var x := a[i];
    var j := ShiftAfter(a, i, x);
    a[j] := x;
    PrefixNotAfter(x, sorted, j);
    InsertAt(x, sorted, j);
    Shifted(a[..i + 1], sorted, x, j);
    assert a[i + 1..] == orig[i + 1..];
  }

  /**
   * The loop of the insertion: moves every attribute of `a[..i]` whose name
   * sorts after `x` one place up, from the end, and returns the gap left.
   */
  method ShiftAfter(a: array<Attr>, i: nat, x: Attr) returns (j: nat)
    requires i < a.Length
    modifies a
    ensures j <= i
    ensures forall k :: 0 <= k < j ==> a[k] == old(a[k])
    ensures forall k :: j < k <= i ==> a[k] == old(a[k - 1])
    ensures forall k :: i < k < a.Length ==> a[k] == old(a[k])
    ensures forall k :: j <= k < i ==> LexLess(x.name, old(a[k]).name)
    ensures j > 0 ==> !LexLess(x.name, old(a[j - 1]).name)
  {
    ghost var orig := a[..];
    j := i;
    while j > 0 && LexLess(x.name, a[j - 1].name)
      invariant 0 <= j <= i
      invariant forall k :: 0 <= k < j ==> a[k] == orig[k]
      invariant forall k :: j < k <= i ==> a[k] == orig[k - 1]
      invariant forall k :: j <= k < i ==> LexLess(x.name, orig[k].name)
      invariant forall k :: i < k < a.Length ==> a[k] == orig[k]
    {
      a[j] := a[j - 1];
      j := j - 1;
    }
  }

  /** The array after the shifting loop, as a sequence. */
  lemma Shifted(r: seq<Attr>, sorted: seq<Attr>, x: Attr, j: nat)
    requires |r| == |sorted| + 1 && j <= |sorted|
    requires forall k :: 0 <= k < j ==> r[k] == sorted[k]
    requires r[j] == x
    requires forall k :: j < k < |r| ==> r[k] == sorted[k - 1]
    ensures r == sorted[..j] + [x] + sorted[j..]
  {
  }

  /** In a sorted list, nothing before a name `x` does not precede sorts after `x`. */
  lemma PrefixNotAfter(x: Attr, sorted: seq<Attr>, j: nat)
    requires Sorted(sorted) && j <= |sorted|
    requires j > 0 ==> !LexLess(x.name, sorted[j - 1].name)
    ensures forall k :: 0 <= k < j ==> !LexLess(x.name, sorted[k].name)
  {
    forall k | 0 <= k < j ensures !LexLess(x.name, sorted[k].name) {
      if LexLess(x.name, sorted[k].name) {
        assert NameLe(sorted[k], sorted[j - 1]);
        if sorted[k].name != sorted[j - 1].name {
          LexTotal(sorted[k].name, sorted[j - 1].name);
          LexTransitive(x.name, sorted[k].name, sorted[j - 1].name);
        }
      }
    }
  }

  // ---------------------------------------------------------------------
  // What the sort leaves unchanged

  /** The attributes whose name is in `names`, in order (`attribs.filter(...)`). */
  function Filter(s: seq<Attr>, names: set<string>): (r: seq<Attr>)
    ensures |r| <= |s|
    ensures forall a :: a in r ==> a in s && a.name in names
    decreases |s|
  {
    if s == [] then []
    else if s[0].name in names then [s[0]] + Filter(s[1..], names)
    else Filter(s[1..], names)
  }

  lemma {:induction false} FilterInsert(x: Attr, t: seq<Attr>, names: set<string>)
    ensures |Filter(Insert(x, t), names)| == |Filter(t, names)| + (if x.name in names then 1 else 0)
    decreases |t|
  {
    if t != [] && !LexLess(x.name, t[0].name) {
      FilterInsert(x, t[1..], names);
      assert ([t[0]] + Insert(x, t[1..]))[1..] == Insert(x, t[1..]);
    } else if t != [] {
      assert ([x] + t)[1..] == t;
    }
  }

  /** Sorting keeps how many attributes have a name in a given group. */
  lemma {:induction false} SortKeepsCounts(s: seq<Attr>, names: set<string>)
    ensures |Filter(SortByName(s), names)| == |Filter(s, names)|
    decreases |s|
  {
    if s != [] {
      var init := s[..|s| - 1];
      SortKeepsCounts(init, names);
      FilterInsert(s[|s| - 1], SortByName(init), names);
      FilterAppend(init, [s[|s| - 1]], names);
      assert s == init + [s[|s| - 1]];
    }
  }

  lemma {:induction false} FilterAppend(a: seq<Attr>, b: seq<Attr>, names: set<string>)
    ensures Filter(a + b, names) == Filter(a, names) + Filter(b, names)
    decreases |a|
  {
    if a != [] {
      assert (a + b)[0] == a[0] && (a + b)[1..] == a[1..] + b;
      FilterAppend(a[1..], b, names);
    } else {
      assert a + b == b;
    }
  }

  /** No two attributes share a name. */
  predicate DistinctNames(s: seq<Attr>)
  {
    forall i, j :: 0 <= i < j < |s| ==> s[i].name != s[j].name
  }

  /** Sorting neither creates nor removes a shared name. */
  lemma SortKeepsDistinct(s: seq<Attr>)
    ensures DistinctNames(SortByName(s)) <==> DistinctNames(s)
  {
    SortPermutes(s);
    if DistinctNames(s) {
      PermutationKeepsDistinct(s, SortByName(s));
    }
    if DistinctNames(SortByName(s)) {
      PermutationKeepsDistinct(SortByName(s), s);
    }
  }

  lemma PermutationKeepsDistinct(s: seq<Attr>, t: seq<Attr>)
    requires multiset(s) == multiset(t)
    requires DistinctNames(s)
    ensures DistinctNames(t)
  {
    forall i, j | 0 <= i < j < |t| ensures t[i].name != t[j].name {
      if t[i].name == t[j].name {
        var n := t[i].name;
        assert |Filter(t, {n})| >= 2 by { CountAtLeastTwo(t, i, j, n); }
        CountByMultiset(s, t, {n});
        AtMostOneOfName(s, n);
      }
    }
  }

  lemma {:induction false} CountAtLeastTwo(t: seq<Attr>, i: nat, j: nat, n: string)
    requires i < j < |t| && t[i].name == n && t[j].name == n
    ensures |Filter(t, {n})| >= 2
    decreases |t|
  {
    if i > 0 {
      CountAtLeastTwo(t[1..], i - 1, j - 1, n);
    } else {
      CountAtLeastOne(t[1..], j - 1, n);
    }
  }

  lemma {:induction false} CountAtLeastOne(t: seq<Attr>, j: nat, n: string)
    requires j < |t| && t[j].name == n
    ensures |Filter(t, {n})| >= 1
    decreases |t|
  {
    if j > 0 {
      CountAtLeastOne(t[1..], j - 1, n);
    }
  }

  lemma {:induction false} AtMostOneOfName(s: seq<Attr>, n: string)
    requires DistinctNames(s)
    ensures |Filter(s, {n})| <= 1
    decreases |s|
  {
    if s != [] {
      assert DistinctNames(s[1..]) by {
        forall i, j | 0 <= i < j < |s[1..]| ensures s[1..][i].name != s[1..][j].name {
          assert s[1..][i] == s[i + 1] && s[1..][j] == s[j + 1];
        }
      }
      AtMostOneOfName(s[1..], n);
      if s[0].name == n {
        NoneOfName(s[1..], n, s[0]);
      }
    }
  }

  lemma {:induction false} NoneOfName(s: seq<Attr>, n: string, x: Attr)
    requires forall k :: 0 <= k < |s| ==> s[k].name != n
    ensures |Filter(s, {n})| == 0
    decreases |s|
  {
    if s != [] {
      NoneOfName(s[1..], n, x);
    }
  }

  lemma {:induction false} CountByMultiset(s: seq<Attr>, t: seq<Attr>, names: set<string>)
    requires multiset(s) == multiset(t)
    ensures |Filter(s, names)| == |Filter(t, names)|
    decreases |s|
  {
    if s == [] {
      assert |t| == |multiset(t)| == 0;
    } else {
      assert s[0] in multiset(t);
      var k :| 0 <= k < |t| && t[k] == s[0];
      MultisetRemove(s, t, k);
      CountByMultiset(s[1..], t[..k] + t[k + 1..], names);
      FilterRemove(t, k, names);
    }
  }

  lemma MultisetRemove(s: seq<Attr>, t: seq<Attr>, k: nat)
    requires multiset(s) == multiset(t) && s != [] && k < |t| && t[k] == s[0]
    ensures multiset(s[1..]) == multiset(t[..k] + t[k + 1..])
  {
    assert s == [s[0]] + s[1..];
    assert t == t[..k] + [t[k]] + t[k + 1..];
    assert multiset(s[1..]) == multiset(s) - multiset{s[0]};
    assert multiset(t[..k] + t[k + 1..]) == multiset(t) - multiset{t[k]};
  }

  lemma FilterRemove(t: seq<Attr>, k: nat, names: set<string>)
    requires k < |t|
    ensures |Filter(t, names)| == |Filter(t[..k] + t[k + 1..], names)| + (if t[k].name in names then 1 else 0)
  {
    assert t == t[..k] + ([t[k]] + t[k + 1..]);
    FilterAppend(t[..k], [t[k]] + t[k + 1..], names);
    FilterAppend([t[k]], t[k + 1..], names);
    FilterAppend(t[..k], t[k + 1..], names);
  }
}
