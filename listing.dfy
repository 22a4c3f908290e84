/**
 * Generic list operations behind every query: lookup of the first match,
 * filtering, sorting by a key in descending order, and splitting a list into
 * fixed-size pages.
 */
module Listing {
  import opened Wrappers

  function Min(a: int, b: int): int { if a <= b then a else b }

  // ---- Lookup ---------------------------------------------------------------

  /** The first element satisfying `p`, or None when no element does. */
  function Find<T>(s: seq<T>, p: T -> bool): (r: Option<T>)
    ensures r.None? <==> forall i :: 0 <= i < |s| ==> !p(s[i])
    ensures r.Some? ==> exists i :: 0 <= i < |s| && s[i] == r.value && p(r.value) && forall j :: 0 <= j < i ==> !p(s[j])
  {
    if |s| == 0 then None
    else if p(s[0]) then Some(s[0])
    else
      var r := Find(s[1..], p);
      assert r.Some? ==> exists i :: 0 <= i < |s| && s[i] == r.value && p(r.value) && forall j :: 0 <= j < i ==> !p(s[j]) by {
        if r.Some? {
          var i :| 0 <= i < |s[1..]| && s[1..][i] == r.value && p(r.value) && forall j :: 0 <= j < i ==> !p(s[1..][j]);
          assert s[i + 1] == r.value;
          assert forall j :: 0 <= j < i + 1 ==> !p(s[j]) by {
            forall j | 0 <= j < i + 1 ensures !p(s[j]) {
              if j > 0 { assert s[j] == s[1..][j - 1]; }
            }
          }
        }
      }
      assert r.None? ==> forall i :: 0 <= i < |s| ==> !p(s[i]) by {
        if r.None? {
          forall i | 0 <= i < |s| ensures !p(s[i]) {
            if i > 0 { assert s[i] == s[1..][i - 1]; }
          }
        }
      }
      r
  }

  /** When at most one element satisfies `p`, Find returns exactly that element. */
  lemma FindUnique<T>(s: seq<T>, p: T -> bool, i: nat)
    requires i < |s| && p(s[i])
    requires forall j, k :: 0 <= j < k < |s| && p(s[j]) ==> !p(s[k])
    ensures Find(s, p) == Some(s[i])
  {
  }

  // ---- Filtering ------------------------------------------------------------

  /** The elements of `s` satisfying `keep`, in their original order. */
  function Filter<T(!new)>(s: seq<T>, keep: T -> bool): (r: seq<T>)
    ensures |r| <= |s|
    ensures forall x :: x in r <==> x in s && keep(x)
    ensures forall x :: multiset(r)[x] == if keep(x) then multiset(s)[x] else 0
  {
    if |s| == 0 then []
    else
      assert s == [s[0]] + s[1..];
      if keep(s[0]) then [s[0]] + Filter(s[1..], keep)
      else Filter(s[1..], keep)
  }

  // ---- Ordering -------------------------------------------------------------

  /** `s` is non-increasing by `key`: no element precedes one with a larger key. */
  predicate Descending<T>(s: seq<T>, key: T -> int) {
    forall i, j :: 0 <= i < j < |s| ==> key(s[i]) >= key(s[j])
  }

  /** Inserts `x` into a descending list, before the first element whose key is not larger. */
  function Insert<T(!new)>(x: T, s: seq<T>, key: T -> int): (r: seq<T>)
    requires Descending(s, key)
    ensures Descending(r, key)
    ensures multiset(r) == multiset(s) + multiset{x}
    ensures forall y :: y in r <==> y in s || y == x
  {
    if |s| == 0 then [x]
    else if key(x) >= key(s[0]) then [x] + s
    else
      assert s == [s[0]] + s[1..];
      var t := Insert(x, s[1..], key);
      assert forall j :: 0 <= j < |t| ==> key(s[0]) >= key(t[j]) by {
        forall j | 0 <= j < |t| ensures key(s[0]) >= key(t[j]) {
          assert t[j] in t;
        }
      }
      [s[0]] + t
  }

  /**
   * `s` sorted by `key`, largest key first; elements with equal keys appear
   * in some order, which the contract leaves open.
   */
  function SortDesc<T(!new)>(s: seq<T>, key: T -> int): (r: seq<T>)
    ensures Descending(r, key)
    ensures multiset(r) == multiset(s)
    ensures |r| == |s|
  {
    if |s| == 0 then []
    else
      assert s == [s[0]] + s[1..];
      Insert(s[0], SortDesc(s[1..], key), key)
  }

  /** A slice of a descending list is descending. */
  lemma DescendingSlice<T>(s: seq<T>, key: T -> int, lo: nat, hi: nat)
    requires Descending(s, key) && lo <= hi <= |s|
    ensures Descending(s[lo..hi], key)
  {
  }

  /**
   * Two descending arrangements of the same elements are equal when the key
   * tells elements apart: with distinct timestamps the order is determined.
   */
  lemma {:induction false} DescendingUnique<T>(a: seq<T>, b: seq<T>, key: T -> int)
    requires Descending(a, key) && Descending(b, key)
    requires multiset(a) == multiset(b)
    requires forall i, j :: 0 <= i < |a| && 0 <= j < |a| && key(a[i]) == key(a[j]) ==> a[i] == a[j]
    ensures a == b
  {
    assert |b| == |multiset(b)| == |multiset(a)| == |a|;
    if |a| > 0 {
      SameHead(a, b, key);
      SameTailElements(a, b);
      DescendingSlice(a, key, 1, |a|);
      DescendingSlice(b, key, 1, |b|);
      var ta := a[1..];
      assert forall i, j :: 0 <= i < |ta| && 0 <= j < |ta| && key(ta[i]) == key(ta[j]) ==> ta[i] == ta[j] by {
        forall i, j | 0 <= i < |ta| && 0 <= j < |ta| && key(ta[i]) == key(ta[j]) ensures ta[i] == ta[j] {
          assert ta[i] == a[i + 1] && ta[j] == a[j + 1];
        }
      }
      DescendingUnique(a[1..], b[1..], key);
      assert a == [a[0]] + a[1..];
      assert b == [b[0]] + b[1..];
    }
  }

  /** The first elements of two descending arrangements of the same distinct-keyed elements agree. */
  lemma SameHead<T>(a: seq<T>, b: seq<T>, key: T -> int)
    requires Descending(a, key) && Descending(b, key)
    requires multiset(a) == multiset(b) && |a| > 0
    requires forall i, j :: 0 <= i < |a| && 0 <= j < |a| && key(a[i]) == key(a[j]) ==> a[i] == a[j]
    ensures |b| > 0 && a[0] == b[0]
  {
    assert |b| == |multiset(b)| == |multiset(a)| == |a|;
    assert a[0] in multiset(b) && b[0] in multiset(a);
    var i :| 0 <= i < |a| && a[i] == b[0];
    var j :| 0 <= j < |b| && b[j] == a[0];
    assert key(a[0]) >= key(a[i]);
    assert key(b[0]) >= key(b[j]);
  }

  lemma SameTailElements<T>(a: seq<T>, b: seq<T>)
    requires multiset(a) == multiset(b) && |a| > 0 && |b| > 0 && a[0] == b[0]
    ensures multiset(a[1..]) == multiset(b[1..])
  {
    assert a == [a[0]] + a[1..];
    assert b == [b[0]] + b[1..];
    assert multiset(a[1..]) == multiset(a) - multiset{a[0]};
    assert multiset(b[1..]) == multiset(b) - multiset{b[0]};
  }

  // ---- Pagination -----------------------------------------------------------

  /** The number of pages of `size` items for `count` items; an empty list still has one page. */
  function NumPages(count: nat, size: nat): (k: nat)
    requires size >= 1
    ensures k >= 1
    decreases count
  {
    if count <= size then 1 else 1 + NumPages(count - size, size)
  }

  /** NumPages pages are enough for every item, and one page fewer would not be. */
  lemma {:induction false} NumPagesBounds(count: nat, size: nat)
    requires size >= 1
    ensures count <= NumPages(count, size) * size
    ensures count == 0 || (NumPages(count, size) - 1) * size < count
    ensures count == 0 ==> NumPages(count, size) == 1
    decreases count
  {
    if count > size {
      var k := NumPages(count - size, size);
      NumPagesBounds(count - size, size);
      MulStep(k + 1, size);
    }
  }

  /** Page `n` (counting from 1) of `s`: items (n-1)*size up to n*size, cut at the end of `s`. */
  function Page<T>(s: seq<T>, n: nat, size: nat): (r: seq<T>)
    requires n >= 1 && size >= 1
    ensures |r| <= size
  {
    var lo := Min((n - 1) * size, |s|);
    var hi := Min(n * size, |s|);
    MulStep(n, size);
    s[lo..hi]
  }

  /**
   * The page a request for page `n` is given: the requested page when it
   * exists, and the last page when `n` lies beyond it.
   */
  function GetPage<T>(s: seq<T>, n: nat, size: nat): (r: seq<T>)
    requires n >= 1 && size >= 1
    ensures n <= NumPages(|s|, size) ==> r == Page(s, n, size)
    ensures n > NumPages(|s|, size) ==> r == Page(s, NumPages(|s|, size), size)
  {
    Page(s, Min(n, NumPages(|s|, size)), size)
  }

  /** `s` cut into consecutive pages of `size` items; only the last may be shorter. */
  function AllPages<T>(s: seq<T>, size: nat): (r: seq<seq<T>>)
    requires size >= 1
    decreases |s|
  {
    if |s| <= size then [s] else [s[..size]] + AllPages(s[size..], size)
  }

  function Flatten<T>(ss: seq<seq<T>>): seq<T> {
    if |ss| == 0 then [] else ss[0] + Flatten(ss[1..])
  }

  /** There are NumPages pages, each holding at most `size` items, all but the last exactly `size`. */
  lemma {:induction false} AllPagesShape<T>(s: seq<T>, size: nat)
    requires size >= 1
    ensures |AllPages(s, size)| == NumPages(|s|, size)
    ensures forall i :: 0 <= i < |AllPages(s, size)| ==> |AllPages(s, size)[i]| <= size
    ensures forall i :: 0 <= i < |AllPages(s, size)| - 1 ==> |AllPages(s, size)[i]| == size
    ensures s != [] ==> forall i :: 0 <= i < |AllPages(s, size)| ==> AllPages(s, size)[i] != []
    decreases |s|
  {
    if |s| > size {
      AllPagesShape(s[size..], size);
      var rest := AllPages(s[size..], size);
      assert AllPages(s, size) == [s[..size]] + rest;
      forall i | 1 <= i < |AllPages(s, size)| ensures AllPages(s, size)[i] == rest[i - 1] { }
    }
  }

  /** The pages, read in order, give back exactly the list. */
  lemma {:induction false} AllPagesFlatten<T>(s: seq<T>, size: nat)
    requires size >= 1
    ensures Flatten(AllPages(s, size)) == s
    decreases |s|
  {
    if |s| > size {
      var ps := AllPages(s, size);
      assert ps == [s[..size]] + AllPages(s[size..], size);
      assert ps[1..] == AllPages(s[size..], size);
      AllPagesFlatten(s[size..], size);
      assert s == s[..size] + s[size..];
    }
  }

  /** Page n, for every existing page number n, is the n-th of the consecutive pages. */
  lemma {:induction false} PageIsNth<T>(s: seq<T>, n: nat, size: nat)
    requires size >= 1 && 1 <= n <= NumPages(|s|, size)
    ensures |AllPages(s, size)| == NumPages(|s|, size)
    ensures Page(s, n, size) == AllPages(s, size)[n - 1]
    decreases n
  {
    AllPagesShape(s, size);
    if n > 1 {
      var t := s[size..];
      PageShift(s, n, size);
      PageIsNth(t, n - 1, size);
      assert AllPages(s, size)[n - 1] == AllPages(t, size)[n - 2];
    }
  }

  /** Beyond the first, page n of `s` is page n - 1 of what follows the first page. */
  lemma PageShift<T>(s: seq<T>, n: nat, size: nat)
    requires size >= 1 && 1 < n <= NumPages(|s|, size)
    ensures |s| > size && n - 1 <= NumPages(|s| - size, size)
    ensures Page(s, n, size) == Page(s[size..], n - 1, size)
  {
    var t := s[size..];
    var a := (n - 2) * size;
    var b := (n - 1) * size;
    var c := n * size;
    MulStep(n - 1, size);
    MulStep(n, size);
    assert b == a + size && c == b + size;
    var lo := Min(a, |t|);
    var hi := Min(b, |t|);
    assert Page(t, n - 1, size) == t[lo..hi];
    assert Min(b, |s|) == size + lo && Min(c, |s|) == size + hi;
    assert Page(s, n, size) == s[size + lo..size + hi];
    assert t[lo..hi] == s[size + lo..size + hi];
  }

  /** A page that ends within the list is a full page. */
  lemma PageFull<T>(s: seq<T>, n: nat, size: nat)
    requires n >= 1 && size >= 1 && n * size <= |s|
    ensures |Page(s, n, size)| == size
  {
    MulStep(n, size);
  }

  lemma MulStep(n: nat, size: nat)
    requires n >= 1
    ensures (n - 1) * size + size == n * size
  {
  }

  /** Every page holds at most `size` items, all drawn from `s`. */
  lemma GetPageBounds<T>(s: seq<T>, n: nat, size: nat)
    requires n >= 1 && size >= 1
    ensures |GetPage(s, n, size)| <= size
    ensures forall x :: x in GetPage(s, n, size) ==> x in s
  {
  }

  /** Only an empty list yields an empty page. */
  lemma GetPageNonEmpty<T>(s: seq<T>, n: nat, size: nat)
    requires n >= 1 && size >= 1
    ensures GetPage(s, n, size) == [] <==> s == []
  {
    var k := Min(n, NumPages(|s|, size));
    PageIsNth(s, k, size);
    AllPagesShape(s, size);
  }

  /** No element occurs twice in `s`. */
  predicate NoDuplicates<T(==)>(s: seq<T>) {
    forall i, j :: 0 <= i < j < |s| ==> s[i] != s[j]
  }

  // ---- Facts about filtering and duplicates ---------------------------------

  lemma {:induction false} FilterKeepingAll<T(!new)>(s: seq<T>, keep: T -> bool)
    requires forall x :: x in s ==> keep(x)
    ensures Filter(s, keep) == s
  {
    if |s| > 0 {
      FilterKeepingAll(s[1..], keep);
    }
  }

  lemma {:induction false} FilterAppend<T(!new)>(s: seq<T>, t: seq<T>, keep: T -> bool)
    ensures Filter(s + t, keep) == Filter(s, keep) + Filter(t, keep)
  {
    if |s| == 0 {
      assert s + t == t;
    } else {
      assert (s + t)[1..] == s[1..] + t;
      assert (s + t)[0] == s[0];
      FilterAppend(s[1..], t, keep);
    }
  }

  lemma {:induction false} FilterKeepsUnique<T(!new)>(s: seq<T>, keep: T -> bool)
    requires NoDuplicates(s)
    ensures NoDuplicates(Filter(s, keep))
  {
    if |s| > 0 {
      var t := s[1..];
      assert NoDuplicates(t) by {
        forall i, j | 0 <= i < j < |t| ensures t[i] != t[j] {
          assert t[i] == s[i + 1] && t[j] == s[j + 1];
        }
      }
      FilterKeepsUnique(t, keep);
      var ft := Filter(t, keep);
      if keep(s[0]) {
        assert s[0] !in t by {
          forall k | 0 <= k < |t| ensures t[k] != s[0] { assert t[k] == s[k + 1]; }
        }
        assert s[0] !in ft;
        ConsNoDuplicates(s[0], ft);
        assert Filter(s, keep) == [s[0]] + ft;
      } else {
        assert Filter(s, keep) == ft;
      }
    }
  }

  lemma ConsNoDuplicates<T>(x: T, t: seq<T>)
    requires NoDuplicates(t) && x !in t
    ensures NoDuplicates([x] + t)
  {
  }

  lemma UniqueOccursOnce<T>(s: seq<T>, x: T)
    requires NoDuplicates(s)
    requires x in s
    ensures multiset(s)[x] == 1
  {
    var k :| 0 <= k < |s| && s[k] == x;
    assert s == s[..k] + [x] + s[k + 1..];
    assert x !in s[..k] by {
      forall i | 0 <= i < k ensures s[..k][i] != x { assert s[..k][i] == s[i]; }
    }
    assert x !in s[k + 1..] by {
      var t := s[k + 1..];
      forall i | 0 <= i < |t| ensures t[i] != x { assert t[i] == s[k + 1 + i]; }
    }
    assert multiset(s) == multiset(s[..k]) + multiset{x} + multiset(s[k + 1..]);
  }
}
