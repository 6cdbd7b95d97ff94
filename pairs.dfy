/** The `(value, docid)` pairs the sort algorithms work on, Python's lexicographic
    order on them, and the sorting primitives the field index relies on:
    `bisect.insort`, `sorted` on pairs, `sorted(..., key=value)` (stable), and the
    ascending iteration order of a BTree of pairs. */
module Pairs {

  /** One indexed document: the field value it was indexed under and its docid. */
  datatype Entry = Entry(value: int, docid: int)

  /** Python's `<=` on the tuple `(value, docid)`. */
  predicate Le(a: Entry, b: Entry) {
    a.value < b.value || (a.value == b.value && a.docid <= b.docid)
  }

  /** Python's `<` on the tuple `(value, docid)`. */
  predicate Lt(a: Entry, b: Entry) {
    a.value < b.value || (a.value == b.value && a.docid < b.docid)
  }

  predicate Ascending(s: seq<Entry>) {
    forall i, j :: 0 <= i < j < |s| ==> Le(s[i], s[j])
  }

  predicate StrictlyAscending(s: seq<Entry>) {
    forall i, j :: 0 <= i < j < |s| ==> Lt(s[i], s[j])
  }

  predicate Descending(s: seq<Entry>) {
    forall i, j :: 0 <= i < j < |s| ==> Le(s[j], s[i])
  }

  /** The docids of a sequence of pairs, in order (`for value, docid in result: yield docid`). */
  function Docids(s: seq<Entry>): (r: seq<int>)
    ensures |r| == |s|
    ensures forall i :: 0 <= i < |s| ==> r[i] == s[i].docid
  {
    if s == [] then [] else [s[0].docid] + Docids(s[1..])
  }

  lemma DocidsAppend(a: seq<Entry>, b: seq<Entry>)
    ensures Docids(a + b) == Docids(a) + Docids(b)
  {
  }

  // ---------------------------------------------------------------------------
  // bisect.insort and sorted() on pairs

  /** `bisect.insort(s, x)`, i.e. insort_right: `x` goes in front of the first
      element strictly greater than it, so after every element equal to it. */
  function Insort(s: seq<Entry>, x: Entry): (r: seq<Entry>)
    ensures |r| == |s| + 1
  {
    if s == [] || Lt(x, s[0]) then [x] + s
    else [s[0]] + Insort(s[1..], x)
  }

  /** Insort adds `x` and loses nothing. */
  lemma {:induction false} InsortMultiset(s: seq<Entry>, x: Entry)
    ensures multiset(Insort(s, x)) == multiset(s) + multiset{x}
  {
    if s != [] && !Lt(x, s[0]) {
      InsortMultiset(s[1..], x);
      assert s == [s[0]] + s[1..];
    }
  }

  /** Inserting into an ascending sequence keeps it ascending. */
  lemma {:induction false} InsortAscending(s: seq<Entry>, x: Entry)
    requires Ascending(s)
    ensures Ascending(Insort(s, x))
  {
    if s == [] || Lt(x, s[0]) {
      var r := [x] + s;
      assert Insort(s, x) == r;
      forall i, j | 0 <= i < j < |r| ensures Le(r[i], r[j]) {
        if i == 0 {
          assert r[j] == s[j - 1];
          assert j == 1 || Le(s[0], s[j - 1]);
        } else {
          assert r[i] == s[i - 1] && r[j] == s[j - 1];
        }
      }
    } else {
      var tail := Insort(s[1..], x);
      var r := [s[0]] + tail;
      assert Insort(s, x) == r;
      AscendingTail(s);
      InsortAscending(s[1..], x);
      InsortMultiset(s[1..], x);
      forall i, j | 0 <= i < j < |r| ensures Le(r[i], r[j]) {
        if i == 0 {
          assert r[j] == tail[j - 1];
          assert tail[j - 1] in multiset(tail);
          if tail[j - 1] != x {
            assert tail[j - 1] in multiset(s[1..]);
            var k :| 0 <= k < |s[1..]| && s[1..][k] == tail[j - 1];
            assert s[k + 1] == tail[j - 1];
          }
        } else {
          assert r[i] == tail[i - 1] && r[j] == tail[j - 1];
        }
      }
    }
  }

  /** `sorted()` on a list of pairs, written as an insertion sort. Since `Le` is a
      total order in which equal pairs are identical, every sorting algorithm gives
      this same list (lemma SortedUnique). */
  function SortAsc(s: seq<Entry>): (r: seq<Entry>)
    ensures |r| == |s|
  {
    if s == [] then []
    else Insort(SortAsc(s[..|s| - 1]), s[|s| - 1])
  }

  /** SortAsc sorts: its result is ascending and a permutation of its input. */
  lemma {:induction false} SortAscSorts(s: seq<Entry>)
    ensures Ascending(SortAsc(s))
    ensures multiset(SortAsc(s)) == multiset(s)
  {
    if s != [] {
      var init := s[..|s| - 1];
      assert s == init + [s[|s| - 1]];
      SortAscSorts(init);
      InsortAscending(SortAsc(init), s[|s| - 1]);
      InsortMultiset(SortAsc(init), s[|s| - 1]);
    }
  }

  /** `sorted(s, reverse=True)` on pairs, the order `heapq.nlargest` returns. */
  function SortDesc(s: seq<Entry>): (r: seq<Entry>)
    ensures |r| == |s|
    ensures Descending(r)
    ensures multiset(r) == multiset(s)
  {
    var up := SortAsc(s);
    SortAscSorts(s);
    ReverseMultiset(up);
    Reverse(up)
  }

  function Reverse(s: seq<Entry>): (r: seq<Entry>)
    ensures |r| == |s|
    ensures forall i :: 0 <= i < |s| ==> r[i] == s[|s| - 1 - i]
  {
    if s == [] then [] else Reverse(s[1..]) + [s[0]]
  }

  lemma {:induction false} ReverseMultiset(s: seq<Entry>)
    ensures multiset(Reverse(s)) == multiset(s)
  {
    if s != [] {
      ReverseMultiset(s[1..]);
      assert s == [s[0]] + s[1..];
    }
  }

  /** Sorting is unique: two ascending arrangements of the same multiset of pairs
      are the same sequence. This is why `sorted`, `insort` and `heapq` may all be
      modelled by SortAsc. */
  lemma {:induction false} SortedUnique(a: seq<Entry>, b: seq<Entry>)
    requires Ascending(a) && Ascending(b)
    requires multiset(a) == multiset(b)
    ensures a == b
    decreases |a|
  {
    if a == [] {
      assert |multiset(b)| == 0;
    } else {
      assert a[0] in multiset(a);
      assert b != [];
      assert b[0] in multiset(b);
      assert a[0] in b && b[0] in a;
      assert Le(b[0], a[0]);
      assert Le(a[0], b[0]);
      assert a[0] == b[0];
      assert a == [a[0]] + a[1..];
      assert b == [b[0]] + b[1..];
      assert multiset(a) == multiset{a[0]} + multiset(a[1..]);
      assert multiset(b) == multiset{b[0]} + multiset(b[1..]);
      assert multiset(a[1..]) == multiset(a) - multiset{a[0]};
      assert multiset(b[1..]) == multiset(b) - multiset{b[0]};
      AscendingTail(a);
      AscendingTail(b);
      SortedUnique(a[1..], b[1..]);
    }
  }

  lemma AscendingTail(s: seq<Entry>)
    requires Ascending(s) && s != []
    ensures Ascending(s[1..])
  {
    forall i, j | 0 <= i < j < |s| - 1 ensures Le(s[1..][i], s[1..][j]) {
      assert s[1..][i] == s[i + 1] && s[1..][j] == s[j + 1];
    }
  }

  /** Inserting and then keeping the first `k` places only looks at the first `k`
      elements: the step of `nbest_ascending` that keeps just `limit` pairs. */
  lemma {:induction false} InsortPrefix(s: seq<Entry>, x: Entry, k: nat)
    requires k <= |s|
    ensures Insort(s, x)[..k] == Insort(s[..k], x)[..k]
  {
    if k == 0 {
    } else if Lt(x, s[0]) {
      assert s[..k][0] == s[0];
      assert Insort(s, x) == [x] + s;
      assert Insort(s[..k], x) == [x] + s[..k];
      assert ([x] + s)[..k] == [x] + s[..k - 1];
      assert ([x] + s[..k])[..k] == [x] + s[..k - 1];
    } else {
      var t := Insort(s[1..], x);
      var u := Insort(s[..k][1..], x);
      InsortPrefix(s[1..], x, k - 1);
      assert s[..k][1..] == s[1..][..k - 1];
      assert s[..k][0] == s[0];
      assert Insort(s, x) == [s[0]] + t;
      assert Insort(s[..k], x) == [s[0]] + u;
      assert ([s[0]] + t)[..k] == [s[0]] + t[..k - 1];
      assert ([s[0]] + u)[..k] == [s[0]] + u[..k - 1];
    }
  }

  /** A pair no smaller than every element goes to the end. */
  lemma {:induction false} InsortAfterAll(s: seq<Entry>, x: Entry)
    requires forall i :: 0 <= i < |s| ==> Le(s[i], x)
    ensures Insort(s, x) == s + [x]
  {
    if s != [] {
      InsortAfterAll(s[1..], x);
    }
  }

  /** A pair no smaller than the `k`-th leaves the first `k` places alone. */
  lemma InsortBeyondPrefix(s: seq<Entry>, x: Entry, k: nat)
    requires Ascending(s) && 0 < k <= |s| && Le(s[k - 1], x)
    ensures Insort(s, x)[..k] == s[..k]
  {
    var front := s[..k];
    InsortPrefix(s, x, k);
    forall j | 0 <= j < k ensures Le(front[j], x) {
      assert j == k - 1 || Le(s[j], s[k - 1]);
    }
    InsortAfterAll(front, x);
    assert (front + [x])[..k] == front;
  }

  // ---------------------------------------------------------------------------
  // sorted(..., key=value), which Python guarantees to be stable

  /** `u` must come strictly before `w` when sorting by value in the given direction. */
  predicate Ahead(u: int, w: int, reverse: bool) {
    if reverse then u > w else u < w
  }

  /** `a` may stand before `b` when sorting by value in the given direction. */
  predicate InOrder(a: Entry, b: Entry, reverse: bool) {
    !Ahead(b.value, a.value, reverse)
  }

  /** Sorted by value (non-decreasing, or non-increasing when `reverse`). */
  predicate ValueOrdered(s: seq<Entry>, reverse: bool) {
    forall i, j :: 0 <= i < j < |s| ==> InOrder(s[i], s[j], reverse)
  }

  lemma ValueOrderedTail(s: seq<Entry>, reverse: bool)
    requires ValueOrdered(s, reverse) && s != []
    ensures ValueOrdered(s[1..], reverse)
  {
    forall i, j | 0 <= i < j < |s| - 1 ensures InOrder(s[1..][i], s[1..][j], reverse) {
      assert s[1..][i] == s[i + 1] && s[1..][j] == s[j + 1];
    }
  }

  /** `[e]` when `e` has value `v`, else nothing. */
  function Tagged(e: Entry, v: int): seq<Entry> {
    if e.value == v then [e] else []
  }

  /** The pairs of `s` whose value is `v`, in their order in `s`. */
  function WithValue(s: seq<Entry>, v: int): seq<Entry>
  {
    if s == [] then []
    else Tagged(s[0], v) + WithValue(s[1..], v)
  }

  lemma {:induction false} WithValueAppend(a: seq<Entry>, b: seq<Entry>, v: int)
    ensures WithValue(a + b, v) == WithValue(a, v) + WithValue(b, v)
  {
    if a != [] {
      WithValueAppend(a[1..], b, v);
      assert (a + b)[0] == a[0];
      assert (a + b)[1..] == a[1..] + b;
      calc {
        WithValue(a + b, v);
        Tagged(a[0], v) + WithValue(a[1..] + b, v);
        Tagged(a[0], v) + (WithValue(a[1..], v) + WithValue(b, v));
        WithValue(a, v) + WithValue(b, v);
      }
    } else {
      assert a + b == b;
    }
  }

  lemma {:induction false} WithValueMembers(s: seq<Entry>, v: int, e: Entry)
    requires e in WithValue(s, v)
    ensures e in s && e.value == v
  {
    if s != [] && !(s[0].value == v && e == s[0]) {
      WithValueMembers(s[1..], v, e);
    }
  }

  /** Insertion by value, after every element whose value does not come after `x`'s:
      the insertion that keeps a sort stable. */
  function InsertByValue(s: seq<Entry>, x: Entry, reverse: bool): (r: seq<Entry>)
    ensures |r| == |s| + 1
  {
    if s == [] || Ahead(x.value, s[0].value, reverse) then [x] + s
    else [s[0]] + InsertByValue(s[1..], x, reverse)
  }

  /** InsertByValue adds `x` and loses nothing. */
  lemma {:induction false} InsertByValueMultiset(s: seq<Entry>, x: Entry, reverse: bool)
    ensures multiset(InsertByValue(s, x, reverse)) == multiset(s) + multiset{x}
  {
    if s != [] && !Ahead(x.value, s[0].value, reverse) {
      InsertByValueMultiset(s[1..], x, reverse);
      assert s == [s[0]] + s[1..];
    }
  }

  lemma {:induction false} InsertByValueOrdered(s: seq<Entry>, x: Entry, reverse: bool)
    requires ValueOrdered(s, reverse)
    ensures ValueOrdered(InsertByValue(s, x, reverse), reverse)
  {
    if s == [] || Ahead(x.value, s[0].value, reverse) {
      var r := [x] + s;
      forall i, j | 0 <= i < j < |r| ensures InOrder(r[i], r[j], reverse) {
        if i == 0 {
          assert r[j] == s[j - 1];
          assert j == 1 || InOrder(s[0], s[j - 1], reverse);
        } else {
          assert r[i] == s[i - 1] && r[j] == s[j - 1];
        }
      }
    } else {
      var tail := InsertByValue(s[1..], x, reverse);
      ValueOrderedTail(s, reverse);
      InsertByValueOrdered(s[1..], x, reverse);
      InsertByValueMultiset(s[1..], x, reverse);
      var r := [s[0]] + tail;
      forall i, j | 0 <= i < j < |r| ensures InOrder(r[i], r[j], reverse) {
        if i == 0 {
          assert r[j] == tail[j - 1] && tail[j - 1] in multiset(tail);
          if tail[j - 1] != x {
            assert tail[j - 1] in multiset(s[1..]);
            var k :| 0 <= k < |s[1..]| && s[1..][k] == tail[j - 1];
            assert s[k + 1] == tail[j - 1];
          }
        } else {
          assert r[i] == tail[i - 1] && r[j] == tail[j - 1];
        }
      }
    }
  }

  /** `sorted(s, key=value, reverse=reverse)`: Python's sort is stable, also with
      `reverse=True`, so equal values keep their order in `s`. */
  function StableSort(s: seq<Entry>, reverse: bool): (r: seq<Entry>)
    ensures |r| == |s|
  {
    if s == [] then []
    else InsertByValue(StableSort(s[..|s| - 1], reverse), s[|s| - 1], reverse)
  }

  /** StableSort sorts by value: its result is ordered by value and a permutation
      of its input. */
  lemma {:induction false} StableSortSorts(s: seq<Entry>, reverse: bool)
    ensures ValueOrdered(StableSort(s, reverse), reverse)
    ensures multiset(StableSort(s, reverse)) == multiset(s)
  {
    if s != [] {
      var init := s[..|s| - 1];
      assert s == init + [s[|s| - 1]];
      StableSortSorts(init, reverse);
      InsertByValueOrdered(StableSort(init, reverse), s[|s| - 1], reverse);
      InsertByValueMultiset(StableSort(init, reverse), s[|s| - 1], reverse);
    }
  }

  lemma {:induction false} InsertByValueStable(s: seq<Entry>, x: Entry, reverse: bool, v: int)
    requires ValueOrdered(s, reverse)
    ensures WithValue(InsertByValue(s, x, reverse), v)
         == WithValue(s, v) + Tagged(x, v)
  {
    if s == [] {
      assert InsertByValue(s, x, reverse) == [x];
      WithValueHead([x], v);
    } else if Ahead(x.value, s[0].value, reverse) {
      InsertInFrontStable(s, x, reverse, v);
    } else {
      ValueOrderedTail(s, reverse);
      InsertByValueStable(s[1..], x, reverse, v);
      InsertBehindStable(s, x, reverse, v);
    }
  }

  lemma InsertInFrontStable(s: seq<Entry>, x: Entry, reverse: bool, v: int)
    requires ValueOrdered(s, reverse)
    requires s != [] && Ahead(x.value, s[0].value, reverse)
    ensures WithValue(InsertByValue(s, x, reverse), v)
         == WithValue(s, v) + Tagged(x, v)
  {
    assert InsertByValue(s, x, reverse) == [x] + s;
    WithValueHead([x] + s, v);
    assert ([x] + s)[1..] == s;
    if x.value == v {
      // every element of s comes after x, so none of them has value v
      NoneWithValue(s, v, reverse);
    }
  }

  lemma InsertBehindStable(s: seq<Entry>, x: Entry, reverse: bool, v: int)
    requires s != [] && !Ahead(x.value, s[0].value, reverse)
    requires WithValue(InsertByValue(s[1..], x, reverse), v)
          == WithValue(s[1..], v) + Tagged(x, v)
    ensures WithValue(InsertByValue(s, x, reverse), v)
         == WithValue(s, v) + Tagged(x, v)
  {
    var tail := InsertByValue(s[1..], x, reverse);
    var ins := [s[0]] + tail;
    var head := Tagged(s[0], v);
    var extra := Tagged(x, v);
    var w := WithValue(s[1..], v);
    assert InsertByValue(s, x, reverse) == ins;
    assert WithValue(ins, v) == head + WithValue(tail, v) by {
      WithValueHead(ins, v);
      assert ins[0] == s[0] && ins[1..] == tail;
    }
    assert WithValue(s, v) == head + w by {
      WithValueHead(s, v);
    }
    assert head + (w + extra) == (head + w) + extra;
  }

  lemma {:induction false} NoneWithValue(s: seq<Entry>, v: int, reverse: bool)
    requires s != [] && ValueOrdered(s, reverse) && Ahead(v, s[0].value, reverse)
    ensures WithValue(s, v) == []
  {
    if |s| > 1 {
      assert InOrder(s[0], s[1], reverse);
      ValueOrderedTail(s, reverse);
      NoneWithValue(s[1..], v, reverse);
    }
  }

  /** Stability: for every value, the pairs with that value come out of StableSort
      in the order they had in the input. */
  lemma {:induction false} StableSortIsStable(s: seq<Entry>, reverse: bool, v: int)
    ensures WithValue(StableSort(s, reverse), v) == WithValue(s, v)
  {
    if s != [] {
      var init, last := s[..|s| - 1], s[|s| - 1];
      StableSortIsStable(init, reverse, v);
      StableSortSorts(init, reverse);
      InsertByValueStable(StableSort(init, reverse), last, reverse, v);
      assert s == init + [last];
      WithValueAppend(init, [last], v);
    }
  }

  /** In a sequence sorted by value, no element stands ahead of the first one. */
  lemma FirstIsExtreme(s: seq<Entry>, e: Entry, reverse: bool)
    requires ValueOrdered(s, reverse) && e in s
    ensures InOrder(s[0], e, reverse)
  {
    var k :| 0 <= k < |s| && s[k] == e;
    if k > 0 { assert InOrder(s[0], s[k], reverse); }
  }

  lemma WithValueHead(s: seq<Entry>, v: int)
    requires s != []
    ensures WithValue(s, v) == Tagged(s[0], v) + WithValue(s[1..], v)
  {
  }

  /** A stable sort is unique: two sequences sorted by value that hold, for every
      value, the same pairs with that value in the same order are equal. */
  lemma {:induction false} StableSortUnique(t: seq<Entry>, u: seq<Entry>, reverse: bool)
    requires ValueOrdered(t, reverse) && ValueOrdered(u, reverse)
    requires forall v :: WithValue(t, v) == WithValue(u, v)
    ensures t == u
    decreases |t|
  {
    if t == [] {
      if u != [] {
        assert false;
      }
    } else if u == [] {
      WithValueHead(t, t[0].value);
      assert false;
    } else {
      var a, b := t[0].value, u[0].value;
      WithValueHead(t, a);
      WithValueHead(u, b);
      var ea := WithValue(u, a)[0];
      assert ea in WithValue(u, a);
      WithValueMembers(u, a, ea);
      FirstIsExtreme(u, ea, reverse);
      var eb := WithValue(t, b)[0];
      assert eb in WithValue(t, b);
      WithValueMembers(t, b, eb);
      FirstIsExtreme(t, eb, reverse);
      assert a == b;
      assert t[0] == u[0];
      forall v ensures WithValue(t[1..], v) == WithValue(u[1..], v) {
        WithValueHead(t, v);
        WithValueHead(u, v);
        var head := Tagged(t[0], v);
        assert head + WithValue(t[1..], v) == head + WithValue(u[1..], v);
        assert (head + WithValue(t[1..], v))[|head|..] == WithValue(t[1..], v);
        assert (head + WithValue(u[1..], v))[|head|..] == WithValue(u[1..], v);
      }
      ValueOrderedTail(t, reverse);
      ValueOrderedTail(u, reverse);
      StableSortUnique(t[1..], u[1..], reverse);
    }
  }

  // ---------------------------------------------------------------------------
  // Ascending enumeration of a finite set of pairs (BTree iteration order)

  lemma MinExists(s: set<Entry>)
    requires s != {}
    ensures exists m :: m in s && forall y :: y in s ==> Le(m, y)
  {
    var x :| x in s;
    if s != {x} {
      MinExists(s - {x});
      var m :| m in s - {x} && forall y :: y in s - {x} ==> Le(m, y);
      if Le(x, m) {
        forall y | y in s ensures Le(x, y) {
          if y != x { assert y in s - {x}; }
        }
      } else {
        forall y | y in s ensures Le(m, y) {
          if y != x { assert y in s - {x}; }
        }
      }
    }
  }

  /** The elements of `s` in strictly ascending pair order. */
  ghost function Enum(s: set<Entry>): (r: seq<Entry>)
    ensures StrictlyAscending(r)
    ensures forall x :: x in r <==> x in s
    decreases |s|
  {
    if s == {} then []
    else
      MinExists(s);
      var m :| m in s && forall y :: y in s ==> Le(m, y);
      var rest := Enum(s - {m});
      assert forall k :: 0 <= k < |rest| ==> rest[k] in s - {m};
      [m] + rest
  }

  /** There is only one strictly ascending sequence with a given set of elements. */
  lemma {:induction false} StrictUnique(a: seq<Entry>, b: seq<Entry>)
    requires StrictlyAscending(a) && StrictlyAscending(b)
    requires forall x :: x in a <==> x in b
    ensures a == b
    decreases |a|
  {
    if a != [] {
      assert a[0] in a;
      assert a[0] in b && b != [];
      assert b[0] in b;
      assert Le(b[0], a[0]);
      assert Le(a[0], b[0]);
      assert a[0] == b[0];
      assert a == [a[0]] + a[1..];
      assert b == [b[0]] + b[1..];
      forall x ensures x in a[1..] <==> x in b[1..] {
        if x in a[1..] {
          var i :| 0 <= i < |a[1..]| && a[1..][i] == x;
          assert Lt(a[0], a[i + 1]) && a[i + 1] == x;
          assert x in a && x != b[0];
          assert x in b;
        }
        if x in b[1..] {
          var i :| 0 <= i < |b[1..]| && b[1..][i] == x;
          assert Lt(b[0], b[i + 1]) && b[i + 1] == x;
          assert x in b && x != a[0];
          assert x in a;
        }
      }
      StrictUnique(a[1..], b[1..]);
    }
  }

  /** A strictly ascending sequence whose elements all precede the rest of a set is
      the start of that set's enumeration. */
  lemma EnumSplit(seen: seq<Entry>, s: set<Entry>)
    requires StrictlyAscending(seen)
    requires forall e :: e in seen ==> e in s
    requires forall e, f :: e in seen && f in s && f !in seen ==> Lt(e, f)
    ensures Enum(s) == seen + Enum(s - set e | e in seen)
  {
    var rest := Enum(s - set e | e in seen);
    var whole := seen + rest;
    forall i, j | 0 <= i < j < |whole| ensures Lt(whole[i], whole[j]) {
      if j >= |seen| && i < |seen| {
        assert whole[j] == rest[j - |seen|];
        assert rest[j - |seen|] in rest;
        assert whole[j] in s && whole[j] !in seen;
        assert whole[i] == seen[i];
      } else if i >= |seen| {
        assert whole[i] == rest[i - |seen|] && whole[j] == rest[j - |seen|];
      }
    }
    StrictUnique(whole, Enum(s));
  }
}
