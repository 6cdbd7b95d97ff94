/** What the sort engine promises its callers, proved from the specification
    functions of the field index: which docids each algorithm yields, in what
    order, how many, and what `sort` as a whole can return. */
module Properties {
  import opened Wrappers
  import opened Pairs
  import opened Strategy
  import opened FieldIndex

  // ---------------------------------------------------------------------------
  // Candidate filtering (`if docid in docids`)

  /** The filter keeps exactly the pairs whose docid is a candidate. */
  lemma {:induction false} MatchingMembers(s: seq<Entry>, docids: seq<int>)
    ensures forall e :: e in Matching(s, docids) <==> e in s && e.docid in docids
  {
    if s != [] {
      var init, last := s[..|s| - 1], s[|s| - 1];
      MatchingMembers(init, docids);
      assert s == init + [last];
    }
  }

  /** The filter keeps a strictly ascending stream strictly ascending. */
  lemma {:induction false} MatchingAscending(s: seq<Entry>, docids: seq<int>)
    requires StrictlyAscending(s)
    ensures StrictlyAscending(Matching(s, docids))
  {
    if s != [] {
      var init, last := s[..|s| - 1], s[|s| - 1];
      assert StrictlyAscending(init) by {
        forall i, j | 0 <= i < j < |init| ensures Lt(init[i], init[j]) {
          assert init[i] == s[i] && init[j] == s[j];
        }
      }
      MatchingAscending(init, docids);
      MatchingMembers(init, docids);
      var m := Matching(init, docids);
      if last.docid in docids {
        var r := m + [last];
        assert Matching(s, docids) == r;
        forall i, j | 0 <= i < j < |r| ensures Lt(r[i], r[j]) {
          if j == |m| {
            assert r[i] == m[i] && m[i] in m;
            var k :| 0 <= k < |init| && init[k] == m[i];
            assert Lt(s[k], s[|s| - 1]);
          } else {
            assert r[i] == m[i] && r[j] == m[j];
          }
        }
      }
    }
  }

  // ---------------------------------------------------------------------------
  // scan_forward

  /** `scan_forward` yields candidates the index holds, in ascending order of
      their (value, docid) pairs, and no more than the limit lets through. */
  lemma ScanYieldsOrderedCandidates(rev: map<int, int>, fwd: map<int, set<int>>, docids: seq<int>,
                                    limit: Option<int>, out: seq<int>)
    requires Consistent(rev, fwd) && out == ScanSpec(fwd, docids, limit)
    ensures Bound(limit).Some? ==> |out| <= Bound(limit).value
    ensures forall i :: 0 <= i < |out| ==> out[i] in docids && out[i] in rev
    ensures forall i, j :: 0 <= i < j < |out| ==> Lt(Entry(rev[out[i]], out[i]), Entry(rev[out[j]], out[j]))
  {
    var pairs := Matching(IndexStream(fwd), docids);
    MatchingMembers(IndexStream(fwd), docids);
    MatchingAscending(IndexStream(fwd), docids);
    assert out == Docids(pairs)[..|out|];
    forall i | 0 <= i < |out| ensures out[i] in docids && out[i] in rev && Entry(rev[out[i]], out[i]) == pairs[i] {
      assert out[i] == pairs[i].docid && pairs[i] in pairs;
    }
    forall i, j | 0 <= i < j < |out| ensures Lt(Entry(rev[out[i]], out[i]), Entry(rev[out[j]], out[j])) {
      assert Lt(pairs[i], pairs[j]);
    }
  }

  /** The candidates the forward index holds, in index order, are distinct: a
      docid sits in the set of one value only. */
  lemma ScanStreamDistinct(rev: map<int, int>, fwd: map<int, set<int>>, docids: seq<int>)
    requires Consistent(rev, fwd)
    ensures Distinct(Docids(Matching(IndexStream(fwd), docids)))
    ensures forall d :: d in Docids(Matching(IndexStream(fwd), docids)) ==> d in docids
  {
    var pairs := Matching(IndexStream(fwd), docids);
    MatchingMembers(IndexStream(fwd), docids);
    MatchingAscending(IndexStream(fwd), docids);
    forall i | 0 <= i < |pairs| ensures pairs[i].docid in docids && pairs[i].docid in rev && rev[pairs[i].docid] == pairs[i].value {
      assert pairs[i] in pairs;
      assert pairs[i] in PairSet(fwd);
    }
    AscendingDocidsDistinct(rev, pairs);
  }

  /** Strictly ascending indexed pairs have distinct docids: a docid fixes its value. */
  lemma AscendingDocidsDistinct(rev: map<int, int>, s: seq<Entry>)
    requires StrictlyAscending(s)
    requires forall i :: 0 <= i < |s| ==> s[i].docid in rev && rev[s[i].docid] == s[i].value
    ensures Distinct(Docids(s))
  {
    var ds := Docids(s);
    forall i, j | 0 <= i < j < |ds| ensures ds[i] != ds[j] {
      assert Lt(s[i], s[j]);
    }
  }


  /** When the limit does not bind (none, or at least the number of candidates),
      `scan_forward` yields exactly the candidates the index holds. */
  lemma ScanYieldsAll(rev: map<int, int>, fwd: map<int, set<int>>, docids: seq<int>, limit: Option<int>, out: seq<int>)
    requires Consistent(rev, fwd) && out == ScanSpec(fwd, docids, limit)
    requires Bound(limit).None? || Bound(limit).value >= |docids|
    ensures forall d :: d in out <==> d in docids && d in rev
  {
    var pairs := Matching(IndexStream(fwd), docids);
    MatchingMembers(IndexStream(fwd), docids);
    ScanYieldsOrderedCandidates(rev, fwd, docids, limit, out);
    ScanStreamDistinct(rev, fwd, docids);
    Pigeonhole(Docids(pairs), docids);
    assert out == Docids(pairs);
    forall d | d in docids && d in rev ensures d in out {
      var e := Entry(rev[d], d);
      assert e in PairSet(fwd);
      assert e in pairs;
      var k :| 0 <= k < |pairs| && pairs[k] == e;
      assert out[k] == d;
    }
  }

  // ---------------------------------------------------------------------------
  // nbest_ascending

  /** What `nbest_ascending` yields, pair by pair: the `i`-th docid and its value
      are the `i`-th pair of the sorted pairs of `nsort`, and there are
      `min(limit, #pairs)` of them, so none when no candidate is indexed. */
  lemma NBestAscendingPairs(rev: map<int, int>, docids: seq<int>, n: int, out: seq<int>)
    requires NBestAscendingSpec(rev, docids, Some(n)) == Ok(out)
    ensures |out| == Min(n, |NSort(docids, rev)|)
    ensures forall i :: 0 <= i < |out| ==>
      out[i] in docids && out[i] in rev && Entry(rev[out[i]], out[i]) == SortAsc(NSort(docids, rev))[i]
  {
    var pairs := NSort(docids, rev);
    var up := SortAsc(pairs);
    var k := Min(n, |pairs|);
    assert out == Docids(up[..k]);
    SortAscSorts(pairs);
    TopCandidates(docids, rev, pairs, up);
    CandidatePrefix(docids, rev, up, k);
  }

  /** `nbest_ascending` yields its pairs smallest first. */
  lemma NBestAscendingOrdered(rev: map<int, int>, docids: seq<int>, n: int, out: seq<int>)
    requires NBestAscendingSpec(rev, docids, Some(n)) == Ok(out)
    ensures forall i :: 0 <= i < |out| ==> out[i] in docids && out[i] in rev
    ensures forall i, j :: 0 <= i < j < |out| ==> Le(Entry(rev[out[i]], out[i]), Entry(rev[out[j]], out[j]))
  {
    NBestAscendingPairs(rev, docids, n, out);
    var up := SortAsc(NSort(docids, rev));
    SortAscSorts(NSort(docids, rev));
    forall i, j | 0 <= i < j < |out| ensures Le(Entry(rev[out[i]], out[i]), Entry(rev[out[j]], out[j])) {
      assert Le(up[i], up[j]);
    }
  }

  /** `nbest_ascending` keeps the smallest pairs: an indexed candidate it leaves out
      is no smaller than any pair it yields. */
  lemma NBestAscendingSmallest(rev: map<int, int>, docids: seq<int>, n: int, out: seq<int>)
    requires NBestAscendingSpec(rev, docids, Some(n)) == Ok(out)
    ensures forall i :: 0 <= i < |out| ==> out[i] in rev
    ensures forall d, i :: d in docids && d in rev && d !in out && 0 <= i < |out| ==>
      Le(Entry(rev[out[i]], out[i]), Entry(rev[d], d))
  {
    NBestAscendingPairs(rev, docids, n, out);
    var pairs := NSort(docids, rev);
    var up := SortAsc(pairs);
    var k := Min(n, |pairs|);
    assert out == Docids(up[..k]);
    SortAscSorts(pairs);
    forall d, i | d in docids && d in rev && d !in out && 0 <= i < |out|
      ensures Le(Entry(rev[out[i]], out[i]), Entry(rev[d], d))
    {
      NSortHas(docids, rev, d);
      var m := PositionIn(up, pairs, Entry(rev[d], d));
      LeftOutBeyond(up, k, m, d);
      assert Le(up[i], up[m]);
    }
  }

  // ---------------------------------------------------------------------------
  // nbest_descending

  /** What `nbest_descending` yields, pair by pair: the `i`-th docid and its value
      are the `i`-th pair of the descending sort of `nsort`'s pairs. */
  lemma NBestDescendingPairs(rev: map<int, int>, docids: seq<int>, n: int, out: seq<int>)
    requires NBestDescending(rev, docids, Some(n)) == Ok(out)
    ensures |out| <= |SortDesc(NSort(docids, rev))|
    ensures forall i :: 0 <= i < |out| ==>
      out[i] in docids && out[i] in rev && Entry(rev[out[i]], out[i]) == SortDesc(NSort(docids, rev))[i]
  {
    var pairs := NSort(docids, rev);
    var top := SortDesc(pairs);
    var k := Min(Max(n, 0), |pairs|);
    assert out == Docids(top[..k]);
    TopCandidates(docids, rev, pairs, top);
    CandidatePrefix(docids, rev, top, k);
  }

  /** `heapq.nlargest` returns its pairs largest first. */
  lemma NBestDescendingOrdered(rev: map<int, int>, docids: seq<int>, n: int)
    ensures var out := NBestDescending(rev, docids, Some(n)).value;
      && (forall i :: 0 <= i < |out| ==> out[i] in docids && out[i] in rev)
      && (forall i, j :: 0 <= i < j < |out| ==> Le(Entry(rev[out[j]], out[j]), Entry(rev[out[i]], out[i])))
  {
    var top := SortDesc(NSort(docids, rev));
    var out := NBestDescending(rev, docids, Some(n)).value;
    NBestDescendingPairs(rev, docids, n, out);
    forall i, j | 0 <= i < j < |out| ensures Le(Entry(rev[out[j]], out[j]), Entry(rev[out[i]], out[i])) {
      assert Le(top[j], top[i]);
    }
  }

  /** `heapq.nlargest` keeps the largest pairs: an indexed candidate it leaves out
      is no larger than any pair it returns. */
  lemma NBestDescendingLargest(rev: map<int, int>, docids: seq<int>, n: int)
    ensures var out := NBestDescending(rev, docids, Some(n)).value;
      && (forall i :: 0 <= i < |out| ==> out[i] in rev)
      && (forall d, i :: d in docids && d in rev && d !in out && 0 <= i < |out| ==>
            Le(Entry(rev[d], d), Entry(rev[out[i]], out[i])))
  {
    var pairs := NSort(docids, rev);
    var top := SortDesc(pairs);
    var out := NBestDescending(rev, docids, Some(n)).value;
    NBestDescendingPairs(rev, docids, n, out);
    var k := Min(Max(n, 0), |pairs|);
    assert out == Docids(top[..k]);
    forall d, i | d in docids && d in rev && d !in out && 0 <= i < |out|
      ensures Le(Entry(rev[d], d), Entry(rev[out[i]], out[i]))
    {
      TopLeftOut(docids, rev, pairs, top, k, d);
    }
  }

  // ---------------------------------------------------------------------------
  // _timsort

  /** What `_timsort` yields, pair by pair: the `i`-th docid and its value are the
      `i`-th pair of the stable sort of `nsort`'s pairs. */
  lemma TimsortPairs(rev: map<int, int>, docids: seq<int>, limit: Option<int>, reverse: bool, out: seq<int>)
    requires out == TimsortSpec(rev, docids, limit, reverse)
    ensures |out| <= |NSort(docids, rev)|
    ensures Bound(limit).None? || Bound(limit).value >= |NSort(docids, rev)| ==> |out| == |NSort(docids, rev)|
    ensures forall i :: 0 <= i < |out| ==>
      out[i] in docids && out[i] in rev && Entry(rev[out[i]], out[i]) == StableSort(NSort(docids, rev), reverse)[i]
  {
    var pairs := NSort(docids, rev);
    var sorted := StableSort(pairs, reverse);
    StableSortSorts(pairs, reverse);
    TopCandidates(docids, rev, pairs, sorted);
    assert out == Docids(sorted)[..|out|];
    forall i | 0 <= i < |out| ensures out[i] in docids && out[i] in rev && Entry(rev[out[i]], out[i]) == sorted[i] {
      assert out[i] == sorted[i].docid;
    }
  }

  /** `_timsort` yields candidates the index holds, sorted by value (descending
      when `reverse`), and no more than the limit lets through. */
  lemma TimsortYieldsOrderedCandidates(rev: map<int, int>, docids: seq<int>, limit: Option<int>, reverse: bool, out: seq<int>)
    requires out == TimsortSpec(rev, docids, limit, reverse)
    ensures Bound(limit).Some? ==> |out| <= Bound(limit).value
    ensures forall i :: 0 <= i < |out| ==> out[i] in docids && out[i] in rev
    ensures forall i, j :: 0 <= i < j < |out| ==>
      InOrder(Entry(rev[out[i]], out[i]), Entry(rev[out[j]], out[j]), reverse)
  {
    var sorted := StableSort(NSort(docids, rev), reverse);
    StableSortSorts(NSort(docids, rev), reverse);
    TimsortPairs(rev, docids, limit, reverse, out);
    forall i, j | 0 <= i < j < |out| ensures InOrder(Entry(rev[out[i]], out[i]), Entry(rev[out[j]], out[j]), reverse) {
      assert InOrder(sorted[i], sorted[j], reverse);
    }
  }

  /** When the limit does not bind, `_timsort` yields every candidate the index
      holds (and, by TimsortYieldsOrderedCandidates, nothing else). */
  lemma TimsortYieldsAll(rev: map<int, int>, docids: seq<int>, limit: Option<int>, reverse: bool, out: seq<int>)
    requires out == TimsortSpec(rev, docids, limit, reverse)
    requires Bound(limit).None? || Bound(limit).value >= |NSort(docids, rev)|
    ensures forall d :: d in docids && d in rev ==> d in out
  {
    StableSortSorts(NSort(docids, rev), reverse);
    TimsortPairs(rev, docids, limit, reverse, out);
    EveryCandidateFound(docids, rev, StableSort(NSort(docids, rev), reverse), out);
  }

  /** Docids read off all of a rearrangement of `nsort`'s pairs include every
      indexed candidate. */
  lemma EveryCandidateFound(docids: seq<int>, rev: map<int, int>, top: seq<Entry>, out: seq<int>)
    requires multiset(top) == multiset(NSort(docids, rev)) && |out| == |top|
    requires forall i :: 0 <= i < |out| ==> out[i] in rev && Entry(rev[out[i]], out[i]) == top[i]
    ensures forall d :: d in docids && d in rev ==> d in out
  {
    forall d | d in docids && d in rev ensures d in out {
      NSortHas(docids, rev, d);
      var m := PositionIn(top, NSort(docids, rev), Entry(rev[d], d));
      assert Entry(rev[out[m]], out[m]) == top[m];
    }
  }


  /** Ties keep the candidates' order: for every value, the docids `_timsort`
      yields with that value come in the order `nsort` lists them, i.e. the order
      of `docids` (a prefix of it when the limit cuts the group). */
  lemma TimsortKeepsCandidateOrder(rev: map<int, int>, docids: seq<int>, limit: Option<int>, reverse: bool, out: seq<int>)
    requires out == TimsortSpec(rev, docids, limit, reverse)
    ensures forall v :: WithValue(NSort(out, rev), v) <= WithValue(NSort(docids, rev), v)
  {
    var pairs := NSort(docids, rev);
    var sorted := StableSort(pairs, reverse);
    TimsortOutPairs(rev, docids, limit, reverse, out);
    forall v ensures WithValue(NSort(out, rev), v) <= WithValue(pairs, v) {
      WithValuePrefix(sorted, |out|, v);
      StableSortIsStable(pairs, reverse, v);
    }
  }

  /** The pairs of what `_timsort` yields are the first ones of the stable sort. */
  lemma TimsortOutPairs(rev: map<int, int>, docids: seq<int>, limit: Option<int>, reverse: bool, out: seq<int>)
    requires out == TimsortSpec(rev, docids, limit, reverse)
    ensures |out| <= |StableSort(NSort(docids, rev), reverse)|
    ensures NSort(out, rev) == StableSort(NSort(docids, rev), reverse)[..|out|]
  {
    var top := StableSort(NSort(docids, rev), reverse)[..|out|];
    TimsortPairs(rev, docids, limit, reverse, out);
    NSortOfPairs(top, out, rev);
  }


  /** The pairs with value `v` in a prefix are a prefix of those in the whole. */
  lemma WithValuePrefix(s: seq<Entry>, k: nat, v: int)
    requires k <= |s|
    ensures WithValue(s[..k], v) <= WithValue(s, v)
  {
    assert s == s[..k] + s[k..];
    WithValueAppend(s[..k], s[k..], v);
  }

  /** `nsort` over the docids `ds` of indexed pairs gives those pairs back. */
  lemma {:induction false} NSortOfPairs(t: seq<Entry>, ds: seq<int>, rev: map<int, int>)
    requires |ds| == |t|
    requires forall i :: 0 <= i < |t| ==> ds[i] == t[i].docid && t[i].docid in rev && t[i].value == rev[t[i].docid]
    ensures NSort(ds, rev) == t
  {
    if t != [] {
      var n := |t| - 1;
      NSortOfPairs(t[..n], ds[..n], rev);
      assert t == t[..n] + [t[n]];
    }
  }



  // ---------------------------------------------------------------------------
  // sort, end to end

  /** Whatever algorithm it picks, `sort` on a consistent index yields at most
      `limit` docids, each of them a candidate the index holds. */
  lemma SortYieldsIndexedCandidates(rev: map<int, int>, fwd: map<int, set<int>>, numDocs: int, docids: seq<int>,
                                    reverse: bool, limit: Option<int>, sortType: Option<string>, out: seq<int>)
    requires Consistent(rev, fwd)
    requires SortSpec(rev, fwd, numDocs, docids, reverse, limit, sortType) == Ok(out)
    ensures limit.Some? ==> |out| <= limit.value
    ensures forall i :: 0 <= i < |out| ==> out[i] in docids && out[i] in rev
  {
    if docids != [] && numDocs != 0 {
      var plan := Plan(reverse, |docids|, numDocs, limit, sortType);
      assert plan.Ok?;
      match plan.value
      case FwScan =>
        ScanYieldsOrderedCandidates(rev, fwd, docids, limit, out);
      case NBest =>
        if reverse {
          assert NBestDescending(rev, docids, limit) == Ok(out);
          NBestDescendingPairs(rev, docids, limit.value, out);
        } else {
          assert NBestAscendingSpec(rev, docids, limit) == Ok(out);
          NBestAscendingPairs(rev, docids, limit.value, out);
        }
      case TimSort =>
        TimsortYieldsOrderedCandidates(rev, docids, limit, reverse, out);
    }
  }

  /** Whatever algorithm it picks, `sort` on a consistent index yields docids in
      order of their values: non-decreasing, or non-increasing when `reverse`. */
  lemma SortYieldsOrdered(rev: map<int, int>, fwd: map<int, set<int>>, numDocs: int, docids: seq<int>,
                          reverse: bool, limit: Option<int>, sortType: Option<string>, out: seq<int>)
    requires Consistent(rev, fwd)
    requires SortSpec(rev, fwd, numDocs, docids, reverse, limit, sortType) == Ok(out)
    ensures forall i :: 0 <= i < |out| ==> out[i] in rev
    ensures forall i, j :: 0 <= i < j < |out| ==> InOrder(Entry(rev[out[i]], out[i]), Entry(rev[out[j]], out[j]), reverse)
  {
    SortYieldsIndexedCandidates(rev, fwd, numDocs, docids, reverse, limit, sortType, out);
    if docids != [] && numDocs != 0 {
      var plan := Plan(reverse, |docids|, numDocs, limit, sortType);
      assert plan.Ok?;
      match plan.value
      case FwScan =>
        ScanYieldsOrderedCandidates(rev, fwd, docids, limit, out);
      case NBest =>
        if reverse {
          NBestDescendingOrdered(rev, docids, limit.value);
        } else {
          assert NBestAscendingSpec(rev, docids, limit) == Ok(out);
          NBestAscendingOrdered(rev, docids, limit.value, out);
        }
      case TimSort =>
        TimsortYieldsOrderedCandidates(rev, docids, limit, reverse, out);
    }
  }

  /** With no candidates, or on an empty index, `sort` yields nothing, unless the
      limit is below one, which it rejects first. */
  lemma SortValidates(rev: map<int, int>, fwd: map<int, set<int>>, numDocs: int, docids: seq<int>,
                      reverse: bool, limit: Option<int>, sortType: Option<string>)
    ensures SortSpec(rev, fwd, numDocs, docids, reverse, limit, sortType).Err? &&
            SortSpec(rev, fwd, numDocs, docids, reverse, limit, sortType).error == LimitTooSmall
            <==> limit.Some? && limit.value < 1
    ensures (limit.None? || limit.value >= 1) && (docids == [] || numDocs == 0) ==>
            SortSpec(rev, fwd, numDocs, docids, reverse, limit, sortType) == Ok([])
  {
    if !(limit.Some? && limit.value < 1) && docids != [] && numDocs != 0 {
      var r := DirectedSortSpec(rev, fwd, docids, reverse, limit, numDocs, sortType);
      match Plan(reverse, |docids|, numDocs, limit, sortType)
      case Err(e) =>
        assert e != LimitTooSmall;
      case Ok(a) =>
        assert r.Err? ==> r.error == NBestWithoutLimit;
    }
  }

  /** The middle docratio band of the ascending table: an unforced ascending
      request with a limit of at least 300 and `.015625 < docratio <= .25` is
      answered by a forward scan when a live band's limitratio threshold holds,
      and otherwise raises ValueError('Unknown sort type None') instead of
      sorting. */
  lemma MiddleBandChoice(rev: map<int, int>, fwd: map<int, set<int>>, numDocs: int, docids: seq<int>, n: int)
    requires docids != [] && numDocs != 0 && n >= 300
    requires 0.015625 < Ratio(|docids|, numDocs) <= 0.25
    ensures SortSpec(rev, fwd, numDocs, docids, false, Some(n), None) ==
      if LiveBand(Ratio(|docids|, numDocs), Ratio(|docids|, n)) then Ok(ScanSpec(fwd, docids, Some(n)))
      else Err(UnknownSortType(None))
  {
    assert Plan(false, |docids|, numDocs, Some(n), None) ==
      if LiveBand(Ratio(|docids|, numDocs), Ratio(|docids|, n)) then Ok(FwScan) else Err(UnknownSortType(None));
  }

  /** Below the first live band, `.015625 < docratio <= .0313`, the only band
      written for it is the dead one, so an unforced ascending request with a
      limit of at least 300 there always raises, whatever the limitratio. */
  lemma LowMiddleBandRaises(rev: map<int, int>, fwd: map<int, set<int>>, numDocs: int, docids: seq<int>, n: int)
    requires docids != [] && numDocs != 0 && n >= 300
    requires 0.015625 < Ratio(|docids|, numDocs) <= 0.0313
    ensures SortSpec(rev, fwd, numDocs, docids, false, Some(n), None) == Err(UnknownSortType(None))
  {
    MiddleBandChoice(rev, fwd, numDocs, docids, n);
  }

  /** The gap is reached: a limit of 1000 over 1000 candidates in an index of
      20000 documents (docratio 0.05, limitratio 1) meets no threshold. */
  lemma MiddleBandRaises(rev: map<int, int>, fwd: map<int, set<int>>, docids: seq<int>)
    requires |docids| == 1000
    ensures SortSpec(rev, fwd, 20000, docids, false, Some(1000), None) == Err(UnknownSortType(None))
  {
    assert Ratio(1000, 20000) == 0.05;
    assert Ratio(1000, 1000) == 1.0;
    MiddleBandChoice(rev, fwd, 20000, docids, 1000);
  }

  // ---------------------------------------------------------------------------
  // The same candidates from every strategy

  /** A sequence without repeated elements. */
  predicate Distinct(s: seq<int>) {
    forall i, j :: 0 <= i < j < |s| ==> s[i] != s[j]
  }

  lemma {:induction false} ElementsBound(s: seq<int>)
    ensures |set x | x in s| <= |s|
  {
    if s != [] {
      ElementsBound(s[1..]);
      assert (set x | x in s) == {s[0]} + (set x | x in s[1..]);
    }
  }

  lemma {:induction false} DistinctElements(s: seq<int>)
    requires Distinct(s)
    ensures |set x | x in s| == |s|
  {
    if s != [] {
      assert Distinct(s[1..]) by {
        forall i, j | 0 <= i < j < |s| - 1 ensures s[1..][i] != s[1..][j] {
          assert s[1..][i] == s[i + 1] && s[1..][j] == s[j + 1];
        }
      }
      DistinctElements(s[1..]);
      assert (set x | x in s) == {s[0]} + (set x | x in s[1..]);
      assert s[0] !in s[1..] by {
        forall j | 0 <= j < |s| - 1 ensures s[1..][j] != s[0] {
          assert s[1..][j] == s[j + 1];
        }
      }
    }
  }

  lemma {:induction false} SubsetCard(a: set<int>, b: set<int>)
    requires a <= b
    ensures |a| <= |b|
    decreases |a|
  {
    if a != {} {
      var x := Pick(a);
      SubsetCard(a - {x}, b - {x});
    }
  }

  /** Distinct elements drawn from `t` are no more than `t` has. */
  lemma Pigeonhole(s: seq<int>, t: seq<int>)
    requires Distinct(s) && forall d :: d in s ==> d in t
    ensures |s| <= |t|
  {
    DistinctElements(s);
    ElementsBound(t);
    SubsetCard(set x | x in s, set x | x in t);
  }

  /** Whatever algorithm it picks, `sort` on a consistent index whose limit does
      not bind (none, or at least the number of candidates) yields exactly the
      candidates the index holds. */
  lemma SortYieldsAllCandidates(rev: map<int, int>, fwd: map<int, set<int>>, numDocs: int, docids: seq<int>,
                                reverse: bool, limit: Option<int>, sortType: Option<string>, out: seq<int>)
    requires Consistent(rev, fwd) && numDocs == |rev|
    requires limit.None? || limit.value >= |docids|
    requires SortSpec(rev, fwd, numDocs, docids, reverse, limit, sortType) == Ok(out)
    ensures forall d :: d in out <==> d in docids && d in rev
  {
    SortYieldsIndexedCandidates(rev, fwd, numDocs, docids, reverse, limit, sortType, out);
    if docids != [] && numDocs == 0 {
      assert rev.Keys == {};
    } else if docids != [] {
      var plan := Plan(reverse, |docids|, numDocs, limit, sortType);
      assert plan.Ok?;
      match plan.value
      case FwScan =>
        ScanYieldsAll(rev, fwd, docids, limit, out);
      case NBest =>
        if reverse {
          assert NBestDescending(rev, docids, limit) == Ok(out);
          NBestDescendingYieldsAll(rev, docids, limit.value, out);
        } else {
          assert NBestAscendingSpec(rev, docids, limit) == Ok(out);
          NBestAscendingYieldsAll(rev, docids, limit.value, out);
        }
      case TimSort =>
        TimsortYieldsAll(rev, docids, limit, reverse, out);
    }
  }

  /** Whatever algorithm it picks, `sort` yields no docid twice when the
      candidates hold none twice. With SortYieldsAllCandidates: for duplicate-free
      candidates and a limit that does not bind, every strategy yields the same
      docids, each once. */
  lemma SortYieldsNoDuplicates(rev: map<int, int>, fwd: map<int, set<int>>, numDocs: int, docids: seq<int>,
                               reverse: bool, limit: Option<int>, sortType: Option<string>, out: seq<int>)
    requires Consistent(rev, fwd) && Distinct(docids)
    requires SortSpec(rev, fwd, numDocs, docids, reverse, limit, sortType) == Ok(out)
    ensures Distinct(out)
  {
    if !(limit.Some? && limit.value < 1) && docids != [] && numDocs != 0 {
      var pairs := NSort(docids, rev);
      var plan := Plan(reverse, |docids|, numDocs, limit, sortType);
      assert plan.Ok?;
      match plan.value
      case FwScan =>
        ScanYieldsOrderedCandidates(rev, fwd, docids, limit, out);
        forall i, j | 0 <= i < j < |out| ensures out[i] != out[j] {
          assert Lt(Entry(rev[out[i]], out[i]), Entry(rev[out[j]], out[j]));
        }
      case NBest =>
        if reverse {
          assert NBestDescending(rev, docids, limit) == Ok(out);
          NBestDescendingPairs(rev, docids, limit.value, out);
          PairwiseDistinct(docids, rev, SortDesc(pairs), out);
        } else {
          assert NBestAscendingSpec(rev, docids, limit) == Ok(out);
          NBestAscendingPairs(rev, docids, limit.value, out);
          SortAscSorts(pairs);
          PairwiseDistinct(docids, rev, SortAsc(pairs), out);
        }
      case TimSort =>
        TimsortPairs(rev, docids, limit, reverse, out);
        StableSortSorts(pairs, reverse);
        PairwiseDistinct(docids, rev, StableSort(pairs, reverse), out);
    }
  }

  /** Docids read off a rearrangement of `nsort`'s pairs are distinct when the
      candidates are. */
  lemma PairwiseDistinct(docids: seq<int>, rev: map<int, int>, top: seq<Entry>, out: seq<int>)
    requires Distinct(docids) && multiset(top) == multiset(NSort(docids, rev)) && |out| <= |top|
    requires forall i :: 0 <= i < |out| ==> out[i] in rev && Entry(rev[out[i]], out[i]) == top[i]
    ensures Distinct(out)
  {
    NSortOnce(docids, rev);
    forall i, j | 0 <= i < j < |out| ensures out[i] != out[j] {
      if out[i] == out[j] {
        TwiceCounted(top, i, j);
        assert false;
      }
    }
  }

  /** With distinct candidates, `nsort` lists each pair at most once. */
  lemma {:induction false} NSortOnce(docids: seq<int>, rev: map<int, int>)
    requires Distinct(docids)
    ensures forall e :: multiset(NSort(docids, rev))[e] <= 1
  {
    if docids != [] {
      var init, d := docids[..|docids| - 1], docids[|docids| - 1];
      assert Distinct(init) by {
        forall i, j | 0 <= i < j < |init| ensures init[i] != init[j] {
          assert init[i] == docids[i] && init[j] == docids[j];
        }
      }
      NSortOnce(init, rev);
      NSortMembers(init, rev);
      assert d !in init by {
        forall i | 0 <= i < |init| ensures init[i] != d {
          assert init[i] == docids[i];
        }
      }
    }
  }

  /** An element at two places is counted at least twice. */
  lemma TwiceCounted(s: seq<Entry>, i: nat, j: nat)
    requires i < j < |s| && s[i] == s[j]
    ensures multiset(s)[s[i]] >= 2
  {
    assert s == s[..j] + s[j..];
    assert s[i] in s[..j] && s[j..][0] == s[j];
  }

  /** When the limit does not bind, `nbest_ascending` yields every indexed candidate. */
  lemma NBestAscendingYieldsAll(rev: map<int, int>, docids: seq<int>, n: int, out: seq<int>)
    requires NBestAscendingSpec(rev, docids, Some(n)) == Ok(out) && n >= |NSort(docids, rev)|
    ensures forall d :: d in out <==> d in docids && d in rev
  {
    NBestAscendingPairs(rev, docids, n, out);
    SortAscSorts(NSort(docids, rev));
    EveryCandidateFound(docids, rev, SortAsc(NSort(docids, rev)), out);
  }


  /** When the limit does not bind, `nbest_descending` yields every indexed candidate. */
  lemma NBestDescendingYieldsAll(rev: map<int, int>, docids: seq<int>, n: int, out: seq<int>)
    requires NBestDescending(rev, docids, Some(n)) == Ok(out) && n >= |NSort(docids, rev)|
    ensures forall d :: d in out <==> d in docids && d in rev
  {
    NBestDescendingPairs(rev, docids, n, out);
    EveryCandidateFound(docids, rev, SortDesc(NSort(docids, rev)), out);
  }

}
