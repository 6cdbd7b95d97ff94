/** The field index of a catalog and its sort engine: a forward index from values
    to docid sets, a reverse index from docids to values, a document count, and the
    three sort algorithms with the facade that validates a request and picks one. */
module FieldIndex {
  import opened Wrappers
  import opened Pairs
  import opened Strategy

  // ---------------------------------------------------------------------------
  // The index as values

  /** What the index keeps true between `_fwd_index` and `_rev_index`: a docid is
      in the forward set of a value exactly when the reverse index maps it to that
      value, and no forward set is empty. */
  ghost predicate Consistent(rev: map<int, int>, fwd: map<int, set<int>>) {
    && (forall d :: d in rev ==> rev[d] in fwd && d in fwd[rev[d]])
    && (forall v, d :: v in fwd && d in fwd[v] ==> d in rev && rev[d] == v)
    && (forall v :: v in fwd ==> fwd[v] != {})
  }

  /** The forward index after `docid`, indexed under `value`, is taken out of it:
      the docid leaves the value's set and an emptied set is deleted. When the value
      has no set, or its set lacks the docid, the lookup raises KeyError, which is
      swallowed, and nothing changes. */
  function Unlinked(fwd: map<int, set<int>>, value: int, docid: int): map<int, set<int>> {
    if value in fwd && docid in fwd[value] then
      if fwd[value] - {docid} == {} then fwd - {value} else fwd[value := fwd[value] - {docid}]
    else fwd
  }

  /** The pairs the forward index holds, one per (value, docid in its set). */
  ghost function PairSet(fwd: map<int, set<int>>): (s: set<Entry>)
    ensures forall e :: e in s <==> e.value in fwd && e.docid in fwd[e.value]
  {
    set v, d | v in fwd && d in fwd[v] :: Entry(v, d)
  }

  /** The order in which `for set in fwd_index.values(): for docid in set` visits
      the index: values ascending, then docids ascending within a value's set. */
  ghost function IndexStream(fwd: map<int, set<int>>): seq<Entry> {
    Enum(PairSet(fwd))
  }

  // ---------------------------------------------------------------------------
  // Helpers shared by the algorithms

  /** `nsort`: the pair `(rev_index[docid], docid)` for every candidate the index
      holds, in candidate order; candidates missing from the index are skipped
      (lemma NSortMembers). */
  function NSort(docids: seq<int>, rev: map<int, int>): (r: seq<Entry>)
    ensures |r| <= |docids|
  {
    if docids == [] then []
    else
      var init, d := docids[..|docids| - 1], docids[|docids| - 1];
      NSort(init, rev) + (if d in rev then [Entry(rev[d], d)] else [])
  }

  /** The pairs of `nsort` are exactly those of the indexed candidates. */
  lemma {:induction false} NSortMembers(docids: seq<int>, rev: map<int, int>)
    ensures forall e :: e in NSort(docids, rev) <==> e.docid in docids && e.docid in rev && e.value == rev[e.docid]
  {
    if docids != [] {
      var init, d := docids[..|docids| - 1], docids[|docids| - 1];
      NSortMembers(init, rev);
      assert docids == init + [d];
      forall e ensures e in NSort(docids, rev) <==> e.docid in docids && e.docid in rev && e.value == rev[e.docid] {
        assert e.docid in docids <==> e.docid in init || e.docid == d;
      }
    }
  }

  /** How many docids a loop that stops on `if limit and n >= limit` emits at most:
      no bound for a missing or zero limit, otherwise `limit`, and one for a
      negative limit (the test holds after the first docid). */
  function Bound(limit: Option<int>): Option<nat> {
    if limit.None? || limit.value == 0 then None else Some(Max(limit.value, 1))
  }

  /** The docids such a loop emits out of the sequence it would emit unbounded. */
  function Truncate(s: seq<int>, limit: Option<int>): (r: seq<int>)
    ensures |r| <= |s| && r == s[..|r|]
    ensures Bound(limit).None? || |s| <= Bound(limit).value ==> r == s
    ensures Bound(limit).Some? ==> |r| == Min(|s|, Bound(limit).value)
  {
    if Bound(limit).None? then s
    else
      assert s[..|s|] == s;
      s[..Min(|s|, Bound(limit).value)]
  }

  /** The pairs of `s` whose docid is a candidate (`if docid in docids`). */
  function Matching(s: seq<Entry>, docids: seq<int>): seq<Entry> {
    if s == [] then []
    else Matching(s[..|s| - 1], docids) + (if s[|s| - 1].docid in docids then [s[|s| - 1]] else [])
  }

  /** The elements of `s` not in `missing` (`if docid in _missing: continue`). */
  function Keep(s: seq<int>, missing: seq<int>): seq<int> {
    if s == [] then []
    else Keep(s[..|s| - 1], missing) + (if s[|s| - 1] in missing then [] else [s[|s| - 1]])
  }

  // ---------------------------------------------------------------------------
  // What each algorithm yields

  /** `scan_forward`: the candidates in index order, up to the limit. */
  ghost function ScanSpec(fwd: map<int, set<int>>, docids: seq<int>, limit: Option<int>): seq<int> {
    Truncate(Docids(Matching(IndexStream(fwd), docids)), limit)
  }

  /** `nbest_ascending`: the docids of the first `limit` pairs in sorted order. */
  function NBestAscendingSpec(rev: map<int, int>, docids: seq<int>, limit: Option<int>): Result<seq<int>, Failure> {
    if limit.None? then Err(NBestWithoutLimit)
    else if limit.value < 0 then Err(NegativeSliceStop)
    else
      var pairs := NSort(docids, rev);
      Ok(Docids(SortAsc(pairs)[..Min(limit.value, |pairs|)]))
  }

  /** `nbest_descending`: `heapq.nlargest(limit, nsort(docids, rev_index))`, i.e. the
      `limit` largest pairs in descending order (none for a limit below one).
      Properties.NBestDescendingLargest states what the pairs are. */
  function NBestDescending(rev: map<int, int>, docids: seq<int>, limit: Option<int>): (r: Result<seq<int>, Failure>)
    ensures limit.None? <==> r.Err?
    ensures r.Err? ==> r.error == NBestWithoutLimit
    ensures r.Ok? ==> |r.value| == Min(Max(limit.value, 0), |NSort(docids, rev)|)
  {
    if limit.None? then Err(NBestWithoutLimit)
    else
      var pairs := NSort(docids, rev);
      Ok(Docids(SortDesc(pairs)[..Min(Max(limit.value, 0), |pairs|)]))
  }

  /** `_timsort`: the indexed candidates stably sorted by value, up to the limit. */
  function TimsortSpec(rev: map<int, int>, docids: seq<int>, limit: Option<int>, reverse: bool): seq<int> {
    Truncate(Docids(StableSort(NSort(docids, rev), reverse)), limit)
  }

  /** What the chosen algorithm yields. */
  ghost function RunSpec(rev: map<int, int>, fwd: map<int, set<int>>, a: Algorithm,
                         docids: seq<int>, limit: Option<int>, reverse: bool): Result<seq<int>, Failure> {
    match a
    case FwScan => Ok(ScanSpec(fwd, docids, limit))
    case NBest => if reverse then NBestDescending(rev, docids, limit) else NBestAscendingSpec(rev, docids, limit)
    case TimSort => Ok(TimsortSpec(rev, docids, limit, reverse))
  }

  /** `sort_forward` and `sort_reverse`: choose (unless forced), then run. */
  ghost function DirectedSortSpec(rev: map<int, int>, fwd: map<int, set<int>>, docids: seq<int>, reverse: bool,
                                  limit: Option<int>, numdocs: int, sortType: Option<string>): Result<seq<int>, Failure> {
    match Plan(reverse, |docids|, numdocs, limit, sortType)
    case Err(e) => Err(e)
    case Ok(a) => RunSpec(rev, fwd, a, docids, limit, reverse)
  }

  /** `sort`: validate the limit, return early on no candidates or an empty index,
      then sort in the requested direction. */
  ghost function SortSpec(rev: map<int, int>, fwd: map<int, set<int>>, numDocs: int, docids: seq<int>,
                          reverse: bool, limit: Option<int>, sortType: Option<string>): Result<seq<int>, Failure> {
    if limit.Some? && limit.value < 1 then Err(LimitTooSmall)
    else if docids == [] || numDocs == 0 then Ok([])
    else DirectedSortSpec(rev, fwd, docids, reverse, limit, numDocs, sortType)
  }

  // ---------------------------------------------------------------------------
  // The index object

  class CatalogFieldIndex {
    /** `_rev_index`: docid -> value. */
    var rev: map<int, int>
    /** `_fwd_index`: value -> the set of docids indexed under it. */
    var fwd: map<int, set<int>>
    /** `_num_docs`: the number of indexed documents. */
    var numDocs: int

    ghost predicate Valid()
      reads this
    {
      Consistent(rev, fwd) && numDocs == |rev|
    }

    /** An empty index, as the base class's `clear()` leaves it. */
    constructor ()
      ensures Valid() && rev == map[] && fwd == map[] && numDocs == 0
    {
      rev, fwd, numDocs := map[], map[], 0;
    }

    /** `unindex_doc`: forget `docid`. Nothing happens for a docid that is not
        indexed; otherwise it leaves both indexes and the count drops by one. */
    method UnindexDoc(docid: int)
      modifies this
      ensures docid !in old(rev) ==> rev == old(rev) && fwd == old(fwd) && numDocs == old(numDocs)
      ensures docid in old(rev) ==>
        && rev == old(rev) - {docid}
        && fwd == Unlinked(old(fwd), old(rev)[docid], docid)
        && numDocs == old(numDocs) - 1
      ensures old(Valid()) ==> Valid()
      ensures old(Valid()) ==> docid !in rev && forall v :: v in fwd ==> docid !in fwd[v]
    {
      if docid !in rev {
        return; // not in index
      }
      var value := rev[docid];
      var index := fwd;
      ghost var unlinked := Unlinked(index, value, docid);
      if value in index && docid in index[value] {
        var members := index[value] - {docid};
        if members == {} {
          index := index - {value}; // an emptied set is deleted
        } else {
          index := index[value := members];
        }
      }
      // otherwise the lookup or the removal raised KeyError, which is swallowed
      assert index == unlinked;
      UnindexKeepsConsistent(rev, fwd, docid);
      // `del rev_index[docid]` comes first in the source; nothing reads the
      // indexes in between, so the three updates are made together
      rev, fwd, numDocs := rev - {docid}, index, numDocs - 1;
    }

    /** `sort`: the entry point. */
    method Sort(docids: seq<int>, reverse: bool, limit: Option<int>, sortType: Option<string>)
      returns (r: Result<seq<int>, Failure>)
      ensures r == SortSpec(rev, fwd, numDocs, docids, reverse, limit, sortType)
    {
      if limit.Some? && limit.value < 1 {
        return Err(LimitTooSmall);
      }
      if docids == [] {
        return Ok([]);
      }
      var numdocs := numDocs;
      if numdocs == 0 {
        return Ok([]);
      }
      if reverse {
        r := SortReverse(docids, limit, numdocs, sortType);
      } else {
        r := SortForward(docids, limit, numdocs, sortType);
      }
    }

    /** `sort_forward`: pick an ascending algorithm unless forced, then run it. */
    method SortForward(docids: seq<int>, limit: Option<int>, numdocs: int, sortType: Option<string>)
      returns (r: Result<seq<int>, Failure>)
      ensures r == DirectedSortSpec(rev, fwd, docids, false, limit, numdocs, sortType)
    {
      match Plan(false, |docids|, numdocs, limit, sortType)
      case Err(e) =>
        r := Err(e);
      case Ok(FwScan) =>
        var out := ScanForward(docids, limit);
        r := Ok(out);
      case Ok(NBest) =>
        r := NBestAscending(docids, limit);
      case Ok(TimSort) =>
        var out := Timsort(docids, limit, false);
        r := Ok(out);
    }

    /** `sort_reverse`: pick a descending algorithm unless forced, then run it. */
    method SortReverse(docids: seq<int>, limit: Option<int>, numdocs: int, sortType: Option<string>)
      returns (r: Result<seq<int>, Failure>)
      ensures r == DirectedSortSpec(rev, fwd, docids, true, limit, numdocs, sortType)
    {
      match Plan(true, |docids|, numdocs, limit, sortType)
      case Err(e) =>
        r := Err(e);
      case Ok(FwScan) =>
        assert false;
      case Ok(NBest) =>
        r := NBestDescending(rev, docids, limit);
      case Ok(TimSort) =>
        var out := Timsort(docids, limit, true);
        r := Ok(out);
    }

    /** `scan_forward`: walk the forward index in value order, emit the candidates,
        stop once `limit` of them are out. */
    method ScanForward(docids: seq<int>, limit: Option<int>) returns (out: seq<int>)
      ensures out == ScanSpec(fwd, docids, limit)
    {
      ghost var all := PairSet(fwd);
      ghost var seen: seq<Entry> := [];
      ghost var pending := all;
      out := [];
      var n := 0;
      var values := fwd.Keys;
      while values != {}
        invariant values <= fwd.Keys
        invariant ScanInv(all, seen, pending)
        invariant PendingValues(all, pending, values)
        invariant out == Docids(Matching(seen, docids)) && n == |out|
        invariant Bound(limit).Some? ==> n < Bound(limit).value
        decreases values
      {
        IntMinExists(values);
        var v :| v in values && forall w :: w in values ==> v <= w;
        var members := fwd[v];
        ScanEnterValue(fwd, all, pending, values, v);
        while members != {}
          invariant members <= fwd[v]
          invariant ScanInv(all, seen, pending)
          invariant PendingMembers(all, pending, values - {v}, v, members)
          invariant out == Docids(Matching(seen, docids)) && n == |out|
          invariant Bound(limit).Some? ==> n < Bound(limit).value
          decreases members
        {
          IntMinExists(members);
          var docid :| docid in members && forall x :: x in members ==> docid <= x;
          ghost var e := Entry(v, docid);
          ScanLeast(fwd, all, pending, values, v, members, e);
          ScanVisit(all, seen, pending, e);
          MatchingSnoc(seen, e, docids);
          ScanPass(all, pending, values - {v}, v, members, e);
          seen, pending := seen + [e], pending - {e};
          if docid in docids {
            out := out + [docid];
            n := n + 1;
            if limit.Some? && limit.value != 0 && n >= limit.value {
              ScanStopsAtLimit(all, seen, pending, docids, limit);
              return;
            }
          }
          members := members - {docid};
        }
        ScanLeaveValue(all, pending, values, v);
        values := values - {v};
      }
      StrictUnique(seen, IndexStream(fwd));
    }

    /** `nbest_ascending`: keep the `limit` smallest pairs seen so far in a sorted
        buffer, inserting a smaller pair with `insort` and dropping the largest. */
    method NBestAscending(docids: seq<int>, limit: Option<int>) returns (r: Result<seq<int>, Failure>)
      ensures r == NBestAscendingSpec(rev, docids, limit)
    {
      if limit.None? {
        return Err(NBestWithoutLimit);
      }
      if limit.value < 0 {
        return Err(NegativeSliceStop);
      }
      var h := NSort(docids, rev);
      var result := NSmallest(h, limit.value);
      r := Ok(Docids(result));
    }

    /** `_timsort` (behind `timsort_ascending` and `timsort_descending`): sort the
        candidates by their value, skip the ones the index lacks, stop at `limit`. */
    method Timsort(docids: seq<int>, limit: Option<int>, reverse: bool) returns (out: seq<int>)
      ensures out == TimsortSpec(rev, docids, limit, reverse)
    {
      // the key function `get`, called once per candidate, records the misses
      var keyed: seq<Entry> := [];
      var missing: seq<int> := [];
      var i := 0;
      while i < |docids|
        invariant 0 <= i <= |docids|
        invariant keyed == NSort(docids[..i], rev)
        invariant forall m :: 0 <= m < |missing| ==> missing[m] !in rev
      {
        var d := docids[i];
        NSortSnoc(docids, i, rev);
        if d in rev {
          keyed := keyed + [Entry(rev[d], d)];
        } else {
          missing := missing + [d];
        }
        i := i + 1;
      }
      assert docids[..i] == docids;
      // Python 2 orders the marker key of a missing docid after every number, and
      // a stable reverse sort keeps the markers' input order
      var present := Docids(StableSort(keyed, reverse));
      var order := if reverse then missing + present else present + missing;
      KeepSorted(docids, keyed, missing, reverse, rev);
      out := Emit(order, missing, limit);
    }
  }

  /** The selection loop of `nbest_ascending` (lifted from `heapq.nsmallest`): keep
      the `limit` smallest pairs seen so far in a sorted buffer, inserting a smaller
      pair with `insort` and dropping the largest. */
  method NSmallest(h: seq<Entry>, limit: nat) returns (result: seq<Entry>)
    ensures result == SortAsc(h)[..Min(limit, |h|)]
  {
    var k := Min(limit, |h|);
    result := SortAsc(h[..k]);
    if result == [] {
      return; // nothing to yield
    }
    assert |result| == k && result[..k] == result;
    assert SmallestSeen(h, k, k, result);
    var los := result[|result| - 1]; // largest of the n smallest
    var i := k;
    while i < |h|
      invariant 1 <= k <= i <= |h|
      invariant |result| == k && los == result[k - 1]
      invariant SmallestSeen(h, i, k, result)
    {
      var elem := h[i];
      ghost var prev, prevLos := result, los;
      if !Le(los, elem) {
        result := Insort(result, elem);
        result := result[..k]; // pop()
        los := result[k - 1];
      }
      var next := i + 1;
      NBestStep(h, i, next, k, prev, prevLos, result);
      i := next;
    }
    SortedWhole(h, i, result, k);
  }

  /** The loop of `_timsort` over the sorted docids: skip the missing ones, stop
      once `limit` docids are out. */
  method Emit(order: seq<int>, missing: seq<int>, limit: Option<int>) returns (out: seq<int>)
    ensures out == Truncate(Keep(order, missing), limit)
  {
    out := [];
    var n := 0;
    var j := 0;
    while j < |order|
      invariant 0 <= j <= |order|
      invariant out == Keep(order[..j], missing) && n == |out|
      invariant Bound(limit).Some? ==> n < Bound(limit).value
    {
      var docid := order[j];
      KeepSnoc(order, j, missing);
      j := j + 1;
      if docid in missing {
        continue; // skip docids not in this index
      }
      out := out + [docid];
      n := n + 1;
      if limit.Some? && limit.value != 0 && n >= limit.value {
        KeepPrefix(order, j, missing, limit);
        return;
      }
    }
    assert order[..j] == order;
  }

  // ---------------------------------------------------------------------------
  // Lemmas behind the methods

  lemma NSortSnoc(docids: seq<int>, i: nat, rev: map<int, int>)
    requires i < |docids|
    ensures NSort(docids[..i + 1], rev)
         == NSort(docids[..i], rev) + (if docids[i] in rev then [Entry(rev[docids[i]], docids[i])] else [])
  {
    assert docids[..i + 1][..i] == docids[..i];
  }

  lemma KeepSnoc(s: seq<int>, j: nat, missing: seq<int>)
    requires j < |s|
    ensures Keep(s[..j + 1], missing) == Keep(s[..j], missing) + (if s[j] in missing then [] else [s[j]])
  {
    assert s[..j + 1][..j] == s[..j];
  }

  /** The buffer of `nbest_ascending` after `i` pairs: the `k` smallest of them, in order. */
  ghost predicate SmallestSeen(h: seq<Entry>, i: nat, k: nat, result: seq<Entry>) {
    k <= i <= |h| && result == SortAsc(h[..i])[..k]
  }

  lemma SortedWhole(h: seq<Entry>, i: nat, result: seq<Entry>, k: nat)
    requires i == |h| && SmallestSeen(h, i, k, result)
    ensures result == SortAsc(h)[..k]
  {
    assert h[..i] == h;
  }

  /** Some element of a non-empty set. */
  ghost function Pick<T>(s: set<T>): (x: T)
    requires s != {}
    ensures x in s
  {
    var x :| x in s; x
  }

  /** Every non-empty set of ints has a least element: the least pair of the
      set of pairs `(v, 0)` carries it. */
  lemma IntMinExists(s: set<int>)
    requires s != {}
    ensures exists m :: m in s && forall y :: y in s ==> m <= y
  {
    var tagged := set v | v in s :: Entry(v, 0);
    assert Entry(Pick(s), 0) in tagged;
    MinExists(tagged);
    var e :| e in tagged && forall f :: f in tagged ==> Le(e, f);
    forall y | y in s ensures e.value <= y {
      assert Entry(y, 0) in tagged;
    }
  }


  /** Unindexing a docid keeps the two indexes consistent, leaves the docid in no
      forward set, and drops the reverse index's size by one. */
  lemma UnindexKeepsConsistent(rev: map<int, int>, fwd: map<int, set<int>>, docid: int)
    requires docid in rev
    ensures |rev - {docid}| == |rev| - 1
    ensures Consistent(rev, fwd) ==> Consistent(rev - {docid}, Unlinked(fwd, rev[docid], docid))
    ensures Consistent(rev, fwd) ==>
      forall v :: v in Unlinked(fwd, rev[docid], docid) ==> docid !in Unlinked(fwd, rev[docid], docid)[v]
  {
    assert (rev - {docid}).Keys == rev.Keys - {docid};
    if Consistent(rev, fwd) {
      var value := rev[docid];
      var fwd' := Unlinked(fwd, value, docid);
      var rev' := rev - {docid};
      assert value in fwd && docid in fwd[value];
      forall d | d in rev' ensures rev'[d] in fwd' && d in fwd'[rev'[d]] {
        assert rev'[d] == rev[d] && d != docid;
      }
      forall v, d | v in fwd' && d in fwd'[v] ensures d in rev' && rev'[d] == v {
        assert d in fwd[v] && d != docid;
      }
    }
  }

  /** What the forward scan keeps true: the pairs visited so far are, in strictly
      ascending order, exactly the pairs of the index not yet pending, and each of
      them comes before every pending pair. */
  ghost predicate ScanInv(all: set<Entry>, seen: seq<Entry>, pending: set<Entry>) {
    && StrictlyAscending(seen)
    && (forall e :: e in seen <==> e in all && e !in pending)
    && pending <= all
    && (forall e, f :: e in seen && f in pending ==> Lt(e, f))
  }

  /** The pairs not yet visited are those of the values still to scan. */
  ghost predicate PendingValues(all: set<Entry>, pending: set<Entry>, values: set<int>) {
    forall f :: f in pending <==> f in all && f.value in values
  }

  /** Inside value `v`: the pairs not yet visited are those of the values after
      it and those of `v` whose docid is still in `members`. */
  ghost predicate PendingMembers(all: set<Entry>, pending: set<Entry>, rest: set<int>, v: int, members: set<int>) {
    forall f :: f in pending <==> f in all && (f.value in rest || (f.value == v && f.docid in members))
  }

  /** Starting on the least value: its pending pairs are those of its docid set. */
  lemma ScanEnterValue(fwd: map<int, set<int>>, all: set<Entry>, pending: set<Entry>, values: set<int>, v: int)
    requires all == PairSet(fwd) && v in values && values <= fwd.Keys
    requires PendingValues(all, pending, values)
    ensures PendingMembers(all, pending, values - {v}, v, fwd[v])
  {
  }

  /** Visiting a pair of the current value takes its docid out of `members`. */
  lemma ScanPass(all: set<Entry>, pending: set<Entry>, rest: set<int>, v: int, members: set<int>, e: Entry)
    requires v !in rest && e.value == v
    requires PendingMembers(all, pending, rest, v, members)
    ensures PendingMembers(all, pending - {e}, rest, v, members - {e.docid})
  {
  }

  /** Done with value `v`: what is pending belongs to the values after it. */
  lemma ScanLeaveValue(all: set<Entry>, pending: set<Entry>, values: set<int>, v: int)
    requires PendingMembers(all, pending, values - {v}, v, {})
    ensures PendingValues(all, pending, values - {v})
  {
  }

  /** The least value and, within its set, the least docid make the least pending pair. */
  lemma ScanLeast(fwd: map<int, set<int>>, all: set<Entry>, pending: set<Entry>, values: set<int>,
                  v: int, members: set<int>, e: Entry)
    requires all == PairSet(fwd) && v in fwd && members <= fwd[v]
    requires v in values && forall w :: w in values ==> v <= w
    requires e.value == v && e.docid in members && forall x :: x in members ==> e.docid <= x
    requires PendingMembers(all, pending, values - {v}, v, members)
    ensures e in pending && forall f :: f in pending ==> Le(e, f)
  {
  }

  /** Visiting the least pending pair keeps the scan invariant. */
  lemma ScanVisit(all: set<Entry>, seen: seq<Entry>, pending: set<Entry>, e: Entry)
    requires ScanInv(all, seen, pending)
    requires e in pending && forall f :: f in pending ==> Le(e, f)
    ensures ScanInv(all, seen + [e], pending - {e})
  {
    assert e !in seen;
    var seen' := seen + [e];
    forall i, j | 0 <= i < j < |seen'| ensures Lt(seen'[i], seen'[j]) {
      if j == |seen| {
        assert seen'[i] == seen[i] && seen[i] in seen;
      } else {
        assert seen'[i] == seen[i] && seen'[j] == seen[j];
      }
    }
    forall f, g | f in seen' && g in pending - {e} ensures Lt(f, g) {
      if f != e { assert f in seen; }
    }
  }

  lemma MatchingSnoc(s: seq<Entry>, e: Entry, docids: seq<int>)
    ensures Docids(Matching(s + [e], docids))
         == Docids(Matching(s, docids)) + (if e.docid in docids then [e.docid] else [])
  {
    assert (s + [e])[..|s|] == s;
    DocidsAppend(Matching(s, docids), if e.docid in docids then [e] else []);
  }

  /** One step of `nbest_ascending`: a pair no smaller than the largest kept one
      is passed over, a smaller one is inserted and the largest dropped; either
      way the buffer then holds the `k` smallest pairs seen so far. */
  lemma NBestStep(h: seq<Entry>, i: nat, next: nat, k: nat, result: seq<Entry>, los: Entry, result': seq<Entry>)
    requires 0 < k <= i < |h| && next == i + 1 && |result| == k && SmallestSeen(h, i, k, result)
    requires los == result[|result| - 1]
    requires result' == if Le(los, h[i]) then result else Insort(result, h[i])[..|result|]
    ensures SmallestSeen(h, next, k, result')
  {
    NBestGrow(h, i, next);
    SortAscSorts(h[..i]);
    if Le(los, h[i]) {
      InsortBeyondPrefix(SortAsc(h[..i]), h[i], k);
    } else {
      InsortPrefix(SortAsc(h[..i]), h[i], k);
    }
  }

  lemma NBestGrow(h: seq<Entry>, i: nat, next: nat)
    requires i < |h| && next == i + 1
    ensures SortAsc(h[..next]) == Insort(SortAsc(h[..i]), h[i])
  {
    assert h[..next][..i] == h[..i];
  }

  lemma MatchingAppend(a: seq<Entry>, b: seq<Entry>, docids: seq<int>)
    ensures Matching(a + b, docids) == Matching(a, docids) + Matching(b, docids)
    decreases |b|
  {
    if b != [] {
      var init := b[..|b| - 1];
      assert (a + b)[..|a + b| - 1] == a + init;
      MatchingAppend(a, init, docids);
    } else {
      assert a + b == a;
    }
  }

  /** When the scan reaches its limit, what it emitted is the limit's worth of the
      whole stream's candidates. */
  lemma ScanStopsAtLimit(all: set<Entry>, seen: seq<Entry>, pending: set<Entry>, docids: seq<int>, limit: Option<int>)
    requires ScanInv(all, seen, pending)
    requires Bound(limit).Some? && |Docids(Matching(seen, docids))| == Bound(limit).value
    ensures Docids(Matching(seen, docids)) == Truncate(Docids(Matching(Enum(all), docids)), limit)
  {
    var rest := Enum(all - set e | e in seen);
    EnumSplit(seen, all);
    MatchingAppend(seen, rest, docids);
    DocidsAppend(Matching(seen, docids), Matching(rest, docids));
  }

  lemma KeepAppend(a: seq<int>, b: seq<int>, missing: seq<int>)
    ensures Keep(a + b, missing) == Keep(a, missing) + Keep(b, missing)
    decreases |b|
  {
    if b != [] {
      var init := b[..|b| - 1];
      assert (a + b)[..|a + b| - 1] == a + init;
      KeepAppend(a, init, missing);
    } else {
      assert a + b == a;
    }
  }

  lemma {:induction false} KeepAll(s: seq<int>, missing: seq<int>)
    requires forall i :: 0 <= i < |s| ==> s[i] !in missing
    ensures Keep(s, missing) == s
  {
    if s != [] {
      var init := s[..|s| - 1];
      KeepAll(init, missing);
      assert s == init + [s[|s| - 1]];
    }
  }

  lemma {:induction false} KeepNone(s: seq<int>, missing: seq<int>)
    requires forall i :: 0 <= i < |s| ==> s[i] in missing
    ensures Keep(s, missing) == []
  {
    if s != [] {
      KeepNone(s[..|s| - 1], missing);
    }
  }

  /** Skipping the missing docids leaves exactly the sorted indexed candidates,
      wherever the sort put the missing ones. */
  lemma KeepSorted(docids: seq<int>, keyed: seq<Entry>, missing: seq<int>, reverse: bool, rev: map<int, int>)
    requires keyed == NSort(docids, rev)
    requires forall m :: 0 <= m < |missing| ==> missing[m] !in rev
    ensures Keep(missing + Docids(StableSort(keyed, reverse)), missing) == Docids(StableSort(keyed, reverse))
    ensures Keep(Docids(StableSort(keyed, reverse)) + missing, missing) == Docids(StableSort(keyed, reverse))
  {
    var sorted := StableSort(keyed, reverse);
    var present := Docids(sorted);
    StableSortSorts(keyed, reverse);
    TopCandidates(docids, rev, keyed, sorted);
    forall k | 0 <= k < |present| ensures present[k] !in missing {
      assert present[k] == sorted[k].docid && present[k] in rev;
    }
    KeepAll(present, missing);
    KeepNone(missing, missing);
    KeepAppend(missing, present, missing);
    KeepAppend(present, missing, missing);
  }

  /** When `_timsort` reaches its limit, what it emitted is the limit's worth of
      everything it would emit. */
  lemma KeepPrefix(order: seq<int>, j: nat, missing: seq<int>, limit: Option<int>)
    requires j <= |order|
    requires Bound(limit).Some? && |Keep(order[..j], missing)| == Bound(limit).value
    ensures Keep(order[..j], missing) == Truncate(Keep(order, missing), limit)
  {
    assert order == order[..j] + order[j..];
    KeepAppend(order[..j], order[j..], missing);
  }


  lemma CandidatePrefix(docids: seq<int>, rev: map<int, int>, top: seq<Entry>, k: nat)
    requires k <= |top|
    requires forall i :: 0 <= i < |top| ==> top[i].docid in docids && top[i].docid in rev && top[i].value == rev[top[i].docid]
    ensures var out := Docids(top[..k]);
      forall i :: 0 <= i < |out| ==> out[i] in docids && out[i] in rev && Entry(rev[out[i]], out[i]) == top[i]
  {
    var out := Docids(top[..k]);
    forall i | 0 <= i < |out| ensures out[i] in docids && out[i] in rev && Entry(rev[out[i]], out[i]) == top[i] {
      assert top[..k][i] == top[i];
    }
  }



  /** Every pair a sort of `nsort`'s pairs holds is an indexed candidate's pair. */
  lemma TopCandidates(docids: seq<int>, rev: map<int, int>, pairs: seq<Entry>, top: seq<Entry>)
    requires pairs == NSort(docids, rev) && multiset(top) == multiset(pairs)
    ensures forall i :: 0 <= i < |top| ==> top[i].docid in docids && top[i].docid in rev && top[i].value == rev[top[i].docid]
  {
    NSortMembers(docids, rev);
    forall i | 0 <= i < |top|
      ensures top[i].docid in docids && top[i].docid in rev && top[i].value == rev[top[i].docid]
    {
      assert top[i] in multiset(pairs);
    }
  }

  /** A pair of a descending sequence whose docid is not among the first `k` is no
      larger than any of them. */
  lemma TopLeftOut(docids: seq<int>, rev: map<int, int>, pairs: seq<Entry>, top: seq<Entry>, k: nat, d: int)
    requires pairs == NSort(docids, rev)
    requires Descending(top) && multiset(top) == multiset(pairs) && k <= |top|
    requires d in docids && d in rev && d !in Docids(top[..k])
    ensures forall i :: 0 <= i < k ==> Le(Entry(rev[d], d), top[i])
  {
    var e := Entry(rev[d], d);
    NSortHas(docids, rev, d);
    var m := PositionIn(top, pairs, e);
    LeftOutBeyond(top, k, m, d);
    forall i | 0 <= i < k ensures Le(e, top[i]) {
      assert i < m;
    }
  }

  /** An indexed candidate's pair is among `nsort`'s pairs. */
  lemma NSortHas(docids: seq<int>, rev: map<int, int>, d: int)
    requires d in docids && d in rev
    ensures Entry(rev[d], d) in NSort(docids, rev)
  {
    NSortMembers(docids, rev);
  }

  /** Where a rearrangement of `pairs` holds `e`. */
  ghost function PositionIn(top: seq<Entry>, pairs: seq<Entry>, e: Entry): (m: nat)
    requires multiset(top) == multiset(pairs) && e in pairs
    ensures m < |top| && top[m] == e
  {
    assert e in multiset(pairs);
    assert e in multiset(top);
    var m :| 0 <= m < |top| && top[m] == e; m
  }

  /** A docid missing from the first `k` docids sits at place `k` or later. */
  lemma LeftOutBeyond(top: seq<Entry>, k: nat, m: nat, d: int)
    requires k <= |top| && m < |top| && top[m].docid == d && d !in Docids(top[..k])
    ensures k <= m
  {
    var kept := Docids(top[..k]);
    assert forall j :: 0 <= j < k ==> kept[j] in kept;
  }
}
