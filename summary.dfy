/** The summary screen's list of most-missed entries: the history's
    entries in insertion order, sorted by miss count from most to least
    (a stable sort: ties keep their order), cut to the first ten, each
    paired with the catalog entry that has its id. */
module Summary {
  import opened Kana
  import opened Score

  /** How many entries the summary lists at most. */
  const TopCount: nat := 10

  /** One line of the summary: the catalog entry, when one has the id, and
      its miss count. */
  datatype ErrorRow = ErrorRow(kana: Option<KanaChar>, count: nat)

  predicate SortedByCountDesc(s: seq<Entry>) {
    forall i, j :: 0 <= i < j < |s| ==> s[i].count >= s[j].count
  }

  /** Inserts `e` before the first entry whose count is not larger, so
      that `e`, which came earlier in the input, stays ahead of its ties. */
  function Insert(e: Entry, s: seq<Entry>): (r: seq<Entry>)
    ensures |r| == |s| + 1
    ensures r[0] == e || (s != [] && r[0] == s[0])
    ensures multiset(r) == multiset(s) + multiset{e}
  {
    if s == [] then [e]
    else if s[0].count <= e.count then [e] + s
    else
      assert s == [s[0]] + s[1..];
      [s[0]] + Insert(e, s[1..])
  }

  /** Inserting into a sorted sequence keeps it sorted. */
  lemma {:induction false} InsertKeepsSorted(e: Entry, s: seq<Entry>)
    requires SortedByCountDesc(s)
    ensures SortedByCountDesc(Insert(e, s))
  {
    if s != [] && s[0].count > e.count {
      var t := s[1..];
      InsertKeepsSorted(e, t);
      var rest := Insert(e, t);
      var r := Insert(e, s);
      assert r == [s[0]] + rest;
      assert rest[0] == e || rest[0] == t[0];
      forall i, j | 0 <= i < j < |r| ensures r[i].count >= r[j].count {
        if i == 0 {
          assert r[j] == rest[j - 1];
          assert rest[0].count >= rest[j - 1].count;
        } else {
          assert r[i] == rest[i - 1] && r[j] == rest[j - 1];
        }
      }
    }
  }

  /** `sort((a, b) => b[1] - a[1])`: the entries from most to least
      missed; as the array sort is stable, ties keep insertion order. */
  function SortByCountDesc(s: seq<Entry>): (r: seq<Entry>)
    ensures |r| == |s|
    ensures multiset(r) == multiset(s)
    ensures SortedByCountDesc(r)
  {
    if s == [] then []
    else
      assert s == [s[0]] + s[1..];
      var rest := SortByCountDesc(s[1..]);
      InsertKeepsSorted(s[0], rest);
      Insert(s[0], rest)
  }

  /** The entries of `s` with count `c`, in order. */
  function WithCount(s: seq<Entry>, c: nat): seq<Entry> {
    if s == [] then []
    else (if s[0].count == c then [s[0]] else []) + WithCount(s[1..], c)
  }

  lemma WithCountCons(x: Entry, t: seq<Entry>, c: nat)
    ensures WithCount([x] + t, c) == (if x.count == c then [x] else []) + WithCount(t, c)
  {
    assert ([x] + t)[1..] == t;
  }

  /** Inserting puts `e` ahead of the entries that tie with it (it only
      passes entries with larger counts) and changes nothing else about
      them. */
  lemma {:induction false} InsertStable(e: Entry, s: seq<Entry>, c: nat)
    ensures WithCount(Insert(e, s), c) == (if e.count == c then [e] else []) + WithCount(s, c)
  {
    if s == [] {
      WithCountCons(e, [], c);
    } else if s[0].count <= e.count {
      WithCountCons(e, s, c);
    } else {
      var t := s[1..];
      assert s == [s[0]] + t;
      var rest := Insert(e, t);
      assert Insert(e, s) == [s[0]] + rest;
      WithCountCons(s[0], rest, c);
      WithCountCons(s[0], t, c);
      InsertStable(e, t, c);
      if e.count == c {
        assert s[0].count != c;
        assert WithCount(Insert(e, s), c) == WithCount(rest, c);
        assert WithCount(s, c) == WithCount(t, c);
      } else {
        assert WithCount(rest, c) == WithCount(t, c);
      }
    }
  }

  /** The sort is stable: for every count, the entries with that count
      come out in the order they went in. */
  lemma {:induction false} SortIsStable(s: seq<Entry>, c: nat)
    ensures WithCount(SortByCountDesc(s), c) == WithCount(s, c)
  {
    if s != [] {
      SortIsStable(s[1..], c);
      InsertStable(s[0], SortByCountDesc(s[1..]), c);
    }
  }

  /** Inserting an entry whose key is new keeps the keys distinct. */
  lemma {:induction false} InsertKeepsDistinct(e: Entry, s: seq<Entry>)
    requires DistinctKeys(s)
    requires forall x :: x in s ==> x.id != e.id
    ensures DistinctKeys(Insert(e, s))
  {
    if s != [] && s[0].count > e.count {
      var t := s[1..];
      assert s == [s[0]] + t;
      InsertKeepsDistinct(e, t);
      var rest := Insert(e, t);
      var r := Insert(e, s);
      assert r == [s[0]] + rest;
      forall i, j | 0 <= i < j < |r| ensures r[i].id != r[j].id {
        if i == 0 {
          assert r[j] == rest[j - 1];
          assert r[j] in multiset(t) + multiset{e};
        } else {
          assert r[i] == rest[i - 1] && r[j] == rest[j - 1];
        }
      }
    }
  }

  /** Sorting reorders the entries, so it keeps the keys distinct. */
  lemma {:induction false} SortKeepsDistinct(s: seq<Entry>)
    requires DistinctKeys(s)
    ensures DistinctKeys(SortByCountDesc(s))
  {
    if s != [] {
      var t := s[1..];
      assert s == [s[0]] + t;
      SortKeepsDistinct(t);
      var rest := SortByCountDesc(t);
      forall x | x in rest ensures x.id != s[0].id {
        assert x in multiset(t);
      }
      InsertKeepsDistinct(s[0], rest);
    }
  }

  /** The entries with count `c` in a prefix of `s` are a prefix of those
      in `s`. */
  lemma {:induction false} WithCountOfPrefix(s: seq<Entry>, n: nat, c: nat)
    requires n <= |s|
    ensures WithCount(s[..n], c) <= WithCount(s, c)
  {
    if n > 0 {
      assert s == [s[0]] + s[1..];
      assert s[..n] == [s[0]] + s[1..][..n - 1];
      WithCountCons(s[0], s[1..], c);
      WithCountCons(s[0], s[1..][..n - 1], c);
      WithCountOfPrefix(s[1..], n - 1, c);
    }
  }

  /** `slice(0, 10)` of the sorted entries: the ten most-missed entries,
      most missed first, each taken from the history at most as often as
      it occurs there; every entry left out was missed no more often than
      any entry kept, and among entries with equal counts the ones kept
      are the earliest in insertion order. */
  function TopEntries(h: seq<Entry>): (top: seq<Entry>)
    ensures |top| == Min(TopCount, |h|)
    ensures SortedByCountDesc(top)
    ensures multiset(top) <= multiset(h)
    ensures forall e :: e in top ==> e in h
    ensures DistinctKeys(h) ==> DistinctKeys(top)
    ensures forall e, i :: e in h && e !in top && 0 <= i < |top| ==> e.count <= top[i].count
    ensures forall c: nat :: WithCount(top, c) <= WithCount(h, c)
  {
    var sorted := SortByCountDesc(h);
    var n := Min(TopCount, |h|);
    PrefixInside(h, sorted, n);
    LeftOutNotAbove(h, sorted, n);
    assert DistinctKeys(h) ==> DistinctKeys(sorted) by {
      if DistinctKeys(h) {
        SortKeepsDistinct(h);
      }
    }
    assert forall c: nat :: WithCount(sorted[..n], c) <= WithCount(h, c) by {
      forall c: nat ensures WithCount(sorted[..n], c) <= WithCount(h, c) {
        WithCountOfPrefix(sorted, n, c);
        SortIsStable(h, c);
      }
    }
    sorted[..n]
  }

  /** A prefix of a reordering of `h` takes each entry of `h` at most as
      often as `h` holds it. */
  lemma PrefixInside(h: seq<Entry>, sorted: seq<Entry>, n: nat)
    requires multiset(sorted) == multiset(h) && n <= |sorted|
    ensures multiset(sorted[..n]) <= multiset(h)
    ensures forall e :: e in sorted[..n] ==> e in h
  {
    assert sorted == sorted[..n] + sorted[n..];
    assert multiset(sorted) == multiset(sorted[..n]) + multiset(sorted[n..]);
    forall e | e in sorted[..n] ensures e in h {
      assert e in multiset(sorted);
    }
  }

  /** Cutting a sorted reordering of `h` after `n` entries leaves out
      only entries missed no more often than any entry kept. */
  lemma LeftOutNotAbove(h: seq<Entry>, sorted: seq<Entry>, n: nat)
    requires multiset(sorted) == multiset(h) && n <= |sorted|
    requires SortedByCountDesc(sorted)
    ensures forall e, i :: e in h && e !in sorted[..n] && 0 <= i < n ==> e.count <= sorted[..n][i].count
  {
    forall e, i | e in h && e !in sorted[..n] && 0 <= i < n ensures e.count <= sorted[..n][i].count {
      assert e in multiset(sorted);
      var k :| 0 <= k < |sorted| && sorted[k] == e;
      assert sorted[..n][i] == sorted[i];
    }
  }

  /** `kanaData.find(k => k.id === id)`: the first catalog entry with the
      id, if any. */
  function FindById(catalog: seq<KanaChar>, id: string): (r: Option<KanaChar>)
    ensures r.Some? ==> r.value in catalog && r.value.id == id
    ensures r.Some? ==> exists i :: 0 <= i < |catalog| && catalog[i] == r.value &&
                          forall j :: 0 <= j < i ==> catalog[j].id != id
    ensures r.None? <==> forall k :: k in catalog ==> k.id != id
  {
    if catalog == [] then None
    else if catalog[0].id == id then Some(catalog[0])
    else
      var r := FindById(catalog[1..], id);
      assert r.Some? ==> exists i :: 0 <= i < |catalog| && catalog[i] == r.value &&
                           forall j :: 0 <= j < i ==> catalog[j].id != id by {
        if r.Some? {
          var i :| 0 <= i < |catalog[1..]| && catalog[1..][i] == r.value &&
                   forall j :: 0 <= j < i ==> catalog[1..][j].id != id;
          assert catalog[i + 1] == r.value;
          forall j | 0 <= j < i + 1 ensures catalog[j].id != id {
            if j > 0 {
              assert catalog[j] == catalog[1..][j - 1];
            }
          }
        }
      }
      r
  }

  /** The `topErrors` list of the summary screen: one row per entry of
      `TopEntries(h)`, in that order, with the entry's count and the
      catalog entry found for its id. */
  function TopErrors(h: seq<Entry>, catalog: seq<KanaChar>): (rows: seq<ErrorRow>)
    ensures |rows| <= TopCount
    ensures |rows| == Min(TopCount, |h|)
    ensures forall i, j :: 0 <= i < j < |rows| ==> rows[i].count >= rows[j].count
    ensures forall i :: 0 <= i < |rows| ==>
              var e := TopEntries(h)[i];
              && e in h && rows[i].count == e.count
              && (DistinctKeys(h) ==> Lookup(h, e.id) == rows[i].count)
              && (rows[i].kana.Some? ==> rows[i].kana.value in catalog && rows[i].kana.value.id == e.id)
              && (rows[i].kana.None? ==> forall k :: k in catalog ==> k.id != e.id)
    ensures DistinctKeys(h) ==> forall i, j :: 0 <= i < j < |rows| ==>
              TopEntries(h)[i].id != TopEntries(h)[j].id
  {
    var top := TopEntries(h);
    forall i | 0 <= i < |top| && DistinctKeys(h) ensures Lookup(h, top[i].id) == top[i].count {
      LookupFinds(h, top[i]);
    }
    var rows := seq(|top|, i requires 0 <= i < |top| => ErrorRow(FindById(catalog, top[i].id), top[i].count));
    assert forall i :: 0 <= i < |rows| ==> rows[i].count == top[i].count;
    rows
  }
}
