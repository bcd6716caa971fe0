/**
 * The sync run of sync_news.py: fetch the article list, load the stored
 * articles, fetch and add every article not stored yet, keep the fifteen
 * newest and write them back.
 *
 * The store is a Python dict, whose iteration order is insertion order, and
 * that order decides which of two equally old articles survives the
 * trimming; it is modelled as a sequence of entries with distinct keys.
 */
module Sync {
  import opened Wrappers
  import opened Crawl

  /** The number of articles kept after a run. */
  const MaxStored: nat := 15

  /** A stored article; `timestamp` is the clock reading taken when it was added. */
  datatype Record = Record(title: Option<string>, url: string, content: seq<string>, timestamp: int)

  datatype Entry = Entry(key: string, rec: Record)

  /** An insertion-ordered dict from article id to record. */
  type Db = seq<Entry>

  function Keys(db: Db): set<string> {
    set e | e in db :: e.key
  }

  ghost predicate DistinctKeys(db: Db) {
    forall i, j :: 0 <= i < j < |db| ==> db[i].key != db[j].key
  }

  /** Newest first: each entry is at least as new as the one after it. */
  ghost predicate SortedDesc(db: Db) {
    forall i :: 0 < i < |db| ==> db[i - 1].rec.timestamp >= db[i].rec.timestamp
  }

  lemma KeyAt(db: Db, i: nat)
    requires i < |db|
    ensures db[i].key in Keys(db)
  {
    assert db[i] in db;
  }

  lemma KeysAppend(a: Db, b: Db)
    ensures Keys(a + b) == Keys(a) + Keys(b)
  {
    forall k | k in Keys(a + b) ensures k in Keys(a) + Keys(b) {
      var x :| x in a + b && x.key == k;
      if x in a { assert k in Keys(a); } else { assert x in b; assert k in Keys(b); }
    }
    forall k | k in Keys(a) + Keys(b) ensures k in Keys(a + b) {
      if k in Keys(a) {
        var x :| x in a && x.key == k;
        assert x in a + b;
      } else {
        var x :| x in b && x.key == k;
        assert x in a + b;
      }
    }
  }

  /** A key that no position carries is not a key of the store. */
  lemma KeyAbsent(db: Db, k: string)
    requires forall i :: 0 <= i < |db| ==> db[i].key != k
    ensures k !in Keys(db)
  {
    forall x | x in db ensures x.key != k {
      var i :| 0 <= i < |db| && db[i] == x;
    }
  }

  lemma SameKeys(a: Db, b: Db)
    requires |a| == |b| && forall i :: 0 <= i < |a| ==> a[i].key == b[i].key
    ensures Keys(a) == Keys(b)
  {
    forall k | k in Keys(a) ensures k in Keys(b) {
      var x :| x in a && x.key == k;
      var i :| 0 <= i < |a| && a[i] == x;
      KeyAt(b, i);
    }
    forall k | k in Keys(b) ensures k in Keys(a) {
      var x :| x in b && x.key == k;
      var i :| 0 <= i < |b| && b[i] == x;
      KeyAt(a, i);
    }
  }

  lemma DistinctCons(x: Entry, s: Db)
    requires x.key !in Keys(s) && DistinctKeys(s)
    ensures DistinctKeys([x] + s)
  {
    forall i, j | 0 <= i < j < |[x] + s| ensures ([x] + s)[i].key != ([x] + s)[j].key {
      if i == 0 {
        KeyAt(s, j - 1);
      }
    }
  }

  lemma DistinctUncons(s: Db)
    requires s != [] && DistinctKeys(s)
    ensures s[0].key !in Keys(s[1..]) && DistinctKeys(s[1..])
  {
    KeyAbsent(s[1..], s[0].key);
  }

  lemma DistinctSnoc(s: Db, x: Entry)
    requires x.key !in Keys(s)
    ensures DistinctKeys(s) ==> DistinctKeys(s + [x])
  {
    if DistinctKeys(s) {
      forall i, j | 0 <= i < j < |s + [x]| ensures (s + [x])[i].key != (s + [x])[j].key {
        if j == |s| {
          KeyAt(s, i);
        }
      }
    }
  }

  // ---------------------------------------------------------------------------
  // Loading the store file
  // ---------------------------------------------------------------------------

  /**
   * The store file: absent, not decodable as JSON, or a JSON object, given as
   * its key/record pairs in file order.
   */
  datatype StoreFile = Missing | Unparseable | Saved(pairs: seq<Entry>)

  /** `d[k] = v`: a new key goes last, an existing key keeps its place and takes the new value. */
  function Put(db: Db, e: Entry): (r: Db)
    ensures Keys(r) == Keys(db) + {e.key}
    ensures DistinctKeys(db) ==> DistinctKeys(r)
    ensures e in r
    ensures forall i :: 0 <= i < |r| && r[i].key == e.key ==> r[i] == e
    ensures |r| == if e.key in Keys(db) then |db| else |db| + 1
    ensures forall i :: 0 <= i < |db| && db[i].key != e.key ==> r[i] == db[i]
  {
    if e.key in Keys(db) then
      var r := seq(|db|, i requires 0 <= i < |db| => if db[i].key == e.key then e else db[i]);
      SameKeys(r, db);
      r
    else
      KeysAppend(db, [e]);
      assert Keys([e]) == {e.key};
      DistinctSnoc(db, e);
      db + [e]
  }

  /** The dict `json.load` builds from an object: pairs put in file order. */
  function FromPairs(pairs: seq<Entry>): (db: Db)
    ensures DistinctKeys(db)
    decreases |pairs|
  {
    if pairs == [] then [] else Put(FromPairs(pairs[..|pairs| - 1]), pairs[|pairs| - 1])
  }

  /** A file whose keys are distinct (as every file this code writes) loads as it was written. */
  lemma {:induction false} FromDistinctPairs(pairs: seq<Entry>)
    requires DistinctKeys(pairs)
    ensures FromPairs(pairs) == pairs
    decreases |pairs|
  {
    if pairs != [] {
      var init := pairs[..|pairs| - 1];
      var last := pairs[|pairs| - 1];
      assert DistinctKeys(init) by {
        forall i, j | 0 <= i < j < |init| ensures init[i].key != init[j].key {
          assert init[i] == pairs[i] && init[j] == pairs[j];
        }
      }
      FromDistinctPairs(init);
      forall i | 0 <= i < |init| ensures init[i].key != last.key {
        assert init[i] == pairs[i];
      }
      KeyAbsent(init, last.key);
      assert FromPairs(pairs) == Put(init, last);
      assert init + [last] == pairs;
    }
  }

  /** Loading: a missing or undecodable file gives the empty store, never an error. */
  function Load(file: StoreFile): (db: Db)
    ensures DistinctKeys(db)
    ensures !file.Saved? ==> db == []
  {
    match file
    case Saved(pairs) => FromPairs(pairs)
    case _ => []
  }

  // ---------------------------------------------------------------------------
  // The merge loop
  // ---------------------------------------------------------------------------

  /** `str(row['id'])`: a missing id prints as "None". */
  function IdKey(id: Option<string>): string {
    match id
    case Some(s) => s
    case None => "None"
  }

  /** `fetch(n, url)`: the paragraphs the n-th call of the article fetcher returns for `url`. */
  type Fetcher = (nat, string) -> seq<string>

  /** `clock(n)`: the n-th reading of the clock in a run (it is read once per article added). */
  type Clock = nat -> int

  /**
   * The state of the merge loop: the store, the number of articles added and
   * the keys of the rows the fetcher was called for, in call order.
   */
  datatype Merge = Merge(db: Db, newCount: nat, fetched: seq<string>)

  /** One pass of the loop body for one list row. */
  function Visit(m: Merge, row: Descriptor, fetch: Fetcher, clock: Clock): Merge {
    var aid := IdKey(row.id);
    if aid in Keys(m.db) then m
    else
      var content := fetch(|m.fetched|, row.url);
      if content == [] then m.(fetched := m.fetched + [aid])
      else Merge(m.db + [Entry(aid, Record(row.title, row.url, content, clock(m.newCount)))],
                 m.newCount + 1, m.fetched + [aid])
  }

  /** The loop over all rows, in list order. */
  function MergeRows(m: Merge, rows: seq<Descriptor>, fetch: Fetcher, clock: Clock): Merge
    decreases |rows|
  {
    if rows == [] then m
    else Visit(MergeRows(m, rows[..|rows| - 1], fetch, clock), rows[|rows| - 1], fetch, clock)
  }

  /**
   * The merge only appends: what was stored stays, in place and unchanged;
   * keys stay distinct; the counter grows by exactly the number of entries
   * added; the fetch log only grows.
   */
  lemma {:induction false} MergeExtends(m: Merge, rows: seq<Descriptor>, fetch: Fetcher, clock: Clock)
    requires DistinctKeys(m.db)
    ensures var m' := MergeRows(m, rows, fetch, clock);
            && DistinctKeys(m'.db)
            && |m.db| <= |m'.db| && m'.db[..|m.db|] == m.db
            && m'.newCount == m.newCount + (|m'.db| - |m.db|)
            && |m.fetched| <= |m'.fetched| <= |m.fetched| + |rows| && m'.fetched[..|m.fetched|] == m.fetched
    decreases |rows|
  {
    if rows != [] {
      var prev := MergeRows(m, rows[..|rows| - 1], fetch, clock);
      MergeExtends(m, rows[..|rows| - 1], fetch, clock);
      var row := rows[|rows| - 1];
      var aid := IdKey(row.id);
      if aid !in Keys(prev.db) {
        var db' := prev.db + [Entry(aid, Record(row.title, row.url, fetch(|prev.fetched|, row.url), clock(prev.newCount)))];
        forall i, j | 0 <= i < j < |db'| ensures db'[i].key != db'[j].key {
          if j == |prev.db| {
            assert db'[i] in prev.db;
          }
        }
        assert db'[..|m.db|] == prev.db[..|m.db|];
        assert (prev.fetched + [aid])[..|m.fetched|] == prev.fetched[..|m.fetched|];
      }
    }
  }

  /** The fetcher is never called for a row whose id was already stored when the run began. */
  lemma {:induction false} MergeSkipsStored(m: Merge, rows: seq<Descriptor>, fetch: Fetcher, clock: Clock)
    requires DistinctKeys(m.db)
    ensures var m' := MergeRows(m, rows, fetch, clock);
            forall k :: |m.fetched| <= k < |m'.fetched| ==> m'.fetched[k] !in Keys(m.db)
    decreases |rows|
  {
    if rows != [] {
      var prev := MergeRows(m, rows[..|rows| - 1], fetch, clock);
      MergeSkipsStored(m, rows[..|rows| - 1], fetch, clock);
      MergeExtends(m, rows[..|rows| - 1], fetch, clock);
      var aid := IdKey(rows[|rows| - 1].id);
      if aid !in Keys(prev.db) {
        assert Keys(m.db) <= Keys(prev.db) by {
          forall k | k in Keys(m.db) ensures k in Keys(prev.db) {
            var x :| x in m.db && x.key == k;
            assert x in prev.db[..|m.db|];
          }
        }
      }
    }
  }

  /**
   * Every entry the merge adds comes from a list row whose fetch returned
   * content: its key is the row's id (not stored before), its title and url
   * are the row's, its content is exactly what that fetcher call returned,
   * and its timestamp is the clock reading taken for it.
   */
  ghost predicate AddedFrom(e: Entry, k: nat, m: Merge, m': Merge, rows: seq<Descriptor>, fetch: Fetcher, clock: Clock) {
    && e.key !in Keys(m.db)
    && e.rec.content != []
    && e.rec.timestamp == clock(k)
    && exists row, n :: row in rows && |m.fetched| <= n < |m'.fetched|
                        && IdKey(row.id) == e.key && m'.fetched[n] == e.key
                        && e.rec.title == row.title && e.rec.url == row.url
                        && e.rec.content == fetch(n, row.url)
  }

  lemma {:induction false} MergeAddsFetched(m: Merge, rows: seq<Descriptor>, fetch: Fetcher, clock: Clock)
    requires DistinctKeys(m.db)
    ensures var m' := MergeRows(m, rows, fetch, clock);
            forall i :: |m.db| <= i < |m'.db| ==>
              AddedFrom(m'.db[i], m.newCount + (i - |m.db|), m, m', rows, fetch, clock)
    decreases |rows|
  {
    if rows != [] {
      var init := rows[..|rows| - 1];
      var prev := MergeRows(m, init, fetch, clock);
      var m' := MergeRows(m, rows, fetch, clock);
      MergeAddsFetched(m, init, fetch, clock);
      MergeExtends(m, init, fetch, clock);
      MergeExtends(m, rows, fetch, clock);
      MergeSkipsStored(m, rows, fetch, clock);
      var row := rows[|rows| - 1];
      forall i | |m.db| <= i < |m'.db|
        ensures AddedFrom(m'.db[i], m.newCount + (i - |m.db|), m, m', rows, fetch, clock)
      {
        if i < |prev.db| {
          var e := prev.db[i];
          assert m'.db[i] == e;
          assert AddedFrom(e, m.newCount + (i - |m.db|), m, prev, init, fetch, clock);
          var r, n :| r in init && |m.fetched| <= n < |prev.fetched|
                      && IdKey(r.id) == e.key && prev.fetched[n] == e.key
                      && e.rec.title == r.title && e.rec.url == r.url
                      && e.rec.content == fetch(n, r.url);
          assert r in rows;
          assert m'.fetched[n] == prev.fetched[n];
        } else {
          var e := m'.db[i];
          var n := |prev.fetched|;
          assert e.key == IdKey(row.id);
          assert m'.fetched[n] == e.key;
          assert e.key !in Keys(m.db) by {
            assert m'.fetched[n] !in Keys(m.db);
          }
          assert row in rows;
        }
      }
    }
  }

  /**
   * Between state `m` and state `m'` the fetcher was called for `row`'s id
   * with `row`'s url, and that call returned no paragraphs.
   */
  ghost predicate FetchedEmpty(m: Merge, m': Merge, row: Descriptor, fetch: Fetcher) {
    exists n :: |m.fetched| <= n < |m'.fetched| && m'.fetched[n] == IdKey(row.id) && fetch(n, row.url) == []
  }

  /**
   * Every row's id ends up stored, unless the fetcher was called for it this
   * run with the row's url and returned nothing: a fetch that returns content
   * is never dropped.
   */
  lemma {:induction false} MergeCoversRows(m: Merge, rows: seq<Descriptor>, fetch: Fetcher, clock: Clock)
    requires DistinctKeys(m.db)
    ensures var m' := MergeRows(m, rows, fetch, clock);
            forall row :: row in rows ==> IdKey(row.id) in Keys(m'.db) || FetchedEmpty(m, m', row, fetch)
    decreases |rows|
  {
    if rows != [] {
      var init := rows[..|rows| - 1];
      var prev := MergeRows(m, init, fetch, clock);
      var m' := MergeRows(m, rows, fetch, clock);
      MergeCoversRows(m, init, fetch, clock);
      MergeExtends(m, init, fetch, clock);
      forall row | row in rows ensures IdKey(row.id) in Keys(m'.db) || FetchedEmpty(m, m', row, fetch) {
        var k := IdKey(row.id);
        if row in init {
          if k in Keys(prev.db) {
            var x :| x in prev.db && x.key == k;
            assert x in m'.db by {
              assert prev.db <= m'.db;
            }
          } else {
            var n :| |m.fetched| <= n < |prev.fetched| && prev.fetched[n] == k && fetch(n, row.url) == [];
            assert m'.fetched[n] == k;
          }
        } else {
          assert row == rows[|rows| - 1];
          if k !in Keys(prev.db) {
            var n := |prev.fetched|;
            assert m'.fetched[n] == k;
            if fetch(n, row.url) != [] {
              assert m'.db[|m'.db| - 1].key == k;
            }
          }
        }
      }
    }
  }

  /** Rows whose ids are all stored already change nothing: no fetch, no insert. */
  lemma {:induction false} MergeOfStoredRows(m: Merge, rows: seq<Descriptor>, fetch: Fetcher, clock: Clock)
    requires forall row :: row in rows ==> IdKey(row.id) in Keys(m.db)
    ensures MergeRows(m, rows, fetch, clock) == m
    decreases |rows|
  {
    if rows != [] {
      MergeOfStoredRows(m, rows[..|rows| - 1], fetch, clock);
      assert rows[|rows| - 1] in rows;
    }
  }

  // ---------------------------------------------------------------------------
  // Keeping the fifteen newest
  // ---------------------------------------------------------------------------

  /** Puts `e` in front of the first entry that is not strictly newer than it. */
  function InsertByTime(e: Entry, s: Db): (r: Db)
    ensures |r| == |s| + 1
    ensures r[0] == e || (s != [] && r[0] == s[0])
  {
    if s == [] || s[0].rec.timestamp <= e.rec.timestamp then [e] + s
    else [s[0]] + InsertByTime(e, s[1..])
  }

  /** Inserting adds `e` and loses nothing. */
  lemma {:induction false} InsertByTimePermutes(e: Entry, s: Db)
    ensures multiset(InsertByTime(e, s)) == multiset(s) + multiset{e}
    decreases |s|
  {
    if !(s == [] || s[0].rec.timestamp <= e.rec.timestamp) {
      InsertByTimePermutes(e, s[1..]);
      assert s == [s[0]] + s[1..];
    }
  }

  lemma SortedTail(s: Db)
    requires s != [] && SortedDesc(s)
    ensures SortedDesc(s[1..])
  {
    forall i | 0 < i < |s| - 1 ensures s[1..][i - 1].rec.timestamp >= s[1..][i].rec.timestamp {
      assert s[1..][i - 1] == s[i] && s[1..][i] == s[i + 1];
    }
  }

  lemma {:induction false} InsertByTimeSorted(e: Entry, s: Db)
    requires SortedDesc(s)
    ensures SortedDesc(InsertByTime(e, s))
    decreases |s|
  {
    if !(s == [] || s[0].rec.timestamp <= e.rec.timestamp) {
      SortedTail(s);
      InsertByTimeSorted(e, s[1..]);
      var rest := InsertByTime(e, s[1..]);
      var r := [s[0]] + rest;
      forall i | 0 < i < |r| ensures r[i - 1].rec.timestamp >= r[i].rec.timestamp {
        if i > 1 {
          assert r[i - 1] == rest[i - 2] && r[i] == rest[i - 1];
        }
      }
    }
  }

  /**
   * `sorted(..., key=timestamp, reverse=True)`: a permutation of the store,
   * newest first.
   */
  function SortByTimeDesc(db: Db): (r: Db)
    ensures multiset(r) == multiset(db)
    ensures SortedDesc(r)
  {
    if db == [] then []
    else
      assert db == [db[0]] + db[1..];
      var rest := SortByTimeDesc(db[1..]);
      InsertByTimeSorted(db[0], rest);
      InsertByTimePermutes(db[0], rest);
      InsertByTime(db[0], rest)
  }

  /** The entries of `db` with timestamp `t`, in order. */
  function WithTimestamp(db: Db, t: int): Db {
    if db == [] then []
    else (if db[0].rec.timestamp == t then [db[0]] else []) + WithTimestamp(db[1..], t)
  }

  lemma WithTimestampCons(x: Entry, s: Db, t: int)
    ensures WithTimestamp([x] + s, t) == (if x.rec.timestamp == t then [x] else []) + WithTimestamp(s, t)
  {
    assert ([x] + s)[1..] == s;
  }

  lemma {:induction false} InsertByTimeStable(e: Entry, s: Db, t: int)
    ensures WithTimestamp(InsertByTime(e, s), t) == WithTimestamp([e] + s, t)
    decreases |s|
  {
    if !(s == [] || s[0].rec.timestamp <= e.rec.timestamp) {
      var tail := s[1..];
      var w := WithTimestamp(tail, t);
      var one := if s[0].rec.timestamp == t then [s[0]] else [];
      var two := if e.rec.timestamp == t then [e] else [];
      assert WithTimestamp(InsertByTime(e, s), t) == one + (two + w) by {
        var rest := InsertByTime(e, tail);
        assert InsertByTime(e, s) == [s[0]] + rest;
        InsertByTimeStable(e, tail, t);
        WithTimestampCons(s[0], rest, t);
        WithTimestampCons(e, tail, t);
      }
      assert WithTimestamp([e] + s, t) == two + (one + w) by {
        assert [s[0]] + tail == s;
        WithTimestampCons(s[0], tail, t);
        WithTimestampCons(e, s, t);
      }
      if e.rec.timestamp == t {
        assert one == [];
      } else {
        assert two == [];
      }
    }
  }

  /**
   * The sort is stable, as Python's is: the entries sharing a timestamp keep
   * their dict order, which decides which of them the trimming keeps.
   */
  lemma {:induction false} SortByTimeDescStable(db: Db, t: int)
    ensures WithTimestamp(SortByTimeDesc(db), t) == WithTimestamp(db, t)
    decreases |db|
  {
    if db != [] {
      var rest := SortByTimeDesc(db[1..]);
      SortByTimeDescStable(db[1..], t);
      InsertByTimeStable(db[0], rest, t);
      WithTimestampCons(db[0], rest, t);
      WithTimestampCons(db[0], db[1..], t);
      assert [db[0]] + db[1..] == db;
    }
  }

  /** Sorting entries that are already newest first changes nothing. */
  lemma {:induction false} SortOfSorted(db: Db)
    requires SortedDesc(db)
    ensures SortByTimeDesc(db) == db
    decreases |db|
  {
    if db != [] {
      SortedTail(db);
      SortOfSorted(db[1..]);
      assert [db[0]] + db[1..] == db;
    }
  }

  /** Entries with the same multiset carry the same keys. */
  lemma KeysOfPermutation(a: Db, b: Db)
    requires multiset(a) == multiset(b)
    ensures Keys(a) == Keys(b)
  {
    forall k | k in Keys(a) ensures k in Keys(b) {
      var x :| x in a && x.key == k;
      assert x in multiset(b);
    }
    forall k | k in Keys(b) ensures k in Keys(a) {
      var x :| x in b && x.key == k;
      assert x in multiset(a);
    }
  }

  lemma {:induction false} InsertByTimeDistinct(e: Entry, s: Db)
    requires DistinctKeys(s) && e.key !in Keys(s)
    ensures DistinctKeys(InsertByTime(e, s))
    decreases |s|
  {
    if s == [] || s[0].rec.timestamp <= e.rec.timestamp {
      DistinctCons(e, s);
    } else {
      var tail := s[1..];
      DistinctUncons(s);
      KeysAppend([s[0]], tail);
      assert s == [s[0]] + tail;
      InsertByTimeDistinct(e, tail);
      var rest := InsertByTime(e, tail);
      InsertByTimePermutes(e, tail);
      KeysOfPermutation(rest, tail + [e]);
      KeysAppend(tail, [e]);
      assert Keys([e]) == {e.key};
      KeyAt(s, 0);
      DistinctCons(s[0], rest);
    }
  }

  /** Sorting keeps the keys distinct. */
  lemma {:induction false} SortKeepsDistinct(db: Db)
    requires DistinctKeys(db)
    ensures DistinctKeys(SortByTimeDesc(db))
    decreases |db|
  {
    if db != [] {
      DistinctUncons(db);
      SortKeepsDistinct(db[1..]);
      KeysOfPermutation(SortByTimeDesc(db[1..]), db[1..]);
      InsertByTimeDistinct(db[0], SortByTimeDesc(db[1..]));
    }
  }

  lemma {:induction false} SortedPairwise(db: Db, i: nat, j: nat)
    requires SortedDesc(db) && i <= j < |db|
    ensures db[i].rec.timestamp >= db[j].rec.timestamp
    decreases j - i
  {
    if i < j {
      SortedPairwise(db, i, j - 1);
    }
  }

  function Min(a: nat, b: nat): nat { if a <= b then a else b }

  /** `dict(sorted(...)[:15])`: the fifteen newest entries, newest first. */
  function Retain(db: Db): Db {
    var ranked := SortByTimeDesc(db);
    ranked[..Min(MaxStored, |ranked|)]
  }

  /**
   * Trimming keeps min(15, n) of the n entries, newest first, each an entry of
   * the merged store.
   */
  lemma RetainNewest(db: Db)
    ensures var kept := Retain(db);
            && |kept| == Min(MaxStored, |db|)
            && SortedDesc(kept)
            && multiset(kept) <= multiset(db)
  {
    var ranked := SortByTimeDesc(db);
    var n := Min(MaxStored, |ranked|);
    assert ranked == ranked[..n] + ranked[n..];
    assert multiset(ranked) == multiset(ranked[..n]) + multiset(ranked[n..]);
  }

  /** Every entry the trimming drops is at most as new as every entry it keeps. */
  lemma RetainDropsOlder(db: Db)
    ensures forall e, d :: e in Retain(db) && d in db && d !in Retain(db) ==> e.rec.timestamp >= d.rec.timestamp
  {
    var ranked := SortByTimeDesc(db);
    var n := Min(MaxStored, |ranked|);
    var kept := ranked[..n];
    forall e, d | e in kept && d in db && d !in kept
      ensures e.rec.timestamp >= d.rec.timestamp
    {
      assert d in multiset(ranked);
      var j :| 0 <= j < |ranked| && ranked[j] == d;
      var i :| 0 <= i < n && kept[i] == e;
      assert forall k :: 0 <= k < n ==> kept[k] == ranked[k];
      assert n <= j;
      SortedPairwise(ranked, i, j);
    }
  }

  /** Trimming keeps the keys distinct. */
  lemma RetainDistinct(db: Db)
    requires DistinctKeys(db)
    ensures DistinctKeys(Retain(db))
  {
    SortKeepsDistinct(db);
  }

  /** A store of at most fifteen entries that is already newest first is kept as it is. */
  lemma RetainOfSorted(db: Db)
    requires SortedDesc(db) && |db| <= MaxStored
    ensures Retain(db) == db
  {
    SortOfSorted(db);
  }

  // ---------------------------------------------------------------------------
  // The whole run
  // ---------------------------------------------------------------------------

  /** How a run ends: aborted on an empty list, or completed with its counts and fetch log. */
  datatype Report = Aborted | Completed(newCount: nat, fetched: seq<string>, total: nat)

  datatype Outcome = Outcome(file: StoreFile, report: Report)

  /** run_sync as a function of its inputs: the list, the store file and the two oracles. */
  function Sync(rows: seq<Descriptor>, file: StoreFile, fetch: Fetcher, clock: Clock): Outcome {
    if rows == [] then Outcome(file, Aborted)
    else
      var m := MergeRows(Merge(Load(file), 0, []), rows, fetch, clock);
      var kept := Retain(m.db);
      Outcome(Saved(kept), Completed(m.newCount, m.fetched, |kept|))
  }

  /**
   * run_sync: the imperative run. An empty list aborts before the store file
   * is read or written; otherwise new articles are fetched and added in list
   * order and the fifteen newest are written back.
   */
  method RunSync(rows: seq<Descriptor>, file: StoreFile, fetch: Fetcher, clock: Clock)
    returns (file': StoreFile, report: Report)
    ensures Outcome(file', report) == Sync(rows, file, fetch, clock)
    ensures rows == [] <==> report == Aborted
    ensures rows == [] ==> file' == file
    ensures rows != [] ==> file'.Saved? && |file'.pairs| <= MaxStored && report.total == |file'.pairs|
  {
    if |rows| == 0 {
      return file, Aborted;
    }
    var db := Load(file);
    var newCount := 0;
    var fetched := [];
    for i := 0 to |rows|
      invariant Merge(db, newCount, fetched) == MergeRows(Merge(Load(file), 0, []), rows[..i], fetch, clock)
    {
      var row := rows[i];
      var aid := IdKey(row.id);
      if aid !in Keys(db) {
        var content := fetch(|fetched|, row.url);
        fetched := fetched + [aid];
        if content != [] {
          db := db + [Entry(aid, Record(row.title, row.url, content, clock(newCount)))];
          newCount := newCount + 1;
        }
      }
      assert rows[..i + 1][..i] == rows[..i];
    }
    assert rows[..|rows|] == rows;
    var ranked := SortByTimeDesc(db);
    var finalDb := ranked[..Min(MaxStored, |ranked|)];
    file' := Saved(finalDb);
    report := Completed(newCount, fetched, |finalDb|);
    SyncWritesValidStore(rows, file, fetch, clock);
  }

  /**
   * A completed run writes at most fifteen entries with distinct keys, newest
   * first: the fifteen newest of the old entries and the new ones together,
   * and reports how many it wrote.
   */
  lemma SyncWritesValidStore(rows: seq<Descriptor>, file: StoreFile, fetch: Fetcher, clock: Clock)
    requires rows != []
    ensures var o := Sync(rows, file, fetch, clock);
            && o.file.Saved? && o.report.Completed?
            && |o.file.pairs| == Min(MaxStored, |Load(file)| + o.report.newCount)
            && o.report.total == |o.file.pairs|
            && DistinctKeys(o.file.pairs)
            && SortedDesc(o.file.pairs)
            && |o.report.fetched| <= |rows|
  {
    var m := MergeRows(Merge(Load(file), 0, []), rows, fetch, clock);
    MergeExtends(Merge(Load(file), 0, []), rows, fetch, clock);
    RetainNewest(m.db);
    RetainDistinct(m.db);
  }

  /**
   * Running again over a list whose ids are all in a store this code wrote
   * calls no fetcher, adds nothing and writes the store back unchanged.
   */
  lemma RerunIsNoop(rows: seq<Descriptor>, kept: Db, fetch: Fetcher, clock: Clock)
    requires rows != []
    requires DistinctKeys(kept) && SortedDesc(kept) && |kept| <= MaxStored
    requires forall row :: row in rows ==> IdKey(row.id) in Keys(kept)
    ensures Sync(rows, Saved(kept), fetch, clock) == Outcome(Saved(kept), Completed(0, [], |kept|))
  {
    FromDistinctPairs(kept);
    MergeOfStoredRows(Merge(kept, 0, []), rows, fetch, clock);
    RetainOfSorted(kept);
  }

  /**
   * Two runs over the same list: when the first stored every listed article,
   * the second (whatever its fetcher and clock) fetches nothing and leaves
   * the store as the first wrote it.
   */
  lemma SecondRunIsNoop(rows: seq<Descriptor>, file: StoreFile,
                        fetch1: Fetcher, clock1: Clock, fetch2: Fetcher, clock2: Clock)
    requires rows != []
    requires var first := Sync(rows, file, fetch1, clock1);
             first.file.Saved? && forall row :: row in rows ==> IdKey(row.id) in Keys(first.file.pairs)
    ensures var first := Sync(rows, file, fetch1, clock1);
            Sync(rows, first.file, fetch2, clock2) == Outcome(first.file, Completed(0, [], |first.file.pairs|))
  {
    var first := Sync(rows, file, fetch1, clock1);
    SyncWritesValidStore(rows, file, fetch1, clock1);
    RerunIsNoop(rows, first.file.pairs, fetch2, clock2);
  }

  /** Every stored article has some content. */
  ghost predicate AllHaveContent(db: Db) {
    forall e :: e in db ==> e.rec.content != []
  }

  /**
   * A run keeps every stored article non-empty: the old entries it keeps
   * are unchanged and the ones it adds had content.
   */
  lemma SyncKeepsContent(rows: seq<Descriptor>, file: StoreFile, fetch: Fetcher, clock: Clock)
    requires rows != [] && AllHaveContent(Load(file))
    ensures AllHaveContent(Sync(rows, file, fetch, clock).file.pairs)
  {
    var start := Merge(Load(file), 0, []);
    var m := MergeRows(start, rows, fetch, clock);
    MergeExtends(start, rows, fetch, clock);
    MergeAddsFetched(start, rows, fetch, clock);
    forall e | e in m.db ensures e.rec.content != [] {
      var i :| 0 <= i < |m.db| && m.db[i] == e;
      if i < |start.db| {
        assert e in m.db[..|start.db|];
      } else {
        assert AddedFrom(m.db[i], start.newCount + (i - |start.db|), start, m, rows, fetch, clock);
      }
    }
    RetainNewest(m.db);
    forall e | e in Retain(m.db) ensures e.rec.content != [] {
      assert e in multiset(m.db);
    }
  }
}
