/** What the services' LINQ queries compute: a table's rows, optionally
    restricted by a `Where` predicate, ordered by `OrderByDescending` on a date. */
module Listing {

  /** `rows` lists, once each and nothing else, the rows of `table` that satisfy
      `keep`; `keys[i]` is the key under which `rows[i]` is stored. */
  ghost predicate IsListingOf<T>(table: map<int, T>, keep: T -> bool, rows: seq<T>, keys: seq<int>)
  {
    && |rows| == |keys|
    && (forall i :: 0 <= i < |keys| ==> keys[i] in table && table[keys[i]] == rows[i] && keep(rows[i]))
    && (forall k :: k in table && keep(table[k]) ==> k in keys)
    && (forall i, j :: 0 <= i < j < |keys| ==> keys[i] != keys[j])
  }

  /** The `Where` clause of a query without one. */
  predicate Everything<T>(row: T)
  {
    true
  }

  /** Newest first: dates never increase along the list. */
  ghost predicate NewestFirst<T>(rows: seq<T>, date: T -> int)
  {
    forall i, j :: 0 <= i < j < |rows| ==> date(rows[i]) >= date(rows[j])
  }

  /** `rows[i]` is stored under `keys[i]`. */
  ghost predicate StoredAt<T>(table: map<int, T>, rows: seq<T>, keys: seq<int>)
  {
    |rows| == |keys| && forall i :: 0 <= i < |keys| ==> keys[i] in table && table[keys[i]] == rows[i]
  }

  ghost predicate Distinct(keys: seq<int>)
  {
    forall i, j :: 0 <= i < j < |keys| ==> keys[i] != keys[j]
  }

  ghost function KeySet(keys: seq<int>): set<int>
  {
    set i | 0 <= i < |keys| :: keys[i]
  }

  /** The keys below `bound` whose rows satisfy `keep`. */
  ghost function Selected<T>(table: map<int, T>, keep: T -> bool, bound: int): set<int>
  {
    set k | k in table && k < bound && keep(table[k])
  }

  /** `table.Where(keep).OrderByDescending(date).ToList()`. The table's keys lie
      in `1 .. bound - 1` and are enumerated in increasing order. The order
      of rows with equal dates is left open. */
  method OrderByDescending<T>(table: map<int, T>, bound: int, keep: T -> bool, date: T -> int)
    returns (rows: seq<T>, ghost keys: seq<int>)
    requires bound >= 1
    requires forall k :: k in table ==> 0 < k < bound
    ensures IsListingOf(table, keep, rows, keys)
    ensures NewestFirst(rows, date)
  {
    rows, keys := [], [];
    assert Selected(table, keep, 1) == {};
    for key := 1 to bound
      invariant StoredAt(table, rows, keys)
      invariant Distinct(keys)
      invariant KeySet(keys) == Selected(table, keep, key)
      invariant NewestFirst(rows, date)
    {
      if key in table && keep(table[key]) {
        var row := table[key];
        var p := 0;
        while p < |rows| && date(rows[p]) >= date(row)
          invariant 0 <= p <= |rows|
          invariant forall i :: 0 <= i < p ==> date(rows[i]) >= date(row)
        {
          p := p + 1;
        }
        InsertKeepsNewestFirst(rows, date, p, row);
        InsertKeepsEntries(table, rows, keys, p, key);
        rows := rows[..p] + [row] + rows[p..];
        keys := keys[..p] + [key] + keys[p..];
        assert Selected(table, keep, key + 1) == Selected(table, keep, key) + {key};
      } else {
        assert Selected(table, keep, key + 1) == Selected(table, keep, key);
      }
    }
    assert Selected(table, keep, bound) == set k | k in table && keep(table[k]);
    EntriesAreListing(table, keep, rows, keys);
  }

  /** Inserting a row after every row at least as new, and before the first
      strictly older one, keeps the list newest first. */
  lemma InsertKeepsNewestFirst<T>(rows: seq<T>, date: T -> int, p: int, row: T)
    requires NewestFirst(rows, date)
    requires 0 <= p <= |rows|
    requires forall i :: 0 <= i < p ==> date(rows[i]) >= date(row)
    requires p < |rows| ==> date(rows[p]) < date(row)
    ensures NewestFirst(rows[..p] + [row] + rows[p..], date)
  {
    var rs := rows[..p] + [row] + rows[p..];
    forall i, j | 0 <= i < j < |rs| ensures date(rs[i]) >= date(rs[j]) {
      if j < p {
        assert rs[i] == rows[i] && rs[j] == rows[j];
      } else if j == p {
        assert rs[i] == rows[i] && rs[j] == row;
      } else if i < p {
        assert rs[i] == rows[i] && rs[j] == rows[j - 1];
      } else if i == p {
        assert rs[i] == row && rs[j] == rows[j - 1];
        assert date(rows[p]) >= date(rows[j - 1]) || j - 1 == p;
      } else {
        assert rs[i] == rows[i - 1] && rs[j] == rows[j - 1];
      }
    }
  }

  /** Inserting a new key, and the row stored under it, at position `p`. */
  lemma InsertKeepsEntries<T>(table: map<int, T>, rows: seq<T>, keys: seq<int>, p: int, key: int)
    requires StoredAt(table, rows, keys) && Distinct(keys)
    requires key in table && key !in KeySet(keys)
    requires 0 <= p <= |rows|
    ensures StoredAt(table, rows[..p] + [table[key]] + rows[p..], keys[..p] + [key] + keys[p..])
    ensures Distinct(keys[..p] + [key] + keys[p..])
    ensures KeySet(keys[..p] + [key] + keys[p..]) == KeySet(keys) + {key}
  {
    var ks := keys[..p] + [key] + keys[p..];
    var rs := rows[..p] + [table[key]] + rows[p..];
    forall i | 0 <= i < |ks| ensures ks[i] in table && table[ks[i]] == rs[i] {
      if i < p { assert ks[i] == keys[i] && rs[i] == rows[i]; }
      else if i > p { assert ks[i] == keys[i - 1] && rs[i] == rows[i - 1]; }
    }
    forall i, j | 0 <= i < j < |ks| ensures ks[i] != ks[j] {
      if i < p && j < p { assert ks[i] == keys[i] && ks[j] == keys[j]; }
      else if i < p && j == p { assert ks[i] == keys[i] && keys[i] in KeySet(keys); }
      else if i < p { assert ks[i] == keys[i] && ks[j] == keys[j - 1]; }
      else if i == p { assert ks[j] == keys[j - 1] && keys[j - 1] in KeySet(keys); }
      else { assert ks[i] == keys[i - 1] && ks[j] == keys[j - 1]; }
    }
    forall k | k in KeySet(ks) ensures k in KeySet(keys) + {key} {
      var i :| 0 <= i < |ks| && ks[i] == k;
      if i < p { assert ks[i] == keys[i]; }
      else if i > p { assert ks[i] == keys[i - 1]; }
    }
    forall k | k in KeySet(keys) + {key} ensures k in KeySet(ks) {
      if k == key {
        assert ks[p] == key;
      } else {
        var i :| 0 <= i < |keys| && keys[i] == k;
        if i < p { assert ks[i] == k; } else { assert ks[i + 1] == k; }
      }
    }
  }

  lemma EntriesAreListing<T>(table: map<int, T>, keep: T -> bool, rows: seq<T>, keys: seq<int>)
    requires StoredAt(table, rows, keys) && Distinct(keys)
    requires KeySet(keys) == set k | k in table && keep(table[k])
    ensures IsListingOf(table, keep, rows, keys)
  {
    forall i | 0 <= i < |keys| ensures keep(rows[i]) {
      assert keys[i] in KeySet(keys);
    }
    forall k | k in table && keep(table[k]) ensures k in keys {
      assert k in KeySet(keys);
    }
  }

  /** A listing of a whole table has one row per key. */
  lemma ListingLength<T>(table: map<int, T>, rows: seq<T>, keys: seq<int>)
    requires IsListingOf(table, Everything, rows, keys)
    ensures |rows| == |table|
  {
    var ks := set i | 0 <= i < |keys| :: keys[i];
    forall k | k in table ensures k in ks {
      assert Everything(table[k]);
      assert k in keys;
      var i :| 0 <= i < |keys| && keys[i] == k;
    }
    assert ks == table.Keys;
    DistinctLength(keys);
    assert |table.Keys| == |table|;
  }

  /** A sequence without repetitions has as many elements as its set. */
  lemma {:induction false} DistinctLength(keys: seq<int>)
    requires forall i, j :: 0 <= i < j < |keys| ==> keys[i] != keys[j]
    ensures |set i | 0 <= i < |keys| :: keys[i]| == |keys|
  {
    if keys != [] {
      var tail := keys[..|keys| - 1];
      DistinctLength(tail);
      var ts := set i | 0 <= i < |tail| :: tail[i];
      var all := set i | 0 <= i < |keys| :: keys[i];
      assert all == ts + {keys[|keys| - 1]};
      assert keys[|keys| - 1] !in ts;
    }
  }
}
