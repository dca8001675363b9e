/**
  The scraped status changes and the final ordering: every record carries the
  moment it took effect, and the records are put in ascending order of that
  moment, records with the same moment keeping the order they were found in.
*/
module Timeline {

  /** A parsed "%m/%d/%y %H:%M:%S" timestamp, compared field by field. */
  datatype DateTime = DateTime(year: int, month: int, day: int, hour: int, minute: int, second: int)

  /** One scraped status change: when, from which status, to which, and the timestamp text. */
  datatype Entry = Entry(time: DateTime, fromStatus: string, toStatus: string, effective: string)

  /** `a` is not later than `b`: the order of `datetime` values. */
  predicate NotAfter(a: DateTime, b: DateTime)
    ensures a == b ==> NotAfter(a, b)
  {
    if a.year != b.year then a.year < b.year
    else if a.month != b.month then a.month < b.month
    else if a.day != b.day then a.day < b.day
    else if a.hour != b.hour then a.hour < b.hour
    else if a.minute != b.minute then a.minute < b.minute
    else a.second <= b.second
  }

  lemma NotAfterTotal(a: DateTime, b: DateTime)
    ensures NotAfter(a, b) || NotAfter(b, a)
  {
  }

  lemma NotAfterAntisymmetric(a: DateTime, b: DateTime)
    requires NotAfter(a, b) && NotAfter(b, a)
    ensures a == b
  {
  }

  lemma NotAfterTransitive(a: DateTime, b: DateTime, c: DateTime)
    requires NotAfter(a, b) && NotAfter(b, c)
    ensures NotAfter(a, c)
  {
  }

  /** Ascending by time. */
  predicate SortedByTime(s: seq<Entry>)
  {
    forall i, j :: 0 <= i < j < |s| ==> NotAfter(s[i].time, s[j].time)
  }

  /** The records stamped `t`, in the order they occur. */
  function WithTime(s: seq<Entry>, t: DateTime): (r: seq<Entry>)
    ensures |r| <= |s|
    ensures forall i :: 0 <= i < |r| ==> r[i].time == t
    ensures (forall i :: 0 <= i < |s| ==> s[i].time != t) ==> r == []
  {
    if s == [] then []
    else (if s[0].time == t then [s[0]] else []) + WithTime(s[1..], t)
  }

  /**
    Place `e` in front of the first record that is not earlier than it. Every
    record of `t` before that point is strictly earlier than `e`.
  */
  function InsertByTime(e: Entry, t: seq<Entry>): (r: seq<Entry>)
    ensures |r| == |t| + 1
    ensures multiset(r) == multiset(t) + multiset{e}
    ensures SortedByTime(t) ==> SortedByTime(r)
  {
    if t == [] then [e]
    else if NotAfter(e.time, t[0].time) then
      InsertFront(e, t);
      [e] + t
    else
      var rest := InsertByTime(e, t[1..]);
      NotAfterTotal(e.time, t[0].time);
      InsertBehind(t[0], e, t, rest);
      assert t == [t[0]] + t[1..];
      [t[0]] + rest
  }

  lemma InsertFront(e: Entry, t: seq<Entry>)
    requires t != [] && NotAfter(e.time, t[0].time)
    ensures SortedByTime(t) ==> SortedByTime([e] + t)
  {
    if SortedByTime(t) {
      forall i, j | 0 <= i < j < |t| + 1 ensures NotAfter(([e] + t)[i].time, ([e] + t)[j].time) {
        if i == 0 {
          if j > 1 {
            NotAfterTransitive(e.time, t[0].time, t[j - 1].time);
          }
        }
      }
    }
  }

  lemma InsertBehind(x: Entry, e: Entry, t: seq<Entry>, rest: seq<Entry>)
    requires t != [] && x == t[0] && NotAfter(x.time, e.time)
    requires multiset(rest) == multiset(t[1..]) + multiset{e}
    requires SortedByTime(t[1..]) ==> SortedByTime(rest)
    ensures SortedByTime(t) ==> SortedByTime([x] + rest)
  {
    if SortedByTime(t) {
      assert SortedByTime(t[1..]) by {
        forall i, j | 0 <= i < j < |t| - 1 ensures NotAfter(t[1..][i].time, t[1..][j].time) {
          assert t[1..][i] == t[i + 1] && t[1..][j] == t[j + 1];
        }
      }
      forall k | 0 <= k < |rest| ensures NotAfter(x.time, rest[k].time) {
        assert rest[k] in multiset(rest);
        if rest[k] != e {
          assert rest[k] in multiset(t[1..]);
          var m :| 0 <= m < |t| - 1 && t[1..][m] == rest[k];
          assert t[m + 1] == rest[k];
        }
      }
      forall i, j | 0 <= i < j < |rest| + 1 ensures NotAfter(([x] + rest)[i].time, ([x] + rest)[j].time) {
        if i == 0 {
          assert ([x] + rest)[j] == rest[j - 1];
        } else {
          assert ([x] + rest)[i] == rest[i - 1] && ([x] + rest)[j] == rest[j - 1];
        }
      }
    }
  }

  /**
    Python's `sorted(records, key=timestamp)`: an insertion sort that puts
    each record before every later-found record it does not come after.
  */
  function SortByTime(s: seq<Entry>): (r: seq<Entry>)
    ensures |r| == |s|
    ensures multiset(r) == multiset(s)
    ensures SortedByTime(r)
  {
    if s == [] then []
    else
      assert s == [s[0]] + s[1..];
      InsertByTime(s[0], SortByTime(s[1..]))
  }

  lemma WithTimeCons(e: Entry, s: seq<Entry>, t: DateTime)
    ensures WithTime([e] + s, t) == (if e.time == t then [e] else []) + WithTime(s, t)
  {
    assert ([e] + s)[1..] == s;
  }

  /** Inserting `e` puts it first among the records with its time, and moves no other record past one with the same time. */
  lemma {:induction false} InsertStable(e: Entry, t: seq<Entry>, k: DateTime)
    ensures WithTime(InsertByTime(e, t), k) == (if e.time == k then [e] else []) + WithTime(t, k)
    decreases |t|
  {
    if t == [] {
    } else if NotAfter(e.time, t[0].time) {
      assert InsertByTime(e, t) == [e] + t;
      WithTimeCons(e, t, k);
    } else {
      var rest := InsertByTime(e, t[1..]);
      assert InsertByTime(e, t) == [t[0]] + rest;
      InsertStable(e, t[1..], k);
      StableStep(t[0], e, t[1..], rest, k);
      assert t == [t[0]] + t[1..];
    }
  }

  /** A record passed over by the insertion is strictly earlier than `e`, so the two never share a time. */
  lemma StableStep(x: Entry, e: Entry, u: seq<Entry>, rest: seq<Entry>, k: DateTime)
    requires !NotAfter(e.time, x.time)
    requires WithTime(rest, k) == (if e.time == k then [e] else []) + WithTime(u, k)
    ensures WithTime([x] + rest, k) == (if e.time == k then [e] else []) + WithTime([x] + u, k)
  {
    assert x.time != e.time;
    WithTimeCons(x, rest, k);
    WithTimeCons(x, u, k);
    if e.time == k {
      assert WithTime([x] + rest, k) == WithTime(rest, k);
      assert WithTime([x] + u, k) == WithTime(u, k);
    } else {
      assert WithTime(rest, k) == WithTime(u, k);
    }
  }

  /** The sort is stable: the records that share a time come out in the order they went in. */
  lemma {:induction false} SortByTimeStable(s: seq<Entry>, k: DateTime)
    ensures WithTime(SortByTime(s), k) == WithTime(s, k)
  {
    if s != [] {
      SortByTimeStable(s[1..], k);
      InsertStable(s[0], SortByTime(s[1..]), k);
    }
  }

  lemma DropFirst(s: seq<Entry>, k: DateTime)
    requires s != []
    ensures WithTime(s[1..], k) == WithTime(s, k)[(if s[0].time == k then 1 else 0)..]
  {
  }

  lemma WithTimeHas(s: seq<Entry>, t: DateTime)
    requires WithTime(s, t) != []
    ensures exists i :: 0 <= i < |s| && s[i].time == t
  {
  }

  /** In an ascending sequence the first record stamped with the earliest time is the first record. */
  lemma {:induction false} FirstWithMinimum(s: seq<Entry>)
    requires s != [] && SortedByTime(s)
    ensures WithTime(s, s[0].time) != [] && WithTime(s, s[0].time)[0] == s[0]
  {
  }

  lemma SortedTail(s: seq<Entry>)
    requires s != [] && SortedByTime(s)
    ensures SortedByTime(s[1..])
  {
    forall i, j | 0 <= i < j < |s| - 1 ensures NotAfter(s[1..][i].time, s[1..][j].time) {
      assert s[1..][i] == s[i + 1] && s[1..][j] == s[j + 1];
    }
  }

  /**
    Stable sorting has one answer: an ascending sequence whose records of
    each time are, time by time, those of `s` in their input order, is
    `SortByTime(s)`.
  */
  lemma {:induction false} SortByTimeUnique(s: seq<Entry>, r: seq<Entry>)
    requires SortedByTime(r)
    requires forall k :: WithTime(r, k) == WithTime(s, k)
    ensures r == SortByTime(s)
  {
    forall k ensures WithTime(SortByTime(s), k) == WithTime(r, k) {
      SortByTimeStable(s, k);
    }
    SameGroupsSame(r, SortByTime(s));
  }

  /** Two ascending sequences with the same records of every time are equal. */
  lemma {:induction false} SameGroupsSame(a: seq<Entry>, b: seq<Entry>)
    requires SortedByTime(a) && SortedByTime(b)
    requires forall k :: WithTime(a, k) == WithTime(b, k)
    ensures a == b
    decreases |a|
  {
    if a == [] {
      if b != [] {
        FirstWithMinimum(b);
      }
    } else if b == [] {
      FirstWithMinimum(a);
    } else {
      FirstWithMinimum(a);
      FirstWithMinimum(b);
      WithTimeHas(b, a[0].time);
      WithTimeHas(a, b[0].time);
      var i :| 0 <= i < |b| && b[i].time == a[0].time;
      var j :| 0 <= j < |a| && a[j].time == b[0].time;
      assert NotAfter(b[0].time, a[0].time) by {
        if i > 0 {
          assert NotAfter(b[0].time, b[i].time);
        }
      }
      assert NotAfter(a[0].time, b[0].time) by {
        if j > 0 {
          assert NotAfter(a[0].time, a[j].time);
        }
      }
      NotAfterAntisymmetric(a[0].time, b[0].time);
      assert a[0] == b[0];
      SortedTail(a);
      SortedTail(b);
      forall k ensures WithTime(a[1..], k) == WithTime(b[1..], k) {
        DropFirst(a, k);
        DropFirst(b, k);
      }
      SameGroupsSame(a[1..], b[1..]);
      assert a == [a[0]] + a[1..] && b == [b[0]] + b[1..];
    }
  }
}
