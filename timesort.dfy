/** The `sort_by(|a, b| a.1.cmp(&b.1))` call of the creation-time strategy
    (src/git/branch.rs): a stable sort of (branch, time) pairs by ascending
    time. Rust's slice sort is stable, so among equal times the input order
    is kept; insertion sort has exactly that result. */
module TimeSort {

  type Timed = (string, int)

  predicate SortedByTime(s: seq<Timed>) {
    forall i, j :: 0 <= i < j < |s| ==> s[i].1 <= s[j].1
  }

  /** The entries with time `t`, in their order in `s`. */
  function WithTime(s: seq<Timed>, t: int): seq<Timed> {
    if s == [] then []
    else (if s[0].1 == t then [s[0]] else []) + WithTime(s[1..], t)
  }

  /** Put `x` in front of the first entry that is not older than it. */
  function Insert(x: Timed, s: seq<Timed>): (r: seq<Timed>)
    ensures multiset(r) == multiset(s) + multiset{x}
  {
    if s == [] || x.1 <= s[0].1 then [x] + s
    else
      assert s == [s[0]] + s[1..];
      [s[0]] + Insert(x, s[1..])
  }

  /** The stable ascending sort by time. */
  function SortByTime(s: seq<Timed>): (r: seq<Timed>)
    ensures multiset(r) == multiset(s)
  {
    if s == [] then []
    else
      assert s == [s[0]] + s[1..];
      Insert(s[0], SortByTime(s[1..]))
  }

  lemma {:induction false} InsertSorted(x: Timed, s: seq<Timed>)
    requires SortedByTime(s)
    ensures SortedByTime(Insert(x, s))
  {
    if s != [] && x.1 > s[0].1 {
      InsertSorted(x, s[1..]);
      var r := Insert(x, s[1..]);
      assert multiset(r) == multiset(s[1..]) + multiset{x};
      forall k | 0 <= k < |r|
        ensures s[0].1 <= r[k].1
      {
        assert r[k] in multiset(r);
        if r[k] != x {
          assert r[k] in multiset(s[1..]);
          var m :| 0 <= m < |s[1..]| && s[1..][m] == r[k];
          assert s[m + 1] == r[k];
        }
      }
    }
  }

  lemma {:induction false} InsertStable(x: Timed, s: seq<Timed>, t: int)
    requires SortedByTime(s)
    ensures WithTime(Insert(x, s), t) == (if x.1 == t then [x] else []) + WithTime(s, t)
  {
    if s == [] || x.1 <= s[0].1 {
      assert ([x] + s)[1..] == s;
    } else {
      InsertStable(x, s[1..], t);
      var r := [s[0]] + Insert(x, s[1..]);
      assert r[1..] == Insert(x, s[1..]);
    }
  }

  /** The result is ordered by time. */
  lemma {:induction false} SortByTimeSorted(s: seq<Timed>)
    ensures SortedByTime(SortByTime(s))
  {
    if s != [] {
      SortByTimeSorted(s[1..]);
      InsertSorted(s[0], SortByTime(s[1..]));
    }
  }

  /** The sort is stable: the entries that share a time keep their order. */
  lemma {:induction false} SortByTimeStable(s: seq<Timed>, t: int)
    ensures WithTime(SortByTime(s), t) == WithTime(s, t)
  {
    if s != [] {
      SortByTimeStable(s[1..], t);
      SortByTimeSorted(s[1..]);
      InsertStable(s[0], SortByTime(s[1..]), t);
    }
  }
}
