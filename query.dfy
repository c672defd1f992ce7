/** The pieces every query of the service is built from: a WHERE filter, an
    ORDER BY on one key, and SQLite's OFFSET/LIMIT window. Tables are
    sequences of rows in rowid order. */
module Query {

  /** Rows that pass `keep`, in table order. */
  function Filter<T(!new)>(s: seq<T>, keep: T -> bool): (r: seq<T>)
    ensures |r| <= |s|
    ensures forall x :: x in r <==> x in s && keep(x)
  {
    if s == [] then [] else (if keep(s[0]) then [s[0]] else []) + Filter(s[1..], keep)
  }

  lemma {:induction false} FilterConcat<T(!new)>(a: seq<T>, b: seq<T>, keep: T -> bool)
    ensures Filter(a + b, keep) == Filter(a, keep) + Filter(b, keep)
  {
    if a == [] {
      assert a + b == b;
    } else {
      assert (a + b)[1..] == a[1..] + b;
      FilterConcat(a[1..], b, keep);
    }
  }

  /** Filters that agree on every row select the same rows. */
  lemma {:induction false} FilterSame<T(!new)>(s: seq<T>, a: T -> bool, b: T -> bool)
    requires forall x :: a(x) == b(x)
    ensures Filter(s, a) == Filter(s, b)
  {
    if s != [] {
      FilterSame(s[1..], a, b);
    }
  }

  /** Filtering twice is filtering once by the conjunction. */
  lemma {:induction false} FilterTwice<T(!new)>(s: seq<T>, first: T -> bool, second: T -> bool, both: T -> bool)
    requires forall x :: both(x) == (first(x) && second(x))
    ensures Filter(Filter(s, first), second) == Filter(s, both)
  {
    if s != [] {
      FilterTwice(s[1..], first, second, both);
      var head := if first(s[0]) then [s[0]] else [];
      FilterConcat(head, Filter(s[1..], first), second);
    }
  }

  /** Rows passing `keep` where nothing checks any other row. */
  lemma {:induction false} FilterAll<T(!new)>(s: seq<T>, keep: T -> bool)
    requires forall x :: x in s ==> keep(x)
    ensures Filter(s, keep) == s
  {
    if s != [] {
      FilterAll(s[1..], keep);
    }
  }

  /** No row passes when every row fails. */
  lemma {:induction false} FilterNone<T(!new)>(s: seq<T>, keep: T -> bool)
    requires forall x :: x in s ==> !keep(x)
    ensures Filter(s, keep) == []
  {
    if s != [] {
      FilterNone(s[1..], keep);
    }
  }

  // ---------------------------------------------------------------- ordering

  /** `le` is an ORDER BY comparison: total and transitive. */
  ghost predicate TotalPreorder<T(!new)>(le: (T, T) -> bool) {
    (forall a, b :: le(a, b) || le(b, a)) &&
    (forall a, b, c :: le(a, b) && le(b, c) ==> le(a, c))
  }

  ghost predicate SortedBy<T>(s: seq<T>, le: (T, T) -> bool) {
    forall i, j :: 0 <= i < j < |s| ==> le(s[i], s[j])
  }

  function Insert<T>(x: T, s: seq<T>, le: (T, T) -> bool): (r: seq<T>)
    ensures multiset(r) == multiset(s) + multiset{x}
  {
    if s == [] || le(x, s[0]) then [x] + s
    else
      assert s == [s[0]] + s[1..];
      [s[0]] + Insert(x, s[1..], le)
  }

  /** One ordering of `s` by `le`; rows that `le` ranks equal may come in any
      order in the database, so the contracts below never rely on which. */
  function SortBy<T>(s: seq<T>, le: (T, T) -> bool): (r: seq<T>)
    ensures multiset(r) == multiset(s)
  {
    if s == [] then []
    else
      assert s == [s[0]] + s[1..];
      Insert(s[0], SortBy(s[1..], le), le)
  }

  lemma {:induction false} InsertSorted<T(!new)>(x: T, s: seq<T>, le: (T, T) -> bool)
    requires TotalPreorder(le) && SortedBy(s, le)
    ensures SortedBy(Insert(x, s, le), le)
  {
    if s != [] && !le(x, s[0]) {
      InsertSorted(x, s[1..], le);
      var rest := Insert(x, s[1..], le);
      assert le(s[0], x);
      forall k | 0 <= k < |rest| ensures le(s[0], rest[k]) {
        assert rest[k] in multiset(rest);
        if rest[k] != x {
          assert rest[k] in multiset(s[1..]);
          var j :| 0 <= j < |s[1..]| && s[1..][j] == rest[k];
          assert s[1 + j] == rest[k];
        }
      }
    }
  }

  lemma {:induction false} SortBySorted<T(!new)>(s: seq<T>, le: (T, T) -> bool)
    requires TotalPreorder(le)
    ensures SortedBy(SortBy(s, le), le)
  {
    if s != [] {
      SortBySorted(s[1..], le);
      InsertSorted(s[0], SortBy(s[1..], le), le);
    }
  }

  // ------------------------------------------------------------ OFFSET/LIMIT

  function Max0(n: int): nat { if n < 0 then 0 else n }

  /** SQLite's `LIMIT limit OFFSET offset`: a negative offset acts as zero and
      a negative limit sets no bound. */
  function Window<T>(s: seq<T>, offset: int, limit: int): (r: seq<T>)
    ensures var start := if Max0(offset) < |s| then Max0(offset) else |s|;
            forall k :: 0 <= k < |r| ==> start + k < |s| && r[k] == s[start + k]
    ensures var rest := if Max0(offset) < |s| then |s| - Max0(offset) else 0;
            |r| == if 0 <= limit < rest then limit else rest
  {
    var start := if Max0(offset) < |s| then Max0(offset) else |s|;
    var rest := s[start..];
    if 0 <= limit < |rest| then rest[..limit] else rest
  }

  /** `page` is the window of SOME ordering of `rows` by `le`: the ordering
      among rows that `le` ranks equal is left open. */
  ghost predicate IsPageOf<T(!new)>(page: seq<T>, rows: seq<T>, le: (T, T) -> bool, offset: int, limit: int) {
    exists ordered :: SortedBy(ordered, le) && multiset(ordered) == multiset(rows) &&
      page == Window(ordered, offset, limit)
  }

  /** One ORDER BY ... LIMIT ... OFFSET ... over the selected rows. */
  function SortedPage<T(!new)>(rows: seq<T>, le: (T, T) -> bool, offset: int, limit: int): (r: seq<T>)
    requires TotalPreorder(le)
    ensures forall x :: x in r ==> x in rows
    ensures limit >= 0 ==> |r| <= limit
    ensures SortedBy(r, le)
    ensures IsPageOf(r, rows, le, offset, limit)
  {
    var ordered := SortBy(rows, le);
    SortBySorted(rows, le);
    WindowSorted(ordered, le, offset, limit);
    WindowMembers(ordered, offset, limit);
    assert forall x :: x in ordered ==> x in multiset(rows);
    Window(ordered, offset, limit)
  }

  /** A window of a sorted sequence is sorted. */
  lemma WindowSorted<T>(s: seq<T>, le: (T, T) -> bool, offset: int, limit: int)
    requires SortedBy(s, le)
    ensures SortedBy(Window(s, offset, limit), le)
  {
    var w := Window(s, offset, limit);
    var start := if Max0(offset) < |s| then Max0(offset) else |s|;
    forall i, j | 0 <= i < j < |w| ensures le(w[i], w[j]) {
      assert w[i] == s[start + i] && w[j] == s[start + j];
    }
  }

  lemma WindowMembers<T>(s: seq<T>, offset: int, limit: int)
    ensures forall x :: x in Window(s, offset, limit) ==> x in s
  {
    var start := if Max0(offset) < |s| then Max0(offset) else |s|;
    var rest := s[start..];
    assert s == s[..start] + rest;
    if 0 <= limit < |rest| {
      assert rest == rest[..limit] + rest[limit..];
    }
  }

  // ---------------------------------------------------------------- deletion

  function RemoveAt<T>(s: seq<T>, i: nat): (r: seq<T>)
    requires i < |s|
    ensures |r| == |s| - 1
    ensures multiset(r) + multiset{s[i]} == multiset(s)
  {
    assert s == s[..i] + [s[i]] + s[i + 1..];
    s[..i] + s[i + 1..]
  }

  ghost predicate Distinct<T>(s: seq<T>) {
    forall i, j :: 0 <= i < j < |s| ==> s[i] != s[j]
  }

  lemma RemoveAtDistinct<T>(s: seq<T>, i: nat)
    requires i < |s| && Distinct(s)
    ensures Distinct(RemoveAt(s, i))
    ensures forall x :: x in RemoveAt(s, i) <==> x in s && x != s[i]
  {
    var r := RemoveAt(s, i);
    assert forall k :: 0 <= k < |r| ==> r[k] == if k < i then s[k] else s[k + 1];
    forall x ensures x in r <==> x in s && x != s[i] {
      if x in s && x != s[i] {
        var k :| 0 <= k < |s| && s[k] == x;
        assert k != i;
        assert r[if k < i then k else k - 1] == x;
      }
    }
  }
}
