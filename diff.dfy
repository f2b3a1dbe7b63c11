/** Comparison of this run's notice identifiers with the previous run's, and
    the choice of the message to send (monitor.py, step 4). */
module Diff {
  import opened Text

  /** What the run sends: nothing, the initialisation notice, or the sorted
      list of newly published notices. */
  datatype Message = NoMessage | InitMessage | NewMessage(notices: seq<string>)

  /** Strictly ascending under Python's string order, hence without repeats. */
  predicate Sorted(r: seq<string>) {
    forall i, j :: 0 <= i < j < |r| ==> Less(r[i], r[j])
  }

  predicate IsLeast(m: string, s: set<string>) {
    m in s && forall x :: x in s && x != m ==> Less(m, x)
  }

  lemma {:induction false} LeastExists(s: set<string>)
    requires s != {}
    ensures exists m :: IsLeast(m, s)
    decreases |s|
  {
    var x :| x in s;
    if s != {x} {
      var rest := s - {x};
      LeastExists(rest);
      var m :| IsLeast(m, rest);
      if Less(m, x) {
        forall y | y in s && y != m
          ensures Less(m, y)
        {
          if y != x {
            assert y in rest;
          }
        }
        assert IsLeast(m, s);
      } else {
        LessTotal(m, x);
        forall y | y in s && y != x
          ensures Less(x, y)
        {
          if y != m {
            assert y in rest;
            LessTransitive(x, m, y);
          }
        }
        assert IsLeast(x, s);
      }
    } else {
      assert IsLeast(x, s);
    }
  }

  lemma LeastUnique(s: set<string>)
    ensures forall m1, m2 :: IsLeast(m1, s) && IsLeast(m2, s) ==> m1 == m2
  {
    forall m1, m2 | IsLeast(m1, s) && IsLeast(m2, s)
      ensures m1 == m2
    {
      if m1 != m2 {
        assert Less(m1, m2);
        LessAsymmetric(m1, m2);
      }
    }
  }

  lemma PrependLeast(m: string, rest: seq<string>, s: set<string>)
    requires IsLeast(m, s)
    requires |rest| == |s - {m}| && Sorted(rest)
    requires forall x :: x in rest <==> x in s - {m}
    ensures |[m] + rest| == |s| && Sorted([m] + rest)
    ensures forall x :: x in [m] + rest <==> x in s
  {
    var r := [m] + rest;
    forall i, j | 0 <= i < j < |r|
      ensures Less(r[i], r[j])
    {
      assert r[j] == rest[j - 1];
      if i > 0 {
        assert r[i] == rest[i - 1];
      } else {
        assert rest[j - 1] in s - {m};
      }
    }
  }

  /** `sorted(list(s))`: the elements of `s` in ascending order, each once. */
  function SortedList(s: set<string>): (r: seq<string>)
    ensures |r| == |s|
    ensures forall x :: x in r <==> x in s
    ensures Sorted(r)
    decreases |s|
  {
    if s == {} then []
    else
      LeastExists(s);
      LeastUnique(s);
      var m :| IsLeast(m, s);
      var rest := SortedList(s - {m});
      PrependLeast(m, rest, s);
      [m] + rest
  }

  lemma SortedListCons(s: set<string>, m: string)
    requires IsLeast(m, s)
    ensures SortedList(s) == [m] + SortedList(s - {m})
  {
    LeastUnique(s);
  }

  lemma SortedHeadIsLeast(r: seq<string>, s: set<string>)
    requires Sorted(r) && r != []
    requires forall x :: x in r <==> x in s
    ensures IsLeast(r[0], s)
  {
  }

  lemma SortedTail(r: seq<string>, s: set<string>)
    requires Sorted(r) && r != []
    requires forall x :: x in r <==> x in s
    ensures Sorted(r[1..])
    ensures forall x :: x in r[1..] <==> x in s - {r[0]}
  {
    var rest := r[1..];
    forall x
      ensures x in rest <==> x in s - {r[0]}
    {
      if x in rest {
        var k :| 0 <= k < |rest| && rest[k] == x;
        assert r[k + 1] == x;
        assert Less(r[0], r[k + 1]);
        LessIrreflexive(x);
      }
      if x in s - {r[0]} {
        var k :| 0 <= k < |r| && r[k] == x;
        assert k != 0;
        assert rest[k - 1] == x;
      }
    }
  }

  /** Python's `sorted` has exactly one possible outcome: any strictly
      ascending enumeration of `s` is `SortedList(s)`. */
  lemma {:induction false} SortedListUnique(r: seq<string>, s: set<string>)
    requires Sorted(r)
    requires forall x :: x in r <==> x in s
    ensures r == SortedList(s)
    decreases |s|
  {
    if r == [] {
      assert forall x :: x !in s;
    } else {
      SortedHeadIsLeast(r, s);
      SortedTail(r, s);
      SortedListUnique(r[1..], s - {r[0]});
      SortedListCons(s, r[0]);
      assert r == [r[0]] + r[1..];
    }
  }

  /** The decision of step 4: no message when nothing was added, the
      initialisation message when the previous set was empty, and otherwise
      the new notices, sorted. */
  function Classify(previous: set<string>, current: set<string>): (m: Message)
    ensures m == NoMessage <==> current <= previous
    ensures m == InitMessage <==> previous == {} && current != {}
    ensures m.NewMessage? <==> previous != {} && !(current <= previous)
    ensures m.NewMessage? ==>
      && Sorted(m.notices)
      && |m.notices| == |current - previous|
      && forall x :: x in m.notices <==> x in current && x !in previous
  {
    if previous == current then NoMessage
    else
      var newNotices := current - previous;
      if previous == {} && current != {} then InitMessage
      else if newNotices != {} then NewMessage(SortedList(newNotices))
      else
        assert forall x :: x in current ==> x in previous || x in newNotices;
        NoMessage
  }
}
