/** The executions table: what "newest n" means, and why pruning after every insert keeps exactly those. */
module Executions {
  import opened Domain

  datatype Row = Row(id: int, job: JobId, startedAt: Time, finishedAt: Time,
                     status: Status, exitCode: int, executed: string, output: string)
  {
    function Key(): RunKey {
      RunKey(job, Micro(startedAt))
    }
  }

  /** No job has two rows that started in the same microsecond. */
  ghost predicate DistinctStarts(rows: set<Row>) {
    forall x, y :: x in rows && y in rows && x.Key() == y.Key() ==> x == y
  }

  ghost function OfJob(rows: set<Row>, job: JobId): set<Row> {
    set x | x in rows && x.job == job
  }

  /** The rows of r's job that started after r. */
  ghost function Newer(rows: set<Row>, r: Row): set<Row> {
    set x | x in rows && x.job == r.job && x.startedAt > r.startedAt
  }

  /** The rows of a job with fewer than n newer ones: its n newest rows. */
  ghost function Newest(rows: set<Row>, job: JobId, n: nat): set<Row> {
    set r | r in rows && r.job == job && |Newer(rows, r)| < n
  }

  /** What ORDER BY started_at DESC LIMIT n may answer for a job: every tie can be broken either way. */
  ghost predicate Selection(rows: set<Row>, job: JobId, n: nat, sel: seq<Row>) {
    && (forall i :: 0 <= i < |sel| ==> sel[i] in OfJob(rows, job))
    && (forall i, j :: 0 <= i < j < |sel| ==> sel[i] != sel[j] && sel[i].startedAt >= sel[j].startedAt)
    && (forall r, i :: r in OfJob(rows, job) && r !in sel && 0 <= i < |sel| ==> r.startedAt <= sel[i].startedAt)
    && |sel| == if |OfJob(rows, job)| < n then |OfJob(rows, job)| else n
  }

  /** Deleting the rows of a job that one such selection leaves out. */
  ghost predicate Pruned(rows: set<Row>, job: JobId, n: nat, rows': set<Row>) {
    exists sel :: Selection(rows, job, n, sel) && rows' == (set r | r in rows && (r.job != job || r in sel))
  }

  lemma ElementsOf<T>(s: seq<T>)
    requires forall i, j :: 0 <= i < j < |s| ==> s[i] != s[j]
    ensures |set x | x in s| == |s|
  {
    if s != [] {
      var init := s[..|s| - 1];
      ElementsOf(init);
      assert (set x | x in s) == (set x | x in init) + {s[|s| - 1]};
    }
  }

  lemma SubsetCardinality<T>(a: set<T>, b: set<T>)
    requires a <= b
    ensures |a| <= |b|
    ensures |a| == |b| ==> a == b
  {
    assert b == a + (b - a);
    assert |b| == |a| + |b - a|;
  }

  lemma SelectedHasFewNewer(rows: set<Row>, job: JobId, n: nat, sel: seq<Row>, i: nat)
    requires Selection(rows, job, n, sel) && i < |sel|
    ensures |Newer(rows, sel[i])| < n
  {
    var before := sel[..i];
    ElementsOf(before);
    forall x | x in Newer(rows, sel[i]) ensures x in before {
      if x in sel {
        var j :| 0 <= j < |sel| && sel[j] == x;
        assert before[j] == x;
      }
    }
    SubsetCardinality(Newer(rows, sel[i]), set x | x in before);
  }

  lemma UnselectedHasManyNewer(rows: set<Row>, job: JobId, n: nat, sel: seq<Row>, r: Row)
    requires DistinctStarts(rows) && Selection(rows, job, n, sel)
    requires r in OfJob(rows, job) && r !in sel
    ensures |Newer(rows, r)| >= n
  {
    ElementsOf(sel);
    var chosen := set x | x in sel;
    SubsetCardinality(chosen, OfJob(rows, job));
    forall x | x in chosen ensures x in Newer(rows, r) {
      assert x.Key() == r.Key() ==> x == r;
    }
    SubsetCardinality(chosen, Newer(rows, r));
  }

  /** With distinct starts the answer is unique as a set: the n newest rows. */
  lemma SelectionIsNewest(rows: set<Row>, job: JobId, n: nat, sel: seq<Row>)
    requires DistinctStarts(rows) && Selection(rows, job, n, sel)
    ensures (set r | r in sel) == Newest(rows, job, n)
  {
    forall r | r in OfJob(rows, job)
      ensures r in sel <==> |Newer(rows, r)| < n
    {
      if r in sel {
        var i :| 0 <= i < |sel| && sel[i] == r;
        SelectedHasFewNewer(rows, job, n, sel, i);
      } else {
        UnselectedHasManyNewer(rows, job, n, sel, r);
      }
    }
  }

  /** Among the rows newer than an overlong tail there is one with exactly k newer rows. */
  lemma {:induction false} RowAtRank(rows: set<Row>, r: Row, k: nat) returns (m: Row)
    requires DistinctStarts(rows) && r in rows && k < |Newer(rows, r)|
    ensures m in Newer(rows, r) && |Newer(rows, m)| == k
    decreases |Newer(rows, r)|
  {
    m := Oldest(Newer(rows, r));
    assert Newer(rows, r) == Newer(rows, m) + {m} by {
      forall x | x in Newer(rows, r) && x != m ensures x.startedAt > m.startedAt {
        assert x.Key() == m.Key() ==> x == m;
      }
    }
    if |Newer(rows, m)| > k {
      m := RowAtRank(rows, m, k);
    }
  }

  lemma {:induction false} Oldest(s: set<Row>) returns (m: Row)
    requires s != {}
    ensures m in s && forall x :: x in s ==> m.startedAt <= x.startedAt
  {
    m :| m in s;
    if s != {m} {
      var o := Oldest(s - {m});
      if o.startedAt < m.startedAt { m := o; }
    }
  }

  /** Dropping rows that are not among the n newest does not change which ones are. */
  lemma NewestOfPart(ever: set<Row>, rows: set<Row>, job: JobId, n: nat)
    requires DistinctStarts(ever) && rows <= ever && Newest(ever, job, n) <= rows
    ensures Newest(rows, job, n) == Newest(ever, job, n)
  {
    forall r | r in OfJob(rows, job)
      ensures |Newer(rows, r)| < n <==> |Newer(ever, r)| < n
    {
      SubsetCardinality(Newer(rows, r), Newer(ever, r));
      if |Newer(ever, r)| >= n && n > 0 {
        var m := RowAtRank(ever, r, n - 1);
        var top := Newer(ever, m) + {m};
        forall x | x in top ensures x in Newer(rows, r) {
          SubsetCardinality(Newer(ever, x), Newer(ever, m));
        }
        SubsetCardinality(top, Newer(rows, r));
      }
    }
  }

  lemma NewestOne(rows: set<Row>) returns (m: Row)
    requires rows != {}
    ensures m in rows && forall x :: x in rows ==> x.startedAt <= m.startedAt
    decreases |rows|
  {
    m :| m in rows;
    if rows != {m} {
      var o := NewestOne(rows - {m});
      if o.startedAt > m.startedAt { m := o; }
    }
  }

  lemma SelectionExtends(rows: set<Row>, job: JobId, n: nat, sel: seq<Row>, m: Row)
    requires Selection(rows, job, n, sel) && m in OfJob(rows, job) && m !in sel
    requires forall r :: r in OfJob(rows, job) && r !in sel ==> r.startedAt <= m.startedAt
    ensures Selection(rows, job, n + 1, sel + [m])
  {
    ElementsOf(sel);
    var chosen := set r | r in sel;
    SubsetCardinality(chosen, OfJob(rows, job));
    SubsetCardinality(chosen + {m}, OfJob(rows, job));
    var longer := sel + [m];
    forall i | 0 <= i < |sel| ensures longer[i] != m && longer[i].startedAt >= m.startedAt {
      assert longer[i] == sel[i];
    }
  }

  lemma SelectionIsAll(rows: set<Row>, job: JobId, n: nat, sel: seq<Row>)
    requires Selection(rows, job, n, sel) && forall r :: r in OfJob(rows, job) ==> r in sel
    ensures Selection(rows, job, n + 1, sel)
  {
    ElementsOf(sel);
    assert OfJob(rows, job) == set r | r in sel;
  }

  /** There is always an answer. */
  lemma {:induction false} SelectionExists(rows: set<Row>, job: JobId, n: nat) returns (sel: seq<Row>)
    ensures Selection(rows, job, n, sel)
  {
    if n == 0 {
      sel := [];
    } else {
      sel := SelectionExists(rows, job, n - 1);
      var rest := OfJob(rows, job) - set r | r in sel;
      if forall r :: r in OfJob(rows, job) ==> r in sel {
        SelectionIsAll(rows, job, n - 1, sel);
      } else {
        var r :| r in OfJob(rows, job) && r !in sel;
        assert r in rest;
        var m := NewestOne(rest);
        SelectionExtends(rows, job, n - 1, sel, m);
        sel := sel + [m];
      }
    }
  }

  /** The n newest rows are n, or all there are. */
  lemma NewestSize(rows: set<Row>, job: JobId, n: nat)
    requires DistinctStarts(rows)
    ensures |Newest(rows, job, n)| == if |OfJob(rows, job)| < n then |OfJob(rows, job)| else n
  {
    var sel := SelectionExists(rows, job, n);
    SelectionIsNewest(rows, job, n, sel);
    ElementsOf(sel);
  }

  /** And no row left out is newer than one of them. */
  lemma NewestAreNewest(rows: set<Row>, job: JobId, n: nat, r: Row, x: Row)
    requires DistinctStarts(rows) && r in Newest(rows, job, n)
    requires x in rows && x.job == job && x !in Newest(rows, job, n)
    ensures x.startedAt < r.startedAt
  {
    if x.startedAt >= r.startedAt {
      assert x.Key() == r.Key() ==> x == r;
      SubsetCardinality(Newer(rows, x), Newer(rows, r));
    }
  }

  /** The retention invariant: the table holds part of what was ever recorded, at least the n newest of each job. */
  ghost predicate Retains(ever: set<Row>, rows: set<Row>, n: nat) {
    && DistinctStarts(ever)
    && rows <= ever
    && forall r :: r in ever && |Newer(ever, r)| < n ==> r in rows
  }

  lemma InsertRetains(ever: set<Row>, rows: set<Row>, n: nat, r: Row)
    requires Retains(ever, rows, n)
    requires forall x :: x in ever ==> x.Key() != r.Key()
    ensures Retains(ever + {r}, rows + {r}, n)
  {
    forall x | x in ever
      ensures |Newer(ever, x)| <= |Newer(ever + {r}, x)|
    {
      SubsetCardinality(Newer(ever, x), Newer(ever + {r}, x));
    }
  }

  /** One prune makes the job's rows exactly its n newest ever, and leaves the other jobs alone. */
  lemma PruneRetains(ever: set<Row>, rows: set<Row>, job: JobId, n: nat, rows': set<Row>)
    requires Retains(ever, rows, n) && Pruned(rows, job, n, rows')
    ensures Retains(ever, rows', n)
    ensures OfJob(rows', job) == Newest(ever, job, n)
    ensures forall other :: other != job ==> OfJob(rows', other) == OfJob(rows, other)
  {
    var sel :| Selection(rows, job, n, sel) && rows' == (set r | r in rows && (r.job != job || r in sel));
    SelectionIsNewest(rows, job, n, sel);
    assert Newest(ever, job, n) <= rows;
    NewestOfPart(ever, rows, job, n);
    forall r | r in ever && |Newer(ever, r)| < n ensures r in rows' {
      assert r.job == job ==> r in Newest(ever, job, n);
    }
  }

  /** One finished run under retention n: its row is inserted, then its job is pruned. */
  ghost predicate RecordThenPrune(rows: set<Row>, r: Row, n: nat, rows': set<Row>) {
    Pruned(rows + {r}, r.job, n, rows')
  }

  ghost predicate Stream(history: seq<set<Row>>, added: seq<Row>, n: nat) {
    && |history| == |added| + 1
    && forall i :: 0 <= i < |added| ==> RecordThenPrune(history[i], added[i], n, history[i + 1])
  }

  ghost function Everything(start: set<Row>, added: seq<Row>): set<Row> {
    start + set r | r in added
  }

  /** The rows of a job when some step recorded one of its runs, and when none did. */
  ghost predicate KeptFor(start: set<Row>, added: seq<Row>, n: nat, rows: set<Row>, job: JobId) {
    OfJob(rows, job) == if exists r :: r in added && r.job == job
                        then Newest(Everything(start, added), job, n)
                        else OfJob(start, job)
  }

  lemma StreamStepKeeps(start: set<Row>, before: seq<Row>, r: Row, n: nat, rows: set<Row>, rows': set<Row>, job: JobId)
    requires r !in Everything(start, before) && DistinctStarts(Everything(start, before) + {r})
    requires Retains(Everything(start, before), rows, n) && KeptFor(start, before, n, rows, job)
    requires RecordThenPrune(rows, r, n, rows')
    ensures Retains(Everything(start, before + [r]), rows', n)
    ensures KeptFor(start, before + [r], n, rows', job)
  {
    var ever := Everything(start, before);
    assert Everything(start, before + [r]) == ever + {r};
    InsertRetains(ever, rows, n, r);
    PruneRetains(ever + {r}, rows + {r}, r.job, n, rows');
    assert forall x :: x in before + [r] <==> x in before || x == r;
    if job != r.job {
      forall x | x in OfJob(ever, job) ensures Newer(ever + {r}, x) == Newer(ever, x) {}
      assert Newest(ever + {r}, job, n) == Newest(ever, job, n);
      assert OfJob(rows + {r}, job) == OfJob(rows, job);
    }
  }

  /** Streaming retention: after any sequence of record-then-cleanup, each job that finished a run has kept
      exactly the n newest rows it ever had, and a job that finished none has kept all of them. */
  lemma {:induction false} StreamKeepsNewest(history: seq<set<Row>>, added: seq<Row>, n: nat, job: JobId)
    requires Stream(history, added, n)
    requires DistinctStarts(Everything(history[0], added))
    requires forall i :: 0 <= i < |added| ==> added[i] !in history[0]
    requires forall i, j :: 0 <= i < j < |added| ==> added[i] != added[j]
    ensures Retains(Everything(history[0], added), history[|added|], n)
    ensures KeptFor(history[0], added, n, history[|added|], job)
  {
    if added == [] {
      assert Everything(history[0], added) == history[0];
    } else {
      var last := |added| - 1;
      var r, before := added[last], added[..last];
      assert added == before + [r];
      assert Everything(history[0], added) == Everything(history[0], before) + {r};
      StreamKeepsNewest(history[..|history| - 1], before, n, job);
      assert RecordThenPrune(history[last], r, n, history[last + 1]);
      StreamStepKeeps(history[0], before, r, n, history[last], history[|added|], job);
    }
  }

  /** Said of the rows themselves: a job that finished a run has as many rows as the limit, or as it ever had, and no
      row that is gone was newer than one that is left. */
  lemma StreamKeepsLatest(history: seq<set<Row>>, added: seq<Row>, n: nat, done: Row, r: Row, x: Row)
    requires Stream(history, added, n)
    requires DistinctStarts(Everything(history[0], added))
    requires forall i :: 0 <= i < |added| ==> added[i] !in history[0]
    requires forall i, j :: 0 <= i < j < |added| ==> added[i] != added[j]
    requires done in added
    ensures var ever, rows := history[0] + (set a | a in added), history[|added|];
            var all := set a | a in ever && a.job == done.job;
            && |set a | a in rows && a.job == done.job| == (if |all| < n then |all| else n)
            && (r in rows && r.job == done.job && x in all && x !in rows ==> x.startedAt < r.startedAt)
  {
    var ever, rows, job := Everything(history[0], added), history[|added|], done.job;
    StreamKeepsNewest(history, added, n, job);
    NewestSize(ever, job, n);
    assert (set a | a in ever && a.job == job) == OfJob(ever, job);
    assert (set a | a in rows && a.job == job) == OfJob(rows, job);
    if r in rows && r.job == job && x in ever && x.job == job && x !in rows {
      assert r in OfJob(rows, job) && x !in OfJob(rows, job);
      NewestAreNewest(ever, job, n, r, x);
    }
  }
}
