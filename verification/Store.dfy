/** The database as the dashboard uses it: an executions table and a jobs table, each operation one transaction.
    Every operation that the database may refuse takes the outcome of that attempt as a parameter. */
module Persistence {
  import opened Domain
  import opened Executions

  /** The jobs table: one row per job id. */
  type Table = map<JobId, JobInfo>

  ghost predicate Keyed(jobs: map<JobId, JobInfo>) {
    forall id :: id in jobs ==> jobs[id].id == id
  }

  ghost predicate NoneRunning(jobs: map<JobId, JobInfo>) {
    forall id :: id in jobs ==> !jobs[id].isRunning
  }

  /** A row of the jobs table: the running flag is not stored, and the position is that of the save. */
  function StoredAs(job: JobInfo, index: nat): JobInfo {
    job.(isRunning := false, sortIndex := index)
  }

  /** The table after inserting or replacing the first n of the given jobs, in order. */
  function SavedUpTo(table: Table, js: seq<JobInfo>, n: nat): Table
    requires n <= |js|
  {
    if n == 0 then table else SavedUpTo(table, js, n - 1)[js[n - 1].id := StoredAs(js[n - 1], n - 1)]
  }

  /** A save touches the rows of the jobs it is given, each once, and no others: rows are never deleted. */
  lemma {:induction false} SavedRows(table: Table, js: seq<JobInfo>, n: nat, id: JobId)
    requires n <= |js|
    requires forall i, j :: 0 <= i < j < n ==> js[i].id != js[j].id
    ensures id in SavedUpTo(table, js, n) <==> id in table || exists i :: 0 <= i < n && js[i].id == id
    ensures forall i :: 0 <= i < n && js[i].id == id ==> SavedUpTo(table, js, n)[id] == StoredAs(js[i], i)
    ensures (forall i :: 0 <= i < n ==> js[i].id != id) && id in table ==> SavedUpTo(table, js, n)[id] == table[id]
  {
    if n > 0 {
      SavedRows(table, js, n - 1, id);
    }
  }

  /** The rows of the table, each once, by position. */
  ghost predicate ListsTable(table: Table, js: seq<JobInfo>) {
    && (forall i :: 0 <= i < |js| ==> js[i].id in table && table[js[i].id] == js[i])
    && (forall id :: id in table ==> table[id] in js)
    && (forall i, j :: 0 <= i < j < |js| ==> js[i].id != js[j].id && js[i].sortIndex <= js[j].sortIndex)
  }

  /** How a lookup of one row ends. */
  datatype Lookup = Found(row: Row) | NotFound | Unreadable

  class Store {
    var executions: set<Row>
    var nextId: int
    var jobs: Table

    /** Execution ids start at 1, are never reused, and are smaller than the next one; every job row is stored under
        its job's id and without the running flag. */
    ghost predicate Valid()
      reads this
    {
      && 1 <= nextId
      && (forall r :: r in executions ==> 1 <= r.id < nextId)
      && (forall x, y :: x in executions && y in executions && x.id == y.id ==> x == y)
      && Keyed(jobs) && NoneRunning(jobs)
    }

    constructor ()
      ensures Valid() && executions == {} && jobs == map[]
    {
      executions, nextId, jobs := {}, 1, map[];
    }

    /** Inserts one row under the next id, or nothing. */
    method RecordExecution(job: JobId, startedAt: Time, finishedAt: Time, status: Status, exitCode: int,
                           executed: string, output: string, io: bool) returns (ok: bool)
      requires Valid()
      modifies this`executions, this`nextId
      ensures Valid() && ok == io
      ensures ok ==> nextId == old(nextId) + 1 && executions == old(executions) +
                     {Row(old(nextId), job, startedAt, finishedAt, status, exitCode, executed, output)}
      ensures !ok ==> nextId == old(nextId) && executions == old(executions)
    {
      if !io { return false; }
      executions := executions + {Row(nextId, job, startedAt, finishedAt, status, exitCode, executed, output)};
      nextId := nextId + 1;
      return true;
    }

    static method NewestOf(rows: set<Row>) returns (m: Row)
      requires rows != {}
      ensures m in rows && forall x :: x in rows ==> x.startedAt <= m.startedAt
    {
      m :| m in rows;
      var rest := rows - {m};
      while rest != {}
        invariant m in rows && rest <= rows
        invariant forall x :: x in rows - rest ==> x.startedAt <= m.startedAt
        decreases rest
      {
        var x :| x in rest;
        if x.startedAt > m.startedAt { m := x; }
        rest := rest - {x};
      }
    }

    /** The job's most recent rows, newest first, at most limit of them. */
    method SelectNewest(job: JobId, limit: nat) returns (sel: seq<Row>)
      ensures Selection(executions, job, limit, sel)
    {
      var rest := set r | r in executions && r.job == job;
      sel := [];
      while |sel| < limit && rest != {}
        invariant rest <= OfJob(executions, job) && |sel| <= limit
        invariant forall r :: r in OfJob(executions, job) <==> r in rest || r in sel
        invariant |sel| + |rest| == |OfJob(executions, job)|
        invariant forall i :: 0 <= i < |sel| ==> sel[i] !in rest
        invariant forall i, j :: 0 <= i < j < |sel| ==> sel[i] != sel[j] && sel[i].startedAt >= sel[j].startedAt
        invariant forall r, i :: r in rest && 0 <= i < |sel| ==> r.startedAt <= sel[i].startedAt
        decreases rest
      {
        var r := NewestOf(rest);
        sel := sel + [r];
        rest := rest - {r};
      }
    }

    method GetExecutions(job: JobId, limit: nat, io: bool) returns (res: Option<seq<Row>>)
      ensures res.Some? == io
      ensures io ==> Selection(executions, job, limit, res.value)
    {
      if !io { return None; }
      var sel := SelectNewest(job, limit);
      return Some(sel);
    }

    /** Scans the job's rows for one that started in the given microsecond, then fetches it by id. */
    method GetExecutionByStart(job: JobId, start: int, io: bool) returns (res: Lookup)
      requires Valid()
      ensures res.Unreadable? <==> !io
      ensures res.Found? ==> res.row in executions && res.row.Key() == RunKey(job, start)
      ensures res.NotFound? ==> forall r :: r in executions ==> r.Key() != RunKey(job, start)
    {
      if !io { return Unreadable; }
      var rows := set r | r in executions && r.job == job;
      var execId := 0;
      var rest := rows;
      while rest != {} && execId == 0
        invariant rest <= rows
        invariant execId == 0 ==> forall r :: r in rows - rest ==> Micro(r.startedAt) != start
        invariant execId != 0 ==> exists r :: r in rows && r.id == execId && Micro(r.startedAt) == start
        decreases rest
      {
        var meta :| meta in rest;
        if Micro(meta.startedAt) == start {
          execId := meta.id;
        }
        rest := rest - {meta};
      }
      if execId == 0 { return NotFound; }
      var row :| row in executions && row.id == execId;
      return Found(row);
    }

    /** Deletes the job's rows beyond the limit newest, or nothing. */
    method CleanupOldExecutions(job: JobId, limit: nat, io: bool) returns (ok: bool)
      requires Valid()
      modifies this`executions
      ensures Valid() && ok == io
      ensures ok ==> Pruned(old(executions), job, limit, executions)
      ensures !ok ==> executions == old(executions)
    {
      if !io { return false; }
      var sel := SelectNewest(job, limit);
      executions := set r | r in executions && (r.job != job || r in sel);
      return true;
    }

    /** Inserts or replaces the given jobs in one transaction, or nothing. */
    method SaveJobs(js: seq<JobInfo>, io: bool) returns (ok: bool)
      requires Valid()
      modifies this`jobs
      ensures Valid() && ok == io
      ensures jobs == if ok then SavedUpTo(old(jobs), js, |js|) else old(jobs)
    {
      var tx := jobs;
      for idx := 0 to |js|
        invariant Keyed(tx) && NoneRunning(tx) && tx == SavedUpTo(jobs, js, idx)
      {
        tx := tx[js[idx].id := StoredAs(js[idx], idx)];
      }
      if !io { return false; }
      jobs := tx;
      return true;
    }

    method LoadJobs(io: bool) returns (res: Option<seq<JobInfo>>)
      requires Valid()
      ensures res.Some? == io
      ensures io ==> ListsTable(jobs, res.value)
    {
      if !io { return None; }
      var js: seq<JobInfo> := [];
      var rest := jobs.Keys;
      while rest != {}
        invariant rest <= jobs.Keys
        invariant forall i :: 0 <= i < |js| ==> js[i].id in jobs && jobs[js[i].id] == js[i] && js[i].id !in rest
        invariant forall id :: id in jobs ==> id in rest || jobs[id] in js
        invariant forall i, j :: 0 <= i < j < |js| ==> js[i].id != js[j].id && js[i].sortIndex <= js[j].sortIndex
        invariant forall id, i :: id in rest && 0 <= i < |js| ==> js[i].sortIndex <= jobs[id].sortIndex
        decreases rest
      {
        var id := FirstOf(jobs, rest);
        js := js + [jobs[id]];
        rest := rest - {id};
      }
      return Some(js);
    }

    static method FirstOf(table: Table, ids: set<JobId>) returns (m: JobId)
      requires ids != {} && ids <= table.Keys
      ensures m in ids && forall x :: x in ids ==> table[m].sortIndex <= table[x].sortIndex
    {
      m :| m in ids;
      var rest := ids - {m};
      while rest != {}
        invariant m in ids && rest <= ids
        invariant forall x :: x in ids - rest ==> table[m].sortIndex <= table[x].sortIndex
        decreases rest
      {
        var x :| x in rest;
        if table[x].sortIndex < table[m].sortIndex { m := x; }
        rest := rest - {x};
      }
    }
  }
}
