/** The values every part of the dashboard passes around: instants, job identities, events, job entries. */
module Domain {

  datatype Option<+T> = None | Some(value: T)

  /** An instant, in nanoseconds since the Unix epoch. */
  type Time = int

  /** The zero instant (January 1 of year 1), which stands for "never". */
  const ZERO_TIME: Time := -62135596800 * 1000000000

  /** The microsecond of an instant, rounded towards the past; run starts are compared at this grain. */
  function Micro(t: Time): int {
    t / 1000
  }

  /** A microsecond covers a thousand nanoseconds, before the epoch too. */
  lemma MicroIsFloor(t: Time)
    ensures 1000 * Micro(t) <= t < 1000 * Micro(t) + 1000
  {
  }

  /** Between that instant and the epoch lie 1969 years of 365 days and their leap days. */
  lemma ZeroTimeIsYearOne()
    ensures ZERO_TIME + (1969 * 365 + 1969 / 4 - 1969 / 100 + 1969 / 400) * 24 * 3600 * 1000000000 == 0
  {
  }

  /** A job's identity: a digest of its command, treated as collision free. */
  datatype JobId = Digest(command: string)

  function HashCommand(command: string): JobId {
    Digest(command)
  }

  lemma HashIsInjective(command: string, other: string)
    ensures HashCommand(command) == HashCommand(other) <==> command == other
  {
  }

  datatype Status = Idle | Running | Success | Failed

  datatype EventKind = StartEvent | CompletedEvent | FailedEvent

  /** What the scheduler tells the dashboard about one run. */
  datatype Event = Event(kind: EventKind, command: string, executed: string, schedule: string,
                         startedAt: Time, finishedAt: Time, exitCode: int, output: string)
  {
    predicate Finished() {
      kind != StartEvent
    }

    function Key(): RunKey {
      RunKey(HashCommand(command), Micro(startedAt))
    }

    /** The status of the run a finish event reports. */
    function RunStatus(): Status {
      if kind == FailedEvent then Failed else Success
    }
  }

  /** A run is identified by its job and the microsecond it started. */
  datatype RunKey = RunKey(job: JobId, start: int)

  datatype ActiveRun = ActiveRun(startedAt: Time, executed: string)

  datatype JobInfo = JobInfo(id: JobId, name: string, command: string, schedule: string,
                             nextRun: Time, lastRun: Time, lastStatus: Status, lastExitCode: Option<int>,
                             lastDuration: int, isRunning: bool, enabled: bool,
                             createdAt: Time, updatedAt: Time, sortIndex: int)

  /** The schedule parser, which lives in a library: which specs parse, and when one fires next. */
  datatype Cron = Cron(parses: string -> bool, next: (string, Time) -> Time)

  /** One crontab entry as the job provider lists it. */
  datatype Spec = Spec(spec: string, command: string, name: string)
}
