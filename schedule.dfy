/**
 * The scheduling front end: the "HH:MM" schedule strings, the jobs registered
 * for them, and the test that decides whether the bot also runs at start-up.
 */
module Schedule {
  import opened Wrappers
  import opened Strings

  /** Runs every two hours, at twenty past. */
  const Schedules: seq<string> := [
    "00:20", "02:20", "04:20", "06:20", "08:20", "10:20",
    "12:20", "14:20", "16:20", "18:20", "20:20", "22:20"
  ]

  // ---------------------------------------------------------------- parsing

  /** Python's `s.split(sep)` for a one-character separator. */
  function Split(s: string, sep: char): (parts: seq<string>)
    decreases |s|
    ensures |parts| >= 1
    ensures forall k :: 0 <= k < |parts| ==> sep !in parts[k]
  {
    if s == [] then [""]
    else
      var rest := Split(s[1..], sep);
      if s[0] == sep then [""] + rest
      else [[s[0]] + rest[0]] + rest[1..]
  }

  /** Python's `sep.join(parts)`. */
  function Join(parts: seq<string>, sep: char): string
    requires |parts| >= 1
  {
    if |parts| == 1 then parts[0] else parts[0] + [sep] + Join(parts[1..], sep)
  }

  /** Splitting loses nothing: joining the parts with the separator gives the string back. */
  lemma {:induction false} JoinSplit(s: string, sep: char)
    decreases |s|
    ensures Join(Split(s, sep), sep) == s
  {
    if s != [] {
      var rest := Split(s[1..], sep);
      JoinSplit(s[1..], sep);
      if s[0] == sep {
        assert Split(s, sep)[1..] == rest;
      } else {
        var parts := Split(s, sep);
        assert parts[0] == [s[0]] + rest[0];
        if |rest| == 1 {
          assert parts == [[s[0]] + rest[0]];
        } else {
          assert parts[1..] == rest[1..];
          assert Join(rest, sep) == rest[0] + [sep] + Join(rest[1..], sep);
        }
      }
    }
  }

  /** A separator between two separator-free strings splits them apart again. */
  lemma {:induction false} SplitPair(a: string, b: string, sep: char)
    requires sep !in a && sep !in b
    decreases |a|
    ensures Split(a + [sep] + b, sep) == [a, b]
  {
    if a == [] {
      assert a + [sep] + b == [sep] + b;
      assert ([sep] + b)[1..] == b;
      SplitNone(b, sep);
    } else {
      assert (a + [sep] + b)[1..] == a[1..] + [sep] + b;
      SplitPair(a[1..], b, sep);
      assert [a[0]] + a[1..] == a;
    }
  }

  lemma {:induction false} SplitNone(s: string, sep: char)
    requires sep !in s
    decreases |s|
    ensures Split(s, sep) == [s]
  {
    if s != [] {
      SplitNone(s[1..], sep);
      assert [s[0]] + s[1..] == s;
    }
  }

  function DigitValue(c: char): nat
    requires IsDigit(c)
  {
    c as int - '0' as int
  }

  function DigitChar(d: nat): (c: char)
    requires d < 10
    ensures IsDigit(c) && DigitValue(c) == d
  {
    ('0' as int + d) as char
  }

  /** The value of a string of decimal digits. */
  function DecimalValue(s: string): nat
    requires AllDigits(s)
  {
    if s == [] then 0 else 10 * DecimalValue(s[..|s| - 1]) + DigitValue(s[|s| - 1])
  }

  /** Python's `int(s)` on a plain string of digits; anything else raises, here None. */
  function ParseNat(s: string): Option<nat>
  {
    if s != [] && AllDigits(s) then Some(DecimalValue(s)) else None
  }

  /** `hour, minute = map(int, schedule.split(':'))`: None where Python raises. */
  function ParseSchedule(schedule: string): Option<(nat, nat)>
  {
    var parts := Split(schedule, ':');
    if |parts| != 2 then None
    else
      match (ParseNat(parts[0]), ParseNat(parts[1]))
      case (Some(hour), Some(minute)) => Some((hour, minute))
      case _ => None
  }

  /** Two-digit, zero-padded decimal. */
  function Pad2(n: nat): (s: string)
    requires n < 100
    ensures |s| == 2 && AllDigits(s) && ':' !in s
  {
    [DigitChar(n / 10), DigitChar(n % 10)]
  }

  /** "HH:MM" for an hour and a minute below 100. */
  function Format(hour: nat, minute: nat): string
    requires hour < 100 && minute < 100
  {
    Pad2(hour) + ":" + Pad2(minute)
  }

  lemma Pad2Value(n: nat)
    requires n < 100
    ensures ParseNat(Pad2(n)) == Some(n)
  {
    var s := Pad2(n);
    assert s[..1] == [DigitChar(n / 10)];
    assert DecimalValue(s[..1]) == n / 10 by {
      assert s[..1][..0] == [];
    }
  }

  /** Parsing a formatted schedule gives back its hour and minute. */
  lemma ParseFormat(hour: nat, minute: nat)
    requires hour < 100 && minute < 100
    ensures ParseSchedule(Format(hour, minute)) == Some((hour, minute))
  {
    SplitPair(Pad2(hour), Pad2(minute), ':');
    assert Format(hour, minute) == Pad2(hour) + [':'] + Pad2(minute);
    Pad2Value(hour);
    Pad2Value(minute);
  }

  /** The shipped schedules are the even hours 0 to 22, each at minute 20, in order. */
  lemma SchedulesAreEvenHours()
    ensures |Schedules| == 12
    ensures forall i :: 0 <= i < 12 ==> Schedules[i] == Format(2 * i, 20)
  {
    assert Schedules[0] == Format(0, 20);
    assert Schedules[1] == Format(2, 20);
    assert Schedules[2] == Format(4, 20);
    assert Schedules[3] == Format(6, 20);
    assert Schedules[4] == Format(8, 20);
    assert Schedules[5] == Format(10, 20);
    assert Schedules[6] == Format(12, 20);
    assert Schedules[7] == Format(14, 20);
    assert Schedules[8] == Format(16, 20);
    assert Schedules[9] == Format(18, 20);
    assert Schedules[10] == Format(20, 20);
    assert Schedules[11] == Format(22, 20);
  }

  // ---------------------------------------------------------------- jobs

  /** The job id: "execution_" and the schedule with ':' replaced by '_'. */
  function JobId(schedule: string): string
  {
    "execution_" + ReplaceChar(schedule, ':', '_')
  }

  function JobName(schedule: string): string
  {
    "Execution " + schedule
  }

  /** Schedules without underscores get distinct job ids. */
  lemma JobIdInjective(s: string, t: string)
    requires '_' !in s && '_' !in t && JobId(s) == JobId(t)
    ensures s == t
  {
    var rs, rt := ReplaceChar(s, ':', '_'), ReplaceChar(t, ':', '_');
    assert rs == JobId(s)[10..] && rt == JobId(t)[10..];
    forall k | 0 <= k < |s|
      ensures s[k] == t[k]
    {
      assert rs[k] == rt[k];
      assert s[k] in s && t[k] in t;
    }
  }

  /** A job the scheduler holds: its id, its name, and the daily hour and minute it fires at. */
  datatype Job = Job(id: string, name: string, hour: nat, minute: nat)

  /** The jobs registered for `schedules`, in order, up to the first entry that does not parse; false if one did not. */
  function Register(schedules: seq<string>): (r: (bool, seq<Job>))
    ensures |r.1| <= |schedules|
    ensures r.0 ==> |r.1| == |schedules|
  {
    if schedules == [] then (true, [])
    else
      match ParseSchedule(schedules[0])
      case None => (false, [])
      case Some((hour, minute)) =>
        var rest := Register(schedules[1..]);
        (rest.0, [Job(JobId(schedules[0]), JobName(schedules[0]), hour, minute)] + rest.1)
  }

  /** Every job registered for a schedule that parses carries its id, its name, and the parsed hour and minute. */
  lemma {:induction false} RegisterJobs(schedules: seq<string>)
    requires forall i :: 0 <= i < |schedules| ==> ParseSchedule(schedules[i]).Some?
    ensures Register(schedules).0 && |Register(schedules).1| == |schedules|
    ensures forall i :: 0 <= i < |schedules| ==>
      var job := Register(schedules).1[i];
      job.id == JobId(schedules[i]) && job.name == JobName(schedules[i]) &&
      Some((job.hour, job.minute)) == ParseSchedule(schedules[i])
  {
    if schedules != [] {
      assert forall i :: 0 <= i < |schedules[1..]| ==> schedules[1..][i] == schedules[i + 1];
      RegisterJobs(schedules[1..]);
    }
  }

  /** The shipped schedules give twelve jobs, one per even hour at minute 20, with distinct ids. */
  lemma ShippedJobs()
    ensures var r := Register(Schedules);
      r.0 && |r.1| == 12 &&
      (forall i :: 0 <= i < 12 ==> r.1[i].hour == 2 * i && r.1[i].minute == 20 && r.1[i].id == JobId(Schedules[i])) &&
      (forall i, j :: 0 <= i < j < 12 ==> r.1[i].id != r.1[j].id)
  {
    SchedulesAreEvenHours();
    forall i | 0 <= i < 12
      ensures ParseSchedule(Schedules[i]) == Some((2 * i, 20))
    {
      ParseFormat(2 * i, 20);
    }
    RegisterJobs(Schedules);
    var r := Register(Schedules);
    forall i, j | 0 <= i < j < 12
      ensures r.1[i].id != r.1[j].id
    {
      if r.1[i].id == r.1[j].id {
        assert '_' !in Schedules[i] && '_' !in Schedules[j] by {
          assert '_' !in Pad2(2 * i) && '_' !in Pad2(2 * j) && '_' !in Pad2(20);
        }
        JobIdInjective(Schedules[i], Schedules[j]);
        assert false;
      }
    }
  }

  /** The scheduler's job store. */
  class Scheduler {
    var jobs: seq<Job>

    constructor()
      ensures jobs == []
    {
      jobs := [];
    }
  }

  /**
   * `schedule_executions`: one job per schedule, in list order. A schedule
   * that does not parse raises, leaving the jobs registered before it.
   */
  method ScheduleExecutions(scheduler: Scheduler, schedules: seq<string>) returns (ok: bool)
    modifies scheduler
    ensures var r := Register(schedules);
      ok == r.0 && scheduler.jobs == old(scheduler.jobs) + r.1
  {
    for k := 0 to |schedules|
      invariant var rest := Register(schedules[k..]);
        old(scheduler.jobs) + Register(schedules).1 == scheduler.jobs + rest.1 && Register(schedules).0 == rest.0
    {
      var schedule := schedules[k];
      assert schedules[k..][1..] == schedules[k + 1..];
      var parsed := ParseSchedule(schedule);
      if parsed.None? {
        return false;
      }
      var (hour, minute) := parsed.value;
      var job := Job(JobId(schedule), JobName(schedule), hour, minute);
      scheduler.jobs := scheduler.jobs + [job];
    }
    assert schedules[|schedules|..] == [];
    return true;
  }

  // ---------------------------------------------------------------- immediate run

  /**
   * The start-up test: run at once when the hour is in 0..22 and even (or 0)
   * and the minute is at most 10 (or the hour is 22 and the minute at most 10).
   * The disjuncts for hour 0 and hour 22 add nothing.
   */
  function RunNow(hour: int, minute: int): (run: bool)
    ensures run <==> 0 <= hour <= 22 && hour % 2 == 0 && minute <= 10
  {
    (0 <= hour <= 22) && (hour % 2 == 0 || hour == 0) && ((hour == 22 && minute <= 10) || minute <= 10)
  }

  /** An immediate run happens in an hour that also has a scheduled job, before that job's minute. */
  lemma RunNowPrecedesScheduledJob(hour: int, minute: int)
    requires RunNow(hour, minute)
    ensures exists i :: 0 <= i < |Register(Schedules).1| && Register(Schedules).1[i].hour == hour && minute < Register(Schedules).1[i].minute
  {
    var i := hour / 2;
    assert 0 <= i < 12 && 2 * i == hour;
    ShippedJobs();
    var r := Register(Schedules);
    assert r.1[i].hour == 2 * i && r.1[i].minute == 20;
  }
}
