/** Process lifetimes as `bootstrap.bpf.c` measures them. */
module ExecHistory {
  import opened Words
  import opened Kernel
  import opened Runs

  type Pid = S32

  /** `minDuration` is the least lifetime to report, 0 to report everything. */
  datatype Settings = Settings(minDuration: U64, cap: nat)

  /** A firing of one of the two tracepoints. `room` tells whether the ring buffer can reserve. */
  datatype Firing =
    | ExecFiring(pid: Pid, ppid: Pid, ts: U64, room: bool)
    | ExitFiring(pid: Pid, tid: Pid, ppid: Pid, now: U64, status: U32, room: bool)

  /** The events the program submits. */
  datatype Event =
    | ExecEvent(pid: Pid, ppid: Pid)
    | ExitEvent(pid: Pid, ppid: Pid, duration: U64, code: nat)

  datatype Watch = Watch(start: map<Pid, U64>, events: seq<Event>)

  function OnExec(cfg: Settings, w: Watch, f: Firing): Watch
    requires f.ExecFiring?
  {
    var start := UpdateAny(w.start, cfg.cap, f.pid, f.ts);
    Watch(start, if cfg.minDuration != 0 || !f.room then w.events else w.events + [ExecEvent(f.pid, f.ppid)])
  }

  /** Lifetime at `now`; 0 when no start was recorded. */
  function Lifetime(start: map<Pid, U64>, pid: Pid, now: U64): U64 {
    if pid in start then Sub(now, start[pid]) else 0
  }

  predicate Reported(cfg: Settings, w: Watch, f: Firing)
    requires f.ExitFiring?
  {
    && f.room
    && (cfg.minDuration != 0 ==> f.pid in w.start && Lifetime(w.start, f.pid, f.now) >= cfg.minDuration)
  }

  function OnExit(cfg: Settings, w: Watch, f: Firing): Watch
    requires f.ExitFiring?
  {
    if f.pid != f.tid then w
    else
      Watch(w.start - {f.pid},
            if !Reported(cfg, w, f) then w.events
            else w.events + [ExitEvent(f.pid, f.ppid, Lifetime(w.start, f.pid, f.now), f.status / 256 % 256)])
  }

  function On(cfg: Settings, w: Watch, f: Firing): Watch {
    if f.ExecFiring? then OnExec(cfg, w, f) else OnExit(cfg, w, f)
  }

  function Watched(cfg: Settings, trace: seq<Firing>): Watch {
    if trace == [] then Watch(map[], []) else On(cfg, Watched(cfg, trace[..|trace| - 1]), trace[|trace| - 1])
  }

  class Bootstrap {
    const cfg: Settings
    var execStart: map<Pid, U64>
    var rb: seq<Event>

    constructor (cfg: Settings)
      ensures this.cfg == cfg && execStart == map[] && rb == []
    {
      this.cfg := cfg;
      execStart, rb := map[], [];
    }

    ghost function View(): Watch
      reads this
    {
      Watch(execStart, rb)
    }

    method HandleExec(f: Firing)
      requires f.ExecFiring?
      modifies this
      ensures View() == OnExec(cfg, old(View()), f)
    {
      if f.pid in execStart || |execStart| < cfg.cap {
        execStart := execStart[f.pid := f.ts];
      }
      if cfg.minDuration != 0 {
        return;
      }
      if !f.room {
        return;
      }
      rb := rb + [ExecEvent(f.pid, f.ppid)];
    }

    method HandleExit(f: Firing)
      requires f.ExitFiring?
      modifies this
      ensures View() == OnExit(cfg, old(View()), f)
    {
      if f.pid != f.tid {
        return;
      }
      var duration: U64 := 0;
      if f.pid in execStart {
        duration := Sub(f.now, execStart[f.pid]);
      } else if cfg.minDuration != 0 {
        assert execStart - {f.pid} == execStart;
        return;
      }
      execStart := execStart - {f.pid};
      if cfg.minDuration != 0 && duration < cfg.minDuration {
        return;
      }
      if !f.room {
        return;
      }
      rb := rb + [ExitEvent(f.pid, f.ppid, duration, f.status / 256 % 256)];
    }
  }

  predicate IsLeaderExit(f: Firing, pid: Pid) {
    f.ExitFiring? && f.pid == pid && f.tid == pid
  }

  /** The time of the latest exec of `pid` since the last exit of its leader. */
  function LatestExec(trace: seq<Firing>, pid: Pid): Option<U64> {
    if trace == [] then None
    else
      var f := trace[|trace| - 1];
      if f.ExecFiring? && f.pid == pid then Some(f.ts)
      else if IsLeaderExit(f, pid) then None
      else LatestExec(trace[..|trace| - 1], pid)
  }

  /** A recorded start is always the latest exec, full map or not. */
  lemma {:induction false} StartIsLatestExec(cfg: Settings, trace: seq<Firing>, pid: Pid)
    requires pid in Watched(cfg, trace).start
    ensures LatestExec(trace, pid) == Some(Watched(cfg, trace).start[pid])
  {
    var front, f := trace[..|trace| - 1], trace[|trace| - 1];
    if !(f.ExecFiring? && f.pid == pid) {
      StartIsLatestExec(cfg, front, pid);
    }
  }

  function Execed(trace: seq<Firing>): set<Pid> {
    set n | 0 <= n < |trace| && trace[n].ExecFiring? :: trace[n].pid
  }

  lemma ExecedGrows(trace: seq<Firing>)
    requires trace != []
    ensures Execed(trace[..|trace| - 1]) <= Execed(trace)
    ensures trace[|trace| - 1].ExecFiring? ==> trace[|trace| - 1].pid in Execed(trace)
  {
    forall p | p in Execed(trace[..|trace| - 1]) ensures p in Execed(trace) {
      var n :| 0 <= n < |trace| - 1 && trace[n].ExecFiring? && trace[n].pid == p;
    }
  }

  lemma {:induction false} StartsWereExeced(cfg: Settings, trace: seq<Firing>)
    ensures Watched(cfg, trace).start.Keys <= Execed(trace)
  {
    if trace != [] {
      StartsWereExeced(cfg, trace[..|trace| - 1]);
      ExecedGrows(trace);
    }
  }

  /** While the processes fit in the map, a start is recorded exactly for those that ran exec
      and whose leader has not exited since. */
  lemma {:induction false} StartRecordedIff(cfg: Settings, trace: seq<Firing>, pid: Pid)
    requires |Execed(trace)| <= cfg.cap
    ensures pid in Watched(cfg, trace).start <==> LatestExec(trace, pid).Some?
  {
    if trace != [] {
      var front, f := trace[..|trace| - 1], trace[|trace| - 1];
      ExecedGrows(trace);
      SubsetSize(Execed(front), Execed(trace));
      StartRecordedIff(cfg, front, pid);
      StartsWereExeced(cfg, front);
      var start := Watched(cfg, front).start;
      if f.ExecFiring? && f.pid == pid && pid !in start {
        SubsetSize(start.Keys + {pid}, Execed(trace));
      }
    }
  }

  /** What the program may say about the exit at `trace[n]`. */
  predicate TellsLifetime(cfg: Settings, trace: seq<Firing>, n: nat, e: Event) {
    && n < |trace| && e.ExitEvent? && IsLeaderExit(trace[n], e.pid)
    && e.ppid == trace[n].ppid && e.code == trace[n].status / 256 % 256
    && var exec := LatestExec(trace[..n], e.pid);
       if e.pid in Watched(cfg, trace[..n]).start
       then exec.Some? && e.duration == Sub(trace[n].now, exec.value)
       else e.duration == 0
  }

  lemma OnePerFiring(cfg: Settings, w: Watch, f: Firing)
    ensures w.events <= On(cfg, w, f).events && |On(cfg, w, f).events| <= |w.events| + 1
    ensures On(cfg, w, f).events != w.events && f.ExecFiring? ==>
      cfg.minDuration == 0 && On(cfg, w, f).events == w.events + [ExecEvent(f.pid, f.ppid)]
    ensures On(cfg, w, f).events != w.events && f.ExitFiring? ==>
      && f.pid == f.tid && Reported(cfg, w, f)
      && On(cfg, w, f).events == w.events + [ExitEvent(f.pid, f.ppid, Lifetime(w.start, f.pid, f.now), f.status / 256 % 256)]
  {
  }

  /** Every event of every run comes from one firing: an exec (only when no minimum is set), or
      the exit of a leader, whose duration is counted from its latest exec, 0 when that was
      not recorded; with a minimum set it was recorded and the duration reaches the minimum. */
  lemma {:induction false} EventOrigin(cfg: Settings, trace: seq<Firing>, i: nat) returns (n: nat)
    requires i < |Watched(cfg, trace).events|
    ensures n < |trace|
    ensures var e := Watched(cfg, trace).events[i];
      if e.ExecEvent? then cfg.minDuration == 0 && trace[n].ExecFiring? && e == ExecEvent(trace[n].pid, trace[n].ppid)
      else
        && TellsLifetime(cfg, trace, n, e)
        && (cfg.minDuration != 0 ==> e.pid in Watched(cfg, trace[..n]).start && e.duration >= cfg.minDuration)
  {
    var last := |trace| - 1;
    var front, f := trace[..last], trace[last];
    var w := Watched(cfg, front);
    OnePerFiring(cfg, w, f);
    if i < |w.events| {
      n := EventOrigin(cfg, front, i);
      assert front[..n] == trace[..n];
    } else {
      n := last;
      if f.ExitFiring? && f.pid in w.start {
        StartIsLatestExec(cfg, front, f.pid);
      }
    }
  }

  /** With a minimum duration set, a run submits nothing but exits that lasted at least that long. */
  lemma {:induction false} OnlyLongExits(cfg: Settings, trace: seq<Firing>, i: nat)
    requires cfg.minDuration != 0 && i < |Watched(cfg, trace).events|
    ensures var e := Watched(cfg, trace).events[i]; e.ExitEvent? && e.duration >= cfg.minDuration
  {
    var n := EventOrigin(cfg, trace, i);
  }

  /** An exec is reported at once, unless a minimum is set or the ring buffer is full. */
  lemma ExecReportedIff(cfg: Settings, trace: seq<Firing>, f: Firing)
    requires f.ExecFiring?
    ensures Watched(cfg, trace + [f]).events
         == Watched(cfg, trace).events + if cfg.minDuration == 0 && f.room then [ExecEvent(f.pid, f.ppid)] else []
  {
    assert (trace + [f])[..|trace|] == trace;
  }

  /** What one firing has to say after `trace`. */
  function Says(cfg: Settings, trace: seq<Firing>, f: Firing): seq<Event> {
    if f.ExecFiring? then
      if cfg.minDuration == 0 && f.room then [ExecEvent(f.pid, f.ppid)] else []
    else
      var exec := LatestExec(trace, f.pid);
      var duration: U64 := if exec.Some? then (f.now - exec.value) % 0x1_0000_0000_0000_0000 else 0;
      if f.pid == f.tid && f.room && (cfg.minDuration == 0 || (exec.Some? && duration >= cfg.minDuration))
      then [ExitEvent(f.pid, f.ppid, duration, f.status / 256 % 256)] else []
  }

  function Told(cfg: Settings, trace: seq<Firing>): seq<Event> {
    if trace == [] then [] else Told(cfg, trace[..|trace| - 1]) + Says(cfg, trace[..|trace| - 1], trace[|trace| - 1])
  }

  lemma SaysNext(cfg: Settings, trace: seq<Firing>, f: Firing)
    requires |Execed(trace)| <= cfg.cap
    ensures On(cfg, Watched(cfg, trace), f).events == Watched(cfg, trace).events + Says(cfg, trace, f)
  {
    if f.ExitFiring? {
      StartRecordedIff(cfg, trace, f.pid);
      if f.pid in Watched(cfg, trace).start {
        StartIsLatestExec(cfg, trace, f.pid);
      }
    }
  }

  /** While the processes fit in the map, the events of a run are those that its history tells: every
      exec and every exit of a leader at which the ring buffer has room, an exit with the time since
      the latest exec, 0 if that was before the run, and with a minimum only the exits that reach it. */
  lemma {:induction false} EventsAreTold(cfg: Settings, trace: seq<Firing>)
    requires |Execed(trace)| <= cfg.cap
    ensures Watched(cfg, trace).events == Told(cfg, trace)
  {
    if trace != [] {
      var front, f := trace[..|trace| - 1], trace[|trace| - 1];
      ExecedGrows(trace);
      SubsetSize(Execed(front), Execed(trace));
      EventsAreTold(cfg, front);
      SaysNext(cfg, front, f);
    }
  }

  /** An exit is reported exactly when it is the leader's, the ring buffer has room and, with a
      minimum set, the start was recorded and lies far enough back. */
  lemma {:induction false} ExitReportedIff(cfg: Settings, trace: seq<Firing>, f: Firing)
    requires f.ExitFiring? && |Execed(trace)| <= cfg.cap
    ensures var exec := LatestExec(trace, f.pid);
      Watched(cfg, trace + [f]).events != Watched(cfg, trace).events <==>
        && f.pid == f.tid && f.room
        && (cfg.minDuration != 0 ==> exec.Some? && Sub(f.now, exec.value) >= cfg.minDuration)
  {
    assert (trace + [f])[..|trace|] == trace;
    StartRecordedIff(cfg, trace, f.pid);
    if f.pid in Watched(cfg, trace).start {
      StartIsLatestExec(cfg, trace, f.pid);
    }
  }
}
