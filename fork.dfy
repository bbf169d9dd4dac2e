/**
 * The subprocess supervisor of src/fork.c: a registry of tasks, each with
 * the pid of the child running it (0 when none is), that the supervisor
 * loop fills by forking, resets when a child exits and clears on shutdown.
 * fork() and waitpid() results are inputs; kill() is recorded as the list
 * of pids signalled.
 */
module Supervisor {

  const ExitFailure: int := 1
  const SigSegv: int := 11
  const SigTerm: int := 15
  /** What waitpid(WAIT_ANY, ...) returns when it fails (no child left, or interrupted). */
  const WaitFailed: int := -1

  /** One registry entry: the child's pid (0: not running) and the task (fn and arg) it runs. */
  datatype Entry = Entry(pid: int, task: nat)

  /** What waitpid reports: the pid, whether the child exited normally, and its exit status. */
  datatype Wait = Wait(pid: int, exited: bool, status: int)

  /** The supervisor gives up: waitpid failed, or a child exited with EXIT_FAILURE. */
  predicate ShutsDown(w: Wait) {
    w.pid == WaitFailed || (w.exited && w.status == ExitFailure)
  }

  /** No entry holds a negative pid. */
  predicate PidsValid(es: seq<Entry>) {
    forall i :: 0 <= i < |es| ==> es[i].pid >= 0
  }

  /** No entry has a running child. */
  predicate NoneRunning(es: seq<Entry>) {
    forall i :: 0 <= i < |es| ==> es[i].pid <= 0
  }

  /** Two registries list the same tasks in the same order. */
  predicate SameTasks(a: seq<Entry>, b: seq<Entry>) {
    |a| == |b| && forall i :: 0 <= i < |a| ==> a[i].task == b[i].task
  }

  /** The pids with a running child, in registry order: the ones a kill-all loop signals. */
  function Running(es: seq<Entry>): (r: seq<int>)
    ensures |r| <= |es|
    ensures forall j :: 0 <= j < |r| ==> r[j] > 0
  {
    if es == [] then [] else (if es[0].pid > 0 then [es[0].pid] else []) + Running(es[1..])
  }

  // ---------------------------------------------------------------------------
  // The three passes of one supervisor round, entry by entry

  /** The spawn pass on one entry: a pid-0 entry takes the pid fork() returned in the parent, if positive. */
  function SpawnEntry(e: Entry, fork: int): Entry {
    if e.pid == 0 && fork > 0 then e.(pid := fork) else e
  }

  /** The restart pass on one entry: the reaped child's entry goes back to 0. */
  function RestartEntry(e: Entry, reaped: int): Entry {
    if e.pid == reaped then e.(pid := 0) else e
  }

  /** The kill-all pass on one entry: a running child is signalled and its entry goes back to 0. */
  function KillEntry(e: Entry): Entry {
    if e.pid > 0 then e.(pid := 0) else e
  }

  /**
   * The spawn pass: forks[i] is what fork() returns in the parent for entry
   * i if it is forked.  Only pid-0 entries are forked; a successful fork
   * records the child, a failed one leaves 0, and running entries are kept.
   */
  function Spawned(es: seq<Entry>, forks: seq<int>): (r: seq<Entry>)
    requires |forks| == |es|
    ensures SameTasks(es, r)
    ensures forall i :: 0 <= i < |es| && es[i].pid != 0 ==> r[i] == es[i]
    ensures forall i :: 0 <= i < |es| && es[i].pid == 0 ==> (r[i].pid > 0 <==> forks[i] > 0)
  {
    seq(|es|, i requires 0 <= i < |es| => SpawnEntry(es[i], forks[i]))
  }

  /** The restart pass: exactly the entries of the reaped pid go back to 0. */
  function Restarted(es: seq<Entry>, reaped: int): (r: seq<Entry>)
    ensures SameTasks(es, r)
    ensures forall i :: 0 <= i < |es| ==> (r[i].pid == 0 <==> es[i].pid == 0 || es[i].pid == reaped)
    ensures forall i :: 0 <= i < |es| && es[i].pid != reaped ==> r[i] == es[i]
  {
    seq(|es|, i requires 0 <= i < |es| => RestartEntry(es[i], reaped))
  }

  /** The kill-all pass: no child is left running, and entries not running are kept. */
  function Killed(es: seq<Entry>): (r: seq<Entry>)
    ensures SameTasks(es, r) && NoneRunning(r)
    ensures forall i :: 0 <= i < |es| && es[i].pid <= 0 ==> r[i] == es[i]
  {
    seq(|es|, i requires 0 <= i < |es| => KillEntry(es[i]))
  }

  /** The result of one round of the supervisor loop. */
  datatype Outcome = Outcome(entries: seq<Entry>, terminated: bool, signalled: seq<int>)

  /**
   * One round of subprocess_run: spawn every pid-0 entry, wait for a
   * child, then either set `terminated` or reset the reaped child's entries;
   * once `terminated` is set, signal every running child and clear its
   * entry, and the loop ends.
   */
  function Round(es: seq<Entry>, terminated: bool, forks: seq<int>, w: Wait): (o: Outcome)
    requires |forks| == |es|
    ensures SameTasks(es, o.entries)
    ensures o.terminated <==> terminated || ShutsDown(w)
    ensures o.terminated ==> NoneRunning(o.entries)
    ensures !o.terminated ==> o.signalled == []
  {
    var spawned := Spawned(es, forks);
    var waited := if ShutsDown(w) then spawned else Restarted(spawned, w.pid);
    var stop := terminated || ShutsDown(w);
    if stop then Outcome(Killed(waited), true, Running(waited)) else Outcome(waited, false, [])
  }

  // ---------------------------------------------------------------------------
  // Properties of the registry passes

  /** The pids a kill-all loop signals are exactly the positive pids of the registry. */
  lemma {:induction false} RunningIsExactlyPositive(es: seq<Entry>)
    ensures forall p :: p in Running(es) <==> p > 0 && exists i :: 0 <= i < |es| && es[i].pid == p
  {
    if es != [] {
      RunningIsExactlyPositive(es[1..]);
      forall p | p > 0 && (exists i :: 0 <= i < |es| && es[i].pid == p)
        ensures p in Running(es)
      {
        var i :| 0 <= i < |es| && es[i].pid == p;
        if i > 0 {
          assert es[1..][i - 1] == es[i];
        }
      }
      forall p | p in Running(es[1..])
        ensures exists i :: 0 <= i < |es| && es[i].pid == p
      {
        var i :| 0 <= i < |es[1..]| && es[1..][i].pid == p;
        assert es[i + 1].pid == p;
      }
    }
  }

  /** Every pass keeps pids non-negative. */
  lemma RoundKeepsPidsValid(es: seq<Entry>, terminated: bool, forks: seq<int>, w: Wait)
    requires |forks| == |es|
    ensures PidsValid(es) ==> PidsValid(Round(es, terminated, forks, w).entries)
    ensures PidsValid(es) ==> PidsValid(CorrectedRound(es, terminated, forks, w).entries)
  {
    if PidsValid(es) {
      var spawned := Spawned(es, forks);
      assert PidsValid(spawned);
      var waited := if ShutsDown(w) then spawned else Restarted(spawned, w.pid);
      assert PidsValid(waited);
      var reset := if w.pid == WaitFailed then spawned else Restarted(spawned, w.pid);
      assert PidsValid(reset);
    }
  }

  /**
   * A child that exits other than with EXIT_FAILURE is restarted: its entry
   * is reset in this round and, when the next fork succeeds, holds the new
   * child; the other entries keep their pids and nothing is signalled.
   */
  lemma ExitedChildIsRestarted(es: seq<Entry>, forks: seq<int>, w: Wait, i: nat, next: seq<int>)
    requires |forks| == |es| && |next| == |es|
    requires !ShutsDown(w) && 0 <= i < |es|
    requires Spawned(es, forks)[i].pid == w.pid
    ensures var o := Round(es, false, forks, w);
      !o.terminated && o.signalled == [] && o.entries[i].pid == 0
      && (next[i] > 0 ==> Spawned(o.entries, next)[i].pid == next[i])
    ensures var o := Round(es, false, forks, w);
      forall j :: 0 <= j < |es| && Spawned(es, forks)[j].pid != w.pid ==> o.entries[j] == Spawned(es, forks)[j]
  {
  }

  /**
   * A failed waitpid ends the loop: every child still running is signalled,
   * in registry order, and no entry is left with a running child.
   */
  lemma FailedWaitStopsAll(es: seq<Entry>, terminated: bool, forks: seq<int>)
    requires |forks| == |es|
    ensures var o := Round(es, terminated, forks, Wait(WaitFailed, false, 0));
      o.terminated && NoneRunning(o.entries) && o.signalled == Running(Spawned(es, forks))
  {
  }

  /**
   * The kill-all pass signals every running child once its entry is
   * reached: each pid signalled is one the registry held just before.
   */
  lemma SignalledWereRunning(es: seq<Entry>, terminated: bool, forks: seq<int>, w: Wait)
    requires |forks| == |es|
    ensures var o := Round(es, terminated, forks, w);
      forall p :: p in o.signalled ==> p > 0 && exists i :: 0 <= i < |es| && Spawned(es, forks)[i].pid == p
  {
    var spawned := Spawned(es, forks);
    var waited := if ShutsDown(w) then spawned else Restarted(spawned, w.pid);
    RunningIsExactlyPositive(waited);
    forall p | p in Round(es, terminated, forks, w).signalled
      ensures exists i :: 0 <= i < |es| && spawned[i].pid == p
    {
      var i :| 0 <= i < |waited| && waited[i].pid == p;
      assert spawned[i].pid == p;
    }
  }

  // ---------------------------------------------------------------------------
  // A reaped child that exited with EXIT_FAILURE is still signalled

  /**
   * The round as written keeps the reaped child's pid when it exited with
   * EXIT_FAILURE, so the kill-all pass sends SIGTERM to a pid waitpid has
   * already reaped (and that the system may have handed to another process).
   */
  lemma ReapedChildSignalledAsWritten(pid: int, task: nat)
    requires pid > 0
    ensures Round([Entry(pid, task)], false, [0], Wait(pid, true, ExitFailure)).signalled == [pid]
  {
  }

  /** The round with the reaped child's entries reset before the shutdown decision. */
  function CorrectedRound(es: seq<Entry>, terminated: bool, forks: seq<int>, w: Wait): (o: Outcome)
    requires |forks| == |es|
    ensures SameTasks(es, o.entries)
    ensures o.terminated <==> terminated || ShutsDown(w)
    ensures o.terminated ==> NoneRunning(o.entries)
  {
    var spawned := Spawned(es, forks);
    var waited := if w.pid == WaitFailed then spawned else Restarted(spawned, w.pid);
    var stop := terminated || ShutsDown(w);
    if stop then Outcome(Killed(waited), true, Running(waited)) else Outcome(waited, false, [])
  }

  /** The corrected round never signals the child waitpid has just reaped, and agrees with the round as written unless a child exited with EXIT_FAILURE. */
  lemma CorrectedRoundSparesReaped(es: seq<Entry>, terminated: bool, forks: seq<int>, w: Wait)
    requires |forks| == |es|
    ensures w.pid > 0 ==> w.pid !in CorrectedRound(es, terminated, forks, w).signalled
    ensures !ShutsDown(w) || w.pid == WaitFailed ==> CorrectedRound(es, terminated, forks, w) == Round(es, terminated, forks, w)
  {
    var spawned := Spawned(es, forks);
    var waited := if w.pid == WaitFailed then spawned else Restarted(spawned, w.pid);
    RunningIsExactlyPositive(waited);
  }

  /** Running distributes over concatenation. */
  lemma {:induction false} RunningAppend(a: seq<Entry>, b: seq<Entry>)
    ensures Running(a + b) == Running(a) + Running(b)
  {
    if a == [] {
      assert a + b == b;
    } else {
      var head := if a[0].pid > 0 then [a[0].pid] else [];
      calc {
        Running(a + b);
        { assert (a + b)[0] == a[0] && (a + b)[1..] == a[1..] + b; }
        head + Running(a[1..] + b);
        { RunningAppend(a[1..], b); }
        head + (Running(a[1..]) + Running(b));
        (head + Running(a[1..])) + Running(b);
      }
    }
  }

  /** The pids signalled by the first i + 1 steps of a kill-all loop. */
  lemma RunningSnoc(es: seq<Entry>, i: nat)
    requires i < |es|
    ensures Running(es[..i + 1]) == Running(es[..i]) + (if es[i].pid > 0 then [es[i].pid] else [])
  {
    assert es[..i + 1] == es[..i] + [es[i]];
    RunningAppend(es[..i], [es[i]]);
  }

  // ---------------------------------------------------------------------------
  // The for(;;) loop of subprocess_run

  /** Where the loop has got to: the last round's outcome, with the pids signalled in all rounds, and the rounds run. */
  datatype Supervised = Supervised(last: Outcome, rounds: nat)

  /**
   * subprocess_run over a finite script of rounds, each the fork results
   * and the wait result of one pass: rounds run until one ends with the
   * flag set, which breaks the loop.
   */
  function Rounds(es: seq<Entry>, terminated: bool, script: seq<(seq<int>, Wait)>): (r: Supervised)
    requires forall j :: 0 <= j < |script| ==> |script[j].0| == |es|
    ensures r.rounds <= |script| && (r.rounds == 0 <==> script == [])
    ensures SameTasks(es, r.last.entries)
    ensures r.rounds < |script| ==> r.last.terminated
    ensures r.rounds > 0 && r.last.terminated ==> NoneRunning(r.last.entries)
    ensures PidsValid(es) ==> PidsValid(r.last.entries)
    decreases |script|
  {
    if script == [] then Supervised(Outcome(es, terminated, []), 0)
    else
      var o := Round(es, terminated, script[0].0, script[0].1);
      RoundKeepsPidsValid(es, terminated, script[0].0, script[0].1);
      if o.terminated then Supervised(o, 1)
      else
        var rest := Rounds(o.entries, false, script[1..]);
        Supervised(rest.last.(signalled := o.signalled + rest.last.signalled), rest.rounds + 1)
  }

  /** One round of the loop at position k of the script, and the rounds after it. */
  lemma RoundsStep(es: seq<Entry>, terminated: bool, script: seq<(seq<int>, Wait)>, k: nat)
    requires k < |script| && forall j :: 0 <= j < |script| ==> |script[j].0| == |es|
    ensures var o := Round(es, terminated, script[k].0, script[k].1);
      Rounds(es, terminated, script[k..]) ==
        if o.terminated then Supervised(o, 1)
        else var rest := Rounds(o.entries, false, script[k + 1..]); Supervised(rest.last, rest.rounds + 1)
  {
    var tail := script[k..];
    assert tail[0] == script[k] && tail[1..] == script[k + 1..];
    var o := Round(es, terminated, script[k].0, script[k].1);
    if !o.terminated {
      var rest := Rounds(o.entries, false, script[k + 1..]);
      assert [] + rest.last.signalled == rest.last.signalled;
    }
  }

  /** The first wait result that is a shutdown condition. */
  predicate FirstShutdown(script: seq<(seq<int>, Wait)>, k: nat) {
    k < |script| && ShutsDown(script[k].1) && forall j :: 0 <= j < k ==> !ShutsDown(script[j].1)
  }

  /**
   * The loop ends in the round of the first failed waitpid or EXIT_FAILURE
   * exit, and runs the whole script, signalling nothing, when there is none.
   */
  lemma {:induction false} RoundsStopAtFirstShutdown(es: seq<Entry>, script: seq<(seq<int>, Wait)>)
    requires forall j :: 0 <= j < |script| ==> |script[j].0| == |es|
    ensures forall k: nat :: FirstShutdown(script, k) ==> Rounds(es, false, script).rounds == k + 1 && Rounds(es, false, script).last.terminated
    ensures (forall j :: 0 <= j < |script| ==> !ShutsDown(script[j].1)) ==>
      Rounds(es, false, script).rounds == |script| && !Rounds(es, false, script).last.terminated
      && Rounds(es, false, script).last.signalled == []
    decreases |script|
  {
    if script != [] {
      var o := Round(es, false, script[0].0, script[0].1);
      if !o.terminated {
        RoundsStopAtFirstShutdown(o.entries, script[1..]);
        forall k: nat | FirstShutdown(script, k)
          ensures Rounds(es, false, script).rounds == k + 1 && Rounds(es, false, script).last.terminated
        {
          assert k > 0;
          assert FirstShutdown(script[1..], k - 1) by {
            forall j | 0 <= j < k - 1
              ensures !ShutsDown(script[1..][j].1)
            {
              assert script[1..][j] == script[j + 1];
            }
          }
        }
        if forall j :: 0 <= j < |script| ==> !ShutsDown(script[j].1) {
          assert forall j :: 0 <= j < |script[1..]| ==> !ShutsDown(script[1..][j].1) by {
            forall j | 0 <= j < |script[1..]|
              ensures !ShutsDown(script[1..][j].1)
            {
              assert script[1..][j] == script[j + 1];
            }
          }
        }
      }
    }
  }

  // ---------------------------------------------------------------------------
  // The registry

  /**
   * process_list and the terminated flag.  The list is kept in list order:
   * subprocess_add prepends.
   */
  class ProcessTable {
    var entries: seq<Entry>
    var terminated: bool

    /** The globals as the program starts: an empty list, not terminated. */
    constructor ()
      ensures entries == [] && !terminated
    {
      entries := [];
      terminated := false;
    }

    /** subprocess_init: the list becomes empty. */
    method Init() returns (rc: int)
      modifies this
      ensures rc == 0 && entries == [] && terminated == old(terminated)
    {
      entries := [];
      rc := 0;
    }

    /**
     * subprocess_add: a new entry with pid 0 goes to the head of the list;
     * when the allocation fails, -1 and nothing changes.
     */
    method Add(task: nat, mallocOk: bool) returns (rc: int)
      modifies this
      ensures mallocOk ==> rc == 0 && entries == [Entry(0, task)] + old(entries)
      ensures !mallocOk ==> rc == -1 && entries == old(entries)
      ensures terminated == old(terminated)
    {
      if !mallocOk {
        return -1;
      }
      entries := [Entry(0, task)] + entries;
      rc := 0;
    }

    /**
     * subprocess_quit: the list is emptied from its head; each entry with a
     * running child has it signalled first.
     */
    method Quit() returns (rc: int, signalled: seq<int>)
      modifies this
      ensures rc == 0 && entries == [] && signalled == Running(old(entries))
      ensures terminated == old(terminated)
    {
      signalled := [];
      while entries != []
        invariant signalled + Running(entries) == Running(old(entries))
        invariant terminated == old(terminated)
        decreases |entries|
      {
        var cur := entries[0];
        entries := entries[1..];
        if cur.pid > 0 {
          signalled := signalled + [cur.pid];
        }
      }
      rc := 0;
    }

    /**
     * subprocess_signal_handler, as installed in each child for SIGSEGV and
     * SIGTERM: only SIGTERM sets the flag.
     */
    method Handler(signum: int)
      modifies this
      ensures terminated == (old(terminated) || signum == SigTerm)
      ensures entries == old(entries)
    {
      if signum == SigTerm {
        terminated := true;
      }
    }

    /** The spawn loop of subprocess_run. */
    method SpawnAll(forks: seq<int>)
      requires |forks| == |entries|
      modifies this
      ensures entries == Spawned(old(entries), forks) && terminated == old(terminated)
    {
      var i := 0;
      while i < |entries|
        invariant 0 <= i <= |entries| == |old(entries)|
        invariant forall k :: 0 <= k < i ==> entries[k] == SpawnEntry(old(entries)[k], forks[k])
        invariant forall k :: i <= k < |entries| ==> entries[k] == old(entries)[k]
        invariant terminated == old(terminated)
      {
        if entries[i].pid == 0 {
          var newPid := forks[i];
          if newPid > 0 {
            entries := entries[i := entries[i].(pid := newPid)];
          }
        }
        i := i + 1;
      }
    }

    /**
     * The wait step: a shutdown condition sets the flag; otherwise the
     * entries of the reaped child are reset.  A child that exited with
     * EXIT_FAILURE keeps its entry.
     */
    method Reap(w: Wait)
      modifies this
      ensures terminated == (old(terminated) || ShutsDown(w))
      ensures entries == (if ShutsDown(w) then old(entries) else Restarted(old(entries), w.pid))
    {
      if w.pid == WaitFailed || (w.exited && w.status == ExitFailure) {
        terminated := true;
      } else {
        var i := 0;
        while i < |entries|
          invariant 0 <= i <= |entries| == |old(entries)|
          invariant forall k :: 0 <= k < i ==> entries[k] == RestartEntry(old(entries)[k], w.pid)
          invariant forall k :: i <= k < |entries| ==> entries[k] == old(entries)[k]
          invariant terminated == old(terminated)
        {
          if entries[i].pid == w.pid {
            entries := entries[i := entries[i].(pid := 0)];
          }
          i := i + 1;
        }
      }
    }

    /** The kill-all loop: each running child is signalled and its entry reset. */
    method KillAll() returns (signalled: seq<int>)
      modifies this
      ensures entries == Killed(old(entries)) && signalled == Running(old(entries))
      ensures terminated == old(terminated)
    {
      ghost var e0 := entries;
      signalled := [];
      var i := 0;
      while i < |entries|
        invariant 0 <= i <= |entries| == |e0|
        invariant forall k :: 0 <= k < i ==> entries[k] == KillEntry(e0[k])
        invariant forall k :: i <= k < |entries| ==> entries[k] == e0[k]
        invariant signalled == Running(e0[..i])
        invariant terminated == old(terminated)
      {
        RunningSnoc(e0, i);
        if entries[i].pid > 0 {
          signalled := signalled + [entries[i].pid];
          entries := entries[i := entries[i].(pid := 0)];
        }
        i := i + 1;
      }
      assert e0[..i] == e0;
      assert entries == Killed(e0);
    }

    /** One pass of the for(;;) loop of subprocess_run; `stop` is the break. */
    method RunRound(forks: seq<int>, w: Wait) returns (signalled: seq<int>, stop: bool)
      requires |forks| == |entries|
      modifies this
      ensures Round(old(entries), old(terminated), forks, w) == Outcome(entries, terminated, signalled)
      ensures stop == terminated
    {
      SpawnAll(forks);
      Reap(w);
      signalled := [];
      stop := false;
      if terminated {
        signalled := KillAll();
        stop := true;
      }
    }

    /**
     * subprocess_run over a finite script of rounds, each the fork results
     * and the wait result of one pass: the rounds Rounds runs, with the pids
     * signalled across them.  It returns 0 once the loop ends, and -1 when
     * the script runs out first.
     */
    method Run(script: seq<(seq<int>, Wait)>) returns (rc: int, rounds: nat, signalled: seq<int>)
      requires forall j :: 0 <= j < |script| ==> |script[j].0| == |entries|
      modifies this
      ensures Rounds(old(entries), old(terminated), script) == Supervised(Outcome(entries, terminated, signalled), rounds)
      ensures rc == 0 <==> rounds > 0 && terminated
      ensures rc == 0 || rc == -1
    {
      ghost var total := Rounds(entries, terminated, script);
      rc, rounds, signalled := -1, 0, [];
      while rounds < |script|
        invariant rounds <= |script| && |entries| == |old(entries)| && signalled == []
        invariant rounds > 0 ==> !terminated
        invariant var r := Rounds(entries, terminated, script[rounds..]); total == Supervised(r.last, rounds + r.rounds)
        decreases |script| - rounds
      {
        RoundsStep(entries, terminated, script, rounds);
        var s, stop := RunRound(script[rounds].0, script[rounds].1);
        rounds := rounds + 1;
        if stop {
          assert [] + s == s;
          signalled := s;
          rc := 0;
          return;
        }
      }
      assert script[rounds..] == [];
    }
  }
}
