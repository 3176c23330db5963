/**
 * The scan supervisor: starting and stopping the capture process, the
 * polling loop that re-reads the capture file, and the shutdown sequence
 * that stops the capture, reports on the last snapshot and restores the
 * interface. Output to the terminal and the PDF report are recorded as
 * events; the capture process is a handle with a process id.
 */
module Scanner {
  import opened Wrappers
  import opened ApParser
  import opened Interfaces

  /** The bands passed to the capture tool, one `--band` flag each. */
  const AiroBands: seq<string> := ["bg"]

  /** A running capture process, started in its own process group. */
  datatype Proc = Proc(pid: nat)

  /** What the scanner shows, reports or does, in order. */
  datatype Event =
    | Launched(cmdline: seq<string>, pid: nat)
    | Killed(pid: nat)
    | LiveTable(nets: seq<ApRecord>)
    | Report(nets: seq<ApRecord>, iface: string)
    | ReportFailed
    | NothingCaptured
    | RestoreAttempted(iface: string)
    | Done
    | NoInterfaceFound

  /** The `--band` flags for `bands`, in order. */
  function BandFlags(bands: seq<string>): (flags: seq<string>)
    ensures |flags| == 2 * |bands|
  {
    if bands == [] then []
    else BandFlags(bands[..|bands| - 1]) + ["--band", bands[|bands| - 1]]
  }

  /** Each band is preceded by its own `--band` flag. */
  lemma {:induction false} BandFlagsLayout(bands: seq<string>)
    ensures forall i :: 0 <= i < |bands| ==>
              BandFlags(bands)[2 * i] == "--band" && BandFlags(bands)[2 * i + 1] == bands[i]
  {
    if bands != [] {
      var init := bands[..|bands| - 1];
      BandFlagsLayout(init);
      forall i | 0 <= i < |bands|
        ensures BandFlags(bands)[2 * i] == "--band" && BandFlags(bands)[2 * i + 1] == bands[i]
      {
        if i < |init| {
          assert BandFlags(bands)[2 * i] == BandFlags(init)[2 * i];
          assert BandFlags(bands)[2 * i + 1] == BandFlags(init)[2 * i + 1];
        }
      }
    }
  }

  /**
   * The command line of the capture tool, run under `sudo`: csv output
   * written to files named after `outPrefix`, capturing on `iface`, and one
   * `--band` option per configured band, in order.
   */
  function CaptureCommand(iface: string, outPrefix: string): (cmd: seq<string>)
    ensures |cmd| == 7 + 2 * |AiroBands|
    ensures cmd[0] == "sudo" && cmd[1] == "airodump-ng"
    ensures cmd[2] == "-w" && cmd[3] == outPrefix && cmd[4] == "--output-format" && cmd[5] == "csv"
    ensures cmd[6] == iface
    ensures forall i :: 0 <= i < |AiroBands| ==> cmd[7 + 2 * i] == "--band" && cmd[8 + 2 * i] == AiroBands[i]
  {
    BandFlagsLayout(AiroBands);
    ["sudo", "airodump-ng", "-w", outPrefix, "--output-format", "csv", iface] + BandFlags(AiroBands)
  }

  /** The kill of the capture process group, when there is a process to kill. */
  function KillEvents(proc: Option<Proc>): (evs: seq<Event>)
    ensures |evs| <= 1 && (proc.Some? ==> evs != [])
    ensures forall k :: 0 <= k < |evs| ==> evs[k].Killed? && proc == Some(Proc(evs[k].pid))
  {
    match proc
    case None => []
    case Some(p) => [Killed(p.pid)]
  }

  /** What one poll sees: the snapshot of the capture file, or nothing while the file does not exist. */
  function Sight(poll: Option<CsvFile>): seq<ApRecord> {
    match poll
    case None => []
    case Some(f) => SnapshotOf(ReadableRows(f))
  }

  /** A poll shows the live table when its snapshot is not empty. */
  predicate Shows(poll: Option<CsvFile>) {
    Sight(poll) != []
  }

  function LiveTableOf(poll: Option<CsvFile>): Event {
    LiveTable(Sight(poll))
  }

  /** One poll: the live table of its snapshot, when that is not empty. */
  function LiveFor(poll: Option<CsvFile>): seq<Event> {
    if Shows(poll) then [LiveTableOf(poll)] else []
  }

  /** `f` applied to the first `hi` elements of `xs`, results concatenated in order. */
  function Gather<T, U>(xs: seq<T>, f: T -> seq<U>, hi: nat): seq<U>
    requires hi <= |xs|
  {
    if hi == 0 then [] else Gather(xs, f, hi - 1) + f(xs[hi - 1])
  }

  /** The indices below `hi` of the elements of `xs` that satisfy `p`, in increasing order. */
  function Positions<T>(xs: seq<T>, p: T -> bool, hi: nat): (ps: seq<nat>)
    requires hi <= |xs|
    ensures |ps| <= hi
    ensures forall k :: 0 <= k < |ps| ==> ps[k] < hi && p(xs[ps[k]])
    ensures forall k :: 0 < k < |ps| ==> ps[k - 1] < ps[k]
  {
    if hi == 0 then []
    else Positions(xs, p, hi - 1) + (if p(xs[hi - 1]) then [hi - 1] else [])
  }

  /** Every index below `hi` whose element satisfies `p` is listed by `Positions`. */
  lemma {:induction false} PositionsListed<T>(xs: seq<T>, p: T -> bool, hi: nat, i: nat)
    requires i < hi <= |xs| && p(xs[i])
    ensures i in Positions(xs, p, hi)
  {
    var last: seq<nat> := if p(xs[hi - 1]) then [hi - 1] else [];
    assert Positions(xs, p, hi) == Positions(xs, p, hi - 1) + last;
    if i < hi - 1 {
      PositionsListed(xs, p, hi - 1, i);
      InLeft(i, Positions(xs, p, hi - 1), last);
    } else {
      assert last == [i];
      InRight(i, Positions(xs, p, hi - 1), last);
    }
  }

  /** When `f` yields `[g(x)]` on the elements satisfying `p` and nothing on the others, gathering lists `g` of those elements in order. */
  lemma {:induction false} GatherPositions<T, U>(xs: seq<T>, f: T -> seq<U>, p: T -> bool, g: T -> U, hi: nat)
    requires hi <= |xs|
    requires forall x :: f(x) == if p(x) then [g(x)] else []
    ensures |Gather(xs, f, hi)| == |Positions(xs, p, hi)|
    ensures forall k :: 0 <= k < |Gather(xs, f, hi)| ==> Gather(xs, f, hi)[k] == g(xs[Positions(xs, p, hi)[k]])
  {
    if hi > 0 {
      GatherPositions(xs, f, p, g, hi - 1);
      assert f(xs[hi - 1]) == if p(xs[hi - 1]) then [g(xs[hi - 1])] else [];
    }
  }

  lemma InLeft(x: nat, a: seq<nat>, b: seq<nat>)
    requires x in a
    ensures x in a + b
  {
  }

  lemma InRight(x: nat, a: seq<nat>, b: seq<nat>)
    requires x in b
    ensures x in a + b
  {
  }

  /** The indices of the polls that show a live table, in increasing order; every such poll is listed. */
  function ShownPolls(polls: seq<Option<CsvFile>>): (ps: seq<nat>)
    ensures forall k :: 0 <= k < |ps| ==> ps[k] < |polls| && Shows(polls[ps[k]])
    ensures forall k :: 0 < k < |ps| ==> ps[k - 1] < ps[k]
    ensures forall i :: 0 <= i < |polls| && Shows(polls[i]) ==> i in ps
  {
    var ps := Positions(polls, Shows, |polls|);
    forall i | 0 <= i < |polls| && Shows(polls[i])
      ensures i in ps
    {
      PositionsListed(polls, Shows, |polls|, i);
    }
    ps
  }

  /** The events of a run of polls, in order. */
  function PollEvents(polls: seq<Option<CsvFile>>): (evs: seq<Event>)
    ensures |evs| <= |polls|
    ensures forall k :: 0 <= k < |evs| ==> evs[k].LiveTable? && evs[k].nets != []
  {
    GatherPositions(polls, LiveFor, Shows, LiveTableOf, |polls|);
    Gather(polls, LiveFor, |polls|)
  }

  /**
   * The polling loop's live tables: the k-th one shows the snapshot of the
   * k-th poll that sees a non-empty snapshot, so each such poll has one.
   */
  lemma LiveTablesOfPolls(polls: seq<Option<CsvFile>>)
    ensures |PollEvents(polls)| == |ShownPolls(polls)|
    ensures forall k :: 0 <= k < |PollEvents(polls)| ==> PollEvents(polls)[k] == LiveTable(Sight(polls[ShownPolls(polls)[k]]))
  {
    GatherPositions(polls, LiveFor, Shows, LiveTableOf, |polls|);
  }

  /**
   * The end of the shutdown after the capture is stopped: when the capture
   * file exists, either the report on its snapshot (followed by the warning
   * when the report raises) or the notice that nothing was captured.
   */
  function FinalEvents(final: Option<CsvFile>, reportRaises: bool, iface: string): (evs: seq<Event>)
    ensures final.None? ==> evs == []
    ensures forall k :: 0 <= k < |evs| ==> !evs[k].Killed? && !evs[k].RestoreAttempted? && !evs[k].Done?
    ensures evs != [] && evs[0].Report? <==> final.Some? && SnapshotOf(ReadableRows(final.value)) != []
    ensures forall k :: 0 <= k < |evs| && evs[k].Report? ==>
              k == 0 && final.Some? && evs[k] == Report(SnapshotOf(ReadableRows(final.value)), iface)
  {
    match final
    case None => []
    case Some(f) =>
      var nets := SnapshotOf(ReadableRows(f));
      if nets == [] then [NothingCaptured]
      else [Report(nets, iface)] + (if reportRaises then [ReportFailed] else [])
  }

  /** The events of the shutdown: stop, final parse and report, restore, done. */
  function ShutdownEvents(proc: Option<Proc>, final: Option<CsvFile>, reportRaises: bool, iface: string)
    : (evs: seq<Event>)
    ensures |evs| >= 2 && evs[|evs| - 2] == RestoreAttempted(iface) && evs[|evs| - 1] == Done
    ensures proc.Some? ==> evs[0] == Killed(proc.value.pid)
    ensures forall k :: 0 <= k < |evs| && evs[k].Killed? ==> k == 0 && proc == Some(Proc(evs[k].pid))
  {
    KillEvents(proc) + FinalEvents(final, reportRaises, iface) + [RestoreAttempted(iface), Done]
  }

  predicate Reported(evs: seq<Event>) {
    exists k :: 0 <= k < |evs| && evs[k].Report?
  }

  /**
   * The report is produced exactly when the capture file exists and its
   * final snapshot is not empty, and then on that snapshot.
   */
  lemma ReportIffCaptured(proc: Option<Proc>, final: Option<CsvFile>, reportRaises: bool, iface: string)
    ensures Reported(ShutdownEvents(proc, final, reportRaises, iface))
            <==> final.Some? && SnapshotOf(ReadableRows(final.value)) != []
    ensures forall k :: 0 <= k < |ShutdownEvents(proc, final, reportRaises, iface)| ==>
              ShutdownEvents(proc, final, reportRaises, iface)[k].Report? ==>
                ShutdownEvents(proc, final, reportRaises, iface)[k]
                  == Report(SnapshotOf(ReadableRows(final.value)), iface)
  {
    var kill, fin := KillEvents(proc), FinalEvents(final, reportRaises, iface);
    var evs := ShutdownEvents(proc, final, reportRaises, iface);
    forall k | 0 <= k < |evs| && evs[k].Report?
      ensures |kill| <= k < |kill| + |fin| && evs[k] == fin[k - |kill|]
    {
      ShutdownEventAt(proc, final, reportRaises, iface, k);
    }
    if fin != [] && fin[0].Report? {
      ShutdownEventAt(proc, final, reportRaises, iface, |kill|);
    }
  }

  /**
   * A report that raises changes the shutdown only by the warning right
   * after the report; the restore attempt and "Done" follow either way.
   */
  lemma ReportFailureOnlyWarns(proc: Option<Proc>, final: Option<CsvFile>, iface: string)
    ensures var quiet, loud := ShutdownEvents(proc, final, false, iface), ShutdownEvents(proc, final, true, iface);
            var at := |KillEvents(proc)| + 1;
            if final.Some? && SnapshotOf(ReadableRows(final.value)) != []
            then at <= |quiet| && loud == quiet[..at] + [ReportFailed] + quiet[at..]
            else loud == quiet
  {
    var kill, tail := KillEvents(proc), [RestoreAttempted(iface), Done];
    if final.Some? && SnapshotOf(ReadableRows(final.value)) != [] {
      var r := Report(SnapshotOf(ReadableRows(final.value)), iface);
      var quiet := ShutdownEvents(proc, final, false, iface);
      assert quiet == (kill + [r]) + tail;
      assert ShutdownEvents(proc, final, true, iface) == (kill + [r]) + [ReportFailed] + tail;
      assert quiet[..|kill| + 1] == kill + [r];
      assert quiet[|kill| + 1..] == tail;
    }
  }

  /** Where each event of the shutdown comes from: the kill, the report step, or the restore and "Done". */
  lemma ShutdownEventAt(proc: Option<Proc>, final: Option<CsvFile>, reportRaises: bool, iface: string, k: nat)
    requires k < |ShutdownEvents(proc, final, reportRaises, iface)|
    ensures k < |KillEvents(proc)| ==> ShutdownEvents(proc, final, reportRaises, iface)[k] == KillEvents(proc)[k]
    ensures |KillEvents(proc)| <= k < |KillEvents(proc)| + |FinalEvents(final, reportRaises, iface)| ==>
              ShutdownEvents(proc, final, reportRaises, iface)[k]
                == FinalEvents(final, reportRaises, iface)[k - |KillEvents(proc)|]
    ensures |KillEvents(proc)| + |FinalEvents(final, reportRaises, iface)| <= k ==>
              !ShutdownEvents(proc, final, reportRaises, iface)[k].Report?
  {
    var kill, fin := KillEvents(proc), FinalEvents(final, reportRaises, iface);
    assert ShutdownEvents(proc, final, reportRaises, iface) == kill + fin + [RestoreAttempted(iface), Done];
  }

  lemma AppendAssoc<T>(a: seq<T>, b: seq<T>, c: seq<T>)
    ensures a + b + c == a + (b + c)
  {
  }

  lemma AppendTwo<T>(a: seq<T>, b: seq<T>, x: T, y: T)
    ensures a + b + [x] + [y] == a + (b + [x, y])
  {
  }


  /** A completed run whose restore got past its set-type command leaves managed mode requested. */
  lemma CompletedRunRequestsManaged(iface: string, blockTexts: seq<string>, setTypeOk: bool, m: Mode,
                                    restoreFailsAt: Option<nat>)
    requires restoreFailsAt.None? || restoreFailsAt.value >= 2
    ensures ModeAfter(iface, m, EnableCommands(iface, blockTexts, setTypeOk)
                                + Issued(DisableCommands(iface), restoreFailsAt)) == Managed
  {
    var en := EnableCommands(iface, blockTexts, setTypeOk);
    ModeAfterAppend(iface, m, en, Issued(DisableCommands(iface), restoreFailsAt));
    RestoreRequestsManaged(iface, ModeAfter(iface, m, en), restoreFailsAt);
  }

  /** What the host gives the scanner: command output, outcomes of system calls, and the capture files it sees. */
  datatype Host = Host(
    iwBlocks: seq<IwBlock>,
    iwDevNames: seq<string>,
    iwconfigNames: seq<string>,
    enableBlocks: seq<string>,
    setTypeOk: bool,
    launch: Option<nat>,
    polls: seq<Option<CsvFile>>,
    final: Option<CsvFile>,
    reportRaises: bool,
    restoreFailsAt: Option<nat>)

  /** How `main` ends. A failed launch raises out of `main` before the cleanup is set up. */
  datatype Outcome = NoInterface | LaunchFailed(iface: string) | Completed(iface: string)

  /** The interface `main` goes on with: a chosen, non-empty name. */
  predicate Usable(choice: Option<string>) {
    choice.Some? && choice.value != []
  }

  /** The scanner's state: the capture process handle, the event log and the mode controller. */
  class Supervisor {
    var proc: Option<Proc>
    var events: seq<Event>
    const ctl: ModeController

    constructor()
      ensures proc == None && events == []
      ensures fresh(ctl) && ctl.log == []
    {
      proc := None;
      events := [];
      ctl := new ModeController();
    }

    /**
     * `start_airodump`: build the command line, then launch it. `launch` is
     * the process id, or `None` when the launch raises; then nothing changes.
     */
    method StartAirodump(iface: string, outPrefix: string, launch: Option<nat>) returns (ok: bool)
      modifies this
      ensures ok <==> launch.Some?
      ensures ok ==> proc == Some(Proc(launch.value))
                     && events == old(events) + [Launched(CaptureCommand(iface, outPrefix), launch.value)]
      ensures !ok ==> proc == old(proc) && events == old(events)
    {
      var cmd := ["sudo", "airodump-ng", "-w", outPrefix, "--output-format", "csv", iface];
      for i := 0 to |AiroBands|
        invariant cmd == ["sudo", "airodump-ng", "-w", outPrefix, "--output-format", "csv", iface]
                         + BandFlags(AiroBands[..i])
      {
        assert AiroBands[..i + 1][..i] == AiroBands[..i];
        cmd := cmd + ["--band", AiroBands[i]];
      }
      assert AiroBands[..|AiroBands|] == AiroBands;
      if launch.None? {
        return false;
      }
      proc := Some(Proc(launch.value));
      events := events + [Launched(cmd, launch.value)];
      return true;
    }

    /**
     * `stop_airodump`: kill the process group when there is a process, and
     * clear the handle. A second call finds no process and kills nothing.
     */
    method StopAirodump()
      modifies this
      ensures proc == None
      ensures events == old(events) + KillEvents(old(proc))
    {
      if proc.Some? {
        events := events + [Killed(proc.value.pid)];
        proc := None;
      }
    }

    /** The polling loop: one parse of the capture file per poll, showing non-empty snapshots. */
    method PollLoop(polls: seq<Option<CsvFile>>)
      modifies this
      ensures proc == old(proc)
      ensures events == old(events) + PollEvents(polls)
    {
      for i := 0 to |polls|
        invariant proc == old(proc)
        invariant events == old(events) + Gather(polls, LiveFor, i)
      {
        AppendAssoc(old(events), Gather(polls, LiveFor, i), LiveFor(polls[i]));
        ShowPoll(polls[i]);
      }
    }

    /** One poll: when the capture file exists, parse it and show a non-empty snapshot. */
    method ShowPoll(poll: Option<CsvFile>)
      modifies this
      ensures proc == old(proc)
      ensures events == old(events) + LiveFor(poll)
    {
      if poll.Some? {
        var nets := ParseAirodumpCsv(poll);
        if nets != [] {
          events := events + [LiveTable(nets)];
        }
      }
    }

    /**
     * The report step of the cleanup: when the capture file exists, parse it
     * once more and report on a non-empty snapshot, or say that nothing was
     * captured. A report that raises is logged and swallowed.
     */
    method ReportFinal(iface: string, final: Option<CsvFile>, reportRaises: bool)
      modifies this
      ensures proc == old(proc)
      ensures events == old(events) + FinalEvents(final, reportRaises, iface)
    {
      if final.Some? {
        var nets := ParseAirodumpCsv(final);
        if nets != [] {
          events := events + [Report(nets, iface)];
          if reportRaises {
            assert FinalEvents(final, reportRaises, iface) == [Report(nets, iface), ReportFailed];
            AppendAssoc(old(events), [Report(nets, iface)], [ReportFailed]);
            events := events + [ReportFailed];
          } else {
            assert FinalEvents(final, reportRaises, iface) == [Report(nets, iface)];
          }
        } else {
          assert FinalEvents(final, reportRaises, iface) == [NothingCaptured];
          events := events + [NothingCaptured];
        }
      }
    }

    /**
     * The cleanup of `main`: stop the capture, report on the last snapshot,
     * restore managed mode. A restore that raises is swallowed.
     */
    method Shutdown(iface: string, final: Option<CsvFile>, reportRaises: bool, restoreFailsAt: Option<nat>)
      modifies this, ctl
      ensures proc == None
      ensures events == old(events) + ShutdownEvents(old(proc), final, reportRaises, iface)
      ensures ctl.log == old(ctl.log) + Issued(DisableCommands(iface), restoreFailsAt)
    {
      StopAirodump();
      ReportFinal(iface, final, reportRaises);
      events := events + [RestoreAttempted(iface)];
      var restoreRaised := ctl.DisableMonitorMode(iface, restoreFailsAt);
      events := events + [Done];
      ghost var kill, fin := KillEvents(old(proc)), FinalEvents(final, reportRaises, iface);
      AppendAssoc(old(events), kill, fin);
      AppendTwo(old(events), kill + fin, RestoreAttempted(iface), Done);
    }

    /**
     * `main`: choose an interface, switch it to monitor mode, start the
     * capture, poll, then clean up. The cleanup runs only once the capture
     * has been launched.
     */
    method Run(host: Host, outPrefix: string) returns (outcome: Outcome)
      requires proc == None
      modifies this, ctl
      ensures proc == None
      ensures outcome.NoInterface? <==> !Usable(SelectInterface(host.iwBlocks, host.iwDevNames, host.iwconfigNames))
      ensures outcome.NoInterface? ==> events == old(events) + [NoInterfaceFound] && ctl.log == old(ctl.log)
      ensures !outcome.NoInterface? ==>
                Some(outcome.iface) == SelectInterface(host.iwBlocks, host.iwDevNames, host.iwconfigNames)
      ensures outcome.LaunchFailed? <==> !outcome.NoInterface? && host.launch.None?
      ensures outcome.LaunchFailed? ==>
                events == old(events)
                && ctl.log == old(ctl.log) + EnableCommands(outcome.iface, host.enableBlocks, host.setTypeOk)
      ensures outcome.Completed? ==>
                events == old(events) + [Launched(CaptureCommand(outcome.iface, outPrefix), host.launch.value)]
                          + PollEvents(host.polls)
                          + ShutdownEvents(Some(Proc(host.launch.value)), host.final, host.reportRaises, outcome.iface)
                && ctl.log == old(ctl.log) + EnableCommands(outcome.iface, host.enableBlocks, host.setTypeOk)
                              + Issued(DisableCommands(outcome.iface), host.restoreFailsAt)
    {
      var choice := GetWifiInterface(host.iwBlocks, host.iwDevNames, host.iwconfigNames);
      if choice.None? || choice.value == [] {
        events := events + [NoInterfaceFound];
        return NoInterface;
      }
      var used := ctl.EnableMonitorMode(choice.value, host.enableBlocks, host.setTypeOk);
      var launched := StartAirodump(used, outPrefix, host.launch);
      if !launched {
        return LaunchFailed(used);
      }
      PollLoop(host.polls);
      Shutdown(used, host.final, host.reportRaises, host.restoreFailsAt);
      return Completed(used);
    }
  }
}
