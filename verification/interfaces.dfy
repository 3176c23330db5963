/**
 * The wireless-interface helpers: choosing an interface from the output of
 * `iw dev` and `iwconfig`, and switching an interface between monitor and
 * managed mode. The command output is given already split into blocks and
 * names; the system commands become entries of a command log.
 */
module Interfaces {
  import opened Wrappers
  import opened Text

  /** One block of `iw dev` output: its text and the name on its `Interface <name>` line, if any. */
  datatype IwBlock = IwBlock(text: string, name: Option<string>)

  const MonitorMarker := "type monitor"
  const InterfacePrefix := "Interface "

  /** A block that reports monitor mode and names its interface. */
  predicate IsNamedMonitor(b: IwBlock) {
    Contains(b.text, MonitorMarker) && b.name.Some?
  }

  /** Block `i` is the first block that reports monitor mode and names its interface. */
  predicate FirstMonitorAt(blocks: seq<IwBlock>, i: nat) {
    i < |blocks| && IsNamedMonitor(blocks[i])
    && forall j :: 0 <= j < i ==> !IsNamedMonitor(blocks[j])
  }

  predicate NoMonitor(blocks: seq<IwBlock>) {
    forall j :: 0 <= j < |blocks| ==> !IsNamedMonitor(blocks[j])
  }

  /** Index of the first named monitor block, if there is one. */
  function FirstMonitor(blocks: seq<IwBlock>): (r: Option<nat>)
    ensures r.None? <==> NoMonitor(blocks)
    ensures r.Some? ==> FirstMonitorAt(blocks, r.value)
  {
    if blocks == [] then None
    else if IsNamedMonitor(blocks[0]) then Some(0)
    else
      match FirstMonitor(blocks[1..])
      case None => None
      case Some(i) =>
        assert blocks[1..][i] == blocks[i + 1];
        Some(i + 1)
  }

  /**
   * The interface choice in order of preference: the name of the first block
   * in monitor mode, else the first `iw dev` name, else the first `iwconfig`
   * name, else none.
   */
  function SelectInterface(blocks: seq<IwBlock>, iwDevNames: seq<string>, iwconfigNames: seq<string>)
    : (r: Option<string>)
    ensures forall i: nat :: FirstMonitorAt(blocks, i) ==> r == blocks[i].name
    ensures NoMonitor(blocks) && iwDevNames != [] ==> r == Some(iwDevNames[0])
    ensures NoMonitor(blocks) && iwDevNames == [] && iwconfigNames != [] ==> r == Some(iwconfigNames[0])
    ensures r.None? <==> NoMonitor(blocks) && iwDevNames == [] && iwconfigNames == []
  {
    match FirstMonitor(blocks)
    case Some(i) => FirstMonitorUnique(blocks, i); blocks[i].name
    case None =>
      if iwDevNames != [] then Some(iwDevNames[0])
      else if iwconfigNames != [] then Some(iwconfigNames[0])
      else None
  }

  /** There is only one first monitor block. */
  lemma FirstMonitorUnique(blocks: seq<IwBlock>, i: nat)
    requires FirstMonitorAt(blocks, i)
    ensures forall j: nat :: FirstMonitorAt(blocks, j) ==> j == i
  {
  }

  /**
   * The scan of `get_wifi_interface`: the blocks in order with an early
   * return, then the two name lists.
   */
  method GetWifiInterface(blocks: seq<IwBlock>, iwDevNames: seq<string>, iwconfigNames: seq<string>)
    returns (r: Option<string>)
    ensures r == SelectInterface(blocks, iwDevNames, iwconfigNames)
  {
    for j := 0 to |blocks|
      invariant forall i :: 0 <= i < j ==> !IsNamedMonitor(blocks[i])
    {
      if Contains(blocks[j].text, MonitorMarker) {
        if blocks[j].name.Some? {
          assert FirstMonitorAt(blocks, j);
          return blocks[j].name;
        }
      }
    }
    if iwDevNames != [] {
      return Some(iwDevNames[0]);
    }
    if iwconfigNames != [] {
      return Some(iwconfigNames[0]);
    }
    return None;
  }

  /** The privileged commands the mode helpers run, each on one interface. */
  datatype Command =
    | LinkDown(iface: string)
    | SetTypeMonitor(iface: string)
    | SetMonitorNone(iface: string)
    | LinkUp(iface: string)
    | SetTypeManaged(iface: string)

  /**
   * The "already in monitor mode" test on one block: the text contains
   * "Interface <iface>" and "type monitor". It is a substring test, so a
   * block of another interface whose name starts with `iface` matches too.
   */
  predicate MonitorBlockFor(iface: string, blk: string) {
    Contains(blk, InterfacePrefix + iface) && Contains(blk, MonitorMarker)
  }

  predicate AlreadyMonitor(iface: string, blockTexts: seq<string>) {
    exists j :: 0 <= j < |blockTexts| && MonitorBlockFor(iface, blockTexts[j])
  }

  /**
   * The commands of `enable_monitor_mode`: none when the interface already
   * reports monitor mode; otherwise down, set type monitor, the fallback
   * `set monitor none` only when the first set-type command failed, and up.
   */
  function EnableCommands(iface: string, blockTexts: seq<string>, setTypeOk: bool): (cmds: seq<Command>)
    ensures AlreadyMonitor(iface, blockTexts) <==> cmds == []
    ensures cmds != [] ==> |cmds| == (if setTypeOk then 3 else 4) && cmds[0] == LinkDown(iface)
                           && cmds[1] == SetTypeMonitor(iface) && cmds[|cmds| - 1] == LinkUp(iface)
    ensures SetMonitorNone(iface) in cmds <==> cmds != [] && !setTypeOk
    ensures forall k :: 0 <= k < |cmds| ==> cmds[k].iface == iface
  {
    if AlreadyMonitor(iface, blockTexts) then []
    else [LinkDown(iface), SetTypeMonitor(iface)]
         + (if setTypeOk then [] else [SetMonitorNone(iface)]) + [LinkUp(iface)]
  }

  /** The commands of `disable_monitor_mode`: down, set type managed, up. */
  function DisableCommands(iface: string): (cmds: seq<Command>)
    ensures |cmds| == 3 && cmds[0] == LinkDown(iface) && cmds[|cmds| - 1] == LinkUp(iface)
    ensures SetTypeManaged(iface) in cmds
    ensures forall k :: 0 <= k < |cmds| ==> cmds[k].iface == iface
  {
    [LinkDown(iface), SetTypeManaged(iface), LinkUp(iface)]
  }

  /**
   * The commands that ran to completion when the command at index
   * `failsAt` raises: those before it. The rest of the sequence is abandoned.
   */
  function Issued(cmds: seq<Command>, failsAt: Option<nat>): (done: seq<Command>)
    ensures done <= cmds
    ensures failsAt.None? || failsAt.value >= |cmds| ==> done == cmds
    ensures failsAt.Some? && failsAt.value < |cmds| ==> |done| == failsAt.value
  {
    match failsAt
    case None => cmds
    case Some(n) => if n < |cmds| then cmds[..n] else cmds
  }

  /** The link-layer mode an interface is asked to be in. */
  datatype Mode = Managed | Monitor

  /** The mode last requested for `iface` by `cmd`, starting from `m`. */
  function Step(iface: string, m: Mode, cmd: Command): Mode {
    if cmd.iface != iface then m
    else match cmd
      case SetTypeMonitor(_) => Monitor
      case SetMonitorNone(_) => Monitor
      case SetTypeManaged(_) => Managed
      case _ => m
  }

  /** The mode last requested for `iface` after the commands `cmds`, starting from `m`. */
  function ModeAfter(iface: string, m: Mode, cmds: seq<Command>): (r: Mode)
    ensures (forall k :: 0 <= k < |cmds| ==> cmds[k].LinkDown? || cmds[k].LinkUp?) ==> r == m
    decreases |cmds|
  {
    if cmds == [] then m else ModeAfter(iface, Step(iface, m, cmds[0]), cmds[1..])
  }

  /** Running two command sequences one after the other. */
  lemma {:induction false} ModeAfterAppend(iface: string, m: Mode, a: seq<Command>, b: seq<Command>)
    ensures ModeAfter(iface, m, a + b) == ModeAfter(iface, ModeAfter(iface, m, a), b)
    decreases |a|
  {
    if a != [] {
      assert (a + b)[0] == a[0] && (a + b)[1..] == a[1..] + b;
      ModeAfterAppend(iface, Step(iface, m, a[0]), a[1..], b);
    } else {
      assert a + b == b;
    }
  }

  /** When the interface is not already in monitor mode, enabling asks for monitor mode. */
  lemma EnableRequestsMonitor(iface: string, blockTexts: seq<string>, setTypeOk: bool, m: Mode)
    requires !AlreadyMonitor(iface, blockTexts)
    ensures ModeAfter(iface, m, EnableCommands(iface, blockTexts, setTypeOk)) == Monitor
  {
    var cmds := EnableCommands(iface, blockTexts, setTypeOk);
    var tail := if setTypeOk then [LinkUp(iface)] else [SetMonitorNone(iface), LinkUp(iface)];
    assert cmds == [LinkDown(iface), SetTypeMonitor(iface)] + tail;
    ModeAfterAppend(iface, m, [LinkDown(iface), SetTypeMonitor(iface)], tail);
    assert ModeAfter(iface, m, [LinkDown(iface), SetTypeMonitor(iface)]) == Monitor;
  }

  /**
   * A restore that gets past its set-type command asks for managed mode,
   * whatever was asked for before; one that fails earlier asks for nothing.
   */
  lemma RestoreRequestsManaged(iface: string, m: Mode, failsAt: Option<nat>)
    ensures failsAt.None? || failsAt.value >= 2 ==> ModeAfter(iface, m, Issued(DisableCommands(iface), failsAt)) == Managed
    ensures failsAt.Some? && failsAt.value < 2 ==> ModeAfter(iface, m, Issued(DisableCommands(iface), failsAt)) == m
  {
    var cmds := DisableCommands(iface);
    var done := Issued(cmds, failsAt);
    if failsAt.None? || failsAt.value >= 2 {
      assert done[..2] == [LinkDown(iface), SetTypeManaged(iface)];
      assert done == done[..2] + done[2..];
      ModeAfterAppend(iface, m, done[..2], done[2..]);
      assert ModeAfter(iface, m, done[..2]) == Managed;
    }
  }

  /** Enabling and then restoring leaves the interface asked to be in managed mode. */
  lemma EnableDisableRoundTrip(iface: string, blockTexts: seq<string>, setTypeOk: bool, m: Mode)
    ensures ModeAfter(iface, m, EnableCommands(iface, blockTexts, setTypeOk) + DisableCommands(iface)) == Managed
  {
    var en := EnableCommands(iface, blockTexts, setTypeOk);
    ModeAfterAppend(iface, m, en, DisableCommands(iface));
    RestoreRequestsManaged(iface, ModeAfter(iface, m, en), None);
  }

  /**
   * The already-monitor test matches by text: a monitor block of an
   * interface named `iface + suffix` (such as "wlan0mon" for "wlan0") counts
   * for `iface`, so nothing is done for `iface` itself.
   */
  lemma AlreadyMonitorByPrefix(iface: string, suffix: string, blockTexts: seq<string>)
    requires AlreadyMonitor(iface + suffix, blockTexts)
    ensures AlreadyMonitor(iface, blockTexts)
    ensures EnableCommands(iface, blockTexts, false) == []
  {
    var j :| 0 <= j < |blockTexts| && MonitorBlockFor(iface + suffix, blockTexts[j]);
    assert InterfacePrefix + (iface + suffix) == (InterfacePrefix + iface) + suffix;
    ContainsPrefixOf(blockTexts[j], InterfacePrefix + iface, suffix);
    assert MonitorBlockFor(iface, blockTexts[j]);
  }

  /**
   * The mode helpers as an object that records every command it runs, in
   * order, in `log`.
   */
  class ModeController {
    var log: seq<Command>

    constructor()
      ensures log == []
    {
      log := [];
    }

    /**
     * `enable_monitor_mode`: scan the `iw dev` blocks and return at once when
     * one reports `iface` in monitor mode; otherwise run the switch. Returns
     * `iface` in every case.
     */
    method EnableMonitorMode(iface: string, blockTexts: seq<string>, setTypeOk: bool) returns (r: string)
      modifies this
      ensures r == iface
      ensures log == old(log) + EnableCommands(iface, blockTexts, setTypeOk)
    {
      for j := 0 to |blockTexts|
        invariant forall i :: 0 <= i < j ==> !MonitorBlockFor(iface, blockTexts[i])
      {
        if Contains(blockTexts[j], InterfacePrefix + iface) && Contains(blockTexts[j], MonitorMarker) {
          assert AlreadyMonitor(iface, blockTexts);
          return iface;
        }
      }
      log := log + [LinkDown(iface)];
      log := log + [SetTypeMonitor(iface)];
      if !setTypeOk {
        log := log + [SetMonitorNone(iface)];
      }
      log := log + [LinkUp(iface)];
      return iface;
    }

    /**
     * `disable_monitor_mode`: down, set type managed, up. When the command at
     * index `failsAt` raises, the rest is abandoned and `raised` is set.
     */
    method DisableMonitorMode(iface: string, failsAt: Option<nat>) returns (raised: bool)
      modifies this
      ensures raised <==> failsAt.Some? && failsAt.value < 3
      ensures log == old(log) + Issued(DisableCommands(iface), failsAt)
    {
      var cmds := [LinkDown(iface), SetTypeManaged(iface), LinkUp(iface)];
      var i := 0;
      while i < |cmds|
        invariant 0 <= i <= |cmds|
        invariant failsAt.None? || failsAt.value >= i
        invariant log == old(log) + cmds[..i]
      {
        if failsAt == Some(i) {
          return true;
        }
        log := log + [cmds[i]];
        i := i + 1;
      }
      return false;
    }
  }
}
