# Wi-Fi scanner: a Dafny model

`wifi_scanner.py` is a command-line tool for surveying nearby Wi-Fi access
points. It does the following, in order:

1. It picks a wireless interface and puts it into monitor mode.
2. It starts `airodump-ng`, which keeps rewriting a CSV capture file.
3. It re-reads that file every few seconds and shows the access points it holds.
4. On Ctrl-C it stops the capture, parses the file one last time, and writes a PDF report when there is something to report.
5. It switches the interface back to managed mode.

This project models that control and extraction logic and proves properties about it:

- `text.dfy` (module `Text`) covers Python's `str.strip()` (`Trim`) and the substring test `t in s` (`Contains`).
- `ap_parser.dfy` (module `ApParser`) covers `parse_airodump_csv`. `ScanRows` is the row loop as a state machine. `SnapshotOf` independently describes the same result: the rows between the access-point header and the station header. The method `ParseAirodumpCsv` is the loop itself, proved equal to `SnapshotOf`.
- `interfaces.dfy` (module `Interfaces`) covers interface selection (`SelectInterface` and the method `GetWifiInterface`). It also has the class `ModeController`, which records the privileged commands of `enable_monitor_mode` and `disable_monitor_mode` in a command log.
- `scanner.dfy` (module `Scanner`) has the class `Supervisor`. It holds the capture-process handle, an event log of what the tool shows and reports, and the mode controller. It covers `start_airodump`, `stop_airodump`, the polling loop, the `finally` cleanup and `main`.
- `wrappers.dfy` (module `Wrappers`) has `Option`, which models Python's `None`.

The outside world becomes parameters:

- the blocks and names that `iw dev` and `iwconfig` print;
- whether `iw <iface> set type monitor` succeeds;
- the process id of the capture tool, or a failed launch;
- the capture file as seen at each poll and at shutdown (its rows, and the row at which reading raises, if any);
- whether the report raises;
- which restore command raises, if any.

## Model

| member | source | states |
|---|---|---|
| Text.Trim | wifi_scanner.py:151 | `strip()`: the result is never longer than the input |
| Text.TrimSpec | wifi_scanner.py:151 | The stripped field has no whitespace at either end. It is empty exactly when the field is all whitespace. A field that is already stripped is unchanged. |
| Text.TrimInfix | wifi_scanner.py:151 | The stripped field is a contiguous piece of the input, and only whitespace is removed on either side |
| Text.ContainsAt | wifi_scanner.py:82 | `t in s` holds exactly when `t` occurs at some position of `s` |
| Text.ContainsPrefixOf | wifi_scanner.py:82 | A text that contains `p + q` contains `p`, so the test is about substrings, not whole words |
| ApParser.RecordOf | wifi_scanner.py:162-176 | Every field of a record is stripped and the SSID is never empty. It is "Hidden" when column 13 is blank, and otherwise the stripped column 13. |
| ApParser.HiddenNameAmbiguous | wifi_scanner.py:168 | A network whose stripped name is "Hidden" gets the same SSID as one with a blank name, so the two cannot be told apart |
| ApParser.RecordOfColumns | wifi_scanner.py:162-176 | The record holds the stripped columns 0, 3, 5, 6, 7 and 8 as BSSID, channel, privacy, cipher, auth and power |
| ApParser.ScanRows | wifi_scanner.py:147-157 | The row loop with its `ap_header_seen` flag yields at most one record per row |
| ApParser.StopIndex | wifi_scanner.py:155-156 | The position of the first `Station MAC` row, with none before it, or the end of the input |
| ApParser.FirstApHeader | wifi_scanner.py:152-154 | The position of the first `BSSID` row, with none before it, or none at all |
| ApParser.TableStart | wifi_scanner.py:151-156 | The access-point table starts just after the first `BSSID` row before the station header. It is empty when there is no such row. |
| ApParser.RecordsOf | wifi_scanner.py:157-177 | One record per accepted row of a table, so never more records than rows |
| ApParser.RecordsOfAppend | wifi_scanner.py:148-177 | Records of consecutive stretches of rows concatenate in order |
| ApParser.RecordsAround | wifi_scanner.py:157-177 | Within the table, a row with more than 13 fields that is no header adds exactly its own record at its own place. Any other row adds nothing. |
| ApParser.ScanAfterHeader | wifi_scanner.py:147-157 | Once the flag is on, the loop yields the records of every row up to the station header |
| ApParser.ScanMatchesSnapshot | wifi_scanner.py:147-177 | The row loop and the table description give the same records on every input |
| ApParser.PositionsIn | wifi_scanner.py:157 | The accepted rows of a range, in strictly increasing order; each has more than 13 fields and is not a header |
| ApParser.PositionsComplete | wifi_scanner.py:157 | Every accepted row of the range is listed |
| ApParser.RecordsAtPositions | wifi_scanner.py:148-177 | The k-th record of a range is built from its k-th accepted row, one record per accepted row |
| ApParser.SourceRows | wifi_scanner.py:148-177 | The rows the records come from lie inside the access-point table and are accepted rows, in increasing order |
| ApParser.SnapshotRecordAt | wifi_scanner.py:157-177 | There is one record per source row, in row order, with no merging of repeated BSSIDs |
| ApParser.SnapshotColumns | wifi_scanner.py:162-176 | Each record holds the stripped columns of its own source row |
| ApParser.SnapshotSize | wifi_scanner.py:148-177 | The number of records equals the number of source rows and is at most the number of rows |
| ApParser.SnapshotComplete | wifi_scanner.py:157 | Every accepted row of the access-point table yields a record |
| ApParser.NoHeaderNoRecords | wifi_scanner.py:147-157 | With no `BSSID` row before the station header, the result is empty |
| ApParser.StationTableIgnored | wifi_scanner.py:155-156 | Nothing at or after the first `Station MAC` row affects the result |
| ApParser.ScanSkipsRow | wifi_scanner.py:149-157 | Inserting a row anywhere that is neither a header nor a row of more than 13 fields leaves the loop's result unchanged, whatever the state of the flag |
| ApParser.ShortRowIgnored | wifi_scanner.py:149-157 | A row of at most 13 fields that is not a header is skipped without affecting the records of the other rows |
| ApParser.ScanPrefix | wifi_scanner.py:148-177 | Reading fewer rows yields a prefix of the records |
| ApParser.SnapshotPrefix | wifi_scanner.py:144-180 | A parse cut short after any row yields a prefix of the full result |
| ApParser.ScanApRows | wifi_scanner.py:157-177 | After the header, consecutive long rows yield exactly one record each, in order |
| ApParser.ScanStopsAtStation | wifi_scanner.py:155-157 | A short row and then the station header end the records |
| ApParser.TableBoundary | wifi_scanner.py:147-177 | A header, N long rows, a short row and the station table yield exactly the N records of the long rows |
| ApParser.ReadableRows | wifi_scanner.py:144-148 | The rows read before an error are a prefix of the file's rows |
| ApParser.ReadErrorKeepsPrefix | wifi_scanner.py:144-180 | A read error keeps the records collected so far: a prefix of what the whole file holds, not an empty list |
| ApParser.ParseAirodumpCsv | wifi_scanner.py:135-180 | No file gives no records. Otherwise the loop returns exactly the records of the table within the rows read before any error. |
| Interfaces.FirstMonitor | wifi_scanner.py:58-64 | The first `iw dev` block that reports `type monitor` and names an interface, or none when there is no such block |
| Interfaces.FirstMonitorUnique | wifi_scanner.py:58-64 | There is only one first monitor block |
| Interfaces.SelectInterface | wifi_scanner.py:50-76 | The name of the first monitor block, else the first `iw dev` name, else the first `iwconfig` name. There is no interface exactly when all three are missing. |
| Interfaces.GetWifiInterface | wifi_scanner.py:50-76 | The block scan with its early return chooses what `SelectInterface` describes |
| Interfaces.EnableCommands | wifi_scanner.py:78-96 | No commands exactly when a block matches "already monitor". Otherwise exactly: down, set type monitor, `set monitor none` only when set type failed, up (three or four commands). All commands are on `iface`. |
| Interfaces.DisableCommands | wifi_scanner.py:98-104 | Down, set type managed, up, all on `iface` |
| Interfaces.Issued | wifi_scanner.py:333-336 | The commands completed before the one that raises form a prefix of the sequence. All of them complete when none raises. |
| Interfaces.ModeAfter | wifi_scanner.py:86-103 | Link up and down commands leave the requested mode alone |
| Interfaces.ModeAfterAppend | wifi_scanner.py:86-103 | Running two command sequences one after the other composes their effect on the requested mode |
| Interfaces.EnableRequestsMonitor | wifi_scanner.py:84-96 | Enabling asks for monitor mode whenever the interface was not already reported in monitor mode |
| Interfaces.RestoreRequestsManaged | wifi_scanner.py:98-104 | A restore that gets past set type managed asks for managed mode. One that fails earlier asks for nothing. |
| Interfaces.EnableDisableRoundTrip | wifi_scanner.py:78-104 | Enabling and then restoring leaves managed mode requested, whatever the starting mode |
| Interfaces.AlreadyMonitorByPrefix | wifi_scanner.py:80-83 | The already-monitor test is by substring. A monitor block for `wlan0mon` counts for `wlan0`, and enabling `wlan0` then does nothing. |
| Interfaces.ModeController.constructor | wifi_scanner.py:78-104 | The command log starts empty |
| Interfaces.ModeController.EnableMonitorMode | wifi_scanner.py:78-96 | Returns `iface` unchanged and appends exactly `EnableCommands` to the log |
| Interfaces.ModeController.DisableMonitorMode | wifi_scanner.py:98-104 | Appends the completed restore commands to the log. It raises exactly when one of the three commands raises. |
| Scanner.BandFlags | wifi_scanner.py:113-115 | Two flags per band |
| Scanner.BandFlagsLayout | wifi_scanner.py:113-115 | Each band is preceded by its own `--band`, in order |
| Scanner.CaptureCommand | wifi_scanner.py:110-115 | `sudo airodump-ng -w <prefix> --output-format csv <iface>`, then each configured band in order, each preceded by its own `--band` |
| Scanner.PollEvents | wifi_scanner.py:313-319 | At most one live table per poll, each with at least one record |
| Scanner.ShownPolls | wifi_scanner.py:313-319 | The polls whose file exists and whose snapshot is non-empty, in increasing order. Every such poll is listed. |
| Scanner.LiveTablesOfPolls | wifi_scanner.py:313-319 | The polling loop shows one live table per listed poll, in poll order. The k-th table is the snapshot of the k-th poll whose file exists with a non-empty snapshot. |
| Scanner.FinalEvents | wifi_scanner.py:323-331 | Nothing when the file is missing. It opens with the report exactly when the file exists and its final snapshot is non-empty. Any report is the first event and is on that snapshot. The report step never kills, restores or finishes. |
| Scanner.ShutdownEvents | wifi_scanner.py:320-337 | The cleanup kills the capture first and at most once. It always ends with the restore attempt and then "Done". |
| Scanner.ReportIffCaptured | wifi_scanner.py:320-337 | A report is made exactly when the file exists and its final snapshot is non-empty, and it is on that snapshot |
| Scanner.ReportFailureOnlyWarns | wifi_scanner.py:323-337 | A report that raises only adds the warning right after the report. The restore attempt and "Done" follow either way. Without a report, whether it would raise changes nothing. |
| Scanner.CompletedRunRequestsManaged | wifi_scanner.py:300-337 | A completed run whose restore gets past set type managed leaves managed mode requested |
| Scanner.Supervisor.constructor | wifi_scanner.py:27-33 | There is no capture process and nothing has been logged yet |
| Scanner.Supervisor.StartAirodump | wifi_scanner.py:110-120 | On launch, the handle holds the new process and the exact command line is logged. A failed launch changes nothing. |
| Scanner.Supervisor.StopAirodump | wifi_scanner.py:122-129 | The handle is cleared, and a kill is logged only when there was a process, so a second call kills nothing |
| Scanner.Supervisor.PollLoop | wifi_scanner.py:313-319 | Each poll parses the file and shows non-empty snapshots. The handle is untouched. |
| Scanner.Supervisor.ShowPoll | wifi_scanner.py:315-317 | One poll: parse the file when it exists, and log the live table exactly when the snapshot is non-empty. The handle is untouched. |
| Scanner.Supervisor.ReportFinal | wifi_scanner.py:323-331 | The final parse, and the report or the "nothing captured" notice |
| Scanner.Supervisor.Shutdown | wifi_scanner.py:320-337 | Stop, then the final report step, then the restore attempt, then "Done". A report or restore that raises does not cut the sequence short. |
| Scanner.Supervisor.Run | wifi_scanner.py:289-337 | Covers three outcomes. With no usable interface, nothing is done. A failed launch leaves the monitor-mode commands in place with no cleanup. A completed run goes through launch, polls and cleanup, and its command log is the enable commands followed by the restore commands. |

## Left out

- The csv reader is not modelled (quoting, field splitting, `newline=""`, the `utf-8` encoding with `errors="ignore"`). The model starts from rows already split into fields.
- A missing path and a missing file are one case, the `None` input of `ParseAirodumpCsv`. The capture file name `<prefix>-01.csv` and the existence checks of `main` on it are folded into the same `Option`: each poll and the final parse receive the file or `None`, not a path.
- The regular expressions over `iw dev` and `iwconfig` output are not modelled. Their results are the inputs: blocks with the name they give, and two lists of names.
- `detect_interfaces_iwdev` runs `iw dev` a second time, and `enable_monitor_mode` a third time. These are independent inputs, so the model does not assume they print the same thing.
- `subprocess.run`, `subprocess.Popen`, `sudo`, process groups, `os.killpg` and `time.sleep` are foreign calls. They appear only as their effect on the command log, the event log and the process handle.
- `StopAirodump` logs a kill as an attempt. A failing `os.killpg` is swallowed in the source, and the handle is cleared either way, which the model keeps.
- A failing command inside `enable_monitor_mode` is not modelled, because such a failure escapes `main` before the cleanup is set up. Only the outcome of `set type monitor` is an input.
- The SIGINT handler and the `running` flag it clears run asynchronously. The polling loop instead runs over a given sequence of polls, and an interrupt before the handler is installed is not modelled.
- `print_live_table`, `save_charts` and `generate_pdf` are presentation and library code. Only the fact that they are called, and with which records, is logged as an event. Terminal output is logged only where it marks a step of the shutdown or the no-interface exit (`NoInterfaceFound`).
- The timestamped output folder (`datetime.now()`, `os.makedirs`) is left out. The output prefix is a parameter.
- `ModeAfter` follows the mode last requested by the set-type commands, not the mode the driver actually ends up in. The log does not record whether a command took effect.
- Deliberate choices that follow the code:
  - A read error keeps the records collected so far (`ReadErrorKeepsPrefix`); it does not give an empty result.
  - A failed launch of the capture tool leaves the interface in monitor mode with no restore (`Supervisor.Run`).
  - The cleanup always asks for managed mode, even when the interface was already in monitor mode at start (`EnableDisableRoundTrip`); it does not restore the original mode.
