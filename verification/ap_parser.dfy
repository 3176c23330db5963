/**
 * The access-point table extractor of the scanner (`parse_airodump_csv`).
 *
 * The capture tool rewrites one CSV file that holds two tables: the access
 * points, headed by a row whose first field is `BSSID`, then the client
 * stations, headed by a row whose first field is `Station MAC`. The parser
 * keeps one record per access-point row of the first table.
 *
 * Rows arrive already split into fields (the csv reader is not part of this
 * model). `ScanRows` is the row loop as a state machine, `SnapshotOf` an
 * independent description of the same result by row windows, and
 * `ScanMatchesSnapshot` shows the two agree.
 */
module ApParser {
  import opened Wrappers
  import opened Text

  /** One row as the csv reader yields it: its fields, unquoted. */
  type Row = seq<string>

  /** One access point, every field as the capture tool wrote it, trimmed. */
  datatype ApRecord = ApRecord(
    bssid: string,
    ssid: string,
    channel: string,
    privacy: string,
    cipher: string,
    auth: string,
    power: string)

  const HiddenSsid: string := "Hidden"
  const ApHeaderToken: string := "BSSID"
  const StationHeaderToken: string := "Station MAC"

  /** The header row of the access-point table. */
  predicate IsApHeader(row: Row) {
    |row| > 0 && Trim(row[0]) == ApHeaderToken
  }

  /** The header row of the station table, which ends the access-point table. */
  predicate IsStationHeader(row: Row) {
    |row| > 0 && Trim(row[0]) == StationHeaderToken
  }

  /** A row that yields a record once the access-point header has been seen: more than 13 fields. */
  predicate IsApRow(row: Row) {
    |row| > 13 && !IsApHeader(row) && !IsStationHeader(row)
  }

  /** Every field is free of surrounding whitespace and the SSID is never empty. */
  predicate WellFormed(rec: ApRecord) {
    IsTrimmed(rec.bssid) && IsTrimmed(rec.ssid) && IsTrimmed(rec.channel)
    && IsTrimmed(rec.privacy) && IsTrimmed(rec.cipher) && IsTrimmed(rec.auth)
    && IsTrimmed(rec.power) && rec.ssid != []
  }

  /**
   * The record built from one access-point row: columns 0 (BSSID), 3
   * (channel), 5 (privacy), 6 (cipher), 7 (authentication), 8 (power) and 13
   * (ESSID), each trimmed; an ESSID that is empty or only whitespace is shown
   * as "Hidden".
   */
  function RecordOf(row: Row): (rec: ApRecord)
    requires |row| > 13
    ensures WellFormed(rec)
    ensures AllSpace(row[13]) ==> rec.ssid == HiddenSsid
    ensures !AllSpace(row[13]) ==> rec.ssid == Trim(row[13])
  {
    TrimSpec(row[0]); TrimSpec(row[3]); TrimSpec(row[5]); TrimSpec(row[6]);
    TrimSpec(row[7]); TrimSpec(row[8]); TrimSpec(row[13]);
    var essid := Trim(row[13]);
    ApRecord(Trim(row[0]), if essid == [] then HiddenSsid else essid, Trim(row[3]),
             Trim(row[5]), Trim(row[6]), Trim(row[7]), Trim(row[8]))
  }

  /**
   * A network whose name is "Hidden" (after trimming) gets the same SSID as
   * one whose name is blank: the record cannot tell them apart.
   */
  lemma HiddenNameAmbiguous(blank: Row, named: Row)
    requires |blank| > 13 && |named| > 13
    requires AllSpace(blank[13]) && Trim(named[13]) == HiddenSsid
    ensures RecordOf(blank).ssid == RecordOf(named).ssid == HiddenSsid
  {
    TrimSpec(named[13]);
  }

  /**
   * The row loop as a state machine. `seen` is the flag that turns on at the
   * access-point header; blank rows are skipped, a header row is skipped, the
   * station header stops everything, and a row with more than 13 fields
   * yields a record once the flag is on.
   */
  function ScanRows(rows: seq<Row>, seen: bool): (recs: seq<ApRecord>)
    ensures |recs| <= |rows|
  {
    if rows == [] then []
    else
      var row := rows[0];
      if row == [] then ScanRows(rows[1..], seen)
      else if Trim(row[0]) == ApHeaderToken then ScanRows(rows[1..], true)
      else if Trim(row[0]) == StationHeaderToken then []
      else if seen && |row| > 13 then [RecordOf(row)] + ScanRows(rows[1..], seen)
      else ScanRows(rows[1..], seen)
  }

  /** Index of the first station header, or the number of rows when there is none. */
  function StopIndex(rows: seq<Row>): (k: nat)
    ensures k <= |rows|
    ensures forall j :: 0 <= j < k ==> !IsStationHeader(rows[j])
    ensures k < |rows| ==> IsStationHeader(rows[k])
  {
    if rows == [] || IsStationHeader(rows[0]) then 0 else 1 + StopIndex(rows[1..])
  }

  /** Index of the first access-point header, if any. */
  function FirstApHeader(rows: seq<Row>): (h: Option<nat>)
    ensures h.Some? ==> h.value < |rows| && IsApHeader(rows[h.value])
    ensures forall j :: 0 <= j < |rows| && (h.None? || j < h.value) ==> !IsApHeader(rows[j])
  {
    if rows == [] then None
    else if IsApHeader(rows[0]) then Some(0)
    else match FirstApHeader(rows[1..])
      case None => None
      case Some(h) => Some(h + 1)
  }

  /**
   * Index of the first row of the access-point table: just past the first
   * access-point header that comes before the station header, or the stop
   * index when no such header exists.
   */
  function TableStart(rows: seq<Row>): (s: nat)
    ensures s <= StopIndex(rows)
    ensures s == StopIndex(rows) || (0 < s && IsApHeader(rows[s - 1]))
    ensures forall j :: 0 <= j < s - 1 ==> !IsApHeader(rows[j])
  {
    match FirstApHeader(rows[..StopIndex(rows)])
    case None => StopIndex(rows)
    case Some(h) => h + 1
  }

  /** The rows of the access-point table. */
  function ApTable(rows: seq<Row>): seq<Row> {
    rows[TableStart(rows)..StopIndex(rows)]
  }

  /** One record per access-point row of `table`, in row order. */
  function RecordsOf(table: seq<Row>): (recs: seq<ApRecord>)
    ensures |recs| <= |table|
  {
    if table == [] then []
    else (if IsApRow(table[0]) then [RecordOf(table[0])] else []) + RecordsOf(table[1..])
  }

  /** What one parse of a complete file yields: the records of its access-point table. */
  function SnapshotOf(rows: seq<Row>): seq<ApRecord> {
    RecordsOf(ApTable(rows))
  }

  lemma DropFirst<T>(a: seq<T>, b: seq<T>)
    requires a != []
    ensures (a + b)[0] == a[0] && (a + b)[1..] == a[1..] + b
  {
  }

  lemma {:induction false} RecordsOfAppend(a: seq<Row>, b: seq<Row>)
    ensures RecordsOf(a + b) == RecordsOf(a) + RecordsOf(b)
  {
    if a == [] {
      assert a + b == b;
    } else {
      var head := if IsApRow(a[0]) then [RecordOf(a[0])] else [];
      DropFirst(a, b);
      calc {
        RecordsOf(a + b);
        head + RecordsOf(a[1..] + b);
        { RecordsOfAppend(a[1..], b); }
        head + (RecordsOf(a[1..]) + RecordsOf(b));
        (head + RecordsOf(a[1..])) + RecordsOf(b);
      }
    }
  }

  /**
   * Within the access-point table, a row contributes its own record at its
   * own place when it has more than 13 fields and is no header, and nothing
   * otherwise.
   */
  lemma RecordsAround(a: seq<Row>, r: Row, b: seq<Row>)
    ensures IsApRow(r) ==> RecordsOf(a + [r] + b) == RecordsOf(a) + [RecordOf(r)] + RecordsOf(b)
    ensures !IsApRow(r) ==> RecordsOf(a + [r] + b) == RecordsOf(a) + RecordsOf(b)
  {
    var ar := a + [r];
    RecordsOfAppend(a, [r]);
    RecordsOfAppend(ar, b);
    RecordsOfOne(r);
  }

  lemma RecordsOfOne(r: Row)
    ensures RecordsOf([r]) == if IsApRow(r) then [RecordOf(r)] else []
  {
    assert [r][1..] == [];
  }

  /** Once the header has been seen, the loop yields the records of every row up to the stop. */
  lemma {:induction false} ScanAfterHeader(rows: seq<Row>)
    ensures ScanRows(rows, true) == RecordsOf(rows[..StopIndex(rows)])
  {
    if rows != [] && !IsStationHeader(rows[0]) {
      var rest := rows[1..];
      ScanAfterHeader(rest);
      var body := rows[..StopIndex(rows)];
      assert body[0] == rows[0] && body[1..] == rest[..StopIndex(rest)];
    }
  }

  /** The state machine and the window description agree on every input. */
  lemma {:induction false} ScanMatchesSnapshot(rows: seq<Row>)
    ensures ScanRows(rows, false) == SnapshotOf(rows)
  {
    if rows != [] && !IsStationHeader(rows[0]) {
      var row, rest := rows[0], rows[1..];
      var body, restBody := rows[..StopIndex(rows)], rest[..StopIndex(rest)];
      assert body[0] == row && body[1..] == restBody;
      if IsApHeader(row) {
        ScanAfterHeader(rest);
        assert TableStart(rows) == 1;
        assert ApTable(rows) == restBody;
      } else {
        ScanMatchesSnapshot(rest);
        assert TableStart(rows) == TableStart(rest) + 1;
        assert ApTable(rows) == ApTable(rest);
      }
    }
  }

  /** `rec` holds the trimmed columns 0, 3, 5, 6, 7, 8 and 13 of `row`, an empty ESSID shown as "Hidden". */
  predicate FromRow(rec: ApRecord, row: Row)
    requires |row| > 13
  {
    rec.bssid == Trim(row[0]) && rec.channel == Trim(row[3]) && rec.privacy == Trim(row[5])
    && rec.cipher == Trim(row[6]) && rec.auth == Trim(row[7]) && rec.power == Trim(row[8])
    && rec.ssid == (if AllSpace(row[13]) then HiddenSsid else Trim(row[13]))
  }

  lemma RecordOfColumns(row: Row)
    requires |row| > 13
    ensures FromRow(RecordOf(row), row)
  {
  }

  /** Indices in [lo, hi), in increasing order, of the rows that yield a record. */
  function PositionsIn(rows: seq<Row>, lo: nat, hi: nat): (ps: seq<nat>)
    requires lo <= hi <= |rows|
    ensures |ps| <= hi - lo
    ensures forall k :: 0 <= k < |ps| ==> lo <= ps[k] < hi && IsApRow(rows[ps[k]])
    ensures forall k :: 0 < k < |ps| ==> ps[k - 1] < ps[k]
    decreases hi - lo
  {
    if lo == hi then []
    else (if IsApRow(rows[lo]) then [lo] else []) + PositionsIn(rows, lo + 1, hi)
  }

  /** Every row in [lo, hi) that yields a record is listed by `PositionsIn`. */
  lemma {:induction false} PositionsComplete(rows: seq<Row>, lo: nat, hi: nat, j: nat)
    requires lo <= j < hi <= |rows| && IsApRow(rows[j])
    ensures j in PositionsIn(rows, lo, hi)
    decreases hi - lo
  {
    var tail := PositionsIn(rows, lo + 1, hi);
    if j > lo {
      PositionsComplete(rows, lo + 1, hi, j);
    }
    if IsApRow(rows[lo]) {
      ConsMember(lo, tail, j);
    }
  }

  lemma ConsMember(x: nat, tail: seq<nat>, j: nat)
    requires j == x || j in tail
    ensures j in [x] + tail
  {
    if j != x {
      var k :| 0 <= k < |tail| && tail[k] == j;
      assert ([x] + tail)[k + 1] == j;
    }
  }

  /** The k-th record of rows[lo..hi] is built from the row at the k-th position. */
  lemma {:induction false} RecordsAtPositions(rows: seq<Row>, lo: nat, hi: nat)
    requires lo <= hi <= |rows|
    ensures |RecordsOf(rows[lo..hi])| == |PositionsIn(rows, lo, hi)|
    ensures forall k :: 0 <= k < |PositionsIn(rows, lo, hi)| ==>
              RecordsOf(rows[lo..hi])[k] == RecordOf(rows[PositionsIn(rows, lo, hi)[k]])
    decreases hi - lo
  {
    if lo < hi {
      var table := rows[lo..hi];
      assert table[1..] == rows[lo + 1..hi];
      RecordsAtPositions(rows, lo + 1, hi);
      var ps, tail := PositionsIn(rows, lo, hi), PositionsIn(rows, lo + 1, hi);
      var recs := RecordsOf(table);
      var off := if IsApRow(rows[lo]) then 1 else 0;
      forall k | off <= k < |ps|
        ensures recs[k] == RecordOf(rows[ps[k]])
      {
        assert ps[k] == tail[k - off];
        assert recs[k] == RecordsOf(rows[lo + 1..hi])[k - off];
      }
    }
  }

  /**
   * The row indices the records of `SnapshotOf(rows)` come from, in
   * increasing order: rows of the access-point table that yield a record.
   */
  function SourceRows(rows: seq<Row>): (ps: seq<nat>)
    ensures |ps| <= |rows|
    ensures forall k :: 0 <= k < |ps| ==> TableStart(rows) <= ps[k] < StopIndex(rows) && IsApRow(rows[ps[k]])
    ensures forall k :: 0 < k < |ps| ==> ps[k - 1] < ps[k]
  {
    PositionsIn(rows, TableStart(rows), StopIndex(rows))
  }

  /**
   * One record per source row, in the same order: the k-th record of a
   * snapshot is built from the k-th source row. Repeated BSSIDs are not merged.
   */
  lemma SnapshotRecordAt(rows: seq<Row>, k: nat)
    requires k < |SourceRows(rows)|
    ensures |SnapshotOf(rows)| == |SourceRows(rows)|
    ensures SnapshotOf(rows)[k] == RecordOf(rows[SourceRows(rows)[k]])
  {
    RecordsAtPositions(rows, TableStart(rows), StopIndex(rows));
  }

  /** The k-th record of a snapshot holds the trimmed columns of its source row. */
  lemma SnapshotColumns(rows: seq<Row>, k: nat)
    requires k < |SourceRows(rows)|
    ensures k < |SnapshotOf(rows)|
    ensures FromRow(SnapshotOf(rows)[k], rows[SourceRows(rows)[k]])
  {
    SnapshotRecordAt(rows, k);
    RecordOfColumns(rows[SourceRows(rows)[k]]);
  }

  /** A snapshot has as many records as source rows, never more than there are rows. */
  lemma SnapshotSize(rows: seq<Row>)
    ensures |SnapshotOf(rows)| == |SourceRows(rows)| <= |rows|
  {
    RecordsAtPositions(rows, TableStart(rows), StopIndex(rows));
  }

  /** Every row of the access-point table with more than 13 fields is a source row. */
  lemma SnapshotComplete(rows: seq<Row>, i: nat)
    requires TableStart(rows) <= i < StopIndex(rows) && IsApRow(rows[i])
    ensures i in SourceRows(rows)
  {
    PositionsComplete(rows, TableStart(rows), StopIndex(rows), i);
  }

  /** Without an access-point header before the station header there are no records. */
  lemma NoHeaderNoRecords(rows: seq<Row>)
    requires forall j :: 0 <= j < StopIndex(rows) ==> !IsApHeader(rows[j])
    ensures SnapshotOf(rows) == []
  {
  }

  /** Whatever follows the station header is never read. */
  lemma StationTableIgnored(pre: seq<Row>, station: Row, tail: seq<Row>)
    requires forall j :: 0 <= j < |pre| ==> !IsStationHeader(pre[j])
    requires IsStationHeader(station)
    ensures SnapshotOf(pre + [station] + tail) == SnapshotOf(pre)
  {
    var rows := pre + [station] + tail;
    assert rows[|pre|] == station;
    assert forall j :: 0 <= j < |pre| ==> rows[j] == pre[j];
    assert StopIndex(rows) == |pre| == StopIndex(pre);
    assert rows[..StopIndex(rows)] == pre[..StopIndex(pre)];
    assert TableStart(rows) == TableStart(pre);
    assert ApTable(rows) == ApTable(pre);
  }

  /** A row that is no header and has at most 13 fields (a blank row included) does not change the loop's result. */
  lemma {:induction false} ScanSkipsRow(a: seq<Row>, r: Row, b: seq<Row>, seen: bool)
    requires !IsApRow(r) && !IsApHeader(r) && !IsStationHeader(r)
    ensures ScanRows(a + [r] + b, seen) == ScanRows(a + b, seen)
  {
    if a == [] {
      assert a + [r] + b == [r] + b;
      assert ([r] + b)[0] == r && ([r] + b)[1..] == b;
      assert a + b == b;
    } else {
      var x := a[0];
      assert (a + [r] + b)[0] == x && (a + [r] + b)[1..] == a[1..] + [r] + b;
      assert (a + b)[0] == x && (a + b)[1..] == a[1..] + b;
      var seen' := if x != [] && Trim(x[0]) == ApHeaderToken then true else seen;
      ScanSkipsRow(a[1..], r, b, seen');
    }
  }

  /** Short or blank rows are skipped without affecting the records of the other rows. */
  lemma ShortRowIgnored(a: seq<Row>, r: Row, b: seq<Row>)
    requires |r| <= 13 && !IsApHeader(r) && !IsStationHeader(r)
    ensures SnapshotOf(a + [r] + b) == SnapshotOf(a + b)
  {
    ScanSkipsRow(a, r, b, false);
    ScanMatchesSnapshot(a + [r] + b);
    ScanMatchesSnapshot(a + b);
  }

  /** Reading fewer rows yields a prefix of the records. */
  lemma {:induction false} ScanPrefix(a: seq<Row>, b: seq<Row>, seen: bool)
    ensures ScanRows(a, seen) <= ScanRows(a + b, seen)
  {
    if a != [] {
      var row := a[0];
      assert (a + b)[0] == row && (a + b)[1..] == a[1..] + b;
      var seen' := if row != [] && Trim(row[0]) == ApHeaderToken then true else seen;
      ScanPrefix(a[1..], b, seen');
    }
  }

  /** A parse that stops early, for any reason, yields a prefix of the full result. */
  lemma SnapshotPrefix(rows: seq<Row>, k: nat)
    requires k <= |rows|
    ensures SnapshotOf(rows[..k]) <= SnapshotOf(rows)
  {
    assert rows[..k] + rows[k..] == rows;
    ScanPrefix(rows[..k], rows[k..], false);
    ScanMatchesSnapshot(rows[..k]);
    ScanMatchesSnapshot(rows);
  }

  /** After the header, consecutive access-point rows yield one record each, in order. */
  lemma {:induction false} ScanApRows(good: seq<Row>, rest: seq<Row>)
    requires forall i :: 0 <= i < |good| ==> IsApRow(good[i])
    ensures ScanRows(good + rest, true) == RecordsOf(good) + ScanRows(rest, true)
    ensures |RecordsOf(good)| == |good|
  {
    if good == [] {
      assert good + rest == rest;
    } else {
      assert (good + rest)[0] == good[0] && (good + rest)[1..] == good[1..] + rest;
      ScanApRows(good[1..], rest);
    }
  }

  /** A row of at most 13 fields, then the station header: nothing more is read. */
  lemma ScanStopsAtStation(bad: Row, station: Row, stations: seq<Row>)
    requires |bad| <= 13 && !IsStationHeader(bad) && IsStationHeader(station)
    ensures ScanRows([bad] + ([station] + stations), true) == []
  {
    var rest := [bad] + ([station] + stations);
    assert rest[0] == bad && rest[1..] == [station] + stations;
    assert ([station] + stations)[0] == station;
  }

  /**
   * A header, N access-point rows, one short row, the station header and any
   * station rows: exactly the N records of the access-point rows.
   */
  lemma TableBoundary(header: Row, good: seq<Row>, bad: Row, station: Row, stations: seq<Row>)
    requires IsApHeader(header) && IsStationHeader(station)
    requires forall i :: 0 <= i < |good| ==> IsApRow(good[i])
    requires |bad| <= 13 && !IsStationHeader(bad)
    ensures SnapshotOf([header] + (good + ([bad] + ([station] + stations)))) == RecordsOf(good)
    ensures |RecordsOf(good)| == |good|
  {
    var rest := [bad] + ([station] + stations);
    var rows := [header] + (good + rest);
    assert rows[0] == header && rows[1..] == good + rest;
    ScanApRows(good, rest);
    ScanStopsAtStation(bad, station, stations);
    assert ScanRows(rows, false) == ScanRows(good + rest, true);
    ScanMatchesSnapshot(rows);
  }

  /**
   * The capture file as the csv reader delivers it: its rows, and the index
   * of the row at which reading raises an error, if it does.
   */
  datatype CsvFile = CsvFile(rows: seq<Row>, failsAt: Option<nat>)

  /** The rows the reader yields before it raises, or all of them. */
  function ReadableRows(f: CsvFile): (rs: seq<Row>)
    ensures rs <= f.rows
  {
    if f.failsAt.Some? && f.failsAt.value < |f.rows| then f.rows[..f.failsAt.value] else f.rows
  }

  /** A read error part-way keeps the records collected so far: a prefix of what the whole file holds. */
  lemma ReadErrorKeepsPrefix(f: CsvFile)
    ensures SnapshotOf(ReadableRows(f)) <= SnapshotOf(f.rows)
  {
    SnapshotPrefix(f.rows, |ReadableRows(f)|);
    assert f.rows[..|ReadableRows(f)|] == ReadableRows(f);
  }

  /**
   * `parse_airodump_csv`: no file gives no records; otherwise the row loop
   * runs over the rows the reader yields, and an error while reading ends
   * the loop with the records collected so far.
   */
  method ParseAirodumpCsv(file: Option<CsvFile>) returns (nets: seq<ApRecord>)
    ensures file.None? ==> nets == []
    ensures file.Some? ==> nets == SnapshotOf(ReadableRows(file.value))
  {
    nets := [];
    if file.None? {
      return;
    }
    var rows := file.value.rows;
    ghost var read := ReadableRows(file.value);
    var apHeaderSeen := false;
    var i := 0;
    while i < |rows|
      invariant i <= |read| <= |rows| && read == rows[..|read|]
      invariant nets + ScanRows(read[i..], apHeaderSeen) == ScanRows(read, false)
    {
      if file.value.failsAt == Some(i) {
        assert read[i..] == [];
        break;
      }
      var row := rows[i];
      assert read[i] == row && read[i..][0] == row && read[i..][1..] == read[i + 1..];
      if row == [] {
        i := i + 1;
        continue;
      }
      var first := Trim(row[0]);
      if first == ApHeaderToken {
        apHeaderSeen := true;
        i := i + 1;
        continue;
      }
      if first == StationHeaderToken {
        assert nets == ScanRows(read, false);
        break;
      }
      if apHeaderSeen && |row| > 13 {
        nets := nets + [RecordOf(row)];
      }
      i := i + 1;
    }
    if i == |rows| {
      assert read[i..] == [];
    }
    ScanMatchesSnapshot(read);
  }
}
