/**
 * The scan log of script.js: `isDuplicate`, the append-if-new rule of
 * `onScanSuccess` and the delete button's `splice`. The log is the
 * `scannedData` array, kept here as a sequence of rows.
 */
module ScanLog {
  import opened Optional
  import opened ScriptParser

  /** One stored scan: the annotated fields `parseGS1` found. */
  type Row = map<string, string>

  /** `row[key]`, with `undefined` for a missing key. */
  function Get(row: Row, key: string): (r: Option<string>)
    ensures r.Some? <==> key in row
    ensures r.Some? ==> r.value == row[key]
  {
    if key in row then Some(row[key]) else None
  }

  /** What `isDuplicate` compares: the GTIN (01), the lot (10) and the serial (21). */
  datatype Identity = Identity(gtin: Option<string>, lot: Option<string>, serial: Option<string>)

  function IdentityOf(row: Row): Identity {
    Identity(Get(row, "01"), Get(row, "10"), Get(row, "21"))
  }

  /** `isDuplicate`: some stored row agrees with `row` on all three identity fields. */
  function IsDuplicate(log: seq<Row>, row: Row): (r: bool)
    ensures r <==> exists k :: 0 <= k < |log| && IdentityOf(log[k]) == IdentityOf(row)
  {
    if |log| == 0 then false
    else IdentityOf(log[0]) == IdentityOf(row) || IsDuplicate(log[1..], row)
  }

  /** No two stored rows share an identity. */
  predicate Unique(log: seq<Row>) {
    forall i, j :: 0 <= i < j < |log| ==> IdentityOf(log[i]) != IdentityOf(log[j])
  }

  /**
   * The store step of `onScanSuccess`: a duplicate is refused and the log
   * is left alone; anything else is appended at the end.
   */
  function Record(log: seq<Row>, row: Row): (r: seq<Row>)
    ensures |log| <= |r| <= |log| + 1 && r[..|log|] == log
    ensures |r| == |log| + 1 <==> forall k :: 0 <= k < |log| ==> IdentityOf(log[k]) != IdentityOf(row)
    ensures |r| == |log| + 1 ==> r[|log|] == row
  {
    if IsDuplicate(log, row) then log else log + [row]
  }

  /** Recording keeps the log free of duplicates. */
  lemma RecordPreservesUnique(log: seq<Row>, row: Row)
    requires Unique(log)
    ensures Unique(Record(log, row))
  {
  }

  /** After recording, the scan's identity is in the log, whether it was appended or refused. */
  lemma RecordedIdentityPresent(log: seq<Row>, row: Row)
    ensures IsDuplicate(Record(log, row), row)
  {
    var r := Record(log, row);
    if |r| == |log| + 1 {
      assert IdentityOf(r[|log|]) == IdentityOf(row);
    }
  }

  /** A missing field equals a missing field, and the date (17) and code (22) are not compared. */
  lemma IdentityIgnoresDateAndCode(row: Row, date: string, code: string)
    ensures IdentityOf(row["17" := date]["22" := code]) == IdentityOf(row)
    ensures IdentityOf(map[]) == IdentityOf(map["17" := date, "22" := code])
  {
  }

  /** `onScanSuccess` without its I/O: parse, annotate, then store if new. */
  function OnScan(log: seq<Row>, text: string, isPast: bool): seq<Row> {
    Record(log, ValidateFields(ParseGS1(text), isPast))
  }

  /** The annotation of AI 17 does not change a row's identity. */
  lemma ValidateKeepsIdentity(fields: map<string, string>, isPast: bool)
    ensures IdentityOf(ValidateFields(fields, isPast)) == IdentityOf(fields)
  {
  }

  /** Scanning the same text again changes nothing, whatever the clock says the second time. */
  lemma RescanIsRefused(log: seq<Row>, text: string, isPast1: bool, isPast2: bool)
    ensures OnScan(OnScan(log, text, isPast1), text, isPast2) == OnScan(log, text, isPast1)
  {
    var f := ParseGS1(text);
    ValidateKeepsIdentity(f, isPast1);
    ValidateKeepsIdentity(f, isPast2);
    RecordedIdentityPresent(log, ValidateFields(f, isPast1));
    var l1 := OnScan(log, text, isPast1);
    var k :| 0 <= k < |l1| && IdentityOf(l1[k]) == IdentityOf(ValidateFields(f, isPast1));
    assert IdentityOf(l1[k]) == IdentityOf(ValidateFields(f, isPast2));
  }

  /** `scannedData.splice(index, 1)`: removes the row at `index`; past the end nothing happens. */
  function Remove(log: seq<Row>, index: nat): (r: seq<Row>)
    ensures index < |log| ==> |r| == |log| - 1
    ensures index < |log| ==> forall k :: 0 <= k < |r| ==> r[k] == if k < index then log[k] else log[k + 1]
    ensures index >= |log| ==> r == log
  {
    if index < |log| then log[..index] + log[index + 1..] else log
  }

  /** Removal takes out exactly the one row at the index. */
  lemma RemoveTakesOneRow(log: seq<Row>, index: nat)
    requires index < |log|
    ensures multiset(Remove(log, index)) + multiset{log[index]} == multiset(log)
  {
    assert log == log[..index] + [log[index]] + log[index + 1..];
  }

  /** Removal keeps the log free of duplicates. */
  lemma RemovePreservesUnique(log: seq<Row>, index: nat)
    requires Unique(log)
    ensures Unique(Remove(log, index))
  {
    var r := Remove(log, index);
    if index < |log| {
      forall i, j | 0 <= i < j < |r|
        ensures IdentityOf(r[i]) != IdentityOf(r[j])
      {
        var i' := if i < index then i else i + 1;
        var j' := if j < index then j else j + 1;
        assert r[i] == log[i'] && r[j] == log[j'] && i' < j';
      }
    }
  }

  /** A removed row can be scanned in again. */
  lemma RemovedCanBeRescanned(log: seq<Row>, index: nat)
    requires Unique(log) && index < |log|
    ensures !IsDuplicate(Remove(log, index), log[index])
  {
    var r := Remove(log, index);
    forall k | 0 <= k < |r|
      ensures IdentityOf(r[k]) != IdentityOf(log[index])
    {
      if k < index {
        assert r[k] == log[k];
      } else {
        assert r[k] == log[k + 1];
      }
    }
  }
}
