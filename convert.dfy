/**
  The driver, `main` without its file handling: flatten every event of
  every chunk into a record while collecting the field set, then derive
  the sorted full keys and their labels, and project each record onto
  them as one output row.
 */
module Convert {
  import opened Strings
  import opened Flatten
  import opened Schema

  /** The events of all chunks, chunk after chunk, each in its own order. */
  function Events(chunks: seq<seq<Dict>>): seq<Dict>
  {
    if chunks == [] then []
    else Events(chunks[..|chunks| - 1]) + chunks[|chunks| - 1]
  }

  /** The flat record of every event, in event order. */
  function Records(events: seq<Dict>): seq<map<string, string>>
  {
    seq(|events|, i requires 0 <= i < |events| => Flattened(events[i]))
  }

  lemma RecordsAppend(events: seq<Dict>, e: Dict)
    ensures Records(events + [e]) == Records(events) + [Flattened(e)]
  {
  }

  /** Go's `record[full]`: the stored text, or the zero value "" when the
      record has no such key. */
  function Lookup(record: map<string, string>, key: string): string
  {
    if key in record then record[key] else ""
  }

  /** One output row: the record read at every full key in order. */
  method ProjectRow(record: map<string, string>, fullKeys: seq<string>) returns (row: seq<string>)
    ensures |row| == |fullKeys|
    ensures forall i :: 0 <= i < |fullKeys| && fullKeys[i] in record ==> row[i] == record[fullKeys[i]]
    ensures forall i :: 0 <= i < |fullKeys| && fullKeys[i] !in record ==> row[i] == ""
  {
    row := [];
    for i := 0 to |fullKeys|
      invariant |row| == i
      invariant forall k :: 0 <= k < i ==> row[k] == Lookup(record, fullKeys[k])
    {
      row := row + [Lookup(record, fullKeys[i])];
    }
  }

  /** Adds every key of `row` to the field set, visiting the keys in
      arbitrary order. */
  method AddKeys(fieldSet: set<string>, row: map<string, string>) returns (grown: set<string>)
    ensures grown == fieldSet + row.Keys
  {
    grown := fieldSet;
    var rest := row.Keys;
    while rest != {}
      invariant rest <= row.Keys
      invariant grown == fieldSet + (row.Keys - rest)
      decreases rest
    {
      var k :| k in rest;
      grown := grown + {k};
      rest := rest - {k};
    }
  }

  /** The first pass of `main`: every event flattened into a fresh record,
      appended to `flattenedRecords`, its keys added to `fieldSet`. */
  method CollectRecords(chunks: seq<seq<Dict>>)
    returns (flattenedRecords: seq<map<string, string>>, fieldSet: set<string>)
    ensures flattenedRecords == Records(Events(chunks))
    ensures fieldSet == Universe(flattenedRecords)
  {
    flattenedRecords := [];
    fieldSet := {};
    for c := 0 to |chunks|
      invariant flattenedRecords == Records(Events(chunks[..c]))
      invariant fieldSet == Universe(flattenedRecords)
    {
      var events := chunks[c];
      assert Events(chunks[..c + 1]) == Events(chunks[..c]) + events by {
        assert chunks[..c + 1][..c] == chunks[..c];
      }
      for e := 0 to |events|
        invariant flattenedRecords == Records(Events(chunks[..c]) + events[..e])
        invariant fieldSet == Universe(flattenedRecords)
      {
        var row := new FlatRecord();
        FlattenDict("", events[e], row);
        ghost var done := Events(chunks[..c]) + events[..e];
        assert done + [events[e]] == Events(chunks[..c]) + events[..e + 1];
        RecordsAppend(done, events[e]);
        flattenedRecords := flattenedRecords + [row.cells];
        fieldSet := AddKeys(fieldSet, row.cells);
        assert flattenedRecords[..|flattenedRecords| - 1] == Records(done);
      }
      assert events[..|events|] == events;
    }
    assert chunks[..|chunks|] == chunks;
  }

  /** `main` from the decoded chunks to the header and rows handed to the
      CSV writer. The header is the label of every column; there is one row
      per event, in decode order, each with one cell per column holding the
      event's text for that column or "" when the event lacks it. */
  method Run(chunks: seq<seq<Dict>>) returns (header: seq<string>, rows: seq<seq<string>>)
    ensures var records := Records(Events(chunks));
            var columns := Columns(Universe(records));
            && |header| == |columns|
            && (forall j :: 0 <= j < |columns| ==> header[j] == ShortHeader(columns[j]))
            && |rows| == |records|
            && (forall i :: 0 <= i < |rows| ==> |rows[i]| == |columns|)
            && (forall i, j :: 0 <= i < |rows| && 0 <= j < |columns| ==>
                  rows[i][j] == Lookup(records[i], columns[j]))
  {
    var flattenedRecords, fieldSet := CollectRecords(chunks);
    var fullKeys := FullKeys(fieldSet);
    header := ShortHeaders(fullKeys);
    rows := [];
    for r := 0 to |flattenedRecords|
      invariant |rows| == r
      invariant forall i :: 0 <= i < r ==> |rows[i]| == |fullKeys|
      invariant forall i, j :: 0 <= i < r && 0 <= j < |fullKeys| ==>
                  rows[i][j] == Lookup(flattenedRecords[i], fullKeys[j])
    {
      var row := ProjectRow(flattenedRecords[r], fullKeys);
      rows := rows + [row];
    }
  }
}
