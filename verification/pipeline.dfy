/** How the intake handler and the query handler meet in the metadata table:
    the rows the first writes are the rows the second reads. */
module Pipeline {
  import opened Effects
  import opened Dates
  import ProcessingFunction
  import QueryFunction

  /** Every accepted upload is written with the isoformat text of its clock
      reading, and the query handler renders that row with the file's name, its
      size and the reading's day, month, year, hour and minute. */
  lemma WrittenRowsRender(table: string, topic: string, records: seq<ProcessingFunction.S3Record>,
                          readings: seq<DateTime>, clock: seq<string>)
    requires |readings| == |records| && |clock| == |records|
    requires forall i :: 0 <= i < |records| ==> Valid(readings[i]) && clock[i] == IsoFormat(readings[i])
    ensures forall i :: 0 <= i < |records| && ProcessingFunction.IsAccepted(records[i]) ==>
      var r := records[i];
      var row := Item(ProcessingFunction.Extension(r.key), clock[i], r.size, r.key);
      && Put(table, row) in ProcessingFunction.BatchEffects(table, topic, records, clock)
      && QueryFunction.ItemLine(row)
         == Success("- " + r.key + " with size " + QueryFunction.SizeText(r.size)
                    + " and uploaded on " + DisplayDate(readings[i]))
  {
    ProcessingFunction.WritesAreAcceptedRecords(table, topic, records, clock);
    forall i | 0 <= i < |records|
      ensures FromIsoFormat(clock[i]) == Success(readings[i])
    {
      IsoFormatRoundTrip(readings[i]);
    }
  }

  /** Listing any rows the intake handler wrote never fails on a date: the
      query answers 200 with one line per row. */
  lemma WrittenRowsList(table: string, topic: string, records: seq<ProcessingFunction.S3Record>,
                        readings: seq<DateTime>, clock: seq<string>, rows: seq<Item>)
    requires |readings| == |records| && |clock| == |records|
    requires forall i :: 0 <= i < |records| ==> Valid(readings[i]) && clock[i] == IsoFormat(readings[i])
    requires forall j :: 0 <= j < |rows| ==>
      Put(table, rows[j]) in ProcessingFunction.BatchEffects(table, topic, records, clock)
    ensures QueryFunction.ResultLines(rows).Success?
    ensures |QueryFunction.ResultLines(rows).value| == |rows|
    ensures QueryFunction.Respond(QueryFunction.Items(rows)).statusCode == 200
  {
    ProcessingFunction.WritesAreAcceptedRecords(table, topic, records, clock);
    forall j | 0 <= j < |rows|
      ensures FromIsoFormat(rows[j].uploadDate).Success?
    {
      var e := Put(table, rows[j]);
      assert e in ProcessingFunction.BatchEffects(table, topic, records, clock) && e.Put?;
      var i :| 0 <= i < |records| && ProcessingFunction.IsAccepted(records[i])
        && rows[j] == Item(ProcessingFunction.Extension(records[i].key), clock[i], records[i].size, records[i].key);
      IsoFormatRoundTrip(readings[i]);
    }
    QueryFunction.LinesSucceedIff(rows);
  }
}
