/** The intake handler (`lambda_code/processing_function.py`): for each
    object-created record, classify the object by its file extension; reject it
    with one notification, or store its metadata and then notify success. */
module ProcessingFunction {
  import opened Seqs
  import opened Strings
  import opened Effects

  /** One object-created notification: the object's key and size in bytes. */
  datatype S3Record = S3Record(key: string, size: nat)

  const AllowedExtensions: seq<string> := ["pdf", "jpg", "png"]
  const ErrorSubject: string := "File Upload Error"
  const SuccessSubject: string := "File Upload Success"
  const HandlerBody: string := "Metadata stored successfully"

  /** `key.split(".")[-1].lower()` */
  function Extension(key: string): string
  {
    Lower(Last(Split(key, '.')))
  }

  predicate IsAllowed(ext: string)
  {
    ext in AllowedExtensions
  }

  function RejectionMessage(key: string, ext: string): string
  {
    "Invalid file uploaded: " + key + " (Extension: " + ext + ")"
  }

  function SuccessMessage(key: string, size: nat, ext: string, uploadDate: string): string
  {
    "File uploaded successfully: " + key + "\nSize: " + NatToString(size) + " bytes\nExtension: "
    + ext + "\nDate: " + uploadDate
  }

  /** The calls made for one record; `uploadDate` is the clock reading taken
      when the record is accepted. */
  function RecordEffects(table: string, topic: string, r: S3Record, uploadDate: string): seq<Effect>
  {
    var ext := Extension(r.key);
    if !IsAllowed(ext) then
      [Publish(topic, ErrorSubject, RejectionMessage(r.key, ext))]
    else
      [Put(table, Item(ext, uploadDate, r.size, r.key)),
       Publish(topic, SuccessSubject, SuccessMessage(r.key, r.size, ext, uploadDate))]
  }

  /** The calls made for a record paired with the clock reading taken while it is handled. */
  function RecordStep(table: string, topic: string): ((S3Record, string)) -> seq<Effect>
  {
    (arrival: (S3Record, string)) => RecordEffects(table, topic, arrival.0, arrival.1)
  }

  /** The calls made for a batch: each record's calls, in record order.
      `clock[i]` is the text `datetime.now().isoformat()` gives while record
      `i` is handled. */
  function BatchEffects(table: string, topic: string, records: seq<S3Record>, clock: seq<string>): seq<Effect>
    requires |clock| == |records|
  {
    LogOf(RecordStep(table, topic), Zip(records, clock))
  }

  function IsAccepted(r: S3Record): bool
  {
    IsAllowed(Extension(r.key))
  }

  /** Number of records whose extension is on the allow-list. */
  function AcceptedCount(records: seq<S3Record>): nat
  {
    CountWhere(IsAccepted, records)
  }

  /** The handler. The table name and topic are the values the environment
      supplies; `clock` gives, for each record, the isoformat text of the wall
      clock read while it is handled. */
  method LambdaHandler(table: string, topic: string, records: seq<S3Record>, clock: seq<string>)
    returns (response: Response, log: seq<Effect>)
    requires |clock| == |records|
    ensures log == BatchEffects(table, topic, records, clock)
    ensures CountPublishes(log) == |records|
    ensures CountPuts(log) == AcceptedCount(records)
    ensures response == Response(200, HandlerBody)
  {
    log := [];
    for i := 0 to |records|
      invariant log == BatchEffects(table, topic, records[..i], clock[..i])
    {
      var key := records[i].key;
      var size := records[i].size;
      var extension := Extension(key);
      if extension !in AllowedExtensions {
        log := log + [Publish(topic, ErrorSubject, RejectionMessage(key, extension))];
      } else {
        var uploadDate := clock[i];
        log := log + [Put(table, Item(extension, uploadDate, size, key))];
        log := log + [Publish(topic, SuccessSubject, SuccessMessage(key, size, extension, uploadDate))];
      }
      PrefixOfPrefix(records, i);
      PrefixOfPrefix(clock, i);
      ZipPrefix(records, clock, i);
      LogOfSnoc(RecordStep(table, topic), Zip(records[..i], clock[..i]), (records[i], clock[i]));
    }
    assert records[..|records|] == records;
    assert clock[..|clock|] == clock;
    BatchCounts(table, topic, records, clock);
    response := Response(200, HandlerBody);
  }

  /** The extension is the lower-cased text after the last `.`: a dot-free
      suffix of the key that is the whole key or follows a `.`. */
  lemma ExtensionIsLowerCasedSuffix(key: string)
    ensures var j := |key| - |Extension(key)|;
      && 0 <= j <= |key|
      && Extension(key) == Lower(key[j..])
      && '.' !in key[j..]
      && (j > 0 ==> key[j - 1] == '.')
    ensures '.' !in key ==> Extension(key) == Lower(key)
    ensures |key| > 0 && key[|key| - 1] == '.' ==> Extension(key) == "" && !IsAllowed(Extension(key))
  {
    LastPieceIsSuffix(key, '.');
  }

  /** Keys that differ only in letter case get the same extension, so
      `report.PDF` is classified like `report.pdf`. */
  lemma ExtensionIgnoresCase(key1: string, key2: string)
    requires Lower(key1) == Lower(key2)
    ensures Extension(key1) == Extension(key2)
  {
    ExtensionOfLowered(key1);
    ExtensionOfLowered(key2);
  }

  lemma ExtensionOfLowered(key: string)
    ensures Extension(Lower(key)) == Extension(key)
  {
    var pieces := Split(key, '.');
    SplitLower(key, '.');
    LastLowerEach(pieces);
    LowerIdempotent(Last(pieces));
  }

  lemma UpperCasePdfIsAccepted()
    ensures Extension("report.PDF") == "pdf" && IsAllowed(Extension("report.PDF"))
  {
    LastPieceOfReportPdf();
    assert Lower("PDF") == "pdf" by {
      LowerAt("PDF");
    }
  }

  lemma LastPieceOfReportPdf()
    ensures Last(Split("report.PDF", '.')) == "PDF"
  {
    SplitPieces("PDF", '.');
    SplitPrefix("report", ".PDF", '.');
    assert "report" + ".PDF" == "report.PDF";
    assert Split(".PDF", '.') == [""] + Split("PDF", '.');
  }

  /** A rejected record gives exactly one publish, naming the key and the
      extension, and no table write. */
  lemma RejectedRecord(table: string, topic: string, r: S3Record, uploadDate: string)
    requires !IsAllowed(Extension(r.key))
    ensures var effects := RecordEffects(table, topic, r, uploadDate);
      && |effects| == 1 && CountPuts(effects) == 0
      && effects[0].Publish? && effects[0].topic == topic && effects[0].subject == ErrorSubject
      && Contains(effects[0].message, r.key) && Contains(effects[0].message, Extension(r.key))
  {
    var ext := Extension(r.key);
    var m1, m2, m3 := "Invalid file uploaded: ", " (Extension: ", ")";
    ContainsSelf(r.key);
    ContainsExtend(r.key, r.key, m1);
    ContainsExtend(m1 + r.key, r.key, m2);
    ContainsExtend(m1 + r.key + m2, r.key, ext);
    ContainsExtend(m1 + r.key + m2 + ext, r.key, m3);
    ContainsSelf(ext);
    ContainsExtend(ext, ext, m1 + r.key + m2);
    ContainsExtend(m1 + r.key + m2 + ext, ext, m3);
    CountsOfSingle(Publish(topic, ErrorSubject, RejectionMessage(r.key, ext)));
  }

  /** The success message names the key, the size, the extension and the date. */
  lemma SuccessMessageNamesFile(key: string, size: nat, ext: string, uploadDate: string)
    ensures var msg := SuccessMessage(key, size, ext, uploadDate);
      && Contains(msg, key) && Contains(msg, NatToString(size))
      && Contains(msg, ext) && Contains(msg, uploadDate)
  {
    var digits := NatToString(size);
    var m1, m2, m3, m4 := "File uploaded successfully: ", "\nSize: ", " bytes\nExtension: ", "\nDate: ";
    var s1 := m1 + key;
    var s2 := s1 + m2 + digits;
    var s3 := s2 + m3 + ext;
    var s4 := s3 + m4 + uploadDate;
    ContainsSelf(key);
    ContainsExtend(key, key, m1);
    ContainsExtend(s1, key, m2);
    ContainsExtend(s1 + m2, key, digits);
    ContainsExtend(s2, key, m3);
    ContainsExtend(s2 + m3, key, ext);
    ContainsExtend(s3, key, m4);
    ContainsExtend(s3 + m4, key, uploadDate);
    ContainsSelf(digits);
    ContainsExtend(digits, digits, s1 + m2);
    ContainsExtend(s2, digits, m3);
    ContainsExtend(s2 + m3, digits, ext);
    ContainsExtend(s3, digits, m4);
    ContainsExtend(s3 + m4, digits, uploadDate);
    ContainsSelf(ext);
    ContainsExtend(ext, ext, s2 + m3);
    ContainsExtend(s3, ext, m4);
    ContainsExtend(s3 + m4, ext, uploadDate);
    ContainsSelf(uploadDate);
    ContainsExtend(uploadDate, uploadDate, s3 + m4);
  }

  /** An accepted record gives one table write carrying the extension, the
      clock reading, the size and the key, followed by one success publish
      naming the key, the size, the extension and the date. */
  lemma AcceptedRecord(table: string, topic: string, r: S3Record, uploadDate: string)
    requires IsAllowed(Extension(r.key))
    ensures var effects := RecordEffects(table, topic, r, uploadDate);
      && |effects| == 2 && CountPuts(effects) == 1 && CountPublishes(effects) == 1
      && effects[0] == Put(table, Item(Extension(r.key), uploadDate, r.size, r.key))
      && effects[1].Publish? && effects[1].topic == topic && effects[1].subject == SuccessSubject
      && Contains(effects[1].message, r.key)
      && Contains(effects[1].message, NatToString(r.size))
      && Contains(effects[1].message, Extension(r.key))
      && Contains(effects[1].message, uploadDate)
  {
    var ext := Extension(r.key);
    SuccessMessageNamesFile(r.key, r.size, ext, uploadDate);
    CountsOfPair(Put(table, Item(ext, uploadDate, r.size, r.key)),
                 Publish(topic, SuccessSubject, SuccessMessage(r.key, r.size, ext, uploadDate)));
  }

  /** Records are handled independently and in order: the calls for a
      concatenated batch are the calls for each part, one after the other. */
  lemma BatchAppend(table: string, topic: string,
                    rs1: seq<S3Record>, c1: seq<string>, rs2: seq<S3Record>, c2: seq<string>)
    requires |c1| == |rs1| && |c2| == |rs2|
    ensures BatchEffects(table, topic, rs1 + rs2, c1 + c2)
         == BatchEffects(table, topic, rs1, c1) + BatchEffects(table, topic, rs2, c2)
  {
    ZipAppend(rs1, c1, rs2, c2);
    LogOfAppend(RecordStep(table, topic), Zip(rs1, c1), Zip(rs2, c2));
  }

  /** Exactly one publish per record, and one table write per accepted record. */
  lemma BatchCounts(table: string, topic: string, records: seq<S3Record>, clock: seq<string>)
    requires |clock| == |records|
    ensures CountPublishes(BatchEffects(table, topic, records, clock)) == |records|
    ensures CountPuts(BatchEffects(table, topic, records, clock)) == AcceptedCount(records)
  {
    var step := RecordStep(table, topic);
    var accepted: ((S3Record, string)) -> bool := (arrival: (S3Record, string)) => IsAccepted(arrival.0);
    forall arrival: (S3Record, string)
      ensures CountPublishes(step(arrival)) == 1
      ensures CountPuts(step(arrival)) == (if accepted(arrival) then 1 else 0)
    {
      if IsAccepted(arrival.0) {
        AcceptedRecord(table, topic, arrival.0, arrival.1);
      } else {
        RejectedRecord(table, topic, arrival.0, arrival.1);
      }
    }
    LogOfCounts(step, accepted, Zip(records, clock));
    CountWhereZip(IsAccepted, accepted, records, clock);
  }

  /** Every table write in `log` is immediately followed by the success
      publish for the same file. */
  ghost predicate WritesAnnounced(topic: string, log: seq<Effect>)
  {
    forall j :: 0 <= j < |log| && log[j].Put? ==>
      && j + 1 < |log|
      && log[j + 1] == Publish(topic, SuccessSubject,
           SuccessMessage(log[j].item.fileName, log[j].item.fileSize, log[j].item.fileExtension, log[j].item.uploadDate))
  }

  lemma WritesAnnouncedAppend(topic: string, a: seq<Effect>, b: seq<Effect>)
    requires WritesAnnounced(topic, a) && WritesAnnounced(topic, b)
    ensures WritesAnnounced(topic, a + b)
  {
    var log := a + b;
    forall j | 0 <= j < |log| && log[j].Put?
      ensures j + 1 < |log| && log[j + 1] == Publish(topic, SuccessSubject,
           SuccessMessage(log[j].item.fileName, log[j].item.fileSize, log[j].item.fileExtension, log[j].item.uploadDate))
    {
      if j < |a| {
        assert log[j] == a[j] && log[j + 1] == a[j + 1];
      } else {
        assert log[j] == b[j - |a|] && log[j + 1] == b[j + 1 - |a|];
      }
    }
  }

  /** For an accepted record the table write comes first, and the success
      publish for that same file right after it, across the whole batch. */
  lemma PutThenPublish(table: string, topic: string, records: seq<S3Record>, clock: seq<string>)
    requires |clock| == |records|
    ensures WritesAnnounced(topic, BatchEffects(table, topic, records, clock))
  {
    var step := RecordStep(table, topic);
    var inv: seq<Effect> -> bool := log => WritesAnnounced(topic, log);
    forall a, b | inv(a) && inv(b)
      ensures inv(a + b)
    {
      WritesAnnouncedAppend(topic, a, b);
    }
    forall arrival: (S3Record, string)
      ensures inv(step(arrival))
    {
      if IsAccepted(arrival.0) {
        AcceptedRecord(table, topic, arrival.0, arrival.1);
      } else {
        RejectedRecord(table, topic, arrival.0, arrival.1);
      }
    }
    LogOfKeeps(step, inv, Zip(records, clock));
  }

  /** The table holds a row for a file exactly when the file was accepted:
      every write comes from an accepted record of the batch, with that
      record's extension, clock reading, size and key, and every accepted
      record is written. */
  lemma WritesAreAcceptedRecords(table: string, topic: string, records: seq<S3Record>, clock: seq<string>)
    requires |clock| == |records|
    ensures var log := BatchEffects(table, topic, records, clock);
      forall e :: e in log && e.Put? ==>
        e.table == table &&
        exists i :: (0 <= i < |records| && IsAccepted(records[i])
          && e.item == Item(Extension(records[i].key), clock[i], records[i].size, records[i].key))
    ensures var log := BatchEffects(table, topic, records, clock);
      forall i :: 0 <= i < |records| && IsAccepted(records[i]) ==>
        Put(table, Item(Extension(records[i].key), clock[i], records[i].size, records[i].key)) in log
  {
    var step := RecordStep(table, topic);
    var arrivals := Zip(records, clock);
    var log := BatchEffects(table, topic, records, clock);
    forall e | e in log && e.Put?
      ensures e.table == table
      ensures exists i :: (0 <= i < |records| && IsAccepted(records[i])
          && e.item == Item(Extension(records[i].key), clock[i], records[i].size, records[i].key))
    {
      LogOfMembers(step, arrivals, e);
      var i :| 0 <= i < |arrivals| && e in step(arrivals[i]);
      if IsAccepted(records[i]) {
        AcceptedRecord(table, topic, records[i], clock[i]);
      } else {
        RejectedRecord(table, topic, records[i], clock[i]);
      }
    }
    forall i | 0 <= i < |records| && IsAccepted(records[i])
      ensures Put(table, Item(Extension(records[i].key), clock[i], records[i].size, records[i].key)) in log
    {
      AcceptedRecord(table, topic, records[i], clock[i]);
      LogOfMembers(step, arrivals, Put(table, Item(Extension(records[i].key), clock[i], records[i].size, records[i].key)));
    }
  }
}
