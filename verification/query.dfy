/** The query handler (`lambda_code/query_function.py`): looks up the stored
    metadata for one file extension and renders one line per file, with the
    size in a readable unit and the upload date in day-first form. */
module QueryFunction {
  import opened Seqs
  import opened Strings
  import opened Effects
  import opened Dates

  const Units: seq<string> := ["Bytes", "KB", "MB", "GB", "TB", "PB"]
  const MissingParameterBody: string := "Missing 'file_extension' query parameter."
  const Header: string := "Query results: "
  const ErrorPrefix: string := "Error querying DynamoDB: "

  // ---------------------------------------------------------------------------
  // convert_bytes_to_units

  function Pow1024(k: nat): (p: nat)
    ensures p >= 1
  {
    if k == 0 then 1 else 1024 * Pow1024(k - 1)
  }

  /** The unit a byte count is shown in: the largest unit, up to petabytes,
      that the count reaches. */
  function UnitFor(b: nat): (k: nat)
    ensures k < |Units|
    ensures k == 0 || Pow1024(k) <= b
    ensures k == |Units| - 1 || b < Pow1024(k + 1)
  {
    if b < Pow1024(1) then 0
    else if b < Pow1024(2) then 1
    else if b < Pow1024(3) then 2
    else if b < Pow1024(4) then 3
    else if b < Pow1024(5) then 4
    else 5
  }

  /** The byte count expressed in its unit. */
  function Scaled(b: nat): real
  {
    b as real / Pow1024(UnitFor(b)) as real
  }

  /** The integer nearest to `y`; at an exact half, the even one. */
  function RoundHalfEven(y: real): (n: nat)
    requires y >= 0.0
    ensures -0.5 <= n as real - y <= 0.5
    ensures (n as real - y == 0.5 || y - n as real == 0.5) ==> n % 2 == 0
  {
    var f := y.Floor;
    var frac := y - f as real;
    if frac < 0.5 then f
    else if frac > 0.5 then f + 1
    else if f % 2 == 0 then f
    else f + 1
  }

  /** `f"{x:.2f}"` for an exactly known non-negative `x`: the hundredths
      nearest to `x`, ties to even, with two decimals. */
  function FormatFixed2(x: real): string
    requires x >= 0.0
  {
    var hundredths := RoundHalfEven(x * 100.0);
    NatToString(hundredths / 100) + "." + PadDigits(hundredths % 100, 2)
  }

  /** What `convert_bytes_to_units` returns for a byte count. */
  function SizeText(b: nat): string
  {
    FormatFixed2(Scaled(b)) + " " + Units[UnitFor(b)]
  }

  /** Dividing a count already divided by `1024^k` once more by 1024 divides it by `1024^(k+1)`. */
  lemma DivideOnce(b: nat, k: nat)
    ensures b as real / Pow1024(k) as real / 1024.0 == b as real / Pow1024(k + 1) as real
  {
    var p := Pow1024(k) as real;
    assert Pow1024(k + 1) as real == p * 1024.0;
  }

  /** Comparing a scaled count with 1024 is comparing the count with the next power. */
  lemma ScaledAtLeast1024(b: nat, k: nat)
    ensures b as real / Pow1024(k) as real >= 1024.0 <==> Pow1024(k + 1) <= b
  {
    var p := Pow1024(k) as real;
    QuotientAtLeast(b as real, p, 1024.0);
    assert Pow1024(k + 1) as real == 1024.0 * p;
  }

  lemma QuotientAtLeast(x: real, p: real, c: real)
    requires p > 0.0
    ensures x / p >= c <==> x >= c * p
  {
    var q := x / p;
    assert x == q * p;
    if q >= c {
      assert (q - c) * p >= 0.0;
    } else {
      assert (c - q) * p > 0.0;
    }
  }

  /** The loop of `convert_bytes_to_units`: divide by 1024 while the value is
      at least 1024 and a larger unit is left. */
  method ConvertBytesToUnits(byteValue: nat) returns (text: string)
    ensures text == SizeText(byteValue)
  {
    var size := byteValue as real;
    var unitIndex := 0;
    while size >= 1024.0 && unitIndex < |Units| - 1
      invariant 0 <= unitIndex < |Units|
      invariant size == byteValue as real / Pow1024(unitIndex) as real
      invariant unitIndex == 0 || Pow1024(unitIndex) <= byteValue
      decreases |Units| - unitIndex
    {
      ScaledAtLeast1024(byteValue, unitIndex);
      DivideOnce(byteValue, unitIndex);
      size := size / 1024.0;
      unitIndex := unitIndex + 1;
    }
    ScaledAtLeast1024(byteValue, unitIndex);
    UnitIsUnique(byteValue, unitIndex);
    text := FormatFixed2(size) + " " + Units[unitIndex];
  }

  /** Only one unit brackets a count, so the unit is determined by the count. */
  lemma UnitIsUnique(b: nat, k: nat)
    requires k < |Units|
    requires k == 0 || Pow1024(k) <= b
    requires k == |Units| - 1 || b < Pow1024(k + 1)
    ensures k == UnitFor(b)
  {
    var u := UnitFor(b);
    if k < u {
      Pow1024Monotone(k + 1, u);
    } else if u < k {
      Pow1024Monotone(u + 1, k);
    }
  }

  lemma {:induction false} Pow1024Monotone(i: nat, j: nat)
    requires i <= j
    ensures Pow1024(i) <= Pow1024(j)
    decreases j - i
  {
    if i < j {
      Pow1024Monotone(i + 1, j);
    }
  }

  /** The number shown is below 1024 unless the unit is petabytes, and at
      least 1 unless the unit is bytes. */
  lemma ScaledRange(b: nat)
    ensures Scaled(b) >= 0.0
    ensures UnitFor(b) == 0 || Scaled(b) >= 1.0
    ensures UnitFor(b) == |Units| - 1 || Scaled(b) < 1024.0
  {
    var k := UnitFor(b);
    var p := Pow1024(k) as real;
    QuotientAtLeast(b as real, p, 0.0);
    if k > 0 {
      QuotientAtLeast(b as real, p, 1.0);
    }
    if k < |Units| - 1 {
      ScaledAtLeast1024(b, k);
    }
  }

  /** No integer is nearer to `y` than the rounded value, and at an exact half
      the rounded value is the even neighbour. */
  lemma RoundHalfEvenNearest(y: real, m: int)
    requires y >= 0.0
    ensures var n := RoundHalfEven(y);
      && (-0.5 < m as real - y < 0.5 ==> m == n)
      && ((m as real - y == 0.5 || y - m as real == 0.5) && m % 2 == 0 ==> m == n)
  {
    var n := RoundHalfEven(y);
    var gap := (m - n) as real;
    assert gap == (m as real - y) - (n as real - y);
    if -0.5 < m as real - y < 0.5 {
      assert -1.0 < gap < 1.0;
    }
    if (m as real - y == 0.5 || y - m as real == 0.5) && m % 2 == 0 {
      assert -1.0 <= gap <= 1.0;
      assert n as real - y == 0.5 || y - n as real == 0.5;
      assert n % 2 == 0;
    }
  }

  /** The rendering is digits, a point and two digits, and it denotes the
      number of hundredths nearest to `x`. */
  lemma FormatFixed2Denotes(x: real)
    requires x >= 0.0
    ensures var t := FormatFixed2(x);
      && |t| >= 4 && t[|t| - 3] == '.'
      && AllDigits(t[..|t| - 3]) && AllDigits(t[|t| - 2..])
      && (|t| == 4 || t[0] != '0')
      && var shown := 100 * DigitsValue(t[..|t| - 3]) + DigitsValue(t[|t| - 2..]);
         && -0.5 <= shown as real - 100.0 * x <= 0.5
         && ((shown as real - 100.0 * x == 0.5 || 100.0 * x - shown as real == 0.5) ==> shown % 2 == 0)
  {
    var h := RoundHalfEven(x * 100.0);
    var whole := NatToString(h / 100);
    var cents := PadDigits(h % 100, 2);
    var t := FormatFixed2(x);
    assert t == whole + "." + cents;
    assert t[..|t| - 3] == whole && t[|t| - 2..] == cents;
    NatToStringRoundTrip(h / 100);
    PadDigitsValue(h % 100, 2);
    assert 100 * (h / 100) + h % 100 == h;
  }

  /** 1152 bytes are exactly 1.125 KB, a tie, shown rounded to the even 1.12. */
  lemma TieRoundsToEven()
    ensures SizeText(1152) == "1.12 KB"
  {
    assert UnitFor(1152) == 1;
    assert Scaled(1152) == 1.125;
    assert FormatFixed2(1.125) == "1.12" by {
      assert RoundHalfEven(112.5) == 112;
      assert NatToString(1) == "1" && PadDigits(12, 2) == "12";
    }
  }

  /** One byte short of a megabyte stays in kilobytes and is shown as 1024.00 KB. */
  lemma JustBelowMegabyte()
    ensures SizeText(1048575) == "1024.00 KB"
  {
    assert UnitFor(1048575) == 1;
    assert Scaled(1048575) == 1023.9990234375;
    RoundsUpToNextWhole();
  }

  /** 1023.9990234375 is shown as 1024.00: rounding carries into the whole part. */
  lemma RoundsUpToNextWhole()
    ensures FormatFixed2(1023.9990234375) == "1024.00"
  {
    HundredthsCarry();
    assert 102400 / 100 == 1024 && 102400 % 100 == 0;
    WholePartText();
    assert PadDigits(0, 2) == "00";
  }

  lemma WholePartText()
    ensures NatToString(1024) == "1024"
  {
    assert NatToString(102) == "102";
  }

  /** 1023.9990234375 is 102399.90234375 hundredths, which round up to 102400. */
  lemma HundredthsCarry()
    ensures RoundHalfEven(1023.9990234375 * 100.0) == 102400
  {
    var y := 1023.9990234375 * 100.0;
    assert y == 102399.90234375;
    assert y.Floor == 102399;
  }

  // ---------------------------------------------------------------------------
  // lambda_handler

  /** What the table query gives back: the matching items, or the message of
      the exception the call raised. */
  datatype QueryOutcome = Items(items: seq<Item>) | QueryFailed(message: string)

  /** The line for one item, or the error raised while reading its date. */
  function ItemLine(item: Item): Result<string>
  {
    match FromIsoFormat(item.uploadDate)
    case Failure(e) => Failure(e)
    case Success(d) =>
      Success("- " + item.fileName + " with size " + SizeText(item.fileSize)
              + " and uploaded on " + DisplayDate(d))
  }

  /** The lines for the items, in order, or the error of the first item whose
      date does not parse. */
  function ResultLines(items: seq<Item>): Result<seq<string>>
  {
    Collect(ItemLine, items)
  }

  /** The response for a query outcome. */
  function Respond(outcome: QueryOutcome): Response
  {
    match outcome
    case QueryFailed(message) => Response(500, ErrorPrefix + message)
    case Items(items) =>
      match ResultLines(items)
      case Failure(e) => Response(500, ErrorPrefix + e)
      case Success(lines) => Response(200, Join([Header] + lines, "\n"))
  }

  /** The extension asked for, when the request names a non-empty one; an
      absent parameter map counts as an empty one. */
  function RequestedExtension(params: Option<map<string, string>>): Option<string>
  {
    var queryParams := if params.Some? then params.value else map[];
    if "file_extension" in queryParams && queryParams["file_extension"] != "" then
      Some(queryParams["file_extension"])
    else None
  }

  /** The handler. `params` is the event's `queryStringParameters` (None when
      the event has no such key); `store` answers a query on the partition key. */
  method LambdaHandler(params: Option<map<string, string>>, table: string, store: string -> QueryOutcome)
    returns (response: Response, log: seq<Effect>)
    ensures RequestedExtension(params).None? ==>
      response == Response(400, MissingParameterBody) && log == []
    ensures RequestedExtension(params).Some? ==>
      var ext := RequestedExtension(params).value;
      log == [Query(table, ext)] && response == Respond(store(ext))
  {
    var queryParams := if params.Some? then params.value else map[];
    var fileExtension: Option<string> :=
      if "file_extension" in queryParams then Some(queryParams["file_extension"]) else None;
    if fileExtension.None? || fileExtension.value == "" {
      response := Response(400, MissingParameterBody);
      log := [];
      return;
    }
    var ext := fileExtension.value;
    log := [Query(table, ext)];
    var outcome := store(ext);
    if outcome.QueryFailed? {
      response := Response(500, ErrorPrefix + outcome.message);
      return;
    }
    response := RenderItems(outcome.items);
  }

  /** The part of the handler after a successful query: one line per item,
      each with the size and the date converted, joined under the header; the
      first date that does not parse ends it with a 500. */
  method RenderItems(items: seq<Item>) returns (response: Response)
    ensures response == Respond(Items(items))
  {
    var output := [Header];
    ghost var lines: seq<string> := [];
    assert items[..0] == [];
    for i := 0 to |items|
      invariant output == [Header] + lines
      invariant ResultLines(items[..i]) == Success(lines)
    {
      var size := ConvertBytesToUnits(items[i].fileSize);
      var parsed := FromIsoFormat(items[i].uploadDate);
      if parsed.Failure? {
        assert ItemLine(items[i]) == Failure(parsed.error);
        CollectFailsAt(ItemLine, items, i, parsed.error);
        response := Response(500, ErrorPrefix + parsed.error);
        return;
      }
      var uploadDate := DisplayDate(parsed.value);
      var line := "- " + items[i].fileName + " with size " + size + " and uploaded on " + uploadDate;
      assert ItemLine(items[i]) == Success(line);
      CollectPrefixStep(ItemLine, items, i, lines, line);
      output := output + [line];
      lines := lines + [line];
    }
    assert items[..|items|] == items;
    response := Response(200, Join(output, "\n"));
  }

  /** The line for an item whose stored date parses names the file, its size
      text, and the stored text's day, month, year, hour and minute
      (`00:00` for a date alone). */
  lemma ParsedItemLine(item: Item)
    requires FromIsoFormat(item.uploadDate).Success?
    ensures var s := item.uploadDate;
      ItemLine(item) == Success("- " + item.fileName + " with size " + SizeText(item.fileSize)
        + " and uploaded on " + s[8..10] + "." + s[5..7] + "." + s[0..4] + " at "
        + (if |s| == 10 then "00:00" else s[11..13] + ":" + s[14..16]))
  {
    var s := item.uploadDate;
    DisplayRearrangesText(s);
    var prefix := "- " + item.fileName + " with size " + SizeText(item.fileSize) + " and uploaded on ";
    var shown := s[8..10] + "." + s[5..7] + "." + s[0..4] + " at "
      + (if |s| == 10 then "00:00" else s[11..13] + ":" + s[14..16]);
    assert ItemLine(item) == Success(prefix + shown);
    assert prefix + shown == "- " + item.fileName + " with size " + SizeText(item.fileSize)
        + " and uploaded on " + s[8..10] + "." + s[5..7] + "." + s[0..4] + " at "
        + (if |s| == 10 then "00:00" else s[11..13] + ":" + s[14..16]);
  }

  /** The query answers 200 exactly when every item's date parses, and then
      each line describes the item at the same position. */
  lemma LinesSucceedIff(items: seq<Item>)
    ensures ResultLines(items).Success? <==>
      forall i :: 0 <= i < |items| ==> FromIsoFormat(items[i].uploadDate).Success?
    ensures ResultLines(items).Success? ==>
      && |ResultLines(items).value| == |items|
      && forall i :: 0 <= i < |items| ==> ResultLines(items).value[i] == ItemLine(items[i]).value
  {
    CollectSucceedsIff(ItemLine, items);
    assert forall item :: ItemLine(item).Success? <==> FromIsoFormat(item.uploadDate).Success?;
  }

  /** Items the intake handler stored, with the date it wrote by `isoformat`,
      are listed with their name, their size and that date in day-first form. */
  lemma StoredItemsAreListed(items: seq<Item>, stamps: seq<DateTime>)
    requires |stamps| == |items|
    requires forall i :: 0 <= i < |items| ==> Valid(stamps[i]) && items[i].uploadDate == IsoFormat(stamps[i])
    ensures ResultLines(items).Success?
    ensures forall i :: 0 <= i < |items| ==>
      ResultLines(items).value[i]
        == "- " + items[i].fileName + " with size " + SizeText(items[i].fileSize)
           + " and uploaded on " + DisplayDate(stamps[i])
  {
    forall i | 0 <= i < |items|
      ensures FromIsoFormat(items[i].uploadDate) == Success(stamps[i])
    {
      IsoFormatRoundTrip(stamps[i]);
    }
    LinesSucceedIff(items);
  }

  /** A successful body is the header line followed by one line per item:
      splitting it at newlines gives them back, provided no file name holds a
      newline. */
  lemma BodyLines(items: seq<Item>)
    requires ResultLines(items).Success?
    requires forall i :: 0 <= i < |items| ==> '\n' !in items[i].fileName
    ensures Respond(Items(items)).statusCode == 200
    ensures Split(Respond(Items(items)).body, '\n') == [Header] + ResultLines(items).value
  {
    var lines := ResultLines(items).value;
    var parts := [Header] + lines;
    LinesSucceedIff(items);
    forall i | 0 <= i < |parts|
      ensures '\n' !in parts[i]
    {
      if i > 0 {
        var item := items[i - 1];
        var d := FromIsoFormat(item.uploadDate).value;
        LineHasNoNewline(item, d);
      }
    }
    SplitJoin(parts, '\n');
  }

  lemma LineHasNoNewline(item: Item, d: DateTime)
    requires Valid(d) && '\n' !in item.fileName
    ensures '\n' !in "- " + item.fileName + " with size " + SizeText(item.fileSize)
                     + " and uploaded on " + DisplayDate(d)
  {
    SizeTextHasNoNewline(item.fileSize);
    DisplayDateHasNoNewline(d);
  }

  lemma SizeTextHasNoNewline(b: nat)
    ensures '\n' !in SizeText(b)
  {
    FixedHasNoNewline(Scaled(b));
    assert forall k :: 0 <= k < |Units| ==> '\n' !in Units[k];
  }

  lemma FixedHasNoNewline(x: real)
    requires x >= 0.0
    ensures '\n' !in FormatFixed2(x)
  {
    var h := RoundHalfEven(x * 100.0);
    DigitsHaveNoNewline(NatToString(h / 100));
    DigitsHaveNoNewline(PadDigits(h % 100, 2));
  }

  lemma DisplayDateHasNoNewline(d: DateTime)
    requires Valid(d)
    ensures '\n' !in DisplayDate(d)
  {
    DigitsHaveNoNewline(PadDigits(d.day, 2));
    DigitsHaveNoNewline(PadDigits(d.month, 2));
    DigitsHaveNoNewline(PadDigits(d.year, 4));
    DigitsHaveNoNewline(PadDigits(d.hour, 2));
    DigitsHaveNoNewline(PadDigits(d.minute, 2));
  }

  lemma DigitsHaveNoNewline(s: string)
    requires AllDigits(s)
    ensures '\n' !in s
  {
  }

  /** With no items the body is the header alone. */
  lemma NoItemsGiveHeaderOnly()
    ensures Respond(Items([])) == Response(200, "Query results: ")
  {
    assert [Header] + [] == [Header];
  }
}
