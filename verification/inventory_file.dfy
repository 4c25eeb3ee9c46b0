/**
 The inventory file as a whole: `read_shoes_data` (skip the header line, parse every later line,
 drop and report the bad ones) and `write_shoes_data` (re-emit the header, then one row per
 record). The file is its decoded text; `None` stands for a file that does not exist.
 */
module InventoryFile {
  import opened Wrappers
  import opened Text
  import opened Shoes
  import opened RowCodec
  import opened Lines

  /** A data line that was dropped, with its 1-based line number in the file. */
  datatype SkippedRow = SkippedRow(line: nat, reason: RowError)

  /** What loading produced: the records, the skipped lines in file order, and whether the file was missing. */
  datatype LoadReport = LoadReport(shoes: seq<Shoe>, skipped: seq<SkippedRow>, fileMissing: bool)

  /** What saving did: nothing (empty inventory), nothing (file missing), or the new file text. */
  datatype SaveOutcome = InventoryEmpty | FileMissing | Written(text: string)

  /** The per-line parse results of a run of lines, in order. */
  function ParseEach(lines: seq<string>): (results: seq<Result<Shoe, RowError>>)
    ensures |results| == |lines|
  {
    if |lines| == 0 then [] else [ParseRow(lines[0])] + ParseEach(lines[1..])
  }

  /** The k-th result is the parse of the k-th line. */
  lemma {:induction false} ParseEachAt(lines: seq<string>, k: nat)
    requires k < |lines|
    ensures ParseEach(lines)[k] == ParseRow(lines[k])
  {
    if k > 0 {
      ParseEachAt(lines[1..], k - 1);
    }
  }

  lemma {:induction false} ParseEachAppend(a: seq<string>, b: seq<string>)
    ensures ParseEach(a + b) == ParseEach(a) + ParseEach(b)
  {
    if |a| == 0 {
      assert a + b == b;
    } else {
      assert (a + b)[1..] == a[1..] + b;
      ParseEachAppend(a[1..], b);
    }
  }

  /**
   Sorting per-line results whose first line is line number `first` of the file: every result
   yields exactly one of a record or a skipped-row report.
   */
  function Collect(results: seq<Result<Shoe, RowError>>, first: nat): (r: LoadReport)
    ensures |r.shoes| + |r.skipped| == |results|
    ensures !r.fileMissing
    decreases |results|
  {
    if |results| == 0 then LoadReport([], [], false)
    else
      var rest := Collect(results[1..], first + 1);
      match results[0]
      case Ok(s) => LoadReport([s] + rest.shoes, rest.skipped, false)
      case Err(e) => LoadReport(rest.shoes, [SkippedRow(first, e)] + rest.skipped, false)
  }

  /** Every skipped-row report names a line of the run, by its own number, whose parse failed for that reason. */
  lemma {:induction false} CollectReportsOnlyBadLines(results: seq<Result<Shoe, RowError>>, first: nat)
    ensures forall m :: m in Collect(results, first).skipped ==>
      first <= m.line < first + |results| && results[m.line - first] == Err(m.reason)
  {
    if |results| > 0 {
      CollectReportsOnlyBadLines(results[1..], first + 1);
    }
  }

  /** Every failed line is reported, with its own line number and reason. */
  lemma {:induction false} CollectReportsEveryBadLine(results: seq<Result<Shoe, RowError>>, first: nat)
    ensures forall k :: 0 <= k < |results| && results[k].Err? ==>
      SkippedRow(first + k, results[k].error) in Collect(results, first).skipped
  {
    if |results| > 0 {
      CollectReportsEveryBadLine(results[1..], first + 1);
      assert forall k :: 1 <= k < |results| ==> results[k] == results[1..][k - 1];
    }
  }

  /** Reports whose line numbers strictly increase. */
  predicate InLineOrder(skipped: seq<SkippedRow>) {
    forall i, j :: 0 <= i < j < |skipped| ==> skipped[i].line < skipped[j].line
  }

  /** The skipped-row reports come in file order. */
  lemma {:induction false} CollectReportsInOrder(results: seq<Result<Shoe, RowError>>, first: nat)
    ensures InLineOrder(Collect(results, first).skipped)
  {
    if |results| > 0 {
      CollectReportsInOrder(results[1..], first + 1);
      CollectReportsOnlyBadLines(results[1..], first + 1);
      var rest := Collect(results[1..], first + 1).skipped;
      match results[0]
      case Ok(s) =>
        assert Collect(results, first).skipped == rest;
      case Err(e) =>
        var skipped := [SkippedRow(first, e)] + rest;
        assert Collect(results, first).skipped == skipped;
        forall i, j | 0 <= i < j < |skipped| ensures skipped[i].line < skipped[j].line {
          assert skipped[j] == rest[j - 1];
          assert rest[j - 1] in rest;
          if i > 0 {
            assert skipped[i] == rest[i - 1];
          }
        }
    }
  }

  /** The records of the successful results, in order; failures contribute nothing. */
  function Accepted(results: seq<Result<Shoe, RowError>>): seq<Shoe> {
    if |results| == 0 then []
    else if results[0].Ok? then [results[0].value] + Accepted(results[1..])
    else Accepted(results[1..])
  }

  /** A record is accepted exactly when some result is that record. */
  lemma {:induction false} AcceptedMembership(results: seq<Result<Shoe, RowError>>, s: Shoe)
    ensures s in Accepted(results) <==> Ok(s) in results
  {
    if |results| > 0 {
      AcceptedMembership(results[1..], s);
      assert results == [results[0]] + results[1..];
    }
  }

  /** The records collected are exactly the accepted ones, in the order of their lines. */
  lemma {:induction false} CollectShoesAccepted(results: seq<Result<Shoe, RowError>>, first: nat)
    ensures Collect(results, first).shoes == Accepted(results)
  {
    if |results| > 0 {
      CollectShoesAccepted(results[1..], first + 1);
    }
  }

  /** When nothing is skipped, the k-th record is the k-th line's. */
  lemma {:induction false} CollectWithoutSkips(results: seq<Result<Shoe, RowError>>, first: nat)
    requires Collect(results, first).skipped == []
    ensures forall k :: 0 <= k < |results| ==> results[k] == Ok(Collect(results, first).shoes[k])
  {
    if |results| > 0 {
      CollectWithoutSkips(results[1..], first + 1);
      assert forall k :: 1 <= k < |results| ==> results[k] == results[1..][k - 1];
    }
  }

  /** Results are sorted independently: collecting two runs is collecting each run on its own. */
  lemma {:induction false} CollectAppend(a: seq<Result<Shoe, RowError>>, b: seq<Result<Shoe, RowError>>, first: nat)
    ensures var ra := Collect(a, first);
            var rb := Collect(b, first + |a|);
            Collect(a + b, first) == LoadReport(ra.shoes + rb.shoes, ra.skipped + rb.skipped, false)
  {
    if |a| == 0 {
      assert a + b == b;
    } else {
      assert (a + b)[1..] == a[1..] + b;
      CollectAppend(a[1..], b, first + 1);
      var tail := Collect(a[1..] + b, first + 1);
      assert Collect(a + b, first) == match a[0]
        case Ok(s) => LoadReport([s] + tail.shoes, tail.skipped, false)
        case Err(e) => LoadReport(tail.shoes, [SkippedRow(first, e)] + tail.skipped, false);
    }
  }

  /**
   The data lines `lines`, the first of which is line number `first` of the file, parsed one by
   one: each line is either a record or a skipped-row report.
   */
  function ParseRows(lines: seq<string>, first: nat): LoadReport {
    Collect(ParseEach(lines), first)
  }

  /** Lines are parsed independently: a bad line never stops the lines after it. */
  lemma ParseRowsAppend(a: seq<string>, b: seq<string>, first: nat)
    ensures var ra := ParseRows(a, first);
            var rb := ParseRows(b, first + |a|);
            ParseRows(a + b, first) == LoadReport(ra.shoes + rb.shoes, ra.skipped + rb.skipped, false)
  {
    ParseEachAppend(a, b);
    CollectAppend(ParseEach(a), ParseEach(b), first);
  }

  /**
   `read_shoes_data`: a missing file leaves the records as they were and is reported; otherwise
   line 0 is skipped as the header and every later line is parsed, its record appended after the
   existing ones or the line reported; each later line gives exactly one of the two.
   */
  function Load(initial: seq<Shoe>, file: Option<string>): (r: LoadReport)
    ensures r.fileMissing <==> file.None?
    ensures |initial| <= |r.shoes| && r.shoes[..|initial|] == initial
    ensures file.None? ==> r.shoes == initial && r.skipped == []
    ensures file.Some? && |SplitLines(file.value)| > 0 ==>
      |r.shoes| - |initial| + |r.skipped| == |SplitLines(file.value)| - 1
    ensures file.Some? && |SplitLines(file.value)| <= 1 ==> r.shoes == initial && r.skipped == []
  {
    match file
    case None => LoadReport(initial, [], true)
    case Some(text) =>
      var lines := SplitLines(text);
      if |lines| == 0 then LoadReport(initial, [], false)
      else
        var rows := ParseRows(lines[1..], 2);
        assert (initial + rows.shoes)[..|initial|] == initial;
        LoadReport(initial + rows.shoes, rows.skipped, false)
  }

  /** The records and reports of a load are those of its data lines, numbered from line 2. */
  lemma LoadParsesDataLines(initial: seq<Shoe>, text: string)
    requires |SplitLines(text)| > 0
    ensures var rows := ParseRows(SplitLines(text)[1..], 2);
      Load(initial, Some(text)) == LoadReport(initial + rows.shoes, rows.skipped, false)
  {
  }

  /** The reports of a load are those collected from its data lines, numbered from line 2. */
  lemma LoadSkipped(initial: seq<Shoe>, text: string)
    requires |SplitLines(text)| > 0
    ensures Load(initial, Some(text)).skipped == Collect(ParseEach(SplitLines(text)[1..]), 2).skipped
  {
    LoadParsesDataLines(initial, text);
  }

  /** Dropping the first line drops its result. */
  lemma ParseEachTail(lines: seq<string>)
    requires |lines| > 0
    ensures ParseEach(lines[1..]) == ParseEach(lines)[1..]
  {
  }

  /**
   Results after the first, numbered from line 2: every report names, as index + 1, a result at
   index 1 or later that failed for that reason.
   */
  lemma {:induction false} LaterResultsReportOnlyFailures(all: seq<Result<Shoe, RowError>>)
    requires |all| > 0
    ensures forall m :: m in Collect(all[1..], 2).skipped ==>
      1 <= m.line - 1 < |all| && all[m.line - 1] == Err(m.reason)
  {
    CollectReportsOnlyBadLines(all[1..], 2);
    assert forall j :: 0 <= j < |all| - 1 ==> all[1..][j] == all[j + 1];
  }

  /** Results after the first, numbered from line 2: every failure at index i is reported as line i + 1. */
  lemma {:induction false} LaterResultsReportEveryFailure(all: seq<Result<Shoe, RowError>>)
    requires |all| > 0
    ensures forall i :: 1 <= i < |all| && all[i].Err? ==>
      SkippedRow(i + 1, all[i].error) in Collect(all[1..], 2).skipped
  {
    CollectReportsEveryBadLine(all[1..], 2);
    assert forall i :: 1 <= i < |all| ==> all[1..][i - 1] == all[i];
  }

  /** Every report collected from the data lines names, as index + 1, a data line whose parse failed. */
  lemma DataLinesReportOnlyBadLines(lines: seq<string>)
    requires |lines| > 0
    ensures forall m :: m in Collect(ParseEach(lines[1..]), 2).skipped ==>
      1 <= m.line - 1 < |lines| && ParseRow(lines[m.line - 1]) == Err(m.reason)
  {
    ParseEachTail(lines);
    LaterResultsReportOnlyFailures(ParseEach(lines));
    forall m | m in Collect(ParseEach(lines[1..]), 2).skipped
      ensures 1 <= m.line - 1 < |lines| && ParseRow(lines[m.line - 1]) == Err(m.reason)
    {
      ParseEachAt(lines, m.line - 1);
    }
  }

  /** Every data line whose parse fails is among the reports collected, as index + 1. */
  lemma DataLinesReportEveryBadLine(lines: seq<string>)
    requires |lines| > 0
    ensures forall i :: 1 <= i < |lines| && ParseRow(lines[i]).Err? ==>
      SkippedRow(i + 1, ParseRow(lines[i]).error) in Collect(ParseEach(lines[1..]), 2).skipped
  {
    ParseEachTail(lines);
    LaterResultsReportEveryFailure(ParseEach(lines));
    forall i | 1 <= i < |lines| && ParseRow(lines[i]).Err?
      ensures SkippedRow(i + 1, ParseRow(lines[i]).error) in Collect(ParseEach(lines[1..]), 2).skipped
    {
      ParseEachAt(lines, i);
    }
  }

  /**
   Line numbers are reported as index + 1: every skipped-row report names a data line (index 1
   or later) whose parse failed for the reported reason.
   */
  lemma LoadReportsOnlyBadLines(initial: seq<Shoe>, text: string)
    ensures var lines := SplitLines(text);
      forall m :: m in Load(initial, Some(text)).skipped ==>
        1 <= m.line - 1 < |lines| && ParseRow(lines[m.line - 1]) == Err(m.reason)
  {
    if |SplitLines(text)| > 0 {
      LoadSkipped(initial, text);
      DataLinesReportOnlyBadLines(SplitLines(text));
    }
  }

  /** Every data line whose parse fails is reported, as line index + 1, with the reason. */
  lemma LoadReportsEveryBadLine(initial: seq<Shoe>, text: string)
    ensures var lines := SplitLines(text);
      forall i :: 1 <= i < |lines| && ParseRow(lines[i]).Err? ==>
        SkippedRow(i + 1, ParseRow(lines[i]).error) in Load(initial, Some(text)).skipped
  {
    if |SplitLines(text)| > 0 {
      LoadSkipped(initial, text);
      DataLinesReportEveryBadLine(SplitLines(text));
    }
  }

  /**
   The loaded records are the existing ones followed by exactly the records of the accepted data
   lines, in file order.
   */
  lemma LoadShoesAccepted(initial: seq<Shoe>, text: string)
    requires |SplitLines(text)| > 0
    ensures Load(initial, Some(text)).shoes == initial + Accepted(ParseEach(SplitLines(text)[1..]))
  {
    LoadParsesDataLines(initial, text);
    CollectShoesAccepted(ParseEach(SplitLines(text)[1..]), 2);
  }

  /** The reports come in file order. */
  lemma LoadReportsInOrder(initial: seq<Shoe>, text: string)
    ensures InLineOrder(Load(initial, Some(text)).skipped)
  {
    var lines := SplitLines(text);
    if |lines| > 0 {
      CollectReportsInOrder(ParseEach(lines[1..]), 2);
    }
  }

  /** The header line is never parsed: any first line gives the same load. */
  lemma LoadIgnoresHeader(initial: seq<Shoe>, header1: string, header2: string, body: string)
    requires IsTerminatedLine(header1) && IsTerminatedLine(header2)
    ensures Load(initial, Some(header1 + body)) == Load(initial, Some(header2 + body))
  {
    SplitLinesCons(header1, body);
    SplitLinesCons(header2, body);
    assert ([header1] + SplitLines(body))[1..] == SplitLines(body);
    assert ([header2] + SplitLines(body))[1..] == SplitLines(body);
  }

  /** The rows written for the records. */
  function RowLines(inventory: seq<Shoe>): (lines: seq<string>)
    ensures |lines| == |inventory|
  {
    if |inventory| == 0 then [] else [FormatRow(inventory[0])] + RowLines(inventory[1..])
  }

  /** One row per record, in list order: the k-th row is the k-th record's. */
  lemma {:induction false} RowLinesAt(inventory: seq<Shoe>, k: nat)
    requires k < |inventory|
    ensures RowLines(inventory)[k] == FormatRow(inventory[k])
  {
    if k > 0 {
      RowLinesAt(inventory[1..], k - 1);
    }
  }

  predicate AllStorable(inventory: seq<Shoe>) {
    forall k :: 0 <= k < |inventory| ==> Storable(inventory[k])
  }

  /** The rows of storable records are read back from the file as those rows. */
  lemma SplitRowLines(inventory: seq<Shoe>)
    requires AllStorable(inventory)
    ensures SplitLines(Concat(RowLines(inventory))) == RowLines(inventory)
  {
    var rows := RowLines(inventory);
    forall k | 0 <= k < |rows| ensures IsTerminatedLine(rows[k]) {
      RowLinesAt(inventory, k);
      assert Storable(inventory[k]);
    }
    SplitLinesConcat(rows);
  }

  /** Every row of storable records parses back as its record. */
  lemma ParseEachRowLines(inventory: seq<Shoe>)
    requires AllStorable(inventory)
    ensures forall k :: 0 <= k < |inventory| ==> ParseEach(RowLines(inventory))[k] == Ok(inventory[k])
  {
    forall k | 0 <= k < |inventory| ensures ParseEach(RowLines(inventory))[k] == Ok(inventory[k]) {
      ParseEachAt(RowLines(inventory), k);
      RowLinesAt(inventory, k);
      RowRoundTrip(inventory[k]);
    }
  }

  /** Results that are all records collect into those records, with nothing skipped. */
  lemma {:induction false} CollectAllRecords(results: seq<Result<Shoe, RowError>>, inventory: seq<Shoe>, first: nat)
    requires |results| == |inventory|
    requires forall k :: 0 <= k < |results| ==> results[k] == Ok(inventory[k])
    ensures Collect(results, first) == LoadReport(inventory, [], false)
  {
    if |results| > 0 {
      CollectAllRecords(results[1..], inventory[1..], first + 1);
      assert inventory == [inventory[0]] + inventory[1..];
    }
  }

  /** Parsing the rows of storable records gives the records back and skips nothing. */
  lemma ParseRowLines(inventory: seq<Shoe>, first: nat)
    requires AllStorable(inventory)
    ensures ParseRows(RowLines(inventory), first) == LoadReport(inventory, [], false)
  {
    ParseEachRowLines(inventory);
    CollectAllRecords(ParseEach(RowLines(inventory)), inventory, first);
  }

  /**
   `write_shoes_data` as written: with no records nothing is written; otherwise the first line
   of the existing file is re-read (a missing file is reported and nothing is written) and the
   file becomes that line, verbatim, followed by one row per record.
   */
  function WriteShoesData(inventory: seq<Shoe>, file: Option<string>): (out: SaveOutcome)
    ensures out == InventoryEmpty <==> |inventory| == 0
    ensures out == FileMissing <==> |inventory| > 0 && file.None?
    ensures out.Written? ==> FirstLine(file.value) <= out.text
  {
    if |inventory| == 0 then InventoryEmpty
    else
      match file
      case None => FileMissing
      case Some(text) => Written(FirstLine(text) + Concat(RowLines(inventory)))
  }

  /** The header line a save puts back: the file's first line, given a newline if it lacks one. */
  function HeaderLine(text: string): (line: string)
    ensures IsTerminatedLine(line)
    ensures '\n' in text ==> line == FirstLine(text)
  {
    var first := FirstLine(text);
    if |first| > 0 && first[|first| - 1] == '\n' then first
    else
      TerminatedBody(first);
      first + "\n"
  }

  /** The save with the header kept on a line of its own; it is `WriteShoesData` whenever the file has a newline. */
  function SaveShoesData(inventory: seq<Shoe>, file: Option<string>): (out: SaveOutcome)
    ensures file.Some? && '\n' in file.value ==> out == WriteShoesData(inventory, file)
    ensures file.None? || |inventory| == 0 ==> out == WriteShoesData(inventory, file)
  {
    if |inventory| == 0 then InventoryEmpty
    else
      match file
      case None => FileMissing
      case Some(text) => Written(HeaderLine(text) + Concat(RowLines(inventory)))
  }

  /** Loading a header line followed by the rows of storable records gives exactly those records. */
  lemma LoadRows(header: string, inventory: seq<Shoe>)
    requires IsTerminatedLine(header) && AllStorable(inventory)
    ensures Load([], Some(header + Concat(RowLines(inventory)))) == LoadReport(inventory, [], false)
  {
    var rows := RowLines(inventory);
    SplitLinesCons(header, Concat(rows));
    SplitRowLines(inventory);
    assert ([header] + rows)[1..] == rows;
    ParseRowLines(inventory, 2);
  }

  /**
   Save then load: when the existing file's header line ends in a newline, the saved file loads
   back as exactly the saved records with nothing skipped, and saving again rewrites the same text.
   */
  lemma SaveLoadRoundTrip(inventory: seq<Shoe>, text: string)
    requires |inventory| > 0 && AllStorable(inventory)
    requires '\n' in text
    ensures var out := WriteShoesData(inventory, Some(text));
      && out.Written?
      && Load([], Some(out.text)) == LoadReport(inventory, [], false)
      && WriteShoesData(inventory, Some(out.text)) == out
  {
    var header := FirstLine(text);
    var w := header + Concat(RowLines(inventory));
    LoadRows(header, inventory);
    SplitLinesCons(header, Concat(RowLines(inventory)));
    assert '\n' in w by { assert w[|header| - 1] == '\n'; }
  }

  /** Results whose records are all storable are accepted as storable records. */
  lemma {:induction false} AcceptedOfStorable(results: seq<Result<Shoe, RowError>>)
    requires forall k :: 0 <= k < |results| && results[k].Ok? ==> Storable(results[k].value)
    ensures AllStorable(Accepted(results))
  {
    if |results| > 0 {
      assert forall k :: 0 <= k < |results| - 1 ==> results[1..][k] == results[k + 1];
      AcceptedOfStorable(results[1..]);
      var rest := Accepted(results[1..]);
      if results[0].Ok? {
        var all := [results[0].value] + rest;
        assert forall k :: 1 <= k < |all| ==> all[k] == rest[k - 1];
      }
    }
  }

  /** The records accepted from lines of a file are storable. */
  lemma AcceptedStorable(lines: seq<string>)
    requires forall k :: 0 <= k < |lines| ==> IsFileLine(lines[k])
    ensures AllStorable(Accepted(ParseEach(lines)))
  {
    var results := ParseEach(lines);
    forall k | 0 <= k < |results| && results[k].Ok? ensures Storable(results[k].value) {
      ParseEachAt(lines, k);
      ParsedRowStorable(lines[k]);
    }
    AcceptedOfStorable(results);
  }

  /** Whatever a file holds, the records loaded from it are storable. */
  lemma LoadedRecordsStorable(text: string)
    ensures AllStorable(Load([], Some(text)).shoes)
  {
    var lines := SplitLines(text);
    if |lines| > 0 {
      SplitLinesShape(text);
      forall k | 0 <= k < |lines| - 1 ensures IsFileLine(lines[1..][k]) {
        assert lines[1..][k] == lines[k + 1];
      }
      AcceptedStorable(lines[1..]);
      LoadShoesAccepted([], text);
      assert [] + Accepted(ParseEach(lines[1..])) == Accepted(ParseEach(lines[1..]));
    }
  }

  /**
   Load, save, load: the records loaded from a file are saved and loaded again unchanged, with
   nothing skipped. The corrected save does so for every file; the save as written does so when
   the file's first line ends in a newline. With no records loaded, nothing is written.
   */
  lemma ReloadKeepsRecords(text: string)
    ensures var shoes := Load([], Some(text)).shoes;
      |shoes| == 0 ==> WriteShoesData(shoes, Some(text)) == InventoryEmpty
    ensures var shoes := Load([], Some(text)).shoes;
      var out := SaveShoesData(shoes, Some(text));
      |shoes| > 0 ==> out.Written? && Load([], Some(out.text)) == LoadReport(shoes, [], false)
    ensures var shoes := Load([], Some(text)).shoes;
      var out := WriteShoesData(shoes, Some(text));
      |shoes| > 0 && '\n' in text ==> out.Written? && Load([], Some(out.text)) == LoadReport(shoes, [], false)
  {
    var shoes := Load([], Some(text)).shoes;
    if |shoes| > 0 {
      LoadedRecordsStorable(text);
      SaveShoesDataRoundTrip(shoes, text);
      if '\n' in text {
        SaveLoadRoundTrip(shoes, text);
      }
    }
  }

  /** Text without a newline, then rows: the text and the first row are read as one line. */
  lemma GluedFirstRow(text: string, inventory: seq<Shoe>)
    requires |inventory| > 0 && AllStorable(inventory)
    requires '\n' !in text
    ensures SplitLines(text + Concat(RowLines(inventory))) == [text + FormatRow(inventory[0])] + RowLines(inventory[1..])
  {
    var row := FormatRow(inventory[0]);
    var rest := Concat(RowLines(inventory[1..]));
    assert Concat(RowLines(inventory)) == row + rest;
    assert text + (row + rest) == (text + row) + rest;
    assert Storable(inventory[0]);
    GluedLineTerminated(text, row);
    SplitLinesCons(text + row, rest);
    StorableTail(inventory);
    SplitRowLines(inventory[1..]);
  }

  /** Dropping the first record keeps the rest storable. */
  lemma StorableTail(inventory: seq<Shoe>)
    requires |inventory| > 0 && AllStorable(inventory)
    ensures AllStorable(inventory[1..])
  {
    assert forall k :: 0 <= k < |inventory| - 1 ==> inventory[1..][k] == inventory[k + 1];
  }

  /**
   The save as written loses a record when the file's first line has no newline (an empty file,
   or a header-only file without a final newline): the first row is glued onto the header line,
   which the next load skips.
   */
  lemma UnterminatedHeaderLosesFirstRecord(inventory: seq<Shoe>, text: string)
    requires |inventory| > 0 && AllStorable(inventory)
    requires '\n' !in text
    ensures var out := WriteShoesData(inventory, Some(text));
      && out.Written?
      && Load([], Some(out.text)) == LoadReport(inventory[1..], [], false)
  {
    var w := text + Concat(RowLines(inventory));
    GluedFirstRow(text, inventory);
    LoadParsesDataLines([], w);
    assert SplitLines(w)[1..] == RowLines(inventory[1..]);
    ParseRowLines(inventory[1..], 2);
  }

  /** The header-only file `Country` without a final newline: one captured record is saved and then lost. */
  lemma UnterminatedHeaderExample()
    ensures var shoe := Shoe("UK", "A1", "Boot", 50, 4);
      Load([], Some(WriteShoesData([shoe], Some("Country")).text)).shoes == []
  {
    var shoe := Shoe("UK", "A1", "Boot", 50, 4);
    UnterminatedHeaderLosesFirstRecord([shoe], "Country");
  }

  /** The corrected save always loads back as exactly the saved records, and is a fixed point. */
  lemma SaveShoesDataRoundTrip(inventory: seq<Shoe>, text: string)
    requires |inventory| > 0 && AllStorable(inventory)
    ensures var out := SaveShoesData(inventory, Some(text));
      && out.Written?
      && Load([], Some(out.text)) == LoadReport(inventory, [], false)
      && SaveShoesData(inventory, Some(out.text)) == out
  {
    var header := HeaderLine(text);
    var w := header + Concat(RowLines(inventory));
    LoadRows(header, inventory);
    SplitLinesCons(header, Concat(RowLines(inventory)));
    assert '\n' in w by { assert w[|header| - 1] == '\n'; }
  }

  /** Two lines give their two parse results, in order. */
  lemma ParseEachPair(x: string, y: string)
    ensures ParseEach([x, y]) == [ParseRow(x), ParseRow(y)]
  {
    assert [x, y][1..] == [y] && [y][1..] == [];
  }

  /** A failure then a record: one report for line `first`, then the record. */
  lemma CollectErrThenOk(e: RowError, shoe: Shoe, first: nat)
    ensures Collect([Err(e), Ok(shoe)], first) == LoadReport([shoe], [SkippedRow(first, e)], false)
  {
    var results: seq<Result<Shoe, RowError>> := [Err(e), Ok(shoe)];
    assert results[1..] == [Ok(shoe)] && results[1..][1..] == [];
  }

  /** A rejected line followed by a good row: one report for line `first`, then the row's record. */
  lemma BadThenGood(bad: string, shoe: Shoe, first: nat)
    requires Storable(shoe) && ParseRow(bad).Err?
    ensures ParseRows([bad, FormatRow(shoe)], first)
            == LoadReport([shoe], [SkippedRow(first, ParseRow(bad).error)], false)
  {
    ParseEachPair(bad, FormatRow(shoe));
    RowRoundTrip(shoe);
    CollectErrThenOk(ParseRow(bad).error, shoe, first);
  }

  /**
   A rejected line between the header and a good row is reported as line 2 and skipped, and the
   row after it still loads.
   */
  lemma BadLineDoesNotStopLoad(header: string, bad: string, shoe: Shoe)
    requires IsTerminatedLine(header) && IsTerminatedLine(bad) && Storable(shoe)
    requires ParseRow(bad).Err?
    ensures Load([], Some(header + (bad + FormatRow(shoe))))
            == LoadReport([shoe], [SkippedRow(2, ParseRow(bad).error)], false)
  {
    var text := header + (bad + FormatRow(shoe));
    ThreeLines(header, bad, FormatRow(shoe));
    assert SplitLines(text)[1..] == [bad, FormatRow(shoe)];
    BadThenGood(bad, shoe, 2);
    LoadParsesDataLines([], text);
  }
}
