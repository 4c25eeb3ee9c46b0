/**
 One data line of the inventory file: the row `write_shoes_data` emits for a record and the
 per-line parse inside `read_shoes_data`.
 */
module RowCodec {
  import opened Wrappers
  import opened Text
  import opened Shoes
  import opened Lines

  /** Why a data line was skipped; both are Python's ValueError in the script. */
  datatype RowError =
    | WrongFieldCount(found: nat)   // the stripped line did not split into exactly 5 fields
    | NotAnInteger                  // cost or quantity is not integer text

  /** Text that can sit in a field without changing how its row splits. */
  predicate IsFieldText(t: string) {
    ',' !in t && '\n' !in t
  }

  /**
   A record whose row reads back as itself: no text field holds a comma or a newline, and the
   country, which starts the row, does not start with whitespace that the strip would remove.
   */
  predicate Storable(s: Shoe) {
    && IsFieldText(s.country) && IsFieldText(s.code) && IsFieldText(s.product)
    && (|s.country| > 0 ==> !IsSpace(s.country[0]))
  }

  /** The five fields of a record's row, in file order, numbers as `str()` writes them. */
  function Fields(s: Shoe): seq<string> {
    [s.country, s.code, s.product, IntToString(s.cost), IntToString(s.quantity)]
  }

  /** The row `write_shoes_data` writes for one record: its five fields joined by commas, then a newline. */
  function FormatRow(s: Shoe): (line: string)
    ensures |line| > 0 && line[|line| - 1] == '\n'
    ensures Storable(s) ==> IsTerminatedLine(line)
  {
    var body := Join(Fields(s), ',');
    var line := body + "\n";
    assert Storable(s) ==> IsTerminatedLine(line) by {
      if Storable(s) {
        RowBodyHasNoNewline(s);
        TerminatedBody(body);
      }
    }
    line
  }

  /** The row is the f-string `country,code,product,cost,quantity` followed by a newline. */
  lemma FormatRowText(s: Shoe)
    ensures FormatRow(s) == s.country + "," + s.code + "," + s.product + ","
                            + IntToString(s.cost) + "," + IntToString(s.quantity) + "\n"
  {
    JoinFive(s.country, s.code, s.product, IntToString(s.cost), IntToString(s.quantity), ',');
  }

  /** The fields of a storable record, joined by commas, hold no newline. */
  lemma RowBodyHasNoNewline(s: Shoe)
    requires Storable(s)
    ensures '\n' !in Join(Fields(s), ',')
  {
    JoinFive(s.country, s.code, s.product, IntToString(s.cost), IntToString(s.quantity), ',');
  }

  /**
   The per-line parse of `read_shoes_data`: strip the line, split on commas, demand exactly five
   fields and integer text in the fourth and fifth.
   */
  function ParseRow(line: string): Result<Shoe, RowError> {
    var fields := Split(Strip(line), ',');
    if |fields| != 5 then Err(WrongFieldCount(|fields|))
    else
      match (ParseInt(fields[3]), ParseInt(fields[4]))
      case (Some(cost), Some(quantity)) =>
        Ok(Shoe(fields[0], fields[1], fields[2], cost, quantity))
      case _ => Err(NotAnInteger)
  }

  /**
   `t` is the text of a row for `s`: the three text fields and the integer texts `cost` and
   `quantity`, none holding a comma, joined by commas, the two texts reading as the record's numbers.
   */
  predicate SpellsRow(t: string, s: Shoe, cost: string, quantity: string) {
    && ',' !in s.country && ',' !in s.code && ',' !in s.product && ',' !in cost && ',' !in quantity
    && t == Join([s.country, s.code, s.product, cost, quantity], ',')
    && ParseInt(cost) == Some(s.cost) && ParseInt(quantity) == Some(s.quantity)
  }

  /** The fields a line is split into spell out the record it gives. */
  lemma ParsedRowSpells(line: string, s: Shoe)
    ensures var fields := Split(Strip(line), ',');
      ParseRow(line) == Ok(s) ==> |fields| == 5 && SpellsRow(Strip(line), s, fields[3], fields[4])
  {
    if ParseRow(line) == Ok(s) {
      var t := Strip(line);
      var fields := Split(t, ',');
      SplitPieces(t, ',');
      FiveElements(fields);
    }
  }

  /** A line whose stripped text is a row for `s` gives `s`. */
  lemma SpelledRowParses(line: string, s: Shoe, cost: string, quantity: string)
    requires SpellsRow(Strip(line), s, cost, quantity)
    ensures ParseRow(line) == Ok(s)
  {
    SplitFive(s.country, s.code, s.product, cost, quantity, ',');
  }

  /** A line gives the record `s` exactly when its stripped text is a row for `s`. */
  lemma ParseRowMeaning(line: string, s: Shoe)
    ensures ParseRow(line) == Ok(s) <==> exists cost, quantity :: SpellsRow(Strip(line), s, cost, quantity)
  {
    if ParseRow(line) == Ok(s) {
      ParsedRowSpells(line, s);
    }
    if exists cost, quantity :: SpellsRow(Strip(line), s, cost, quantity) {
      var cost, quantity :| SpellsRow(Strip(line), s, cost, quantity);
      SpelledRowParses(line, s, cost, quantity);
    }
  }

  /**
   A line is rejected for its field count exactly when its stripped text does not hold four
   commas, and the count reported is one more than the commas it holds. Every other rejection is
   therefore a non-integer cost or quantity.
   */
  lemma ParseRowFieldCount(line: string)
    ensures ParseRow(line).Err? && ParseRow(line).error.WrongFieldCount? <==> Occurrences(Strip(line), ',') != 4
    ensures ParseRow(line).Err? && ParseRow(line).error.WrongFieldCount? ==>
      ParseRow(line).error.found == Occurrences(Strip(line), ',') + 1
  {
    SplitCount(Strip(line), ',');
  }

  /** Stripping a file line removes its newline, if any: the stripped text holds none. */
  lemma StrippedFileLine(line: string)
    requires IsFileLine(line)
    ensures '\n' !in Strip(line)
  {
    FileLineMeaning(line);
    StripIsSlice(line);
    var t := Strip(line);
    var i, j :| 0 <= i <= j <= |line| && t == line[i..j];
    forall p | 0 <= p < |t| ensures t[p] != '\n' {
      if p < |t| - 1 {
        assert t[p] == line[i + p];
      } else {
        assert !IsSpace(t[p]);
      }
    }
  }

  /**
   The fields of a stripped file line hold no comma or newline, and the first of them does not
   start with whitespace.
   */
  lemma SplitFieldsStorable(line: string)
    requires IsFileLine(line)
    ensures var fields := Split(Strip(line), ',');
      && (forall k :: 0 <= k < |fields| ==> IsFieldText(fields[k]))
      && (|fields[0]| > 0 ==> !IsSpace(fields[0][0]))
  {
    var stripped := Strip(line);
    var fields := Split(stripped, ',');
    StrippedFileLine(line);
    SplitPieces(stripped, ',');
    JoinStartsWithFirst(fields, ',');
    if |fields[0]| > 0 {
      assert fields[0][0] == stripped[0];
    }
  }

  /** Parsing the row written for a storable record gives that record back. */
  lemma RowRoundTrip(s: Shoe)
    requires Storable(s)
    ensures ParseRow(FormatRow(s)) == Ok(s)
  {
    var fields := Fields(s);
    var body := Join(fields, ',');
    var q := IntToString(s.quantity);
    JoinFive(s.country, s.code, s.product, IntToString(s.cost), q, ',');
    assert FormatRow(s) == body + "\n";
    assert |body| > 0 && !IsSpace(body[0]) by {
      if |s.country| == 0 {
        assert body[0] == ',';
      } else {
        assert body[0] == s.country[0];
      }
    }
    assert body[|body| - 1] == q[|q| - 1];
    StripTerminated(body);
    SplitJoin(fields, ',');
    IntRoundTrip(s.cost);
    IntRoundTrip(s.quantity);
  }

  /** A record parsed from a line of the file is storable. */
  lemma ParsedRowStorable(line: string)
    requires IsFileLine(line)
    ensures ParseRow(line).Ok? ==> Storable(ParseRow(line).value)
  {
    SplitFieldsStorable(line);
  }

  /** A parsed record reads back unchanged from the row it is written as (load, save, load). */
  lemma ParsedRowIsStable(line: string)
    requires IsFileLine(line)
    ensures ParseRow(line).Ok? ==> ParseRow(FormatRow(ParseRow(line).value)) == ParseRow(line)
  {
    if ParseRow(line).Ok? {
      ParsedRowStorable(line);
      RowRoundTrip(ParseRow(line).value);
    }
  }

  /** A row of four comma-free fields, without padding at its ends, is rejected for its field count. */
  lemma FourFieldRowRejected(a: string, b: string, c: string, d: string)
    requires IsFieldText(a) && IsFieldText(b) && IsFieldText(c) && IsFieldText(d)
    requires |a| > 0 && !IsSpace(a[0]) && |d| > 0 && !IsSpace(d[|d| - 1])
    ensures ParseRow(a + "," + b + "," + c + "," + d + "\n") == Err(WrongFieldCount(4))
  {
    var fields := [a, b, c, d];
    var body := a + "," + b + "," + c + "," + d;
    assert Join(fields, ',') == body by {
      assert fields[1..] == [b, c, d];
      assert [b, c, d][1..] == [c, d];
      assert [c, d][1..] == [d];
      assert Join([c, d], ',') == c + [','] + d;
      assert Join([b, c, d], ',') == b + [','] + (c + [','] + d);
    }
    assert body[0] == a[0] && body[|body| - 1] == d[|d| - 1];
    StripTerminated(body);
    assert a + "," + b + "," + c + "," + d + "\n" == body + "\n";
    SplitJoin(fields, ',');
  }
}
