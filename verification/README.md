# Shoe inventory: record, line codec and collection operations

This project models the pure core of `inventory.py`, a small shoe-inventory script. The script
keeps a list of `Shoe` records (country, code, product, cost, quantity). It loads that list from
a comma-separated text file whose first line is a header, and writes it back after each change.
Its menu can append a record, restock the record with the lowest quantity, search by code and
pick the record with the highest quantity ("search for sales").

The model is functional. The process-wide `shoe_list` becomes a `seq<Shoe>` that is passed in and
returned. The inventory file is its decoded text (`Option<string>`, `None` for a missing file).

- `wrappers.dfy` (`Wrappers`): `Option` and `Result`.
- `text.dfy` (`Text`): Python's `str.strip()`, `str.split(",")`, `",".join`, `str(int)` and a
  restricted `int(str)`, with the round-trip lemmas that connect them.
- `shoe.dfy` (`Shoes`): the `Shoe` record and `get_value`.
- `row_codec.dfy` (`RowCodec`): the row written for one record and the per-line parse of the
  loader, and their round trip.
- `lines.dfy` (`Lines`): iterating a text file by lines (each keeping its newline) and
  `readline`.
- `inventory_file.dfy` (`InventoryFile`): `read_shoes_data` with its skipped-line reports,
  `write_shoes_data`, and the save/load round trip.
- `inventory.dfy` (`Inventory`): `capture_shoes`, `re_stock`, `search_shoe` and `highest_qty` on
  the sequence.

Two facts of the code shape the model:

- `cost` and `quantity` are any integers. Nothing in the code checks the sign of either.
- The save/load round trip holds for records, not for the exact bytes of every data row. A row
  such as `UK,A1,Boot,007, 4` loads as cost 7 and quantity 4 and is written back as
  `UK,A1,Boot,7,4`: `str` writes each integer one way only (`Text.NatToStringCanonical`).

## Model

| member | source | states |
|---|---|---|
| Shoes.Shoe.Value | inventory.py:23-25 | the value is zero exactly when cost or quantity is zero; it is non-negative when both are; with both positive it is at least each factor |
| Text.IsSpace | inventory.py:62 | the whitespace `str.strip()` removes: the code points for which Python's `str.isspace` holds (tab to carriage return, U+001C to U+0020, U+0085, U+00A0, U+1680, U+2000 to U+200A, U+2028, U+2029, U+202F, U+205F, U+3000) |
| Text.Strip | inventory.py:62 | the stripped line has no whitespace at either end and is no longer than the line |
| Text.TrimStart | inventory.py:62 | the result is the suffix left after removing only leading whitespace, and it starts with a non-space |
| Text.TrimEnd | inventory.py:62 | the result is the prefix left after removing only trailing whitespace, and it ends with a non-space |
| Text.StripUnpadded | inventory.py:62 | stripping leaves a text alone when neither end is whitespace |
| Text.StripTerminated | inventory.py:62 | stripping a row that is unpadded at both ends removes exactly its newline |
| Text.Split | inventory.py:62 | splitting on a comma gives at least one piece, and joining the pieces with commas gives the input back |
| Text.SplitPieces | inventory.py:62 | no piece of a split contains the separator, and every character of a piece occurs in the input |
| Text.SplitCount | inventory.py:62-63 | a split has exactly one piece more than the text has separators |
| Text.SplitJoin | inventory.py:62 | splitting comma-free fields joined by commas gives the same fields back, so field count and contents survive |
| Text.NatToString | inventory.py:106-107 | `str` of a non-negative integer is a non-empty run of decimal digits whose value is that integer, with no leading zero |
| Text.NatToStringCanonical | inventory.py:106-107 | every run of digits without a leading zero is `str` of its value, so `str` writes each integer one way only |
| Text.IntToString | inventory.py:106-107 | `str` of an integer has no comma, no newline and no whitespace at its ends |
| Text.IntRoundTrip | inventory.py:71 | `int(str(i)) == i` for every integer |
| Text.ParseInt | inventory.py:71 | `int()` of a field: surrounding whitespace skipped, an optional sign, then ASCII digits; anything else, and any text holding U+001C to U+001F, is rejected |
| Text.ParseIntOfDigits | inventory.py:71 | a plain digit string parses to its decimal value |
| Text.ParseIntWithoutDigits | inventory.py:71 | text with no digit at all is rejected |
| Text.ParseIntRejectsInfoSeparator | inventory.py:71 | text holding one of U+001C to U+001F anywhere is rejected, even where `str.isspace` would call it padding |
| RowCodec.FormatRow | inventory.py:104-107 | the row ends in a newline; for a storable record it is a single file line with no other newline |
| RowCodec.FormatRowText | inventory.py:104-107 | the row is the text `country,code,product,cost,quantity` followed by a newline |
| RowCodec.ParseRow | inventory.py:61-72 | the per-line parse: strip, split on commas, exactly five fields, integer cost and quantity |
| RowCodec.ParseRowMeaning | inventory.py:61-72 | a line gives the record `s` exactly when its stripped text is `s`'s country, code and product and two integer texts for its cost and quantity, all comma-free, joined by commas (both directions) |
| RowCodec.ParseRowFieldCount | inventory.py:62-67 | a line is rejected for its field count exactly when its stripped text does not hold four commas, and the count reported is the number of commas plus one; every other rejection is a non-integer cost or quantity |
| RowCodec.ParsedRowStorable | inventory.py:55-72 | a record parsed from any line the file iteration yields, terminated or not, is storable |
| RowCodec.RowRoundTrip | inventory.py:62-72 | parsing the row written for a storable record gives that record back |
| RowCodec.ParsedRowIsStable | inventory.py:55-72 | a record parsed from any line of the file is written as a row that parses back to the same record |
| RowCodec.FourFieldRowRejected | inventory.py:62-67 | a row of four fields is rejected as a wrong field count of 4 |
| Lines.LineEnd | inventory.py:55 | the first line of a non-empty text is non-empty and ends within the text |
| Lines.LineEndShape | inventory.py:55 | the first line of a text has no newline before its end, and ends in a newline whenever it is not the whole text or the text has one |
| Lines.FileLineMeaning | inventory.py:55 | a file line is exactly a non-empty text with no newline before its last character (both directions) |
| Lines.SplitLines | inventory.py:55 | the lines of the file concatenate back to its text |
| Lines.SplitLinesShape | inventory.py:55 | every line is a non-empty file line, and every line except the last ends in a newline |
| Lines.SplitLinesConcat | inventory.py:55 | terminated lines written one after another read back as the same lines |
| Lines.FirstLine | inventory.py:98-99 | `readline` gives a prefix of the text that is a file line, terminated when the text has a newline and the whole text otherwise |
| Lines.FirstLineIsFirstOfLines | inventory.py:55-99 | `readline` gives the first line that iterating the file yields |
| InventoryFile.ParseEach | inventory.py:55-72 | one parse result per line |
| InventoryFile.ParseEachAt | inventory.py:55-72 | the k-th result is the parse of the k-th line |
| InventoryFile.Collect | inventory.py:61-80 | each line gives exactly one of a record or a skipped-line report |
| InventoryFile.CollectReportsOnlyBadLines | inventory.py:74-75 | every report names a line of the run, by its own number, whose parse failed for that reason |
| InventoryFile.CollectReportsEveryBadLine | inventory.py:74-75 | every failed line is reported with its line number and reason |
| InventoryFile.CollectReportsInOrder | inventory.py:55-75 | reports come in increasing line order |
| InventoryFile.AcceptedMembership | inventory.py:61-72 | a record is among the accepted records exactly when some line's parse gave it (both directions) |
| InventoryFile.CollectShoesAccepted | inventory.py:61-80 | the collected records are exactly the accepted ones, in line order; rejected lines add nothing |
| InventoryFile.ParseRows | inventory.py:55-80 | the data lines parsed one by one, each giving a record or a numbered report |
| InventoryFile.ParseRowsAppend | inventory.py:55-80 | a bad line never affects the lines after it: loading two runs is loading each and concatenating records and reports |
| InventoryFile.Load | inventory.py:51-85 | a missing file is reported and leaves the list unchanged; loaded records are appended after the existing ones; each line after the header gives one record or one report; a header-only or empty file loads nothing |
| InventoryFile.LoadReportsOnlyBadLines | inventory.py:55-75 | every report names line i + 1 for a data line at index i >= 1 whose parse failed for that reason |
| InventoryFile.LoadReportsEveryBadLine | inventory.py:55-75 | every data line at index i >= 1 whose parse fails is reported as line i + 1 with its reason |
| InventoryFile.LoadShoesAccepted | inventory.py:55-80 | a load appends to the existing records exactly the records of the accepted data lines, in file order |
| InventoryFile.LoadReportsInOrder | inventory.py:55-75 | reports come in file order |
| InventoryFile.LoadIgnoresHeader | inventory.py:56-59 | the header line is never parsed: any terminated first line gives the same load |
| InventoryFile.LoadedRecordsStorable | inventory.py:55-72 | whatever text the file holds, every record loaded from it is storable |
| InventoryFile.ReloadKeepsRecords | inventory.py:55-107 | the records loaded from any file, saved and loaded again, come back unchanged with nothing skipped: always with the corrected save, and with the save as written when the file's first line ends in a newline; with no records loaded nothing is written |
| InventoryFile.RowLines | inventory.py:103-107 | exactly one row per record |
| InventoryFile.RowLinesAt | inventory.py:103-107 | the k-th row is the row of the k-th record, so rows follow list order |
| InventoryFile.WriteShoesData | inventory.py:88-111 | an empty list writes nothing; otherwise a missing file writes nothing and is reported; otherwise the new text starts with the old first line |
| InventoryFile.HeaderLine | inventory.py:98-102 | the header put back is a terminated line, equal to the old first line whenever the file had a newline |
| InventoryFile.SaveShoesData | inventory.py:88-111 | the corrected save agrees with the source's save whenever the file has a newline, the file is missing or the list is empty |
| InventoryFile.LoadRows | inventory.py:55-72 | a header line followed by the rows of storable records loads as exactly those records |
| InventoryFile.SaveLoadRoundTrip | inventory.py:98-107 | when the file's first line ends in a newline, saving a non-empty list of storable records and loading gives the same records with nothing skipped, and saving again rewrites the same text |
| InventoryFile.UnterminatedHeaderLosesFirstRecord | inventory.py:98-107 | when the file's first line has no newline, a save followed by a load loses the first record |
| InventoryFile.UnterminatedHeaderExample | inventory.py:98-107 | a header-only file `Country` without newline, saved with one record, loads back empty |
| InventoryFile.SaveShoesDataRoundTrip | inventory.py:98-107 | the corrected save always loads back as exactly the saved records, and re-saving is a fixed point |
| InventoryFile.BadLineDoesNotStopLoad | inventory.py:55-80 | a rejected line after the header is reported as line 2 and the valid line after it still loads |
| Inventory.CaptureShoes | inventory.py:123-131 | the new record is last, the list grows by one and the existing records keep their places |
| Inventory.SearchAfterCapture | inventory.py:182-187 | after a capture a search returns what it returned before, else the new record if its code matches, else none |
| Inventory.FindCodeExtends | inventory.py:182-184 | appending records does not move the first match of a code already present |
| Inventory.LowestQuantityIndex | inventory.py:161 | the chosen index has a quantity no greater than any other, and every earlier record has a strictly higher one (first minimum) |
| Inventory.HighestQuantityIndex | inventory.py:226 | the chosen index has a quantity no lower than any other, and every earlier record has a strictly lower one (first maximum) |
| Inventory.FirstLowestUnique | inventory.py:161 | only one index is the first minimum |
| Inventory.FirstHighestUnique | inventory.py:226 | only one index is the first maximum |
| Inventory.TotalQuantityAfterAdding | inventory.py:167 | adding an amount to one record's quantity raises the total quantity by that amount |
| Inventory.ReStock | inventory.py:153-168 | empty list: nothing changes and nothing is chosen; otherwise the first minimum-quantity record gains exactly the amount, its other fields and every other record are unchanged, the length is kept and the total quantity grows by the amount |
| Inventory.FindCode | inventory.py:182-184 | the index found holds the code and no earlier record does; none exactly when no record has the code |
| Inventory.SearchShoe | inventory.py:171-187 | none exactly when no record has the code (so always on an empty list); otherwise the earliest record with that code |
| Inventory.HighestQty | inventory.py:216-226 | none exactly on an empty list; otherwise the first record with the highest quantity |

## Left out

- Console I/O is not modelled: prompts, `print` and the menu loop in `main_menu` (inventory.py:234-287). The values a user types are method parameters.
- The retry loop of `validate_numerical_input` (inventory.py:114-120) is not modelled; an entered amount is a plain integer parameter.
- Opening, reading and writing files is not modelled (inventory.py:53-54, 98-101). The file is its decoded text. The model does not cover text encodings, the universal-newline translation of `\r` and `\r\n`, or failures other than a missing file (inventory.py:76-80, 84-85, 110-111).
- `view_all` and `value_per_item` (inventory.py:135-150, 190-213) are not modelled. They render through the `tabulate` library, which is not part of this model, and format currency through floating point.
- `Shoe.__str__` (inventory.py:33-41) is display text only.
- `get_cost` and `get_quantity` (inventory.py:27-31) are the datatype's fields.
- Text.ParseInt: accepts surrounding whitespace, one `+` or `-` sign and ASCII digits only. Python's `int` also accepts `_` between digits and non-ASCII decimal digits, so the model rejects some lines the script loads. CPython's 4300-digit conversion limit is not modelled. The whitespace `int` skips is modelled as `str.isspace` without U+001C to U+001F, following CPython's conversion code as read rather than run.
- Inventory.CaptureShoes and Inventory.ReStock: the save each triggers afterwards (inventory.py:132, 168) is the separate writer `InventoryFile.SaveShoesData`.
- Inventory.ReStock: the script changes the chosen object in place. The model assumes no record object appears twice in the list, which is true of everything the loader and capture create.
- Inventory.SearchShoe: the empty-list check happens before the code prompt; the model has no prompt, and it returns none for an empty list like the script.

## Findings

| source | as written | input that shows it | evidently intended | confidence | as-written member | corrected member |
|---|---|---|---|---|---|---|
| inventory.py:98-102 | the saved file starts with the old first line verbatim, without a newline when that line has none | a file holding only `Country` (no final newline, or an empty file), then one captured record: the next load finds no records | the header stays on its own line, so every saved record loads again | not executed | InventoryFile.UnterminatedHeaderLosesFirstRecord | InventoryFile.SaveShoesDataRoundTrip |
