# ip_locator in Dafny

A verified model of the core of `ip_locator`. The package holds IPv4 ranges,
each attributed to a country. It converts collections of these ranges between
JSON, XML and CSV files, stores them in a `geolocations` table, and looks up
the range that contains an address.

The project is nine modules, one per file:

- `Wrappers` (`wrappers.dfy`): `Option`, `Result` and `Outcome`. `Errors` in
  the same file lists the exceptions and PHP errors as values.
- `PhpStrings` (`php_strings.dfy`): the PHP string built-ins the core relies
  on:
  - `trim($s, "\" ")`, `strtoupper` and `strtolower`;
  - `explode`/`implode`, `intval` and `strval` on digit strings.
- `PhpArrays` (`php_arrays.dfy`): PHP values and ordered arrays, `isset`,
  and `is_numeric` on keys.
- `PhpIp` (`php_ip.dfy`): `filter_var(..., FILTER_VALIDATE_IP)` for IPv4,
  `ip2long` and `long2ip`.
- `Geo` (`geo_location.dfy`), modelling `lib/GeoLocator/GeoLocation.php`:
  - the record value `GeoRange`, and the class `GeoLocation` with its
    validating setters;
  - `ipToLong`, `toArray` and `fromArray`;
  - the batch conversions `toUniversalFormat` and `fromUniversalFormat`, as
    loops proved against functions.
- `Csv` (`csv.dfy`): `fromCSV` and `toCSV` from
  `lib/GeoLocator/Ip2LocationExporter.php`, both as loops. `str_getcsv` is
  modelled field by field: the enclosure, doubled quotes, the escape
  character, white space before an opening quote, text after a closing
  quote, and the removal of a trailing line end, which a last field whose
  quote is never closed gets back.
- `Xml` (`xml.dfy`): `arrayToXML`/`toXML` as a recursive method building an
  element tree, and `fromXML`. The `json_decode(json_encode($xml), true)`
  rules are modelled as a function from elements to PHP arrays.
- `Exporter` (`exporter.dfy`): the class `Ip2LocationExporter`:
  - `export`, `save`, `from` and `to`;
  - the three file writers;
  - `toDB` as an "insert if the key is absent" loop over a table of records.
- `Locator` (`ip_locator.dfy`): `geoLocate` of
  `lib/GeoLocator/IpLocator.php`, a function over the table.

Choices the model makes:

- **A record and its object.** A record is the value `GeoRange`. The class
  `GeoLocation` holds the same four fields and updates them in place.
  `GeoLocation.Create` is the PHP constructor. It returns a `Result` because
  a Dafny constructor cannot fail.
- **Collections.** A collection is a `seq<Option<GeoRange>>`, where `None` is
  a NULL slot.
- **Exceptions.** Every exception is a `Failure`. The
  `catch(Exception $e)` blocks at GeoLocation.php:232 and 251 sit inside
  `namespace GeoLocator`. PHP therefore resolves them to the non-existent
  class `GeoLocator\Exception`, so validation exceptions propagate out of
  `fromUniversalFormat`. The model propagates them.
- **NULL slots.** `toArray` or `getStartIp` called on a NULL slot is a PHP
  Error; it is modelled as `NullRecord`.
- **Files.** A file read by `from` is `Missing`, `Unreadable`, or `Readable`.
  A readable file carries three things:
  - its text (read by the CSV reader);
  - what `json_decode` makes of that text;
  - what `simplexml_load_string` makes of it.

  What `to` writes is an `Output` value, put in the object's `files` map
  under the file name. `Holds(f, o)` says that a file read back gives the
  output that was written.
- **The database.** The table behind the entity manager is a sequence of
  records (`store`), keyed by `(startIp, endIp)`.

## Model

| member | source | states |
|---|---|---|
| Geo.IpToLong | lib/GeoLocator/GeoLocation.php:74-84 | Every rejected address raises BadIpAddress. |
| Geo.DottedQuadIsBigEndian | lib/GeoLocator/GeoLocation.php:78-80 | A dotted quad `a.b.c.d` with parts ≤ 255 is stored as a·2^24 + b·2^16 + c·2^8 + d. |
| Geo.NumericFormParses | lib/GeoLocator/GeoLocation.php:75-77 | A non-empty string of decimal digits, leading zeros included, is stored as its value when that is below 2^32; the model raises BadIpAddress for larger values. |
| Geo.IntegerFormParses | lib/GeoLocator/GeoLocation.php:75-77 | An integer is stored as itself when it lies in [0, 2^32); the model raises BadIpAddress for any other integer. |
| Geo.LeadingZeroValue | lib/GeoLocator/GeoLocation.php:77 | `intval` of a digit string is unchanged by a leading zero. |
| Geo.LeadingZeroIgnored | lib/GeoLocator/GeoLocation.php:74-84 | A digit string with a leading zero converts to what the string without it converts to, so "0084559520" and "84559520" are the same address. |
| Geo.DecimalFormParses | lib/GeoLocator/GeoLocation.php:75-77 | The decimal string `strval` prints for a 32-bit number is stored as that number. |
| Geo.NumericCheckPasses | lib/GeoLocator/GeoLocation.php:76 | For every 32-bit number, `long2ip` of it passes FILTER_VALIDATE_IP, so the numeric branch accepts every number in range. |
| Geo.BothFormsAgree | lib/GeoLocator/GeoLocation.php:74-84 | `long2ip(n)` and the decimal string of `n` both convert to `n`. |
| Geo.AcceptedQuadIsCanonical | lib/GeoLocator/GeoLocation.php:78-80 | A non-numeric string that is accepted is a valid IPv4 quad. It is exactly `long2ip` of the number stored for it. |
| Geo.OversizedPartRejected | lib/GeoLocator/GeoLocation.php:74-84 | A quad with a part above 255 (such as 999.999.999.999) raises BadIpAddress. |
| PhpIp.Long2IpValid | lib/GeoLocator/GeoLocation.php:76 | `long2ip(n)` is a valid IPv4 quad, and `ip2long` maps it back to `n`. |
| PhpIp.Ipv4IsCanonical | lib/GeoLocator/GeoLocation.php:79-80 | A string that passes FILTER_VALIDATE_IP for IPv4 is `long2ip` of its `ip2long`. |
| PhpIp.QuadIsBigEndian | lib/GeoLocator/GeoLocation.php:79-80 | `a.b.c.d` is a valid quad, and `ip2long` of it is its big-endian value. |
| PhpStrings.Trim | lib/GeoLocator/GeoLocation.php:150 | The result is a slice of the input, and every character of the input outside that slice is `"` or a space. The result starts and ends with neither, and a string that already does so is unchanged. |
| PhpStrings.ByteLength | lib/GeoLocator/GeoLocation.php:151 | `strlen` counts the bytes of the UTF-8 encoding: at least one per character, exactly one per character iff every character is ASCII. |
| PhpStrings.UpperKeepsByteLength | lib/GeoLocator/GeoLocation.php:151-154 | Upper-casing does not change the byte length. |
| PhpStrings.SplitJoin | lib/GeoLocator/GeoLocation.php:76-80 | Splitting on a separator (the '.' of an IPv4 dotted quad, as `FILTER_VALIDATE_IP` and `ip2long` read it) the join of parts free of that separator gives the parts back. |
| Geo.GeoRange.GetStartIp | lib/GeoLocator/GeoLocation.php:105-107 | A non-empty digit string whose value is the stored start address, with no leading zero unless it is "0". |
| Geo.GeoRange.GetEndIp | lib/GeoLocator/GeoLocation.php:121-123 | A non-empty digit string whose value is the stored end address, with no leading zero unless it is "0". |
| Geo.GeoLocation.SetStartIp | lib/GeoLocator/GeoLocation.php:114-116 | A record in canonical form stays so. On success only `startIp` changes, to the converted number. On failure: BadIpAddress, and the object is unchanged. |
| Geo.GeoLocation.SetEndIp | lib/GeoLocator/GeoLocation.php:130-132 | The same as SetStartIp, for `endIp`. |
| Geo.NormalizeCountryCode | lib/GeoLocator/GeoLocation.php:146-155 | Accepted iff the value is a string whose trimmed form is at most 2 bytes long in UTF-8; lengths 0 and 1 are accepted. The stored value is the trimmed, upper-cased form, which is canonical and has no lower-case letter. Anything else gives BadCountryCode. |
| Geo.NonAsciiCodeRejected | lib/GeoLocator/GeoLocation.php:150-152 | Two characters, the first outside ASCII and the second neither `"` nor a space (as in "ÉS"), are more than 2 bytes and give BadCountryCode. |
| Geo.GeoLocation.SetCountryCode | lib/GeoLocator/GeoLocation.php:146-155 | A record in canonical form stays so. Stores NormalizeCountryCode's value and changes nothing else. On failure: BadCountryCode, and the object is unchanged. |
| Geo.NormalizeCountryName | lib/GeoLocator/GeoLocation.php:169-176 | Accepted iff the value is a string, with no length limit. Stores the trimmed, upper-cased form. Otherwise BadCountryName. |
| Geo.GeoLocation.SetCountryName | lib/GeoLocator/GeoLocation.php:169-176 | A record in canonical form stays so. Stores NormalizeCountryName's value and changes nothing else. On failure: BadCountryName, and the object is unchanged. |
| Geo.CanonicalizeIdempotent | lib/GeoLocator/GeoLocation.php:150-154 | Trimming and upper-casing twice is the same as doing it once. |
| Geo.SettersIdempotent | lib/GeoLocator/GeoLocation.php:146-176 | A stored code or name, fed back to its setter, is stored unchanged. |
| Geo.CanonicalAsIs | lib/GeoLocator/GeoLocation.php:146-176 | A string without enclosing quotes or blanks, and without lower-case letters, is stored as it is: as a name always, as a code when it is at most 2 bytes long. |
| Geo.Construct | lib/GeoLocator/GeoLocation.php:92-100 | Validates start IP, end IP, code, then name; the first failure's exception is the result. On success the record holds the four normalized values and is canonical. |
| Geo.GeoLocation.Create | lib/GeoLocator/GeoLocation.php:92-100 | Fails with Construct's error, or returns a fresh valid object whose state is Construct's record. |
| Geo.GeoRange.ToArray | lib/GeoLocator/GeoLocation.php:181-190 | Exactly the four universal keys. The addresses are the getters' decimal strings, and the code and name are the stored ones. |
| Geo.FromArray | lib/GeoLocator/GeoLocation.php:200-218 | NULL iff some key is not set. Otherwise the result is the constructor's on the four fields: its record, which is canonical, or its exception. |
| Geo.FromArrayToArray | lib/GeoLocator/GeoLocation.php:181-218 | `fromArray($g->toArray())` equals `g` for every canonical record. |
| Geo.SpainRecordRoundTrip | tests/GeoLocator/GeoLocationTest.php:11-17 | `new GeoLocation("84559520","84559527","ES","SPAIN")` is the record (84559520, 84559527, ES, SPAIN), and its array converts back to it. |
| Geo.ToUniversal | lib/GeoLocator/GeoLocation.php:227-237 | Succeeds iff there is no NULL slot; otherwise NullRecord. On success the list has one item per slot, in order: each slot's `toArray`. |
| Geo.ToUniversalFormat | lib/GeoLocator/GeoLocation.php:227-237 | The loop computes ToUniversal. |
| Geo.FromItems | lib/GeoLocator/GeoLocation.php:246-256 | On success there is one slot per item, in order, each `fromArray` of its item. |
| Geo.FromItemsSucceeds | lib/GeoLocator/GeoLocation.php:246-256 | The collection is built iff every item's `fromArray` succeeds. |
| Geo.FromItemsFirstFailure | lib/GeoLocator/GeoLocation.php:246-256 | A failure is the exception of the first item that raises. |
| Geo.FromItemsStopsAtFailure | lib/GeoLocator/GeoLocation.php:246-256 | After an item raises, later items do not affect the result. |
| Geo.FromUniversalFormat | lib/GeoLocator/GeoLocation.php:246-256 | The loop computes FromUniversal. |
| Geo.FromItemsOfRecords | lib/GeoLocator/GeoLocation.php:227-256 | Items that are the arrays of canonical records convert back to exactly those records. |
| Geo.UniversalRoundTrip | tests/GeoLocator/GeoLocationTest.php:19-29 | `fromUniversalFormat(toUniversalFormat(gs))` equals `gs` for canonical records. Order, length and records that share a range are preserved. |
| Geo.SingleRecordGivesNullSlots | lib/GeoLocator/GeoLocation.php:246-256 | One record's array, passed where a list is expected, yields four NULL slots. |
| Csv.DropLineEndCases | lib/GeoLocator/Ip2LocationExporter.php:131-135 | `str_getcsv` removes a trailing "\r\n" as a whole, otherwise one trailing "\n" or "\r"; a text not ending in either is unchanged. |
| Csv.GetCsv | lib/GeoLocator/Ip2LocationExporter.php:131-135 | `str_getcsv` always yields at least one field; an empty line counts as one. |
| Csv.SpacesBefore | lib/GeoLocator/Ip2LocationExporter.php:135 | The look for an opening quote stops at the first character that is not white space, or is the delimiter, or at the end of the text. |
| Csv.SpacesSkipped | lib/GeoLocator/Ip2LocationExporter.php:135 | What is looked past for an opening quote is white space other than the delimiter. |
| Csv.QuotedUnclosed | lib/GeoLocator/Ip2LocationExporter.php:131-135 | A quoted body with no closing quote runs to the end of the text and is marked as never closed. |
| Csv.ScanLineEnd | lib/GeoLocator/Ip2LocationExporter.php:131-135 | The line end set aside changes the field read only when its quote is never closed; that field is then the last and ends with the line end. |
| Csv.LineEndKept | lib/GeoLocator/Ip2LocationExporter.php:131-135 | The fields of a text with a line end set aside are the fields without it, except that a last field whose quote is never closed gets the line end back at its end. |
| Csv.UnclosedQuoteKeepsLineEnd | lib/GeoLocator/Ip2LocationExporter.php:135-143 | `"A` followed by "\r" reads as the one field `A` + "\r"; the row yields no item. |
| Csv.QuotedBody | lib/GeoLocator/Ip2LocationExporter.php:131-135 | A quoted body free of quotes and of the escape character, then a closing quote, reads as that body; the text after the quote is handed on. |
| Csv.EnclosedField | lib/GeoLocator/Ip2LocationExporter.php:131-135 | A quoted field is its body followed by whatever comes after the closing quote up to the delimiter; the text after that delimiter is read next. |
| Csv.FieldsOfQuoted | lib/GeoLocator/Ip2LocationExporter.php:135 | `str_getcsv` of fields free of quotes (and of the escape character, when there is one), each enclosed in quotes and joined by commas, gives those fields back in order, commas inside them kept. |
| Csv.Row | lib/GeoLocator/Ip2LocationExporter.php:136-143 | A line yields an item iff it has exactly four fields; the item holds the four fields in order under the universal keys. |
| Csv.CollectAppend | lib/GeoLocator/Ip2LocationExporter.php:134-144 | Collecting two runs of lines is collecting each run in turn. |
| Csv.CollectAll | lib/GeoLocator/Ip2LocationExporter.php:134-144 | When every line has four fields, each line yields its item, in order. |
| Csv.CollectNone | lib/GeoLocator/Ip2LocationExporter.php:134-144 | Lines without four fields yield nothing. |
| Csv.RowsSnoc | lib/GeoLocator/Ip2LocationExporter.php:134-144 | A further line appends its item exactly when it has four fields. |
| Csv.RowsSkipMalformed | lib/GeoLocator/Ip2LocationExporter.php:136 | Appended lines without four fields, including empty lines, change nothing. |
| Csv.ParseRows | lib/GeoLocator/Ip2LocationExporter.php:130-146 | The loop computes the items kept from the file's rows. |
| Csv.EmptyTextReadsNothing | lib/GeoLocator/Ip2LocationExporter.php:131-144 | An empty file is one empty row, which yields no item. |
| Csv.CarriageReturnDropped | lib/GeoLocator/Ip2LocationExporter.php:135-143 | A row ending in "\r" has the same fields as the row without it, except that a last field whose quote is never closed keeps the "\r" at its end; when no quote is left open it yields the same item. In a file with "\r\n" line ends, that is every row but the last whose first field is quoted, as `toCSV` writes it. |
| Csv.Enclose | lib/GeoLocator/Ip2LocationExporter.php:229-233 | The field between a pair of quotes. |
| Csv.WriteText | lib/GeoLocator/Ip2LocationExporter.php:220-235 | The loop computes CsvText. |
| Csv.AccumulatedIsJoin | lib/GeoLocator/Ip2LocationExporter.php:223-234 | Non-empty lines, accumulated the way the loop does it, are joined by single newlines. |
| Csv.CsvTextIsJoin | lib/GeoLocator/Ip2LocationExporter.php:220-235 | The empty list is written as "". Any other list is written as its lines joined by "\n", with no trailing newline. |
| Csv.LineOfRecord | lib/GeoLocator/Ip2LocationExporter.php:229-233 | The line written for a record is its start address in quotes, then the other three fields, each in quotes after a comma. |
| Csv.OuterRows | lib/GeoLocator/Ip2LocationExporter.php:131 | `str_getcsv($contents, "\n")` over lines that each open with a quoted field free of quotes and hold no newline gives one row per line, in order, with that field's quotes read off and the rest kept as written. |
| Csv.RowsOfWrittenText | lib/GeoLocator/Ip2LocationExporter.php:131 | The text `toCSV` writes for records whose code and name hold no newline splits into one row per record, in order, with or without escaping. |
| Csv.InnerRow | lib/GeoLocator/Ip2LocationExporter.php:135-143 | Such a row (bare digits, then three quoted fields free of quotes and of the escape character) reads as exactly those four fields and yields their item. |
| Csv.RowsOfText | lib/GeoLocator/Ip2LocationExporter.php:130-144 | The rows of the text written for records whose code and name hold no quote, newline or escape character yield exactly those records' arrays, in order. |
| Csv.CrLfRowParses | lib/GeoLocator/Ip2LocationExporter.php:135-143 | A written row followed by "\r" still yields its record's array. |
| Csv.CsvRoundTripAsWritten | lib/GeoLocator/Ip2LocationExporter.php:130-147 | With the default backslash escape, `fromCSV` of the `toCSV` text gives back canonical records whose code and name hold no quote, backslash or newline, in order. |
| Csv.CsvRoundTrip | lib/GeoLocator/Ip2LocationExporter.php:130-147 | With escaping off, the same holds for codes and names that hold no quote or newline; backslashes and commas survive. |
| Csv.BackslashSwallowsQuote | lib/GeoLocator/Ip2LocationExporter.php:135 | With the backslash escape, the row `a,"b","\","d"` reads as three fields, the last `\",d"` (the quote that opens `d` closes the field and is dropped), and yields no item. |
| Csv.BackslashCodeDropped | lib/GeoLocator/Ip2LocationExporter.php:130-147 | A canonical record whose code is `\` comes back from `fromCSV` as written as no record at all; the reader with escaping off gives it back. |
| Xml.ArrayToXml | lib/GeoLocator/Ip2LocationExporter.php:199-215 | The tree keeps its tag and text, and gains exactly the nodes for the data. Each array value becomes an element: tagged "geo_location" under a numeric key, otherwise by its key. Scalars under string keys become leaves; scalars under numeric keys are skipped. |
| Xml.ItemNodes | lib/GeoLocator/Ip2LocationExporter.php:210-212 | A universal item becomes four leaves, in key order, holding the fields. |
| Xml.ListNodes | lib/GeoLocator/Ip2LocationExporter.php:201-204 | A list of arrays becomes one "geo_location" element per item, in order. |
| Xml.DocumentOfRecords | lib/GeoLocator/Ip2LocationExporter.php:184-191 | The `geo_locations` root holds one record element per record, in order. |
| Xml.View | lib/GeoLocator/Ip2LocationExporter.php:118-120 | A childless element decodes to its text, or to an empty array when the text is blank (only spaces, tabs, line feeds and carriage returns, or nothing); an element with children decodes to an array. |
| Xml.RecordView | lib/GeoLocator/Ip2LocationExporter.php:118-120 | A record element whose fields are not blank decodes to the universal item of those fields. |
| Xml.BlankNameView | lib/GeoLocator/Ip2LocationExporter.php:118-120 | A record element whose name is blank decodes with an empty array for the name and the other three fields as text. |
| Xml.BlankNameRejected | lib/GeoLocator/Ip2LocationExporter.php:116-121 | A canonical record whose name is blank, such as a tab, is not read back from the document `toXML` writes: the corrected `fromXML` fails with BadCountryName. |
| Xml.RecordsOfRoot | lib/GeoLocator/Ip2LocationExporter.php:118-120 | With only "geo_location" children, a single child decodes to its own value and several decode to a list. |
| Xml.RecordsOfRecordElements | lib/GeoLocator/Ip2LocationExporter.php:118-120 | For record elements of records whose code and name are not blank: for 0, 1 and ≥ 2 of them, the "geo_location" value is NULL, one array, or the list of arrays. |
| Xml.RecordsOfDocument | lib/GeoLocator/Ip2LocationExporter.php:116-121 | The same, for the document `toXML` writes for such records. |
| Xml.ReadDecodedRecords | lib/GeoLocator/Ip2LocationExporter.php:119-120 | The corrected reading of such a value gives the records back. |
| Xml.XmlRoundTrip | lib/GeoLocator/Ip2LocationExporter.php:116-121 | Take canonical records whose code and name are not blank. The corrected `fromXML` reads the document `toXML` writes back to the same records. |
| Xml.XmlRoundTripAsWritten | lib/GeoLocator/Ip2LocationExporter.php:116-121 | For the same records, `fromXML` as written gives the same round trip for every collection size except one. |
| Xml.SingleRecordXmlAsWritten | lib/GeoLocator/Ip2LocationExporter.php:119-120 | `fromXML` as written, on a one-record document, yields four NULL slots instead of the record. |
| Xml.NoRecordsReadNothing | lib/GeoLocator/Ip2LocationExporter.php:116-121 | Both readers yield an empty collection for two inputs: a document that does not load, and a document without "geo_location" children. |
| Exporter.Decode | lib/GeoLocator/Ip2LocationExporter.php:75-96 | IOException for a missing or unreadable file, before the format is looked at. Then the `json`/`xml`/`csv` reader, chosen case-insensitively, with the corrected `fromXML` for xml and the corrected `fromCSV` for csv; otherwise NotSupportedFormat. |
| Exporter.SingleRecordXmlAsWrittenCannotBeExported | lib/GeoLocator/Ip2LocationExporter.php:116-121 | An XML file of one record, read by `fromXML` as written, gives four NULL slots, and writing those fails with NullRecord. |
| Exporter.Encode | lib/GeoLocator/Ip2LocationExporter.php:157-171 | Succeeds iff the format is a file format and there is no NULL slot. The output kind matches the lower-cased format. Other formats give NotSupportedFormat, and a NULL slot gives NullRecord. |
| Exporter.ExportImportRoundTrip | lib/GeoLocator/Ip2LocationExporter.php:75-96 | Writing records in a file format and reading the file back in that format gives them back (for xml and csv, with the corrected readers). |
| Exporter.ReencodeRoundTrip | lib/GeoLocator/Ip2LocationExporter.php:157-171 | The same, for a collection without NULL slots. |
| Exporter.DecodedAreCanonical | lib/GeoLocator/Ip2LocationExporter.php:75-96 | Every record a successful read yields is canonical. |
| Exporter.ConversionPreservesRecords | lib/GeoLocator/Ip2LocationExporter.php:46-52 | Take an `export` whose output can be written. Reading the output file gives the collection read from the input. |
| Exporter.InsertMissingSnoc | lib/GeoLocator/Ip2LocationExporter.php:242-246 | One more record is added exactly when its key is not found yet. |
| Exporter.InsertMissingExtends | lib/GeoLocator/Ip2LocationExporter.php:241-249 | Existing rows are never removed or altered: the old table is a prefix of the new one. |
| Exporter.InsertMissingUnique | lib/GeoLocator/Ip2LocationExporter.php:241-249 | Saving keeps the keys unique. |
| Exporter.StoredSnoc | lib/GeoLocator/Ip2LocationExporter.php:244 | `find` on a table with one more row finds a key iff it found it before or the new row has it. |
| Exporter.InsertMissingStored | lib/GeoLocator/Ip2LocationExporter.php:241-249 | After saving, a key is present iff it was present before or is the key of a batch record. |
| Exporter.InsertMissingFromBatch | lib/GeoLocator/Ip2LocationExporter.php:246 | Every added row is a batch record. |
| Exporter.InsertMissingFirstWins | lib/GeoLocator/Ip2LocationExporter.php:244-246 | For a key not stored before, the first batch record with that key is stored. |
| Exporter.InsertMissingAllStored | lib/GeoLocator/Ip2LocationExporter.php:244-245 | A batch whose keys are all present changes nothing. |
| Exporter.InsertMissingIdempotent | lib/GeoLocator/Ip2LocationExporter.php:241-249 | Saving the same batch a second time adds nothing. |
| Exporter.Ip2LocationExporter.constructor | lib/GeoLocator/Ip2LocationExporter.php:32-34 | An exporter over the given table, with nothing read and nothing written. |
| Exporter.Ip2LocationExporter.From | lib/GeoLocator/Ip2LocationExporter.php:75-96 | The collection becomes Decode's result. On failure the error is returned and nothing changes. |
| Exporter.Ip2LocationExporter.ToJson | lib/GeoLocator/Ip2LocationExporter.php:176-179 | The file gets the universal array; a NULL slot gives NullRecord with nothing written. |
| Exporter.Ip2LocationExporter.ToXml | lib/GeoLocator/Ip2LocationExporter.php:184-191 | The file gets the `arrayToXML` tree under an empty `geo_locations` root; a NULL slot gives NullRecord with nothing written. |
| Exporter.Ip2LocationExporter.ToCsv | lib/GeoLocator/Ip2LocationExporter.php:220-236 | The file gets CsvText of the universal items; a NULL slot gives NullRecord with nothing written. |
| Exporter.Ip2LocationExporter.ToDb | lib/GeoLocator/Ip2LocationExporter.php:241-249 | The table becomes InsertMissing of the collection and keys stay unique. A NULL slot gives NullRecord and leaves the table as it was, because the flush is never reached. |
| Exporter.Ip2LocationExporter.To | lib/GeoLocator/Ip2LocationExporter.php:157-171 | Dispatches on the lower-cased format: `db` behaves like ToDb, and the other formats like Encode into the file. |
| Exporter.Ip2LocationExporter.Export | lib/GeoLocator/Ip2LocationExporter.php:46-52 | A failed read changes nothing. After a successful read, a `db` target gives NotSupportedFormat and nothing is written. Otherwise the written file is Encode of the collection that was read. |
| Exporter.Ip2LocationExporter.Save | lib/GeoLocator/Ip2LocationExporter.php:64-67 | A failed read changes nothing. Otherwise the table becomes InsertMissing of the collection that was read, or is left as it was when the collection has a NULL slot. |
| Locator.FirstContaining | lib/GeoLocator/IpLocator.php:38-44 | None iff no row contains the address. Otherwise the position of a containing row with no containing row before it. |
| Locator.GeoLocate | lib/GeoLocator/IpLocator.php:36-46 | A bad address gives BadIpAddress. Otherwise: NULL iff no stored range contains the converted address (both ends inclusive), else exactly one stored record, which contains it. |
| Locator.GeoLocateAsWritten | lib/GeoLocator/IpLocator.php:37 | Every call fails with UndefinedFunction. |
| Locator.AsWrittenMissesEveryHit | lib/GeoLocator/IpLocator.php:37 | Where the corrected lookup finds a record, the lookup as written fails. |
| Locator.SameNumberSameRecord | lib/GeoLocator/IpLocator.php:37-42 | The result depends on the address only through the number it converts to. |
| Locator.DottedAndDecimalAgree | lib/GeoLocator/IpLocator.php:37 | A dotted quad, its decimal string and its number locate the same record. |
| Locator.EndpointsInclusive | lib/GeoLocator/IpLocator.php:38 | A range [s, e] is found for s and for e, and not for e + 1 or s − 1. |
| Locator.EarliestRowWins | lib/GeoLocator/IpLocator.php:41-45 | Among overlapping ranges, the one earliest in the table is returned. |
| Locator.LocateAfterSave | lib/GeoLocator/IpLocator.php:38-45 | After `toDB`, every address inside a batch record's range is found. |
| Locator.LocatedAfterSave | lib/GeoLocator/IpLocator.php:38-45 | A record found after `toDB` was in the table before or is a record of the batch. |

`geoLocate` is a function of the table and the address, so it changes nothing.

## Left out

- IPv6: FILTER_VALIDATE_IP also accepts IPv6 addresses, and `ip2long` then
  returns false. The model rejects every non-IPv4 string.
- Geo.IpToLong: `is_numeric` is limited to integers and decimal digit
  strings. The model rejects "1.5", "1e3", negative numbers and numbers of
  2^32 or more, which the source would store after `long2ip` truncated them.
- Geo.NumericFormParses: the BadIpAddress it states for digit strings of
  2^32 or more is the model's range check; the source stores them, as for
  Geo.IpToLong.
- Geo.IntegerFormParses: the BadIpAddress it states for negative integers
  and integers of 2^32 or more is the model's range check; the source stores
  them, as for Geo.IpToLong.
- Geo.NumericCheckPasses: states that the check passes for numbers in
  range only; for numbers out of range the source's check also passes,
  because `long2ip` truncates them.
- Exporter.Decode: `json_decode` and `simplexml_load_string` are not
  modelled. A readable file carries their results, and `Holds` says that they
  read back what was written.
- Text serialization is not modelled:
  - the text that `json_encode` and `asXML` produce;
  - XML escaping in `addChild`;
  - the XML declaration.
- Xml.XmlRoundTrip: requires codes and names that are not blank.
  `json_encode` of an element whose text is blank (empty, or only spaces,
  tabs, line feeds and carriage returns) gives an empty array, not its text.
  The model's `View` follows that rule; such a record is not read back
  (Xml.BlankNameRejected), so the round trip is stated only for text that
  is not blank.
- Xml.RecordsOfRecordElements: stated, like Xml.XmlRoundTrip, only for
  codes and names that are not blank (Xml.XmlSafe).
- Xml.RecordsOfDocument: stated only for codes and names that are not
  blank, as for Xml.RecordsOfRecordElements.
- Xml.XmlRoundTripAsWritten: stated only for codes and names that are not
  blank, as for Xml.XmlRoundTrip.
- Xml.View: models only what `json_encode` of a SimpleXML tree produces for
  SimpleXML trees with tags, text and children. Attributes, mixed content
  and text beside child elements are not modelled.
- Exporter.Decode: XML is read by the corrected `fromXML` (Xml.FromXml).
  As written, a file of one record reads as four NULL slots
  (Xml.SingleRecordXmlAsWritten), after which writing them fails with
  NullRecord (Exporter.SingleRecordXmlAsWrittenCannotBeExported).
- Exporter.Ip2LocationExporter.From: reads XML through the corrected
  `fromXML`, so a one-record XML file loads that record instead of four
  NULL slots, and a following `export` or `save` succeeds.
- Exporter.ExportImportRoundTrip: the xml case holds for the corrected
  `fromXML`; as written it holds for every collection size except one
  (Xml.XmlRoundTripAsWritten). The csv case holds for the corrected
  `fromCSV`; as written it holds when no code or name holds a backslash
  (Csv.CsvRoundTripAsWritten).
- Exporter.ReencodeRoundTrip: the xml and csv cases hold for the corrected
  readers only, as for ExportImportRoundTrip.
- Exporter.ConversionPreservesRecords: the xml and csv cases hold for the
  corrected readers only, as for ExportImportRoundTrip.
- Csv.GetCsv: `str_getcsv` is modelled on characters rather than bytes;
  its multibyte and locale-dependent handling is not modelled. The NULL it
  returns for an empty line is one empty field, which counts as one field
  just as the NULL does.
- Exporter.Decode: CSV is read by the corrected `fromCSV` (Csv.FromCsv),
  which turns escaping off. As written, a code or name ending in a
  backslash escapes its closing quote, and the record is dropped
  (Csv.BackslashCodeDropped).
- The XML tree and the records are values. `arrayToXML`'s by-reference
  `$xml` becomes a returned element. Aliasing between PHP objects put in a
  collection and objects held elsewhere is not modelled.
- Doctrine is a sequence of rows, not an entity manager. SQL leaves the row
  order of `getResult` unspecified; the model takes the first row in table
  order. The table becomes the new table only when the single `flush` is
  reached; records persisted before a failure are dropped.
- Ip2LocationExporter.php never checks the result of `file_put_contents`,
  and neither does the model.
- `IpLocator::find` (IpLocator.php:57-60) calls a `find` method that
  `Ip2LocationExporter` does not define, so it has no behaviour to model.
  The `IpLocator` constructor only stores the entity manager; the table is a
  parameter of `GeoLocate`.
- `ip2location.php` (the command line front end) is not part of this model.
- The three-record test at tests/GeoLocator/GeoLocationTest.php:19-29 is
  covered by Geo.UniversalRoundTrip for every collection, not as a literal.

## Findings

| source | as written | input that shows it | evidently intended | confidence | as-written member | corrected member |
|---|---|---|---|---|---|---|
| lib/GeoLocator/IpLocator.php:37 | `geoLocate` calls a global function `ipToLong`, which does not exist. The only `ipToLong` is a private method of GeoLocation (GeoLocation.php:74), so every call stops with a fatal error. | `geoLocate("84559520")` with a stored range [84559520, 84559527] | Convert the address as GeoLocation does, then run the query | high (not executed) | Locator.GeoLocateAsWritten, Locator.AsWrittenMissesEveryHit | Locator.GeoLocate |
| lib/GeoLocator/Ip2LocationExporter.php:119-120 | `fromXML` passes the decoded `geo_location` value straight to `fromUniversalFormat`. For a document with a single `<geo_location>`, that value is the record's own array rather than a one-item list, so its four field strings become four NULL slots. | the document `toXML` writes for one record ("84559520","84559527","ES","SPAIN") | Read the single record as a one-item list | high (not executed) | Xml.FromXmlAsWritten, Xml.SingleRecordXmlAsWritten | Xml.FromXml, Xml.XmlRoundTrip |
| lib/GeoLocator/Ip2LocationExporter.php:135 | `fromCSV` splits each row with `str_getcsv($row)`, whose escape character is the backslash by default, while `toCSV` (lines 220-236) writes fields between quotes without escaping anything. A field ending in a backslash therefore escapes its own closing quote, the row reads as three fields, and the record is dropped. | the record with start 1, end 2, code `\` and name `X`, written by `toCSV` as `"1","2","\","X"` | Read rows with escaping off (an empty escape argument), so that every written field comes back | high (not executed) | Csv.FromCsvAsWritten, Csv.BackslashCodeDropped | Csv.FromCsv, Csv.CsvRoundTrip |
