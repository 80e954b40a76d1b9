/**
 * `Ip2LocationExporter`: reads a collection of GeoLocations from a JSON, XML
 * or CSV file, writes it to a file in one of those formats, or stores it in
 * the `geolocations` table through the entity manager.
 */
module Exporter {
  import opened Wrappers
  import opened Errors
  import opened PhpStrings
  import opened PhpArrays
  import opened Geo
  import opened Csv
  import opened Xml
  import opened PhpIp

  /**
   * An input file: absent, unreadable (including `file_get_contents`
   * returning false), or readable, with its text and what the external
   * parsers make of it: `json_decode($text, true)` and
   * `simplexml_load_string($text)` (None when the text is not XML).
   */
  datatype File =
    | Missing
    | Unreadable
    | Readable(text: string, json: Value, xml: Option<Element>)

  /** What `toJSON`, `toXML` and `toCSV` hand to `file_put_contents`. */
  datatype Output =
    | JsonOut(data: Value)
    | XmlOut(root: Element)
    | CsvOut(text: string)

  /**
   * A file holds an output when the parsers read back what was written:
   * `json_decode(json_encode($u), true)` gives `u` again, `simplexml_load_string`
   * of `asXML()` gives the same tree, and the CSV text is the file's text.
   */
  predicate Holds(f: File, o: Output)
  {
    f.Readable? &&
    match o
    case JsonOut(d) => f.json == d
    case XmlOut(r) => f.xml == Some(r)
    case CsvOut(t) => f.text == t
  }

  /** The formats `from` and `to` convert, compared after `strtolower`. */
  predicate IsFileFormat(format: string)
  {
    Lower(format) == "json" || Lower(format) == "xml" || Lower(format) == "csv"
  }

  /**
   * `from($type, $filename)`: IOException before anything else when the
   * file cannot be read, then the reader of the lower-cased format, and
   * NotSupportedFormat for any other format. XML is read by the corrected
   * `fromXML` (Xml.FromXml), which also accepts a file of one record;
   * CSV by the corrected `fromCSV` (Csv.FromCsv), which reads with
   * escaping off so that a backslash before a closing quote stays data.
   */
  function Decode(format: string, f: File): (r: Result<seq<Option<GeoRange>>, Error>)
    ensures !f.Readable? ==> r == Failure(IOException)
    ensures f.Readable? && !IsFileFormat(format) ==> r == Failure(NotSupportedFormat)
    ensures f.Readable? && Lower(format) == "json" ==> r == FromUniversal(f.json)
    ensures f.Readable? && Lower(format) == "xml" ==> r == FromXml(f.xml)
    ensures f.Readable? && Lower(format) == "csv" ==> r == FromCsv(f.text)
  {
    var t := Lower(format);
    if !f.Readable? then Failure(IOException)
    else if t == "json" then FromUniversal(f.json)
    else if t == "xml" then FromXml(f.xml)
    else if t == "csv" then FromCsv(f.text)
    else Failure(NotSupportedFormat)
  }

  /**
   * `to($type, $filename)` for the file formats: the universal array as JSON
   * data, as the `arrayToXML` tree, or as CSV text; NotSupportedFormat for
   * any other format, and the NULL-slot error of `toUniversalFormat`.
   */
  function Encode(format: string, gs: seq<Option<GeoRange>>): (r: Result<Output, Error>)
    ensures r.Success? <==> IsFileFormat(format) && NoNullSlot(gs)
    ensures !IsFileFormat(format) ==> r == Failure(NotSupportedFormat)
    ensures IsFileFormat(format) && !NoNullSlot(gs) ==> r == Failure(NullRecord)
    ensures r.Success? ==> (Lower(format) == "json" <==> r.value.JsonOut?)
    ensures r.Success? ==> (Lower(format) == "xml" <==> r.value.XmlOut?)
    ensures r.Success? ==> (Lower(format) == "csv" <==> r.value.CsvOut?)
  {
    var t := Lower(format);
    if t == "json" then
      var u :- ToUniversal(gs);
      Success(JsonOut(u))
    else if t == "xml" then
      var u :- ToUniversal(gs);
      Success(XmlOut(Document(u)))
    else if t == "csv" then
      var u :- ToUniversal(gs);
      Success(CsvOut(CsvText(Items(u))))
    else Failure(NotSupportedFormat)
  }

  lemma EncodeOfWriter(format: string, gs: seq<Option<GeoRange>>)
    requires IsFileFormat(format)
    ensures !NoNullSlot(gs) ==> Encode(format, gs) == Failure(NullRecord)
    ensures NoNullSlot(gs) && Lower(format) == "json" ==> Encode(format, gs) == Success(JsonOut(ToUniversal(gs).value))
    ensures NoNullSlot(gs) && Lower(format) == "xml" ==> Encode(format, gs) == Success(XmlOut(Document(ToUniversal(gs).value)))
    ensures NoNullSlot(gs) && Lower(format) == "csv" ==>
              Encode(format, gs) == Success(CsvOut(CsvText(Items(ToUniversal(gs).value))))
  {
  }

  /** What a format needs of a record for it to survive a write and a read. */
  predicate Survives(format: string, g: GeoRange)
  {
    Canonical(g) &&
    (Lower(format) == "xml" ==> XmlSafe(g)) &&
    (Lower(format) == "csv" ==> Safe(g.countryCode, None) && Safe(g.countryName, None))
  }

  /** Writing records in a file format and reading the file back in that format gives the records again. */
  lemma ExportImportRoundTrip(format: string, rs: seq<GeoRange>, f: File)
    requires IsFileFormat(format)
    requires forall i :: 0 <= i < |rs| ==> Survives(format, rs[i])
    requires Holds(f, Encode(format, Slots(rs)).value)
    ensures Encode(format, Slots(rs)).Success?
    ensures Decode(format, f) == Success(Slots(rs))
  {
    var t := Lower(format);
    if t == "json" {
      UniversalRoundTrip(rs);
    } else if t == "xml" {
      XmlRoundTrip(rs);
    } else {
      CsvRoundTrip(rs);
    }
  }

  /**
   * A file holding one record written as XML, read back by `fromXML` as
   * written, yields four NULL slots, which no later export or save accepts
   * (the corrected reader yields the record: ExportImportRoundTrip).
   */
  lemma SingleRecordXmlAsWrittenCannotBeExported(format: string, g: GeoRange, f: File)
    requires Lower(format) == "xml" && XmlSafe(g)
    requires Encode(format, [Some(g)]).Success? && Holds(f, Encode(format, [Some(g)]).value)
    ensures FromXmlAsWritten(f.xml) == Success([None, None, None, None])
    ensures Encode(format, [None, None, None, None]) == Failure(NullRecord)
  {
    EncodeOfWriter(format, [Some(g)]);
    assert f.xml == Some(Document(ToUniversal([Some(g)]).value));
    SingleRecordXmlAsWritten(g);
    EncodeOfWriter(format, [None, None, None, None]);
  }

  /** The records a successful read yields are all in canonical form. */
  lemma DecodedAreCanonical(format: string, f: File)
    requires Decode(format, f).Success?
    ensures forall i :: 0 <= i < |Decode(format, f).value| && Decode(format, f).value[i].Some? ==>
              Canonical(Decode(format, f).value[i].value)
  {
  }

  /** The records of a collection without NULL slots. */
  function Values(gs: seq<Option<GeoRange>>): (rs: seq<GeoRange>)
    requires NoNullSlot(gs)
    ensures |rs| == |gs| && Slots(rs) == gs
  {
    var rs := seq(|gs|, i requires 0 <= i < |gs| => gs[i].value);
    assert Slots(rs) == gs;
    rs
  }

  /** Writing a collection without NULL slots of canonical, format-safe records and reading it back gives the collection. */
  lemma ReencodeRoundTrip(format: string, gs: seq<Option<GeoRange>>, f: File)
    requires IsFileFormat(format) && NoNullSlot(gs)
    requires forall i :: 0 <= i < |gs| ==> Survives(format, gs[i].value)
    requires Holds(f, Encode(format, gs).value)
    ensures Encode(format, gs).Success?
    ensures Decode(format, f) == Success(gs)
  {
    var rs := Values(gs);
    assert Slots(rs) == gs;
    forall i | 0 <= i < |rs|
      ensures Survives(format, rs[i])
    {
      assert rs[i] == gs[i].value;
    }
    ExportImportRoundTrip(format, rs, f);
  }

  lemma ValuesSnoc(gs: seq<Option<GeoRange>>, i: nat)
    requires i < |gs| && NoNullSlot(gs[..i]) && gs[i].Some?
    ensures NoNullSlot(gs[..i + 1]) && Values(gs[..i + 1]) == Values(gs[..i]) + [gs[i].value]
  {
    assert gs[..i + 1] == gs[..i] + [gs[i]];
  }

  /**
   * `export` from one file format to another: whenever the input collection
   * can be written, reading the written file gives the collection that was
   * read from the input.
   */
  lemma ConversionPreservesRecords(inFormat: string, input: File, outFormat: string, output: File)
    requires Decode(inFormat, input).Success? && NoNullSlot(Decode(inFormat, input).value)
    requires IsFileFormat(outFormat)
    requires forall i :: 0 <= i < |Decode(inFormat, input).value| ==>
               (Lower(outFormat) == "xml" ==> XmlSafe(Decode(inFormat, input).value[i].value)) &&
               (Lower(outFormat) == "csv" ==> Safe(Decode(inFormat, input).value[i].value.countryCode, None)
                                              && Safe(Decode(inFormat, input).value[i].value.countryName, None))
    requires Holds(output, Encode(outFormat, Decode(inFormat, input).value).value)
    ensures Encode(outFormat, Decode(inFormat, input).value).Success?
    ensures Decode(outFormat, output) == Decode(inFormat, input)
  {
    var gs := Decode(inFormat, input).value;
    DecodedAreCanonical(inFormat, input);
    ReencodeRoundTrip(outFormat, gs, output);
  }

  // The database: the rows of the `geolocations` table, keyed by (ip_from, ip_to).

  /** The primary key of a record. */
  function Id(g: GeoRange): (Ip32, Ip32)
  {
    (g.startIp, g.endIp)
  }

  /** `$em->find('GeoLocator\GeoLocation', $keys)` finds an object. */
  predicate Stored(store: seq<GeoRange>, k: (Ip32, Ip32))
  {
    exists i :: 0 <= i < |store| && Id(store[i]) == k
  }

  /** No two rows share a primary key. */
  predicate UniqueIds(store: seq<GeoRange>)
  {
    forall i, j :: 0 <= i < j < |store| ==> Id(store[i]) != Id(store[j])
  }

  /**
   * The table after `toDB` of `batch`: each record whose key is not found is
   * persisted, and `find` sees the records persisted earlier in the batch,
   * so a later record with the same key is skipped.
   */
  function InsertMissing(store: seq<GeoRange>, batch: seq<GeoRange>): seq<GeoRange>
  {
    if batch == [] then store
    else
      var p := InsertMissing(store, batch[..|batch| - 1]);
      var g := batch[|batch| - 1];
      if Stored(p, Id(g)) then p else p + [g]
  }

  /** Saving one more record: it is added unless its key is already stored. */
  lemma InsertMissingSnoc(store: seq<GeoRange>, batch: seq<GeoRange>, g: GeoRange)
    ensures InsertMissing(store, batch + [g]) ==
              if Stored(InsertMissing(store, batch), Id(g)) then InsertMissing(store, batch) else InsertMissing(store, batch) + [g]
  {
    assert (batch + [g])[..|batch|] == batch;
  }

  /** Saving never removes or alters a row: the old table is a prefix of the new one. */
  lemma {:induction false} InsertMissingExtends(store: seq<GeoRange>, batch: seq<GeoRange>)
    ensures |store| <= |InsertMissing(store, batch)| && InsertMissing(store, batch)[..|store|] == store
  {
    if batch != [] {
      var p := InsertMissing(store, batch[..|batch| - 1]);
      InsertMissingExtends(store, batch[..|batch| - 1]);
      assert (p + [batch[|batch| - 1]])[..|store|] == p[..|store|];
    }
  }

  /** Saving keeps primary keys unique. */
  lemma {:induction false} InsertMissingUnique(store: seq<GeoRange>, batch: seq<GeoRange>)
    requires UniqueIds(store)
    ensures UniqueIds(InsertMissing(store, batch))
  {
    if batch != [] {
      InsertMissingUnique(store, batch[..|batch| - 1]);
    }
  }

  /** A batch holds a record with key `k`. */
  predicate InBatch(batch: seq<GeoRange>, k: (Ip32, Ip32))
  {
    exists i :: 0 <= i < |batch| && Id(batch[i]) == k
  }

  lemma StoredSnoc(s: seq<GeoRange>, g: GeoRange, k: (Ip32, Ip32))
    ensures Stored(s + [g], k) <==> Stored(s, k) || Id(g) == k
    ensures InBatch(s + [g], k) <==> InBatch(s, k) || Id(g) == k
  {
    if Stored(s + [g], k) {
      var j :| 0 <= j < |s + [g]| && Id((s + [g])[j]) == k;
      if j < |s| {
        assert Id(s[j]) == k;
      }
    }
    if Stored(s, k) {
      var j :| 0 <= j < |s| && Id(s[j]) == k;
      assert Id((s + [g])[j]) == k;
    }
    assert (s + [g])[|s|] == g;
  }

  /** After saving, a key is stored exactly when it was stored before or belongs to a record of the batch. */
  lemma {:induction false} InsertMissingStored(store: seq<GeoRange>, batch: seq<GeoRange>, k: (Ip32, Ip32))
    ensures Stored(InsertMissing(store, batch), k) <==> Stored(store, k) || InBatch(batch, k)
  {
    if batch != [] {
      var n := |batch| - 1;
      var init := batch[..n];
      var g := batch[n];
      assert batch == init + [g];
      InsertMissingStored(store, init, k);
      StoredSnoc(init, g, k);
      StoredSnoc(InsertMissing(store, init), g, k);
    }
  }

  /** Every row added by saving is a record of the batch. */
  lemma {:induction false} InsertMissingFromBatch(store: seq<GeoRange>, batch: seq<GeoRange>)
    ensures forall j :: |store| <= j < |InsertMissing(store, batch)| ==> InsertMissing(store, batch)[j] in batch
  {
    if batch != [] {
      var n := |batch| - 1;
      InsertMissingFromBatch(store, batch[..n]);
      InsertMissingExtends(store, batch[..n]);
      assert forall x :: x in batch[..n] ==> x in batch;
    }
  }

  /** The first record of the batch with a key not yet stored is the one saved for that key. */
  lemma {:induction false} InsertMissingFirstWins(store: seq<GeoRange>, batch: seq<GeoRange>, i: nat)
    requires i < |batch| && !Stored(store, Id(batch[i]))
    requires forall j :: 0 <= j < i ==> Id(batch[j]) != Id(batch[i])
    ensures batch[i] in InsertMissing(store, batch)
    decreases |batch|
  {
    var n := |batch| - 1;
    var init := batch[..n];
    var p := InsertMissing(store, init);
    if i == n {
      InsertMissingStored(store, init, Id(batch[i]));
      assert !Stored(p, Id(batch[i]));
    } else {
      InsertMissingFirstWins(store, init, i);
      assert batch[i] in p;
    }
  }

  /** Saving the same batch twice stores what saving it once does. */
  lemma {:induction false} InsertMissingIdempotent(store: seq<GeoRange>, batch: seq<GeoRange>)
    ensures InsertMissing(InsertMissing(store, batch), batch) == InsertMissing(store, batch)
  {
    var s := InsertMissing(store, batch);
    forall i | 0 <= i < |batch|
      ensures Stored(s, Id(batch[i]))
    {
      InsertMissingStored(store, batch, Id(batch[i]));
    }
    InsertMissingAllStored(s, batch);
  }

  /** Saving a batch whose every key is already stored changes nothing. */
  lemma {:induction false} InsertMissingAllStored(store: seq<GeoRange>, batch: seq<GeoRange>)
    requires forall i :: 0 <= i < |batch| ==> Stored(store, Id(batch[i]))
    ensures InsertMissing(store, batch) == store
  {
    if batch != [] {
      var n := |batch| - 1;
      InsertMissingAllStored(store, batch[..n]);
      assert Stored(store, Id(batch[n]));
    }
  }

  class Ip2LocationExporter {
    /** The collection read by the last successful `from`. */
    var geoLocations: seq<Option<GeoRange>>
    /** The `geolocations` table behind the entity manager. */
    var store: seq<GeoRange>
    /** The files written so far, by name. */
    var files: map<string, Output>

    predicate Valid()
      reads this
    {
      UniqueIds(store)
    }

    /** The constructor: an entity manager over the table `db`; nothing read yet. */
    constructor (db: seq<GeoRange>)
      requires UniqueIds(db)
      ensures Valid() && store == db && geoLocations == [] && files == map[]
    {
      store := db;
      geoLocations := [];
      files := map[];
    }

    /**
     * `from`: the collection read from `input` replaces the current one; on
     * failure nothing changes. XML and CSV are read by the corrected `fromXML` and `fromCSV`.
     */
    method From(format: string, input: File) returns (o: Outcome<Error>)
      modifies this
      ensures Decode(format, input).Success? ==> o == Pass && geoLocations == Decode(format, input).value
      ensures Decode(format, input).Failure? ==>
                o == Fail(Decode(format, input).error) && geoLocations == old(geoLocations)
      ensures store == old(store) && files == old(files)
    {
      var t := Lower(format);
      if !input.Readable? {
        return Fail(IOException);
      }
      var r: Result<seq<Option<GeoRange>>, Error>;
      if t == "json" {
        r := FromUniversalFormat(input.json);
      } else if t == "xml" {
        r := FromUniversalFormat(XmlInput(input.xml));
      } else if t == "csv" {
        var rows := ParseRows(input.text, None);
        r := FromUniversalFormat(List(rows));
      } else {
        return Fail(NotSupportedFormat);
      }
      if r.Failure? {
        return Fail(r.error);
      }
      geoLocations := r.value;
      return Pass;
    }

    /** `toJSON`. */
    method ToJson(path: string) returns (o: Outcome<Error>)
      modifies this
      ensures NoNullSlot(geoLocations) ==> o == Pass && files == old(files)[path := JsonOut(ToUniversal(geoLocations).value)]
      ensures !NoNullSlot(geoLocations) ==> o == Fail(NullRecord) && files == old(files)
      ensures geoLocations == old(geoLocations) && store == old(store)
    {
      var u := ToUniversalFormat(geoLocations);
      if u.Failure? {
        return Fail(u.error);
      }
      files := files[path := JsonOut(u.value)];
      return Pass;
    }

    /** `toXML`: the tree `arrayToXML` builds under an empty `geo_locations` root. */
    method ToXml(path: string) returns (o: Outcome<Error>)
      modifies this
      ensures NoNullSlot(geoLocations) ==> o == Pass && files == old(files)[path := XmlOut(Document(ToUniversal(geoLocations).value))]
      ensures !NoNullSlot(geoLocations) ==> o == Fail(NullRecord) && files == old(files)
      ensures geoLocations == old(geoLocations) && store == old(store)
    {
      var u := ToUniversalFormat(geoLocations);
      if u.Failure? {
        return Fail(u.error);
      }
      var xml := ArrayToXml(u.value, Element(RootTag, "", []));
      assert xml.children == Nodes(u.value);
      files := files[path := XmlOut(xml)];
      return Pass;
    }

    /** `toCSV`. */
    method ToCsv(path: string) returns (o: Outcome<Error>)
      modifies this
      ensures NoNullSlot(geoLocations) ==> o == Pass && files == old(files)[path := CsvOut(CsvText(Items(ToUniversal(geoLocations).value)))]
      ensures !NoNullSlot(geoLocations) ==> o == Fail(NullRecord) && files == old(files)
      ensures geoLocations == old(geoLocations) && store == old(store)
    {
      var u := ToUniversalFormat(geoLocations);
      if u.Failure? {
        return Fail(u.error);
      }
      var text := WriteText(Items(u.value));
      files := files[path := CsvOut(text)];
      return Pass;
    }

    /**
     * `toDB`: every record whose key `find` does not see is persisted, and
     * the single `flush` at the end commits them; a NULL slot raises before
     * the flush, so the table is left as it was.
     */
    method ToDb() returns (o: Outcome<Error>)
      requires Valid()
      modifies this
      ensures NoNullSlot(geoLocations) ==> o == Pass && store == InsertMissing(old(store), Values(geoLocations))
      ensures !NoNullSlot(geoLocations) ==> o == Fail(NullRecord) && store == old(store)
      ensures Valid() && geoLocations == old(geoLocations) && files == old(files)
    {
      var gs := geoLocations;
      var base := store;
      ghost var batch: seq<GeoRange> := [];
      var pending := base;
      for i := 0 to |gs|
        invariant NoNullSlot(gs[..i]) && batch == Values(gs[..i])
        invariant pending == InsertMissing(base, batch)
        invariant gs == geoLocations && base == store && files == old(files)
      {
        if gs[i].None? {
          assert !NoNullSlot(gs);
          return Fail(NullRecord);
        }
        var g := gs[i].value;
        ValuesSnoc(gs, i);
        InsertMissingSnoc(base, batch, g);
        batch := batch + [g];
        if !Stored(pending, Id(g)) {
          pending := pending + [g];
        }
      }
      assert gs[..|gs|] == gs;
      InsertMissingUnique(base, batch);
      store := pending;
      return Pass;
    }

    /** `to`: the writer of the lower-cased format, `toDB` for "db", NotSupportedFormat otherwise. */
    method To(format: string, path: string) returns (o: Outcome<Error>)
      requires Valid()
      modifies this
      ensures Lower(format) == "db" ==>
                (NoNullSlot(geoLocations) ==> o == Pass && store == InsertMissing(old(store), Values(geoLocations))) &&
                (!NoNullSlot(geoLocations) ==> o == Fail(NullRecord) && store == old(store)) &&
                files == old(files)
      ensures Lower(format) != "db" ==>
                var e := Encode(format, geoLocations);
                (e.Success? ==> o == Pass && files == old(files)[path := e.value]) &&
                (e.Failure? ==> o == Fail(e.error) && files == old(files)) &&
                store == old(store)
      ensures Valid() && geoLocations == old(geoLocations)
    {
      var t := Lower(format);
      if IsFileFormat(format) {
        EncodeOfWriter(format, geoLocations);
      }
      if t == "json" {
        o := ToJson(path);
      } else if t == "xml" {
        o := ToXml(path);
      } else if t == "csv" {
        o := ToCsv(path);
      } else if t == "db" {
        o := ToDb();
      } else {
        o := Fail(NotSupportedFormat);
      }
    }

    /**
     * `export`: read the input, refuse "db" as output format, then write the
     * output file. A failed read changes nothing; a refused or failed write
     * leaves the collection that was read.
     */
    method Export(input: File, inFormat: string, path: string, outFormat: string) returns (o: Outcome<Error>)
      requires Valid()
      modifies this
      ensures var d := Decode(inFormat, input);
        (d.Failure? ==> o == Fail(d.error) && geoLocations == old(geoLocations) && files == old(files)) &&
        (d.Success? && Lower(outFormat) == "db" ==>
           o == Fail(NotSupportedFormat) && geoLocations == d.value && files == old(files)) &&
        (d.Success? && Lower(outFormat) != "db" ==>
           geoLocations == d.value &&
           var e := Encode(outFormat, d.value);
           (e.Success? ==> o == Pass && files == old(files)[path := e.value]) &&
           (e.Failure? ==> o == Fail(e.error) && files == old(files)))
      ensures Valid() && store == old(store)
    {
      o := From(inFormat, input);
      if o.Fail? {
        return;
      }
      if Lower(outFormat) == "db" {
        return Fail(NotSupportedFormat);
      }
      o := To(outFormat, path);
    }

    /** `save`: read the input, then store its records with `toDB`. */
    method Save(input: File, inFormat: string) returns (o: Outcome<Error>)
      requires Valid()
      modifies this
      ensures var d := Decode(inFormat, input);
        (d.Failure? ==> o == Fail(d.error) && geoLocations == old(geoLocations) && store == old(store)) &&
        (d.Success? && NoNullSlot(d.value) ==>
           o == Pass && geoLocations == d.value && store == InsertMissing(old(store), Values(d.value))) &&
        (d.Success? && !NoNullSlot(d.value) ==>
           o == Fail(NullRecord) && geoLocations == d.value && store == old(store))
      ensures Valid() && files == old(files)
    {
      o := From(inFormat, input);
      if o.Fail? {
        return;
      }
      ghost var d := Decode(inFormat, input);
      assert geoLocations == d.value;
      assert Lower("db") == "db";
      o := To("db", "");
    }
  }
}
