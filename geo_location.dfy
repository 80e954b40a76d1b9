/**
 * The GeoLocation entity: one IPv4 interval attributed to a country, its
 * validating setters, and its conversions to and from the four-key
 * "universal" array that every file format goes through.
 */
module Geo {
  import opened Wrappers
  import opened Errors
  import opened PhpStrings
  import opened PhpArrays
  import opened PhpIp

  // Keys of the universal format, and the XML tag of one record.
  const StartIpKey: string := "start_ip"
  const EndIpKey: string := "end_ip"
  const CountryCodeKey: string := "country_code"
  const CountryNameKey: string := "country_name"
  const GeoLocationTag: string := "geo_location"

  /** One universal-format record: the four string fields, in key order. */
  function UniversalItem(startIp: string, endIp: string, code: string, name: string): Value
  {
    Arr([Entry(StrKey(StartIpKey), Str(startIp)), Entry(StrKey(EndIpKey), Str(endIp)),
         Entry(StrKey(CountryCodeKey), Str(code)), Entry(StrKey(CountryNameKey), Str(name))])
  }

  lemma UniversalItemFields(a: string, b: string, c: string, d: string)
    ensures var e := UniversalItem(a, b, c, d).entries;
      |e| == 4 &&
      Get(e, StrKey(StartIpKey)) == Some(Str(a)) && Get(e, StrKey(EndIpKey)) == Some(Str(b)) &&
      Get(e, StrKey(CountryCodeKey)) == Some(Str(c)) && Get(e, StrKey(CountryNameKey)) == Some(Str(d))
  {
    var e := UniversalItem(a, b, c, d).entries;
    assert StartIpKey[0] == 's' && EndIpKey[0] == 'e' && CountryCodeKey[8] == 'c' && CountryNameKey[8] == 'n';
    var e1, e2, e3 := e[1..], e[2..], e[3..];
    assert e1[1..] == e2 && e2[1..] == e3;
    assert Get(e, StrKey(EndIpKey)) == Get(e1, StrKey(EndIpKey));
    assert Get(e, StrKey(CountryCodeKey)) == Get(e1, StrKey(CountryCodeKey)) == Get(e2, StrKey(CountryCodeKey));
    assert Get(e, StrKey(CountryNameKey)) == Get(e1, StrKey(CountryNameKey)) == Get(e2, StrKey(CountryNameKey))
        == Get(e3, StrKey(CountryNameKey));
  }

  predicate HasAllKeys(v: Value)
  {
    Isset(v, StartIpKey) && Isset(v, EndIpKey) && Isset(v, CountryCodeKey) && Isset(v, CountryNameKey)
  }

  function Field(v: Value, k: string): Value
    requires Isset(v, k)
  {
    Get(v.entries, StrKey(k)).value
  }

  /** The value of a GeoLocation record: what its four fields hold. */
  datatype GeoRange = GeoRange(startIp: Ip32, endIp: Ip32, countryCode: string, countryName: string)
  {
    /** `getStartIp`: the stored number as a decimal string. */
    function GetStartIp(): (s: string)
      ensures |s| > 0 && IsDigits(s) && DecimalValue(s) == startIp
      ensures s[0] == '0' ==> |s| == 1
    {
      DecimalValueOfString(startIp);
      DecimalString(startIp)
    }

    /** `getEndIp`: the stored number as a decimal string. */
    function GetEndIp(): (s: string)
      ensures |s| > 0 && IsDigits(s) && DecimalValue(s) == endIp
      ensures s[0] == '0' ==> |s| == 1
    {
      DecimalValueOfString(endIp);
      DecimalString(endIp)
    }

    /**
     * `toArray`: exactly the four universal keys; the addresses as decimal
     * strings that convert back to the stored numbers.
     */
    function ToArray(): (v: Value)
      ensures HasAllKeys(v) && |v.entries| == 4
      ensures Field(v, StartIpKey) == Str(GetStartIp()) && Field(v, EndIpKey) == Str(GetEndIp())
      ensures Field(v, CountryCodeKey) == Str(countryCode)
      ensures Field(v, CountryNameKey) == Str(countryName)
    {
      UniversalItemFields(GetStartIp(), GetEndIp(), countryCode, countryName);
      UniversalItem(GetStartIp(), GetEndIp(), countryCode, countryName)
    }
  }

  /** `is_numeric`, restricted to integers and non-empty strings of decimal digits. */
  predicate IsNumeric(v: Value)
  {
    v.Int? || (v.Str? && |v.s| > 0 && IsDigits(v.s))
  }

  /** `intval` of a numeric value. */
  function IntVal(v: Value): int
    requires IsNumeric(v)
  {
    if v.Int? then v.i else DecimalValue(v.s)
  }

  /**
   * `ipToLong`: a numeric value is kept as its number once `long2ip` of it
   * passes FILTER_VALIDATE_IP, which holds for every 32-bit number
   * (Long2IpValid), so only the range is tested here; anything else must be a
   * valid dotted quad and is converted by `ip2long`. Every other input raises
   * BadIpAddress.
   */
  function IpToLong(ip: Value): (r: Result<Ip32, Error>)
    ensures r.Failure? ==> r.error == BadIpAddress
  {
    if IsNumeric(ip) then
      var n := IntVal(ip);
      if 0 <= n < 0x1_0000_0000 then Success(n) else Failure(BadIpAddress)
    else if ip.Str? && IsIpv4(ip.s) then Success(Ip2Long(ip.s))
    else Failure(BadIpAddress)
  }

  lemma QuadHasDot(a: nat, b: nat, c: nat, d: nat)
    ensures !IsDigits(Quad(a, b, c, d))
  {
    var s := Quad(a, b, c, d);
    assert s[|DecimalString(a)|] == '.';
  }

  /** The numeric branch's FILTER_VALIDATE_IP test on `long2ip` passes for every 32-bit number. */
  lemma NumericCheckPasses(ip: Value)
    requires IsNumeric(ip) && 0 <= IntVal(ip) < 0x1_0000_0000
    ensures IsIpv4(Long2Ip(IntVal(ip)))
  {
    Long2IpValid(IntVal(ip));
  }

  /**
   * Any non-empty string of decimal digits, leading zeros included, whose
   * value fits in 32 bits is stored as that value; one whose value does not
   * fit is refused.
   */
  lemma NumericFormParses(s: string)
    requires |s| > 0 && IsDigits(s)
    ensures DecimalValue(s) < 0x1_0000_0000 ==> IpToLong(Str(s)) == Success(DecimalValue(s))
    ensures DecimalValue(s) >= 0x1_0000_0000 ==> IpToLong(Str(s)) == Failure(BadIpAddress)
  {
  }

  /** An integer is stored as itself when it fits in 32 bits, and refused otherwise. */
  lemma IntegerFormParses(n: int)
    ensures 0 <= n < 0x1_0000_0000 ==> IpToLong(Int(n)) == Success(n)
    ensures !(0 <= n < 0x1_0000_0000) ==> IpToLong(Int(n)) == Failure(BadIpAddress)
  {
  }

  /** A leading zero does not change the value of a string of digits. */
  lemma {:induction false} LeadingZeroValue(s: string)
    requires IsDigits(s)
    ensures IsDigits("0" + s) && DecimalValue("0" + s) == DecimalValue(s)
    decreases |s|
  {
    if s != [] {
      var p := s[..|s| - 1];
      LeadingZeroValue(p);
      assert ("0" + s)[..|"0" + s| - 1] == "0" + p;
    }
  }

  /** A leading zero does not change what a decimal string converts to. */
  lemma LeadingZeroIgnored(s: string)
    requires |s| > 0 && IsDigits(s)
    ensures IpToLong(Str("0" + s)) == IpToLong(Str(s))
  {
    LeadingZeroValue(s);
    NumericFormParses(s);
    NumericFormParses("0" + s);
  }

  /** The decimal string `strval` prints for a 32-bit number is stored as that number. */
  lemma DecimalFormParses(n: Ip32)
    ensures IpToLong(Str(DecimalString(n))) == Success(n)
  {
    DecimalValueOfString(n);
    NumericFormParses(DecimalString(n));
  }

  /** A dotted quad `a.b.c.d` is stored as its 32-bit big-endian value. */
  lemma DottedQuadIsBigEndian(a: nat, b: nat, c: nat, d: nat)
    requires a <= 255 && b <= 255 && c <= 255 && d <= 255
    ensures IpToLong(Str(Quad(a, b, c, d))) == Success(a * 0x100_0000 + b * 0x1_0000 + c * 0x100 + d)
  {
    QuadHasDot(a, b, c, d);
    QuadIsBigEndian(a, b, c, d);
  }

  /** Both printed forms of an address, dotted and decimal, convert to the same number. */
  lemma BothFormsAgree(n: Ip32)
    ensures IpToLong(Str(Long2Ip(n))) == Success(n)
    ensures IpToLong(Str(DecimalString(n))) == Success(n)
  {
    QuadHasDot(n / 0x100_0000, n / 0x1_0000 % 0x100, n / 0x100 % 0x100, n % 0x100);
    Long2IpValid(n);
    DecimalFormParses(n);
  }

  /** A string accepted as a dotted quad is exactly `long2ip` of the number stored for it. */
  lemma AcceptedQuadIsCanonical(s: string)
    requires !IsDigits(s) && IpToLong(Str(s)).Success?
    ensures IsIpv4(s) && Long2Ip(IpToLong(Str(s)).value) == s
  {
    Ipv4IsCanonical(s);
  }

  /** A dotted quad with a part above 255, such as "999.999.999.999", is refused. */
  lemma OversizedPartRejected(a: nat, b: nat, c: nat, d: nat)
    requires a > 255 || b > 255 || c > 255 || d > 255
    ensures IpToLong(Str(Quad(a, b, c, d))) == Failure(BadIpAddress)
  {
    QuadHasDot(a, b, c, d);
    var parts := [DecimalString(a), DecimalString(b), DecimalString(c), DecimalString(d)];
    forall i | 0 <= i < 4
      ensures '.' !in parts[i]
    {
      DigitsExclude(parts[i], '.');
    }
    SplitJoin(parts, '.');
    DecimalValueOfString(a);
    DecimalValueOfString(b);
    DecimalValueOfString(c);
    DecimalValueOfString(d);
  }

  /** `trim($s, "\" ")` followed by `strtoupper`: how code and name are stored. */
  function Canonicalize(s: string): string
  {
    Upper(Trim(s))
  }

  /** Canonicalizing twice is canonicalizing once. */
  lemma CanonicalizeIdempotent(s: string)
    ensures Canonicalize(Canonicalize(s)) == Canonicalize(s)
  {
    var t := Trim(s);
    UpperKeepsUntrimmable(t);
    UpperIdempotent(t);
  }

  predicate IsCanonicalName(s: string) { Canonicalize(s) == s }

  /** The code's limit is on bytes, as PHP's `strlen` counts them. */
  predicate IsCanonicalCode(s: string) { IsCanonicalName(s) && ByteLength(s) <= 2 }

  /** What the setters guarantee of a record: code and name stored in canonical form. */
  predicate Canonical(g: GeoRange)
  {
    IsCanonicalCode(g.countryCode) && IsCanonicalName(g.countryName)
  }

  /**
   * `setCountryCode`'s validation: a string whose trimmed form has a `strlen`
   * of at most two bytes is stored trimmed and upper-cased; anything else
   * raises BadCountryCode.
   */
  function NormalizeCountryCode(code: Value): (r: Result<string, Error>)
    ensures r.Success? <==> code.Str? && ByteLength(Trim(code.s)) <= 2
    ensures r.Failure? ==> r.error == BadCountryCode
    ensures r.Success? ==> r.value == Upper(Trim(code.s)) && IsCanonicalCode(r.value) && HasNoLowercase(r.value)
  {
    if !code.Str? then Failure(BadCountryCode)
    else
      var t := Trim(code.s);
      if ByteLength(t) > 2 then Failure(BadCountryCode)
      else
        CanonicalizeIdempotent(code.s);
        UpperKeepsByteLength(t);
        UpperIdempotent(t);
        Success(Upper(t))
  }

  /**
   * `setCountryName`'s validation: any string is stored trimmed and upper-cased,
   * with no length limit; a non-string raises BadCountryName.
   */
  function NormalizeCountryName(name: Value): (r: Result<string, Error>)
    ensures r.Success? <==> name.Str?
    ensures r.Failure? ==> r.error == BadCountryName
    ensures r.Success? ==> r.value == Upper(Trim(name.s)) && IsCanonicalName(r.value) && HasNoLowercase(r.value)
  {
    if !name.Str? then Failure(BadCountryName)
    else
      CanonicalizeIdempotent(name.s);
      UpperIdempotent(Trim(name.s));
      Success(Canonicalize(name.s))
  }

  /** Feeding a stored code or name back to its setter stores the same string. */
  lemma SettersIdempotent(g: GeoRange)
    requires Canonical(g)
    ensures NormalizeCountryCode(Str(g.countryCode)) == Success(g.countryCode)
    ensures NormalizeCountryName(Str(g.countryName)) == Success(g.countryName)
  {
    UpperKeepsByteLength(Trim(g.countryCode));
  }

  /**
   * A two-character code that starts with a non-ASCII character, such as "ÉS",
   * has more than two bytes and is rejected.
   */
  lemma NonAsciiCodeRejected(c: char, d: char)
    requires c as int >= 0x80 && !IsTrimChar(d)
    ensures NormalizeCountryCode(Str([c, d])) == Failure(BadCountryCode)
  {
    var t := [c, d];
    assert Untrimmable(t);
    assert t[..1] == [c] && [c][..0] == [];
    assert ByteLength(t) == Utf8Width(c) + Utf8Width(d);
  }

  /**
   * The constructor: start IP, end IP, code and name are validated in that
   * order and the first failure's exception is raised.
   */
  function Construct(startIp: Value, endIp: Value, code: Value, name: Value): (r: Result<GeoRange, Error>)
    ensures r.Success? <==> IpToLong(startIp).Success? && IpToLong(endIp).Success?
                            && NormalizeCountryCode(code).Success? && NormalizeCountryName(name).Success?
    ensures IpToLong(startIp).Failure? ==> r == Failure(BadIpAddress)
    ensures IpToLong(startIp).Success? && IpToLong(endIp).Failure? ==> r == Failure(BadIpAddress)
    ensures IpToLong(startIp).Success? && IpToLong(endIp).Success? && NormalizeCountryCode(code).Failure?
            ==> r == Failure(BadCountryCode)
    ensures (IpToLong(startIp).Success? && IpToLong(endIp).Success? && NormalizeCountryCode(code).Success?
             && NormalizeCountryName(name).Failure?) ==> r == Failure(BadCountryName)
    ensures r.Success? ==> Canonical(r.value)
    ensures r.Success? ==> r.value == GeoRange(IpToLong(startIp).value, IpToLong(endIp).value,
                                               NormalizeCountryCode(code).value, NormalizeCountryName(name).value)
  {
    var s :- IpToLong(startIp);
    var e :- IpToLong(endIp);
    var c :- NormalizeCountryCode(code);
    var n :- NormalizeCountryName(name);
    Success(GeoRange(s, e, c, n))
  }

  /**
   * `fromArray`: NULL (here `Success(None)`) when any of the four keys is not
   * set; otherwise the constructor's record, or the exception it raises.
   */
  function FromArray(v: Value): (r: Result<Option<GeoRange>, Error>)
    ensures r == Success(None) <==> !HasAllKeys(v)
    ensures HasAllKeys(v) ==> r.Success? == Construct(Field(v, StartIpKey), Field(v, EndIpKey),
                                                      Field(v, CountryCodeKey), Field(v, CountryNameKey)).Success?
    ensures HasAllKeys(v) && r.Success? ==>
              r.value == Some(Construct(Field(v, StartIpKey), Field(v, EndIpKey),
                                        Field(v, CountryCodeKey), Field(v, CountryNameKey)).value)
    ensures r.Failure? ==>
              HasAllKeys(v) && r.error == Construct(Field(v, StartIpKey), Field(v, EndIpKey),
                                                    Field(v, CountryCodeKey), Field(v, CountryNameKey)).error
    ensures r.Success? && r.value.Some? ==> Canonical(r.value.value)
  {
    if !HasAllKeys(v) then Success(None)
    else
      var g :- Construct(Field(v, StartIpKey), Field(v, EndIpKey), Field(v, CountryCodeKey), Field(v, CountryNameKey));
      Success(Some(g))
  }

  /** Round trip: `fromArray($g->toArray())` rebuilds an equal record. */
  lemma FromArrayToArray(g: GeoRange)
    requires Canonical(g)
    ensures FromArray(g.ToArray()) == Success(Some(g))
  {
    DecimalFormParses(g.startIp);
    DecimalFormParses(g.endIp);
    SettersIdempotent(g);
  }

  predicate NoNullSlot(gs: seq<Option<GeoRange>>)
  {
    forall i :: 0 <= i < |gs| ==> gs[i].Some?
  }

  /** A collection of records with no NULL slot. */
  function Slots(rs: seq<GeoRange>): (gs: seq<Option<GeoRange>>)
    ensures |gs| == |rs| && NoNullSlot(gs)
    ensures forall i :: 0 <= i < |rs| ==> gs[i] == Some(rs[i])
  {
    seq(|rs|, i requires 0 <= i < |rs| => Some(rs[i]))
  }

  /**
   * `toUniversalFormat`: the list of every record's `toArray`. Calling
   * `toArray` on a NULL slot is a PHP Error that the `catch` does not catch.
   */
  function ToUniversal(gs: seq<Option<GeoRange>>): (r: Result<Value, Error>)
    ensures r.Success? <==> NoNullSlot(gs)
    ensures r.Failure? ==> r.error == NullRecord
    ensures r.Success? ==> |Items(r.value)| == |gs|
    ensures r.Success? ==> forall i :: 0 <= i < |gs| ==> Items(r.value)[i] == gs[i].value.ToArray()
  {
    if NoNullSlot(gs) then Success(List(seq(|gs|, i requires 0 <= i < |gs| => gs[i].value.ToArray())))
    else Failure(NullRecord)
  }

  /**
   * `fromUniversalFormat` over the visited items: one slot per item, in
   * order, each `fromArray` of its item; the first exception raised by an
   * item propagates (the `catch` names the undefined class GeoLocator\Exception).
   */
  function FromItems(items: seq<Value>): (r: Result<seq<Option<GeoRange>>, Error>)
    ensures r.Success? ==> |r.value| == |items|
    ensures r.Success? ==> forall i :: 0 <= i < |items| ==>
                             FromArray(items[i]).Success? && r.value[i] == FromArray(items[i]).value
  {
    if items == [] then Success([])
    else
      var init := items[..|items| - 1];
      assert forall i :: 0 <= i < |init| ==> init[i] == items[i];
      var prefix := FromItems(init);
      var last := FromArray(items[|items| - 1]);
      if prefix.Failure? then Failure(prefix.error)
      else if last.Failure? then Failure(last.error)
      else Success(prefix.value + [last.value])
  }

  /** A failure is the exception of the first item whose `fromArray` raises. */
  lemma {:induction false} FromItemsFirstFailure(items: seq<Value>)
    requires FromItems(items).Failure?
    ensures exists i :: 0 <= i < |items| && FromArray(items[i]) == Failure(FromItems(items).error)
                        && forall j :: 0 <= j < i ==> FromArray(items[j]).Success?
  {
    var init := items[..|items| - 1];
    assert forall i :: 0 <= i < |init| ==> init[i] == items[i];
    if FromItems(init).Failure? {
      FromItemsFirstFailure(init);
      var i :| 0 <= i < |init| && FromArray(init[i]) == Failure(FromItems(init).error)
               && forall j :: 0 <= j < i ==> FromArray(init[j]).Success?;
      assert FromArray(items[i]) == Failure(FromItems(items).error);
      assert forall j :: 0 <= j < i ==> FromArray(items[j]).Success? by {
        forall j | 0 <= j < i ensures FromArray(items[j]).Success? {
          assert init[j] == items[j];
        }
      }
    } else {
      var i := |items| - 1;
      assert FromArray(items[i]) == Failure(FromItems(items).error);
      assert forall j :: 0 <= j < i ==> FromArray(items[j]).Success? by {
        forall j | 0 <= j < i ensures FromArray(items[j]).Success? {
          assert init[j] == items[j];
        }
      }
    }
  }

  /** The collection is built exactly when every item's `fromArray` succeeds. */
  lemma FromItemsSucceeds(items: seq<Value>)
    ensures FromItems(items).Success? <==> forall i :: 0 <= i < |items| ==> FromArray(items[i]).Success?
  {
    if FromItems(items).Failure? {
      FromItemsFirstFailure(items);
    }
  }

  /** One more item: the collection of `items[..i + 1]` from that of `items[..i]`. */
  lemma FromItemsStep(items: seq<Value>, i: nat)
    requires i < |items|
    ensures FromItems(items[..i + 1]) ==
              if FromItems(items[..i]).Failure? then FromItems(items[..i])
              else if FromArray(items[i]).Failure? then Failure(FromArray(items[i]).error)
              else Success(FromItems(items[..i]).value + [FromArray(items[i]).value])
  {
    assert items[..i + 1][..i] == items[..i];
  }

  /** Once an item has raised, the later items are never converted. */
  lemma {:induction false} FromItemsStopsAtFailure(items: seq<Value>, i: nat)
    requires i <= |items| && FromItems(items[..i]).Failure?
    ensures FromItems(items) == FromItems(items[..i])
    decreases |items| - i
  {
    if i == |items| {
      assert items[..i] == items;
    } else {
      FromItemsStep(items, i);
      FromItemsStopsAtFailure(items, i + 1);
    }
  }

  /** `fromUniversalFormat($array)`; a non-array yields an empty collection. */
  function FromUniversal(data: Value): Result<seq<Option<GeoRange>>, Error>
  {
    FromItems(Items(data))
  }

  /** Round trip over a collection: order, length and records sharing a range all survive. */
  lemma UniversalRoundTrip(rs: seq<GeoRange>)
    requires forall i :: 0 <= i < |rs| ==> Canonical(rs[i])
    ensures ToUniversal(Slots(rs)).Success?
    ensures FromUniversal(ToUniversal(Slots(rs)).value) == Success(Slots(rs))
  {
    var u := ToUniversal(Slots(rs));
    assert u.Success?;
    FromItemsOfRecords(rs, Items(u.value));
  }

  /** Items that are the arrays of canonical records convert back to exactly those records. */
  lemma {:induction false} FromItemsOfRecords(rs: seq<GeoRange>, items: seq<Value>)
    requires forall i :: 0 <= i < |rs| ==> Canonical(rs[i])
    requires |items| == |rs| && forall i :: 0 <= i < |rs| ==> items[i] == rs[i].ToArray()
    ensures FromItems(items) == Success(Slots(rs))
  {
    if rs == [] {
      assert Slots(rs) == [];
    } else {
      var n := |rs| - 1;
      var init := items[..n];
      FromItemsOfRecords(rs[..n], init);
      assert items[n] == rs[n].ToArray();
      FromArrayToArray(rs[n]);
      FromItemsSnocRecord(items, Slots(rs[..n]), rs[n]);
      SlotsSnoc(rs);
    }
  }

  /** An item that converts to a record appends that record to the collection. */
  lemma FromItemsSnocRecord(items: seq<Value>, prefix: seq<Option<GeoRange>>, g: GeoRange)
    requires |items| > 0 && FromItems(items[..|items| - 1]) == Success(prefix)
    requires FromArray(items[|items| - 1]) == Success(Some(g))
    ensures FromItems(items) == Success(prefix + [Some(g)])
  {
  }

  lemma SlotsSnoc(rs: seq<GeoRange>)
    requires rs != []
    ensures Slots(rs) == Slots(rs[..|rs| - 1]) + [Some(rs[|rs| - 1])]
  {
    var n := |rs| - 1;
    assert forall i :: 0 <= i < n ==> Slots(rs)[i] == Slots(rs[..n])[i];
  }

  /**
   * A single record given where a list is expected (what a one-record XML
   * document decodes to) yields four NULL slots, one per field string.
   */
  lemma SingleRecordGivesNullSlots(g: GeoRange)
    ensures FromUniversal(g.ToArray()) == Success([None, None, None, None])
  {
    var items := Items(g.ToArray());
    assert |items| == 4 && forall i :: 0 <= i < 4 ==> !items[i].Arr?;
    NullItems(items);
    var r := FromItems(items);
    assert r.value == [None, None, None, None];
  }

  /** Items that are not arrays each become a NULL slot. */
  lemma NullItems(items: seq<Value>)
    requires forall i :: 0 <= i < |items| ==> !items[i].Arr?
    ensures FromItems(items).Success? && |FromItems(items).value| == |items|
    ensures forall i :: 0 <= i < |items| ==> FromItems(items).value[i] == None
  {
    assert forall i :: 0 <= i < |items| ==> FromArray(items[i]) == Success(None);
    FromItemsSucceeds(items);
  }

  /** Evaluates `intval` of an eight-digit string. */
  lemma DecimalOfEightDigits(s: string)
    requires |s| == 8 && IsDigits(s)
    ensures DecimalValue(s) == ((((((DigitValue(s[0]) * 10 + DigitValue(s[1])) * 10 + DigitValue(s[2])) * 10
                              + DigitValue(s[3])) * 10 + DigitValue(s[4])) * 10 + DigitValue(s[5])) * 10
                              + DigitValue(s[6])) * 10 + DigitValue(s[7])
  {
    assert s[..0] == [];
    DecimalPrefix(s, 0);
    DecimalPrefix(s, 1);
    DecimalPrefix(s, 2);
    DecimalPrefix(s, 3);
    DecimalPrefix(s, 4);
    DecimalPrefix(s, 5);
    DecimalPrefix(s, 6);
    DecimalPrefix(s, 7);
    assert s[..8] == s;
  }

  /** One more digit of a prefix: the value so far, times ten, plus that digit. */
  lemma DecimalPrefix(s: string, k: nat)
    requires k < |s| && IsDigits(s)
    ensures IsDigits(s[..k]) && IsDigits(s[..k + 1])
    ensures DecimalValue(s[..k + 1]) == DecimalValue(s[..k]) * 10 + DigitValue(s[k])
  {
    assert s[..k + 1][..k] == s[..k];
  }

  /** An eight-digit string below 2^32 is stored as its value. */
  lemma EightDigitsStored(s: string, v: int)
    requires |s| == 8 && IsDigits(s)
    requires v == ((((((DigitValue(s[0]) * 10 + DigitValue(s[1])) * 10 + DigitValue(s[2])) * 10
                   + DigitValue(s[3])) * 10 + DigitValue(s[4])) * 10 + DigitValue(s[5])) * 10
                   + DigitValue(s[6])) * 10 + DigitValue(s[7])
    requires 0 <= v < 0x1_0000_0000
    ensures IpToLong(Str(s)) == Success(v)
  {
    DecimalOfEightDigits(s);
  }

  /** A string without enclosing quotes, blanks or lower-case letters is stored as it is. */
  lemma CanonicalAsIs(s: string)
    requires Untrimmable(s) && HasNoLowercase(s)
    ensures IsCanonicalName(s)
    ensures ByteLength(s) <= 2 ==> NormalizeCountryCode(Str(s)) == Success(s)
    ensures NormalizeCountryName(Str(s)) == Success(s)
  {
    assert Upper(s) == s;
  }

  /** The repository's round-trip test on one record ("84559520","84559527","ES","SPAIN"). */
  lemma SpainRecordRoundTrip(s: string, e: string, c: string, n: string, g: GeoRange)
    requires s == "84559520" && e == "84559527" && c == "ES" && n == "SPAIN"
    requires g == GeoRange(84559520, 84559527, c, n)
    ensures Construct(Str(s), Str(e), Str(c), Str(n)) == Success(g)
    ensures FromArray(g.ToArray()) == Success(Some(g))
  {
    EightDigitsStored(s, 84559520);
    EightDigitsStored(e, 84559527);
    CanonicalAsIs(c);
    CanonicalAsIs(n);
    FromArrayToArray(g);
  }

  /**
   * The mutable GeoLocation object. Its setters validate their argument and
   * either store the canonical form or raise, leaving the object unchanged.
   */
  class GeoLocation {
    var startIp: Ip32
    var endIp: Ip32
    var countryCode: string
    var countryName: string

    function State(): GeoRange
      reads this
    {
      GeoRange(startIp, endIp, countryCode, countryName)
    }

    predicate Valid()
      reads this
    {
      Canonical(State())
    }

    /** Allocation before the constructor's setters run. */
    constructor Unassigned()
      ensures State() == GeoRange(0, 0, "", "")
    {
      startIp, endIp, countryCode, countryName := 0, 0, "", "";
    }

    /**
     * `new GeoLocation($startIp, $endIp, $countryCode, $countryName)`: the
     * four setters in order; the first exception aborts the construction.
     */
    static method Create(startIp: Value, endIp: Value, code: Value, name: Value) returns (r: Result<GeoLocation, Error>)
      ensures Construct(startIp, endIp, code, name).Failure? ==> r == Failure(Construct(startIp, endIp, code, name).error)
      ensures Construct(startIp, endIp, code, name).Success? ==>
                r.Success? && fresh(r.value) && r.value.Valid()
                && r.value.State() == Construct(startIp, endIp, code, name).value
    {
      ghost var c := Construct(startIp, endIp, code, name);
      var g := new GeoLocation.Unassigned();
      var o := g.SetStartIp(startIp);
      if o.Fail? {
        assert c == Failure(BadIpAddress);
        return Failure(o.error);
      }
      o := g.SetEndIp(endIp);
      if o.Fail? {
        assert c == Failure(BadIpAddress);
        return Failure(o.error);
      }
      o := g.SetCountryCode(code);
      if o.Fail? {
        assert c == Failure(BadCountryCode);
        return Failure(o.error);
      }
      o := g.SetCountryName(name);
      if o.Fail? {
        assert c == Failure(BadCountryName);
        return Failure(o.error);
      }
      assert c.Success? && c.value == g.State() && Canonical(c.value);
      return Success(g);
    }

    /** `setStartIp`. */
    method SetStartIp(ip: Value) returns (o: Outcome<Error>)
      modifies this
      ensures old(Valid()) ==> Valid()
      ensures IpToLong(ip).Success? ==> o == Pass && State() == old(State()).(startIp := IpToLong(ip).value)
      ensures IpToLong(ip).Failure? ==> o == Fail(BadIpAddress) && State() == old(State())
    {
      var n := IpToLong(ip);
      if n.Failure? { return Fail(n.error); }
      startIp := n.value;
      return Pass;
    }

    /** `setEndIp`. */
    method SetEndIp(ip: Value) returns (o: Outcome<Error>)
      modifies this
      ensures old(Valid()) ==> Valid()
      ensures IpToLong(ip).Success? ==> o == Pass && State() == old(State()).(endIp := IpToLong(ip).value)
      ensures IpToLong(ip).Failure? ==> o == Fail(BadIpAddress) && State() == old(State())
    {
      var n := IpToLong(ip);
      if n.Failure? { return Fail(n.error); }
      endIp := n.value;
      return Pass;
    }

    /** `setCountryCode`. */
    method SetCountryCode(code: Value) returns (o: Outcome<Error>)
      modifies this
      ensures old(Valid()) ==> Valid()
      ensures NormalizeCountryCode(code).Success? ==>
                o == Pass && State() == old(State()).(countryCode := NormalizeCountryCode(code).value)
      ensures NormalizeCountryCode(code).Failure? ==> o == Fail(BadCountryCode) && State() == old(State())
    {
      var c := NormalizeCountryCode(code);
      if c.Failure? { return Fail(c.error); }
      countryCode := c.value;
      return Pass;
    }

    /** `setCountryName`. */
    method SetCountryName(name: Value) returns (o: Outcome<Error>)
      modifies this
      ensures old(Valid()) ==> Valid()
      ensures NormalizeCountryName(name).Success? ==>
                o == Pass && State() == old(State()).(countryName := NormalizeCountryName(name).value)
      ensures NormalizeCountryName(name).Failure? ==> o == Fail(BadCountryName) && State() == old(State())
    {
      var n := NormalizeCountryName(name);
      if n.Failure? { return Fail(n.error); }
      countryName := n.value;
      return Pass;
    }
  }

  /** `toUniversalFormat`, the loop appending each record's `toArray`. */
  method ToUniversalFormat(gs: seq<Option<GeoRange>>) returns (r: Result<Value, Error>)
    ensures r == ToUniversal(gs)
  {
    var arr: seq<Value> := [];
    for i := 0 to |gs|
      invariant forall k :: 0 <= k < i ==> gs[k].Some?
      invariant |arr| == i && forall k :: 0 <= k < i ==> arr[k] == gs[k].value.ToArray()
    {
      if gs[i].None? {
        assert !NoNullSlot(gs);
        return Failure(NullRecord);
      }
      arr := arr + [gs[i].value.ToArray()];
    }
    assert arr == seq(|gs|, i requires 0 <= i < |gs| => gs[i].value.ToArray());
    return Success(List(arr));
  }

  /** `fromUniversalFormat`, the loop appending each item's `fromArray`. */
  method FromUniversalFormat(data: Value) returns (r: Result<seq<Option<GeoRange>>, Error>)
    ensures r == FromUniversal(data)
  {
    var items := Items(data);
    var arr: seq<Option<GeoRange>> := [];
    for i := 0 to |items|
      invariant FromItems(items[..i]) == Success(arr)
    {
      FromItemsStep(items, i);
      var item := FromArray(items[i]);
      if item.Failure? {
        FromItemsStopsAtFailure(items, i + 1);
        return Failure(item.error);
      }
      arr := arr + [item.value];
    }
    assert items[..|items|] == items;
    return Success(arr);
  }
}
