/**
 * `IpLocator`: looks up the stored range that contains an IPv4 address, with
 * the DQL query `g.startIp <= :ip AND :ip <= g.endIp` limited to one result.
 */
module Locator {
  import opened Wrappers
  import opened Errors
  import opened PhpStrings
  import opened PhpArrays
  import opened PhpIp
  import opened Geo
  import opened Exporter

  /** Both ends of a range are inclusive. */
  predicate Contains(g: GeoRange, ip: Ip32)
  {
    g.startIp <= ip <= g.endIp
  }

  /**
   * `setMaxResults(1)`: the position of the first row of the table, in table
   * order, whose range contains `ip`; None when no row does.
   */
  function FirstContaining(store: seq<GeoRange>, ip: Ip32): (r: Option<nat>)
    ensures r.None? <==> forall i :: 0 <= i < |store| ==> !Contains(store[i], ip)
    ensures r.Some? ==> r.value < |store| && Contains(store[r.value], ip)
    ensures r.Some? ==> forall i :: 0 <= i < r.value ==> !Contains(store[i], ip)
  {
    if store == [] then None
    else if Contains(store[0], ip) then Some(0)
    else
      match FirstContaining(store[1..], ip)
      case None => None
      case Some(j) => Some(j + 1)
  }

  /**
   * `geoLocate($ip)` with the conversion of GeoLocation's `ipToLong`: a bad
   * address raises BadIpAddress; otherwise NULL when no stored range
   * contains the address, else one record that does.
   */
  function GeoLocate(store: seq<GeoRange>, ip: Value): (r: Result<Option<GeoRange>, Error>)
    ensures IpToLong(ip).Failure? <==> r == Failure(BadIpAddress)
    ensures IpToLong(ip).Success? ==>
              r.Success? && (r.value.None? <==> forall i :: 0 <= i < |store| ==> !Contains(store[i], IpToLong(ip).value))
    ensures r.Success? && r.value.Some? ==> r.value.value in store && Contains(r.value.value, IpToLong(ip).value)
  {
    var n :- IpToLong(ip);
    match FirstContaining(store, n)
    case None => Success(None)
    case Some(j) => Success(Some(store[j]))
  }

  /**
   * `geoLocate` as written: line 37 calls a global function `ipToLong`, which
   * does not exist (GeoLocation's `ipToLong` is a private method), so every
   * call stops with a fatal error before the query runs.
   */
  function GeoLocateAsWritten(store: seq<GeoRange>, ip: Value): (r: Result<Option<GeoRange>, Error>)
    ensures r.Failure? && r.error == UndefinedFunction
  {
    Failure(UndefinedFunction)
  }

  /** The lookup as written fails even where a stored range contains the address. */
  lemma AsWrittenMissesEveryHit(g: GeoRange, n: Ip32)
    requires Contains(g, n)
    ensures GeoLocate([g], Int(n)) == Success(Some(g))
    ensures GeoLocateAsWritten([g], Int(n)) != GeoLocate([g], Int(n))
  {
    assert FirstContaining([g], n) == Some(0);
  }

  /** The lookup depends on the address only through the number it converts to. */
  lemma SameNumberSameRecord(store: seq<GeoRange>, a: Value, b: Value)
    requires IpToLong(a) == IpToLong(b)
    ensures GeoLocate(store, a) == GeoLocate(store, b)
  {
  }

  /** A 32-bit number is stored as itself. */
  lemma NumberIsKept(n: Ip32)
    ensures IpToLong(Int(n)) == Success(n)
  {
  }

  /** A dotted quad, its decimal string and its number locate the same record. */
  lemma DottedAndDecimalAgree(store: seq<GeoRange>, n: Ip32)
    ensures GeoLocate(store, Str(Long2Ip(n))) == GeoLocate(store, Int(n))
    ensures GeoLocate(store, Str(DecimalString(n))) == GeoLocate(store, Int(n))
  {
    NumberIsKept(n);
    BothFormsAgree(n);
    var q := Str(Long2Ip(n));
    var d := Str(DecimalString(n));
    SameNumberSameRecord(store, q, Int(n));
    SameNumberSameRecord(store, d, Int(n));
  }

  /**
   * Both ends are inclusive: a range [s, e] is found for s and for e, and not
   * for the addresses just outside it.
   */
  lemma EndpointsInclusive(g: GeoRange)
    requires g.startIp <= g.endIp
    ensures GeoLocate([g], Int(g.startIp)) == Success(Some(g))
    ensures GeoLocate([g], Int(g.endIp)) == Success(Some(g))
    ensures g.endIp + 1 < 0x1_0000_0000 ==> GeoLocate([g], Int(g.endIp + 1)) == Success(None)
    ensures 0 < g.startIp ==> GeoLocate([g], Int(g.startIp - 1)) == Success(None)
  {
    assert FirstContaining([g], g.startIp) == Some(0);
    assert FirstContaining([g], g.endIp) == Some(0);
  }

  /** Of overlapping ranges, the one earlier in the table is returned. */
  lemma EarliestRowWins(store: seq<GeoRange>, ip: Value, i: nat)
    requires IpToLong(ip).Success? && i < |store| && Contains(store[i], IpToLong(ip).value)
    requires forall j :: 0 <= j < i ==> !Contains(store[j], IpToLong(ip).value)
    ensures GeoLocate(store, ip) == Success(Some(store[i]))
  {
    var r := FirstContaining(store, IpToLong(ip).value);
    assert r.Some? && r.value == i;
  }

  /**
   * Once saved, a record's range makes every address in it found: some
   * record is returned, perhaps an earlier row that also covers the address.
   */
  lemma {:induction false} LocateAfterSave(store: seq<GeoRange>, batch: seq<GeoRange>, ip: Value, i: nat)
    requires IpToLong(ip).Success? && i < |batch| && Contains(batch[i], IpToLong(ip).value)
    ensures GeoLocate(InsertMissing(store, batch), ip).Success?
    ensures GeoLocate(InsertMissing(store, batch), ip).value.Some?
  {
    var s := InsertMissing(store, batch);
    var n := IpToLong(ip).value;
    assert InBatch(batch, Id(batch[i]));
    InsertMissingStored(store, batch, Id(batch[i]));
    var j :| 0 <= j < |s| && Id(s[j]) == Id(batch[i]);
    assert Contains(s[j], n);
  }

  /** What is found after saving was in the table before or is a record of the batch. */
  lemma LocatedAfterSave(store: seq<GeoRange>, batch: seq<GeoRange>, ip: Value)
    requires GeoLocate(InsertMissing(store, batch), ip).Success?
    requires GeoLocate(InsertMissing(store, batch), ip).value.Some?
    ensures GeoLocate(InsertMissing(store, batch), ip).value.value in store + batch
  {
    var s := InsertMissing(store, batch);
    var g := GeoLocate(s, ip).value.value;
    var j :| 0 <= j < |s| && s[j] == g;
    InsertMissingExtends(store, batch);
    InsertMissingFromBatch(store, batch);
    if j < |store| {
      assert s[..|store|][j] == g;
    }
  }
}
