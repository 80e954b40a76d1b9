/**
 * The XML side of the exporter. `toXML` builds a SimpleXML tree under a
 * `geo_locations` root with `arrayToXML`; `fromXML` loads a tree and reads
 * it back through `json_decode(json_encode($xml), true)`, whose rules for
 * turning elements into arrays are modelled by `View`.
 */
module Xml {
  import opened Wrappers
  import opened Errors
  import opened PhpStrings
  import opened PhpArrays
  import opened Geo

  /** A SimpleXML element: its tag, its text and its child elements in document order. */
  datatype Element = Element(name: string, text: string, children: seq<Element>)

  const RootTag: string := "geo_locations"

  /** An element holding only text, as `addChild($key, $value)` creates it. */
  function Leaf(name: string, text: string): Element
  {
    Element(name, text, [])
  }

  /** The tag `arrayToXML` gives the node of an array value: "geo_location" under a numeric key. */
  function ArrayTag(k: Key): string
  {
    if IsNumericKey(k) then GeoLocationTag else KeyText(k)
  }

  /** The nodes `arrayToXML($data, $xml)` appends to `$xml`; nothing when `data` is not an array. */
  function Nodes(data: Value): seq<Element>
    decreases data, 1, 0
  {
    if data.Arr? then NodesOf(data, |data.entries|) else []
  }

  /**
   * The nodes appended for the first `n` entries: an array value becomes an
   * element filled recursively, a scalar under a string key becomes a leaf
   * holding `"$value"`, and a scalar under a numeric key is skipped.
   */
  function NodesOf(data: Value, n: nat): seq<Element>
    requires data.Arr? && n <= |data.entries|
    decreases data, 0, n
  {
    if n == 0 then []
    else
      var e := data.entries[n - 1];
      NodesOf(data, n - 1) +
        (if e.val.Arr? then [Element(ArrayTag(e.key), "", Nodes(e.val))]
         else if IsNumericKey(e.key) then []
         else [Leaf(KeyText(e.key), Text(e.val))])
  }

  /**
   * `arrayToXML($data, $xml)`: the loop over the entries, recursing into
   * every array value; the tree grows by exactly `Nodes(data)` under `xml`.
   */
  method ArrayToXml(data: Value, xml: Element) returns (out: Element)
    ensures out.name == xml.name && out.text == xml.text
    ensures out.children == xml.children + Nodes(data)
    decreases data
  {
    out := xml;
    if !data.Arr? {
      return;
    }
    for i := 0 to |data.entries|
      invariant out == xml.(children := xml.children + NodesOf(data, i))
    {
      var e := data.entries[i];
      assert NodesOf(data, i + 1) == NodesOf(data, i) +
        (if e.val.Arr? then [Element(ArrayTag(e.key), "", Nodes(e.val))]
         else if IsNumericKey(e.key) then []
         else [Leaf(KeyText(e.key), Text(e.val))]);
      if e.val.Arr? {
        var subnode := Element(ArrayTag(e.key), "", []);
        subnode := ArrayToXml(e.val, subnode);
        assert subnode == Element(ArrayTag(e.key), "", Nodes(e.val));
        out := out.(children := out.children + [subnode]);
      } else if !IsNumericKey(e.key) {
        out := out.(children := out.children + [Leaf(KeyText(e.key), Text(e.val))]);
      }
    }
  }

  /** The document `toXML` writes for a universal array. */
  function Document(u: Value): Element
  {
    Element(RootTag, "", Nodes(u))
  }

  /** The element `toXML` writes for one record: four leaves in key order. */
  function RecordElement(startIp: string, endIp: string, code: string, name: string): Element
  {
    Element(GeoLocationTag, "",
            [Leaf(StartIpKey, startIp), Leaf(EndIpKey, endIp), Leaf(CountryCodeKey, code), Leaf(CountryNameKey, name)])
  }

  function RecordOf(g: GeoRange): Element
  {
    RecordElement(g.GetStartIp(), g.GetEndIp(), g.countryCode, g.countryName)
  }

  lemma KeysAreNotNumeric()
    ensures !IsNumericKey(StrKey(StartIpKey)) && !IsNumericKey(StrKey(EndIpKey))
    ensures !IsNumericKey(StrKey(CountryCodeKey)) && !IsNumericKey(StrKey(CountryNameKey))
  {
    assert !IsDigit(StartIpKey[0]) && !IsDigit(EndIpKey[0]);
    assert !IsDigit(CountryCodeKey[0]) && !IsDigit(CountryNameKey[0]);
  }

  /** A universal item becomes four leaves, named by the keys and holding the fields. */
  lemma ItemNodes(a: string, b: string, c: string, d: string)
    ensures Nodes(UniversalItem(a, b, c, d)) == RecordElement(a, b, c, d).children
  {
    KeysAreNotNumeric();
    var v := UniversalItem(a, b, c, d);
    assert NodesOf(v, 1) == [Leaf(StartIpKey, a)];
    assert NodesOf(v, 2) == [Leaf(StartIpKey, a), Leaf(EndIpKey, b)];
    assert NodesOf(v, 3) == [Leaf(StartIpKey, a), Leaf(EndIpKey, b), Leaf(CountryCodeKey, c)];
  }

  /** A list of arrays becomes one "geo_location" element per item, in order. */
  lemma {:induction false} ListNodes(items: seq<Value>, n: nat)
    requires n <= |items| && forall i :: 0 <= i < |items| ==> items[i].Arr?
    ensures NodesOf(List(items), n) == seq(n, i requires 0 <= i < n => Element(GeoLocationTag, "", Nodes(items[i])))
  {
    if n > 0 {
      ListNodes(items, n - 1);
      assert List(items).entries[n - 1] == Entry(IntKey(n - 1), items[n - 1]);
    }
  }

  /** `toXML` of a collection of records: the root holds one record element per record, in order. */
  lemma DocumentOfRecords(rs: seq<GeoRange>)
    ensures ToUniversal(Slots(rs)).Success?
    ensures Document(ToUniversal(Slots(rs)).value).children == seq(|rs|, i requires 0 <= i < |rs| => RecordOf(rs[i]))
  {
    var u := ToUniversal(Slots(rs)).value;
    var items := Items(u);
    assert u == List(items);
    ListNodes(items, |items|);
    forall i | 0 <= i < |rs|
      ensures Nodes(items[i]) == RecordOf(rs[i]).children
    {
      var g := rs[i];
      ItemNodes(g.GetStartIp(), g.GetEndIp(), g.countryCode, g.countryName);
    }
  }

  // Reading a tree back: json_decode(json_encode($xml), true).

  /** The distinct tags of `cs` in order of first appearance. */
  function Names(cs: seq<Element>): seq<string>
  {
    if cs == [] then []
    else
      var p := Names(cs[..|cs| - 1]);
      if cs[|cs| - 1].name in p then p else p + [cs[|cs| - 1].name]
  }

  /** The positions of the elements of `cs` tagged `n`, in order. */
  function Named(cs: seq<Element>, n: string): (ix: seq<nat>)
    ensures forall j :: 0 <= j < |ix| ==> ix[j] < |cs| && cs[ix[j]].name == n
  {
    if cs == [] then []
    else
      var p := cs[..|cs| - 1];
      Named(p, n) + (if cs[|cs| - 1].name == n then [|cs| - 1] else [])
  }

  lemma NamesSnoc(cs: seq<Element>, c: Element)
    ensures Names(cs + [c]) == if c.name in Names(cs) then Names(cs) else Names(cs) + [c.name]
  {
    assert (cs + [c])[..|cs|] == cs;
  }

  lemma NamedSnoc(cs: seq<Element>, c: Element, n: string)
    ensures Named(cs + [c], n) == Named(cs, n) + (if c.name == n then [|cs|] else [])
  {
    assert (cs + [c])[..|cs|] == cs;
  }

  /** Every tag listed by `Names` is the tag of some child. */
  lemma {:induction false} NamesAreTags(cs: seq<Element>, n: string)
    requires n in Names(cs)
    ensures exists i :: 0 <= i < |cs| && cs[i].name == n
  {
    var p := cs[..|cs| - 1];
    if n in Names(p) {
      NamesAreTags(p, n);
      var i :| 0 <= i < |p| && p[i].name == n;
      assert cs[i].name == n;
    } else {
      assert cs[|cs| - 1].name == n;
    }
  }

  /**
   * Text that SimpleXML treats as blank (libxml's `xmlIsBlankNode`): only
   * spaces, tabs, line feeds and carriage returns, the empty text included.
   */
  predicate XmlBlank(s: string)
  {
    forall i :: 0 <= i < |s| ==> s[i] == ' ' || s[i] == '\t' || s[i] == '\n' || s[i] == '\r'
  }

  /**
   * The array an element decodes to: a childless element is its text, or an
   * empty array when its text is blank; otherwise one entry per distinct
   * child tag.
   */
  function View(e: Element): (v: Value)
    ensures e.children == [] && XmlBlank(e.text) ==> v == Arr([])
    ensures e.children == [] && !XmlBlank(e.text) ==> v == Str(e.text)
    ensures e.children != [] ==> v.Arr?
    decreases e, 2, 0
  {
    if e.children == [] then (if XmlBlank(e.text) then Arr([]) else Str(e.text))
    else Arr(Props(e, Names(e.children)))
  }

  /** The entries for the tags `names` of `e`'s children. */
  function Props(e: Element, names: seq<string>): seq<Entry>
    decreases e, 1, |names|
  {
    if names == [] then []
    else
      var n := names[|names| - 1];
      Props(e, names[..|names| - 1]) + [Entry(StrKey(n), Group(e, Named(e.children, n)))]
  }

  /** Children sharing a tag, by position: a single child decodes to its own value, several to a list. */
  function Group(e: Element, ix: seq<nat>): Value
    requires forall j :: 0 <= j < |ix| ==> ix[j] < |e.children|
    decreases e, 0, 0
  {
    if |ix| == 1 then View(e.children[ix[0]])
    else List(seq(|ix|, j requires 0 <= j < |ix| => View(e.children[ix[j]])))
  }

  /** The root decodes to the entries of its children's tags; a root without children to an empty array. */
  function RootView(root: Element): Value
  {
    Arr(Props(root, Names(root.children)))
  }

  /**
   * `json_decode(json_encode($xml), true)["geo_location"]`. A document that
   * does not load (`simplexml_load_string` returns false) and a root without
   * "geo_location" children both give NULL.
   */
  function XmlRecords(doc: Option<Element>): Value
  {
    if doc.None? then Null else At(RootView(doc.value), GeoLocationTag)
  }

  /** `fromXML` as written: the decoded "geo_location" value goes straight to `fromUniversalFormat`. */
  function FromXmlAsWritten(doc: Option<Element>): Result<seq<Option<GeoRange>>, Error>
  {
    FromUniversal(XmlRecords(doc))
  }

  /** Holds of a decoded value that is one record's array rather than a list of them. */
  predicate IsSingleRecord(v: Value)
  {
    v.Arr? && exists i :: 0 <= i < |v.entries| && v.entries[i].key.StrKey?
  }

  /** The decoded "geo_location" value with a lone record wrapped in a list, as the other readers deliver it. */
  function XmlInput(doc: Option<Element>): Value
  {
    var v := XmlRecords(doc);
    if IsSingleRecord(v) then List([v]) else v
  }

  /** `fromXML`, corrected: `fromUniversalFormat` of `XmlInput`. */
  function FromXml(doc: Option<Element>): Result<seq<Option<GeoRange>>, Error>
  {
    FromUniversal(XmlInput(doc))
  }

  /** Records whose code and name are not blank, so that they are read back as text. */
  predicate XmlSafe(g: GeoRange)
  {
    !XmlBlank(g.countryCode) && !XmlBlank(g.countryName)
  }

  /** The four keys of the universal format are distinct. */
  lemma KeysDistinct()
    ensures StartIpKey != EndIpKey && StartIpKey != CountryCodeKey && StartIpKey != CountryNameKey
    ensures EndIpKey != CountryCodeKey && EndIpKey != CountryNameKey && CountryCodeKey != CountryNameKey
  {
    assert StartIpKey[0] == 's' && EndIpKey[0] == 'e' && CountryCodeKey[8] == 'c' && CountryNameKey[8] == 'n';
  }

  /** No child tagged `n`: no position listed. */
  lemma NamedAbsent(cs: seq<Element>, n: string)
    requires forall i :: 0 <= i < |cs| ==> cs[i].name != n
    ensures Named(cs, n) == []
  {
  }

  /** Children with pairwise distinct tags: `Names` lists the tags in order. */
  lemma {:induction false} DistinctNames(cs: seq<Element>)
    requires forall i, j :: 0 <= i < j < |cs| ==> cs[i].name != cs[j].name
    ensures Names(cs) == seq(|cs|, i requires 0 <= i < |cs| => cs[i].name)
  {
    if cs != [] {
      var n := |cs| - 1;
      var p := cs[..n];
      DistinctNames(p);
      assert cs == p + [cs[n]];
      NamesSnoc(p, cs[n]);
      assert cs[n].name !in Names(p);
    }
  }

  /** Children with pairwise distinct tags: the tag of the child at `i` names that child alone. */
  lemma {:induction false} DistinctNamed(cs: seq<Element>, i: nat)
    requires forall i, j :: 0 <= i < j < |cs| ==> cs[i].name != cs[j].name
    requires i < |cs|
    ensures Named(cs, cs[i].name) == [i]
  {
    var n := |cs| - 1;
    var p := cs[..n];
    assert cs == p + [cs[n]];
    NamedSnoc(p, cs[n], cs[i].name);
    if i == n {
      NamedAbsent(p, cs[n].name);
    } else {
      DistinctNamed(p, i);
    }
  }

  lemma PropsSnoc(e: Element, names: seq<string>, n: string)
    ensures Props(e, names + [n]) == Props(e, names) + [Entry(StrKey(n), Group(e, Named(e.children, n)))]
  {
    assert (names + [n])[..|names|] == names;
  }

  /** Four leaves with distinct tags: `Names` lists the tags and each tag names its own leaf. */
  lemma LeafNames(k0: string, k1: string, k2: string, k3: string, a: string, b: string, c: string, d: string)
    requires k0 != k1 && k0 != k2 && k0 != k3 && k1 != k2 && k1 != k3 && k2 != k3
    ensures var cs := [Leaf(k0, a), Leaf(k1, b), Leaf(k2, c), Leaf(k3, d)];
      Names(cs) == [k0, k1, k2, k3] &&
      Named(cs, k0) == [0] && Named(cs, k1) == [1] && Named(cs, k2) == [2] && Named(cs, k3) == [3]
  {
    var cs := [Leaf(k0, a), Leaf(k1, b), Leaf(k2, c), Leaf(k3, d)];
    DistinctNames(cs);
    DistinctNamed(cs, 0);
    DistinctNamed(cs, 1);
    DistinctNamed(cs, 2);
    DistinctNamed(cs, 3);
  }

  /** The entries for four tags, each naming one child whose group decodes to the given value. */
  lemma PropsOfFour(e: Element, k0: string, k1: string, k2: string, k3: string,
                    v0: Value, v1: Value, v2: Value, v3: Value)
    requires |e.children| == 4
    requires Named(e.children, k0) == [0] && Named(e.children, k1) == [1]
    requires Named(e.children, k2) == [2] && Named(e.children, k3) == [3]
    requires Group(e, [0]) == v0 && Group(e, [1]) == v1 && Group(e, [2]) == v2 && Group(e, [3]) == v3
    ensures Props(e, [k0, k1, k2, k3]) ==
              [Entry(StrKey(k0), v0), Entry(StrKey(k1), v1), Entry(StrKey(k2), v2), Entry(StrKey(k3), v3)]
  {
    PropsSnoc(e, [], k0);
    PropsSnoc(e, [k0], k1);
    PropsSnoc(e, [k0, k1], k2);
    PropsSnoc(e, [k0, k1, k2], k3);
    assert [k0] == [] + [k0] && [k0, k1] == [k0] + [k1] && [k0, k1, k2] == [k0, k1] + [k2];
    assert [k0, k1, k2, k3] == [k0, k1, k2] + [k3];
  }

  /** A lone leaf whose text is not blank decodes to its text. */
  lemma LeafGroup(e: Element, i: nat)
    requires i < |e.children| && e.children[i].children == [] && !XmlBlank(e.children[i].text)
    ensures Group(e, [i]) == Str(e.children[i].text)
  {
  }

  /** An element of four leaves with distinct tags and texts that are not blank decodes to the four tag-text entries. */
  lemma LeavesView(tag: string, k0: string, k1: string, k2: string, k3: string,
                   a: string, b: string, c: string, d: string)
    requires k0 != k1 && k0 != k2 && k0 != k3 && k1 != k2 && k1 != k3 && k2 != k3
    requires !XmlBlank(a) && !XmlBlank(b) && !XmlBlank(c) && !XmlBlank(d)
    ensures View(Element(tag, "", [Leaf(k0, a), Leaf(k1, b), Leaf(k2, c), Leaf(k3, d)])) ==
              Arr([Entry(StrKey(k0), Str(a)), Entry(StrKey(k1), Str(b)), Entry(StrKey(k2), Str(c)), Entry(StrKey(k3), Str(d))])
  {
    var e := Element(tag, "", [Leaf(k0, a), Leaf(k1, b), Leaf(k2, c), Leaf(k3, d)]);
    LeafNames(k0, k1, k2, k3, a, b, c, d);
    LeafGroup(e, 0);
    LeafGroup(e, 1);
    LeafGroup(e, 2);
    LeafGroup(e, 3);
    PropsOfFour(e, k0, k1, k2, k3, Str(a), Str(b), Str(c), Str(d));
  }

  /** A record element whose fields are not blank decodes to exactly the universal item it was written from. */
  lemma RecordView(a: string, b: string, c: string, d: string)
    requires !XmlBlank(a) && !XmlBlank(b) && !XmlBlank(c) && !XmlBlank(d)
    ensures View(RecordElement(a, b, c, d)) == UniversalItem(a, b, c, d)
  {
    KeysDistinct();
    LeavesView(GeoLocationTag, StartIpKey, EndIpKey, CountryCodeKey, CountryNameKey, a, b, c, d);
  }

  /** A record element whose name is blank: the name decodes to an empty array, not to its text. */
  lemma BlankNameView(a: string, b: string, c: string, d: string)
    requires !XmlBlank(a) && !XmlBlank(b) && !XmlBlank(c) && XmlBlank(d)
    ensures View(RecordElement(a, b, c, d)) ==
              Arr([Entry(StrKey(StartIpKey), Str(a)), Entry(StrKey(EndIpKey), Str(b)),
                   Entry(StrKey(CountryCodeKey), Str(c)), Entry(StrKey(CountryNameKey), Arr([]))])
  {
    var e := RecordElement(a, b, c, d);
    KeysDistinct();
    LeafNames(StartIpKey, EndIpKey, CountryCodeKey, CountryNameKey, a, b, c, d);
    LeafGroup(e, 0);
    LeafGroup(e, 1);
    LeafGroup(e, 2);
    assert Group(e, [3]) == Arr([]);
    PropsOfFour(e, StartIpKey, EndIpKey, CountryCodeKey, CountryNameKey, Str(a), Str(b), Str(c), Arr([]));
  }

  /** The decoded record of `a`, `b`, `c` with the empty array for its name. */
  function BlankNameItem(a: string, b: string, c: string): Value
  {
    Arr([Entry(StrKey(StartIpKey), Str(a)), Entry(StrKey(EndIpKey), Str(b)),
         Entry(StrKey(CountryCodeKey), Str(c)), Entry(StrKey(CountryNameKey), Arr([]))])
  }

  /**
   * A record whose name is blank (a tab, say) is written by `toXML` but not
   * read back: its name decodes to an empty array, which `setCountryName`
   * rejects, and nothing catches the exception.
   */
  lemma BlankNameRejected(g: GeoRange)
    requires Canonical(g) && !XmlBlank(g.countryCode) && XmlBlank(g.countryName)
    ensures ToUniversal([Some(g)]).Success?
    ensures FromXml(Some(Document(ToUniversal([Some(g)]).value))) == Failure(BadCountryName)
  {
    OneRecordDocument(g);
    BlankNameRootRejected(g, Document(ToUniversal([Some(g)]).value));
  }

  /** The document `toXML` writes for one record holds that record's element alone. */
  lemma OneRecordDocument(g: GeoRange)
    ensures ToUniversal([Some(g)]).Success?
    ensures Document(ToUniversal([Some(g)]).value).children == [RecordOf(g)]
  {
    assert Slots([g]) == [Some(g)];
    DocumentOfRecords([g]);
  }

  lemma BlankNameRootRejected(g: GeoRange, root: Element)
    requires Canonical(g) && !XmlBlank(g.countryCode) && XmlBlank(g.countryName)
    requires root.children == [RecordOf(g)]
    ensures FromXml(Some(root)) == Failure(BadCountryName)
  {
    var v := BlankNameItem(g.GetStartIp(), g.GetEndIp(), g.countryCode);
    BlankNameDecoded(g, root);
    BlankNameItemRejected(g, v);
  }

  lemma BlankNameDecoded(g: GeoRange, root: Element)
    requires !XmlBlank(g.countryCode) && XmlBlank(g.countryName)
    requires root.children == [RecordOf(g)]
    ensures XmlInput(Some(root)) == List([BlankNameItem(g.GetStartIp(), g.GetEndIp(), g.countryCode)])
  {
    RecordsOfRoot(root);
    BlankNameView(g.GetStartIp(), g.GetEndIp(), g.countryCode, g.countryName);
    var v := XmlRecords(Some(root));
    assert v.entries[0].key.StrKey?;
  }

  lemma BlankNameFields(a: string, b: string, c: string)
    ensures var e := BlankNameItem(a, b, c).entries;
      Get(e, StrKey(StartIpKey)) == Some(Str(a)) && Get(e, StrKey(EndIpKey)) == Some(Str(b)) &&
      Get(e, StrKey(CountryCodeKey)) == Some(Str(c)) && Get(e, StrKey(CountryNameKey)) == Some(Arr([]))
  {
    var e := BlankNameItem(a, b, c).entries;
    KeysDistinct();
    var e1, e2, e3 := e[1..], e[2..], e[3..];
    assert e1[1..] == e2 && e2[1..] == e3;
    assert Get(e, StrKey(EndIpKey)) == Get(e1, StrKey(EndIpKey));
    assert Get(e, StrKey(CountryCodeKey)) == Get(e1, StrKey(CountryCodeKey)) == Get(e2, StrKey(CountryCodeKey));
    assert Get(e, StrKey(CountryNameKey)) == Get(e1, StrKey(CountryNameKey)) == Get(e2, StrKey(CountryNameKey))
        == Get(e3, StrKey(CountryNameKey));
  }

  lemma BlankNameItemRejected(g: GeoRange, v: Value)
    requires Canonical(g)
    requires v == BlankNameItem(g.GetStartIp(), g.GetEndIp(), g.countryCode)
    ensures FromUniversal(List([v])) == Failure(BadCountryName)
  {
    ItemsOfList([v]);
    BlankNameFields(g.GetStartIp(), g.GetEndIp(), g.countryCode);
    DecimalFormParses(g.startIp);
    DecimalFormParses(g.endIp);
    SettersIdempotent(g);
    assert FromArray(v) == Failure(BadCountryName);
    assert [v][..0] == [] && FromItems([]) == Success([]);
    assert FromItems([v]) == Failure(BadCountryName);
  }

  /** Children all tagged `t` have `t` as their only tag. */
  lemma {:induction false} SameTagNames(cs: seq<Element>, t: string)
    requires cs != [] && forall i :: 0 <= i < |cs| ==> cs[i].name == t
    ensures Names(cs) == [t]
  {
    var n := |cs| - 1;
    var p := cs[..n];
    assert cs == p + [cs[n]];
    NamesSnoc(p, cs[n]);
    if p != [] {
      SameTagNames(p, t);
    }
  }

  /** Children all tagged `t` are all named by `t`, in order. */
  lemma {:induction false} SameTagNamed(cs: seq<Element>, t: string)
    requires forall i :: 0 <= i < |cs| ==> cs[i].name == t
    ensures Named(cs, t) == seq(|cs|, i requires 0 <= i < |cs| => i)
  {
    if cs != [] {
      var n := |cs| - 1;
      var p := cs[..n];
      assert cs == p + [cs[n]];
      NamedSnoc(p, cs[n], t);
      SameTagNamed(p, t);
    }
  }

  /** Children all tagged "geo_location": one tag, naming all of them. */
  lemma RecordTags(cs: seq<Element>)
    requires cs != [] && forall i :: 0 <= i < |cs| ==> cs[i].name == GeoLocationTag
    ensures Names(cs) == [GeoLocationTag] && Named(cs, GeoLocationTag) == seq(|cs|, i requires 0 <= i < |cs| => i)
  {
    SameTagNames(cs, GeoLocationTag);
    SameTagNamed(cs, GeoLocationTag);
  }

  /** What "geo_location" decodes to in a root whose children are all record elements. */
  lemma RecordsOfRoot(root: Element)
    requires root.children != [] && forall i :: 0 <= i < |root.children| ==> root.children[i].name == GeoLocationTag
    ensures XmlRecords(Some(root)) ==
              if |root.children| == 1 then View(root.children[0])
              else List(seq(|root.children|, i requires 0 <= i < |root.children| => View(root.children[i])))
  {
    var cs := root.children;
    RecordTags(cs);
    assert Props(root, [GeoLocationTag]) == [Entry(StrKey(GeoLocationTag), Group(root, Named(cs, GeoLocationTag)))];
  }

  /** The "geo_location" value a document decodes to when its root holds the record elements of `rs`. */
  predicate DecodesAsRecords(v: Value, rs: seq<GeoRange>)
  {
    (|rs| == 0 ==> v == Null) &&
    (|rs| == 1 ==> v == rs[0].ToArray()) &&
    (|rs| >= 2 ==> v == List(seq(|rs|, i requires 0 <= i < |rs| => rs[i].ToArray())))
  }

  /** A root holding one record element per record decodes to those records' arrays. */
  lemma RecordsOfRecordElements(rs: seq<GeoRange>, root: Element)
    requires forall i :: 0 <= i < |rs| ==> XmlSafe(rs[i])
    requires root.children == seq(|rs|, i requires 0 <= i < |rs| => RecordOf(rs[i]))
    ensures DecodesAsRecords(XmlRecords(Some(root)), rs)
  {
    var cs := root.children;
    if |rs| > 0 {
      RecordsOfRoot(root);
      RecordElementViews(rs, cs);
      if |rs| == 1 {
        assert XmlRecords(Some(root)) == View(cs[0]) == rs[0].ToArray();
      }
    }
  }

  /** Each record element decodes to its record's array. */
  lemma RecordElementViews(rs: seq<GeoRange>, cs: seq<Element>)
    requires forall i :: 0 <= i < |rs| ==> XmlSafe(rs[i])
    requires cs == seq(|rs|, i requires 0 <= i < |rs| => RecordOf(rs[i]))
    ensures forall i :: 0 <= i < |cs| ==> View(cs[i]) == rs[i].ToArray()
    ensures seq(|cs|, i requires 0 <= i < |cs| => View(cs[i])) == seq(|rs|, i requires 0 <= i < |rs| => rs[i].ToArray())
  {
    forall i | 0 <= i < |rs|
      ensures View(cs[i]) == rs[i].ToArray()
    {
      var g := rs[i];
      RecordView(g.GetStartIp(), g.GetEndIp(), g.countryCode, g.countryName);
    }
  }

  /** What "geo_location" decodes to in the document `toXML` writes for `rs`. */
  lemma RecordsOfDocument(rs: seq<GeoRange>)
    requires forall i :: 0 <= i < |rs| ==> XmlSafe(rs[i])
    ensures ToUniversal(Slots(rs)).Success?
    ensures DecodesAsRecords(XmlRecords(Some(Document(ToUniversal(Slots(rs)).value))), rs)
  {
    DocumentOfRecords(rs);
    RecordsOfRecordElements(rs, Document(ToUniversal(Slots(rs)).value));
  }

  /** The corrected reading of records' decoded arrays gives back the records. */
  lemma ReadDecodedRecords(rs: seq<GeoRange>, v: Value)
    requires forall i :: 0 <= i < |rs| ==> Canonical(rs[i])
    requires DecodesAsRecords(v, rs)
    ensures FromUniversal(if IsSingleRecord(v) then List([v]) else v) == Success(Slots(rs))
  {
    if |rs| == 0 {
      assert Slots(rs) == [];
    } else if |rs| == 1 {
      assert v.entries[0].key.StrKey?;
      ItemsOfList([v]);
      FromItemsOfRecords(rs, [v]);
    } else {
      var items := seq(|rs|, i requires 0 <= i < |rs| => rs[i].ToArray());
      assert !IsSingleRecord(v);
      ItemsOfList(items);
      FromItemsOfRecords(rs, items);
    }
  }

  /**
   * Round trip through `toXML` and the corrected `fromXML`: every collection
   * of records with non-empty codes and names reads back unchanged.
   */
  lemma XmlRoundTrip(rs: seq<GeoRange>)
    requires forall i :: 0 <= i < |rs| ==> Canonical(rs[i]) && XmlSafe(rs[i])
    ensures ToUniversal(Slots(rs)).Success?
    ensures FromXml(Some(Document(ToUniversal(Slots(rs)).value))) == Success(Slots(rs))
  {
    RecordsOfDocument(rs);
    ReadDecodedRecords(rs, XmlRecords(Some(Document(ToUniversal(Slots(rs)).value))));
  }

  /** `fromXML` as written reads back every collection except one of exactly one record. */
  lemma XmlRoundTripAsWritten(rs: seq<GeoRange>)
    requires |rs| != 1
    requires forall i :: 0 <= i < |rs| ==> Canonical(rs[i]) && XmlSafe(rs[i])
    ensures ToUniversal(Slots(rs)).Success?
    ensures FromXmlAsWritten(Some(Document(ToUniversal(Slots(rs)).value))) == Success(Slots(rs))
  {
    RecordsOfDocument(rs);
    XmlRoundTrip(rs);
    var v := XmlRecords(Some(Document(ToUniversal(Slots(rs)).value)));
    assert !IsSingleRecord(v);
  }

  /**
   * `fromXML` as written on the document of a single record: the record's
   * array is taken for the list, and its four fields become four NULL slots.
   */
  lemma SingleRecordXmlAsWritten(g: GeoRange)
    requires XmlSafe(g)
    ensures ToUniversal([Some(g)]).Success?
    ensures FromXmlAsWritten(Some(Document(ToUniversal([Some(g)]).value))) == Success([None, None, None, None])
  {
    assert Slots([g]) == [Some(g)];
    RecordsOfDocument([g]);
    SingleRecordGivesNullSlots(g);
  }

  /** A document that does not load, or one without records, reads as an empty collection. */
  lemma NoRecordsReadNothing(doc: Option<Element>)
    requires doc.None? || forall i :: 0 <= i < |doc.value.children| ==> doc.value.children[i].name != GeoLocationTag
    ensures FromXml(doc) == Success([]) && FromXmlAsWritten(doc) == Success([])
  {
    if doc.Some? {
      var cs := doc.value.children;
      if GeoLocationTag in Names(cs) {
        NamesAreTags(cs, GeoLocationTag);
      }
      NoTagNoProp(doc.value, Names(cs));
    }
  }

  lemma {:induction false} NoTagNoProp(e: Element, names: seq<string>)
    requires GeoLocationTag !in names
    ensures Get(Props(e, names), StrKey(GeoLocationTag)).None?
    decreases |names|
  {
    if names != [] {
      var init := names[..|names| - 1];
      NoTagNoProp(e, init);
      var n := names[|names| - 1];
      GetAppend(Props(e, init), [Entry(StrKey(n), Group(e, Named(e.children, n)))], StrKey(GeoLocationTag));
    }
  }

  /** Looking a key up in two batches of entries: the first batch's entry wins. */
  lemma {:induction false} GetAppend(a: seq<Entry>, b: seq<Entry>, k: Key)
    ensures Get(a + b, k) == if Get(a, k).Some? then Get(a, k) else Get(b, k)
  {
    if a != [] {
      assert (a + b)[1..] == a[1..] + b;
      GetAppend(a[1..], b, k);
    } else {
      assert a + b == b;
    }
  }
}
