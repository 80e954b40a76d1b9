/**
 * PHP values as the core sees them: scalars and ordered arrays whose keys are
 * integers or strings. A PHP array is an ordered list of entries; `foreach`
 * visits them in that order.
 */
module PhpArrays {
  import opened Wrappers
  import opened PhpStrings

  datatype Key = IntKey(i: int) | StrKey(s: string)

  datatype Value =
    | Null
    | Bool(b: bool)
    | Int(i: int)
    | Str(s: string)
    | Arr(entries: seq<Entry>)

  datatype Entry = Entry(key: Key, val: Value)

  /** `$a[$k]`: the value stored under key `k`, if any. */
  function Get(entries: seq<Entry>, k: Key): Option<Value>
  {
    if entries == [] then None
    else if entries[0].key == k then Some(entries[0].val)
    else Get(entries[1..], k)
  }

  /** `isset($v[$k])` for a string key: `v` is an array holding a non-NULL value under `k`. */
  predicate Isset(v: Value, k: string)
  {
    v.Arr? && Get(v.entries, StrKey(k)).Some? && !Get(v.entries, StrKey(k)).value.Null?
  }

  /** `$v[$k]` read as a value: NULL when `v` is not an array or holds nothing under `k`. */
  function At(v: Value, k: string): (r: Value)
    ensures Isset(v, k) ==> r == Get(v.entries, StrKey(k)).value
    ensures !v.Arr? ==> r == Null
  {
    if v.Arr? && Get(v.entries, StrKey(k)).Some? then Get(v.entries, StrKey(k)).value else Null
  }

  /** The values `foreach ($v as $item)` visits; nothing when `v` is not an array. */
  function Items(v: Value): (items: seq<Value>)
    ensures v.Arr? ==> |items| == |v.entries|
    ensures v.Arr? ==> forall i :: 0 <= i < |items| ==> items[i] == v.entries[i].val
    ensures !v.Arr? ==> items == []
  {
    if v.Arr? then seq(|v.entries|, i requires 0 <= i < |v.entries| => v.entries[i].val) else []
  }

  /** The list `$arr[] = ...` builds: keys 0, 1, 2, ... in order. */
  function List(vs: seq<Value>): (v: Value)
    ensures v.Arr? && |v.entries| == |vs|
    ensures forall i :: 0 <= i < |vs| ==> v.entries[i] == Entry(IntKey(i), vs[i])
  {
    Arr(seq(|vs|, i requires 0 <= i < |vs| => Entry(IntKey(i), vs[i])))
  }

  lemma ItemsOfList(vs: seq<Value>)
    ensures Items(List(vs)) == vs
  {
  }

  /**
   * `is_numeric($key)`: integer keys, and string keys made of decimal digits
   * (PHP stores such keys as integers anyway).
   */
  predicate IsNumericKey(k: Key)
  {
    k.IntKey? || (|k.s| > 0 && IsDigits(k.s))
  }

  /** `"$key"`. */
  function KeyText(k: Key): string
  {
    if k.IntKey? then IntString(k.i) else k.s
  }

  /** `"$value"` for a scalar; an array prints as "Array". */
  function Text(v: Value): string
  {
    match v
    case Null => ""
    case Bool(b) => if b then "1" else ""
    case Int(i) => IntString(i)
    case Str(s) => s
    case Arr(_) => "Array"
  }
}
