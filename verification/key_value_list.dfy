/** The `KeyValueListParser` the bitrate store calls: a class of the
    store's own package, assumed to behave like Android's
    `android.util.KeyValueListParser`. It reads a comma-separated list of
    `key=value` items, each split at its first `=`, key and value trimmed,
    an item without `=` making the whole list malformed, and a later item
    for the same key replacing an earlier one. */
module KeyValueList {
  import opened Options
  import opened JavaText

  datatype Pair = Pair(key: string, value: string)

  /** One `key=value` item; `None` is the `IllegalArgumentException` thrown
      for an item that holds no `=`. */
  function ParseItem(item: string): (r: Option<Pair>)
    ensures r.None? <==> '=' !in item
  {
    var i := IndexOf(item, '=');
    if i == |item| then None
    else Some(Pair(Trim(item[..i]), Trim(item[i + 1..])))
  }

  function ParseItems(items: seq<string>): (r: Option<seq<Pair>>)
    ensures r.Some? <==> forall k :: 0 <= k < |items| ==> ParseItem(items[k]).Some?
    ensures r.Some? ==> |r.value| == |items|
    ensures r.Some? ==> forall k :: 0 <= k < |items| ==> ParseItem(items[k]) == Some(r.value[k])
  {
    if items == [] then Some([])
    else
      var head := ParseItem(items[0]);
      var tail := ParseItems(items[1..]);
      assert forall k :: 1 <= k < |items| ==> items[k] == items[1..][k - 1];
      if head.None? || tail.None? then None
      else Some([head.value] + tail.value)
  }

  /** `KeyValueListParser.setString`: the list of items, or `None` when
      one of them is malformed. */
  function ParseList(s: string): (r: Option<seq<Pair>>)
    ensures r.Some? <==> forall k :: 0 <= k < |Split(s, ',')| ==> '=' in Split(s, ',')[k]
    ensures r.Some? ==> |r.value| == |Split(s, ',')|
  {
    var items := Split(s, ',');
    var r := ParseItems(items);
    if r.Some? then r
    else
      var k :| 0 <= k < |items| && ParseItem(items[k]).None?;
      assert '=' !in items[k];
      r
  }

  /** Position of the last pair with this key, `None` when no pair has it. */
  function LastIndex(ps: seq<Pair>, key: string): (r: Option<nat>)
    ensures r.None? ==> forall k :: 0 <= k < |ps| ==> ps[k].key != key
    ensures r.Some? ==> r.value < |ps| && ps[r.value].key == key
    ensures r.Some? ==> forall j :: r.value < j < |ps| ==> ps[j].key != key
  {
    if ps == [] then None
    else if ps[|ps| - 1].key == key then Some(|ps| - 1)
    else
      var r := LastIndex(ps[..|ps| - 1], key);
      assert forall k :: 0 <= k < |ps| - 1 ==> ps[..|ps| - 1][k] == ps[k];
      r
  }

  /** `KeyValueListParser.getString` without its default: the value of the
      last item with this key, `None` when no item has it. */
  function GetString(ps: seq<Pair>, key: string): (r: Option<string>)
    ensures r.None? <==> forall k :: 0 <= k < |ps| ==> ps[k].key != key
    ensures r.Some? ==> exists k :: 0 <= k < |ps| && ps[k] == Pair(key, r.value)
                                    && forall j :: k < j < |ps| ==> ps[j].key != key
  {
    match LastIndex(ps, key)
    case None => None
    case Some(i) =>
      assert ps[i] == Pair(key, ps[i].value);
      Some(ps[i].value)
  }

  /** `KeyValueListParser.getInt`: the value of the key read as an `int`,
      or `def` when the key is absent or its value is not a number. */
  function GetInt(ps: seq<Pair>, key: string, def: Int32): (r: Int32)
    ensures GetString(ps, key).None? ==> r == def
    ensures GetString(ps, key).Some? && ParseInt(GetString(ps, key).value).Some?
            ==> r == ParseInt(GetString(ps, key).value).value
    ensures GetString(ps, key).Some? && ParseInt(GetString(ps, key).value).None? ==> r == def
  {
    match GetString(ps, key)
    case None => def
    case Some(v) =>
      match ParseInt(v)
      case None => def
      case Some(n) => n
  }

  /** The value of an item holds only characters of the item. */
  lemma ItemValueChars(item: string)
    requires ParseItem(item).Some?
    ensures forall c :: c in ParseItem(item).value.value ==> c in item
  {
    var i := IndexOf(item, '=');
    TrimChars(item[i + 1..]);
    SliceChars(item, i + 1, |item|);
  }

  /** A value looked up in a parsed list is trimmed, holds no `,`, and holds
      only characters of the parsed string. */
  lemma ListValueChars(s: string, key: string)
    requires ParseList(s).Some? && GetString(ParseList(s).value, key).Some?
    ensures var v := GetString(ParseList(s).value, key).value;
            && (v == [] || (!IsBlank(v[0]) && !IsBlank(v[|v| - 1])))
            && ',' !in v
            && forall c :: c in v ==> c in s
  {
    var items := Split(s, ',');
    var ps := ParseList(s).value;
    var k := LastIndex(ps, key).value;
    assert GetString(ps, key).value == ps[k].value;
    assert ParseItem(items[k]) == Some(ps[k]);
    ItemValueChars(items[k]);
    SplitTokenChars(s, ',', k);
  }

  /** An item `key=value` whose key holds no `=` and whose key and value
      carry no blank at either end parses back into exactly that pair. */
  lemma ParseItemExact(key: string, value: string)
    requires '=' !in key
    requires key == [] || (!IsBlank(key[0]) && !IsBlank(key[|key| - 1]))
    requires value == [] || (!IsBlank(value[0]) && !IsBlank(value[|value| - 1]))
    ensures ParseItem(key + "=" + value) == Some(Pair(key, value))
  {
    var item := key + "=" + value;
    IndexOfSplitPoint(key, '=', value);
    assert item == key + ['='] + value;
    assert item[..|key|] == key;
    assert item[|key| + 1..] == value;
    TrimUnblanked(key);
    TrimUnblanked(value);
  }

  /** A list with a single item. */
  lemma ParseOneItem(x: string)
    requires x != [] && ',' !in x && ParseItem(x).Some?
    ensures ParseList(x) == Some([ParseItem(x).value])
  {
    assert Split(x, ',') == [x];
    var r := ParseItems([x]);
    assert ParseItem([x][0]) == Some(r.value[0]);
    assert r.value == [ParseItem(x).value];
  }

  /** `key=value` with neither part holding `,` holds no `,`. */
  lemma ItemHasNoComma(key: string, value: string)
    requires ',' !in key && ',' !in value
    ensures ',' !in key + "=" + value
  {
    var item := key + "=" + value;
    assert forall k :: |key| < k < |item| ==> item[k] == value[k - |key| - 1];
  }

  /** A blank-free, separator-free `key=value` list of one item parses back
      into exactly that pair. */
  lemma ParseSingleItem(key: string, value: string)
    requires '=' !in key && ',' !in key && ',' !in value
    requires key == [] || (!IsBlank(key[0]) && !IsBlank(key[|key| - 1]))
    requires value == [] || (!IsBlank(value[0]) && !IsBlank(value[|value| - 1]))
    ensures ParseList(key + "=" + value) == Some([Pair(key, value)])
  {
    ItemHasNoComma(key, value);
    ParseItemExact(key, value);
    ParseOneItem(key + "=" + value);
  }

  /** An item with an empty value followed by a second item. */
  lemma ParseEmptyThenItem(key: string, y: string)
    requires '=' !in key && ',' !in key
    requires key == [] || (!IsBlank(key[0]) && !IsBlank(key[|key| - 1]))
    requires y != [] && ',' !in y && ParseItem(y).Some?
    ensures ParseList(key + "=," + y) == Some([Pair(key, ""), ParseItem(y).value])
  {
    var x := key + "=";
    assert x == key + "=" + "";
    assert key + "=," + y == x + "," + y;
    ParseItemExact(key, "");
    ItemHasNoComma(key, "");
    ParseTwoItems(x, y);
  }

  /** A list with two items. */
  lemma ParseTwoItems(x: string, y: string)
    requires ',' !in x && ParseItem(x).Some?
    requires y != [] && ',' !in y && ParseItem(y).Some?
    ensures ParseList(x + "," + y) == Some([ParseItem(x).value, ParseItem(y).value])
  {
    var s := x + "," + y;
    assert s == x + [','] + y;
    SplitCons(x, ',', y);
    assert Split(y, ',') == [y];
    assert Split(s, ',') == [x, y];
    var r := ParseItems([x, y]);
    assert ParseItem([x, y][0]) == Some(r.value[0]);
    assert ParseItem([x, y][1]) == Some(r.value[1]);
    assert r.value == [ParseItem(x).value, ParseItem(y).value];
  }

  /** Blank-free, separator-free keys and values make a two-item list
      that parses back into exactly those two pairs. */
  lemma ParsePairList(k1: string, v1: string, k2: string, v2: string)
    requires '=' !in k1 && '=' !in k2
    requires ',' !in k1 && ',' !in v1 && ',' !in k2 && ',' !in v2
    requires k1 == [] || (!IsBlank(k1[0]) && !IsBlank(k1[|k1| - 1]))
    requires v1 == [] || (!IsBlank(v1[0]) && !IsBlank(v1[|v1| - 1]))
    requires k2 == [] || (!IsBlank(k2[0]) && !IsBlank(k2[|k2| - 1]))
    requires v2 == [] || (!IsBlank(v2[0]) && !IsBlank(v2[|v2| - 1]))
    ensures ParseList(k1 + "=" + v1 + "," + k2 + "=" + v2) == Some([Pair(k1, v1), Pair(k2, v2)])
  {
    var x, y := k1 + "=" + v1, k2 + "=" + v2;
    assert k1 + "=" + v1 + "," + k2 + "=" + v2 == x + "," + y;
    assert forall k :: |k1| < k < |x| ==> x[k] == v1[k - |k1| - 1];
    assert forall k :: |k2| < k < |y| ==> y[k] == v2[k - |k2| - 1];
    ParseItemExact(k1, v1);
    ParseItemExact(k2, v2);
    ParseTwoItems(x, y);
  }
}
