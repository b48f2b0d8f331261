/** The string form the bitrate store keeps in its one global setting:
    one `addr=<address>,sbcbr=<rate>` token per device, each followed by
    `|`. Decoding rebuilds the device-to-rate map from such a string;
    encoding writes a map out in the order its keys are enumerated. */
module SbcCodec {
  import opened Options
  import opened JavaText
  import opened KeyValueList

  const EntrySeparator: char := '|'
  const AddrKey: string := "addr"
  const RateKey: string := "sbcbr"

  /** A device-to-bitrate map, as the store caches it. */
  type Rates = map<string, Int32>

  // ---------------------------------------------------------------------------
  // Decoding

  /** What one `|`-separated token contributes: a device entry, nothing
      because it names no device, or nothing because it does not parse. */
  datatype TokenOutcome = Malformed | NoAddress | Entry(addr: string, rate: Int32)

  /** One token read as a key/value list: the device is the `addr` value,
      which must be non-empty; the rate is `sbcbr`, defaulting to 0. */
  function DecodeToken(token: string): (r: TokenOutcome)
    ensures r.Malformed? <==> ParseList(token).None?
    ensures r.Entry? ==> && r.addr != [] && ',' !in r.addr
                         && !IsBlank(r.addr[0]) && !IsBlank(r.addr[|r.addr| - 1])
    ensures r.Entry? ==> forall c :: c in r.addr ==> c in token
    ensures ParseList(token).Some? ==>
              var ps := ParseList(token).value;
              var a := GetString(ps, AddrKey);
              && (r.NoAddress? <==> a.None? || a.value == [])
              && (r.Entry? ==> r.addr == a.value && r.rate == GetInt(ps, RateKey, 0))
  {
    match ParseList(token)
    case None => Malformed
    case Some(ps) =>
      match GetString(ps, AddrKey)
      case None => NoAddress
      case Some(a) =>
        ListValueChars(token, AddrKey);
        if a == [] then NoAddress else Entry(a, GetInt(ps, RateKey, 0))
  }

  /** The outcome is an entry for device `a`. */
  predicate Names(o: TokenOutcome, a: string)
  {
    o.Entry? && o.addr == a
  }

  /** The map a sequence of token outcomes rebuilds, read front to back: an
      entry stores its rate under its device, replacing any earlier one;
      every other outcome is passed over. */
  function Collect(outs: seq<TokenOutcome>): Rates
  {
    if outs == [] then map[]
    else
      var m := Collect(outs[..|outs| - 1]);
      match outs[|outs| - 1]
      case Entry(a, r) => m[a := r]
      case _ => m
  }

  function Outcomes(ts: seq<string>): (outs: seq<TokenOutcome>)
    ensures |outs| == |ts|
    ensures forall k :: 0 <= k < |ts| ==> outs[k] == DecodeToken(ts[k])
  {
    seq(|ts|, k requires 0 <= k < |ts| => DecodeToken(ts[k]))
  }

  /** The cache rebuilt from the stored string. Every device it holds has
      an address the string form can carry. */
  function Decode(s: string): (r: Rates)
    ensures forall a :: a in r ==> ValidAddress(a)
  {
    DecodedAddressesCarried(s);
    Collect(Outcomes(Split(s, EntrySeparator)))
  }

  /** A decoded address comes from a token, so it holds no `|`; the key/value
      parser trims it and cuts it at `,`; an empty one is skipped. */
  lemma DecodedAddressesCarried(s: string)
    ensures forall a :: a in Collect(Outcomes(Split(s, EntrySeparator))) ==> ValidAddress(a)
  {
    var ts := Split(s, EntrySeparator);
    var outs := Outcomes(ts);
    forall a | a in Collect(outs)
      ensures ValidAddress(a)
    {
      CollectLastWins(outs, a);
      var i :| 0 <= i < |outs| && Names(outs[i], a);
      assert outs[i] == DecodeToken(ts[i]);
      assert EntrySeparator !in ts[i];
    }
  }

  // ---------------------------------------------------------------------------
  // Encoding

  /** The token written for one device. */
  function EntryText(a: string, r: Int32): string
  {
    AddrKey + "=" + a + "," + RateKey + "=" + ShowInt(r)
  }

  /** Every entry's token followed by `|`, the last one included. */
  function EncodeEntries(es: seq<(string, Int32)>): (s: string)
    ensures s == [] <==> es == []
    ensures s != [] ==> s[|s| - 1] == EntrySeparator
  {
    if es == [] then ""
    else EntryText(es[0].0, es[0].1) + [EntrySeparator] + EncodeEntries(es[1..])
  }

  /** The encoding grows one terminated token per entry, the way the loop
      over the map appends `addr=<a>,sbcbr=<r>|` to the string. */
  lemma EncodeEntriesAppend(es: seq<(string, Int32)>, a: string, r: Int32)
    ensures EncodeEntries(es + [(a, r)]) == EncodeEntries(es) + EntryText(a, r) + [EntrySeparator]
  {
    EncodeEntriesIsJoin(es);
    EncodeEntriesIsJoin(es + [(a, r)]);
    assert EntryTexts(es + [(a, r)]) == EntryTexts(es) + [EntryText(a, r)];
    JoinTerminatedAppend(EntryTexts(es), EntryText(a, r), EntrySeparator);
  }

  /** `order` lists every key of the map exactly once: an iteration order
      of a `HashMap`, which Java leaves unspecified. */
  predicate IsEnumeration(order: seq<string>, keys: set<string>)
  {
    && (forall i, j :: 0 <= i < j < |order| ==> order[i] != order[j])
    && (forall k :: 0 <= k < |order| ==> order[k] in keys)
    && (forall a :: a in keys ==> a in order)
  }

  /** The map's entries in the given order. */
  function Listing(m: Rates, order: seq<string>): (es: seq<(string, Int32)>)
    requires forall k :: 0 <= k < |order| ==> order[k] in m
    ensures |es| == |order|
    ensures forall k :: 0 <= k < |es| ==> es[k] == (order[k], m[order[k]])
  {
    seq(|order|, k requires 0 <= k < |order| => (order[k], m[order[k]]))
  }

  /** The string the store writes for its cache, iterated in `order`. */
  function Encode(m: Rates, order: seq<string>): (r: string)
    requires IsEnumeration(order, m.Keys)
    ensures r == [] <==> m == map[]
    ensures r != [] ==> r[|r| - 1] == EntrySeparator
  {
    assert order != [] ==> order[0] in m;
    assert order == [] ==> m.Keys == {};
    EncodeEntries(Listing(m, order))
  }

  // ---------------------------------------------------------------------------
  // Reference definitions

  /** The map a list of entries denotes when later entries win. */
  function ToMap(es: seq<(string, Int32)>): Rates
  {
    if es == [] then map[] else ToMap(es[..|es| - 1])[es[|es| - 1].0 := es[|es| - 1].1]
  }

  function EntryTexts(es: seq<(string, Int32)>): (ts: seq<string>)
    ensures |ts| == |es|
    ensures forall k :: 0 <= k < |es| ==> ts[k] == EntryText(es[k].0, es[k].1)
  {
    seq(|es|, k requires 0 <= k < |es| => EntryText(es[k].0, es[k].1))
  }

  /** An address the format can carry: non-empty, free of the two
      separators, and with nothing `String.trim` would strip. */
  predicate ValidAddress(a: string)
  {
    && a != []
    && EntrySeparator !in a
    && ',' !in a
    && !IsBlank(a[0])
    && !IsBlank(a[|a| - 1])
  }

  // ---------------------------------------------------------------------------
  // Decoding rules

  /** A device is in the collected map exactly when some outcome names it,
      and its rate is the one of the LAST outcome naming it. */
  lemma {:induction false} CollectLastWins(outs: seq<TokenOutcome>, a: string)
    ensures a in Collect(outs) <==> exists i :: 0 <= i < |outs| && Names(outs[i], a)
    ensures a in Collect(outs) ==>
      exists i :: 0 <= i < |outs| && outs[i] == Entry(a, Collect(outs)[a])
                  && forall j :: i < j < |outs| ==> !Names(outs[j], a)
  {
    if outs != [] {
      var n := |outs| - 1;
      var init := outs[..n];
      CollectLastWins(init, a);
      assert forall i :: 0 <= i < n ==> init[i] == outs[i];
      if !Names(outs[n], a) && a in Collect(outs) {
        assert Collect(outs)[a] == Collect(init)[a];
      }
    }
  }

  /** The same, read off the stored string: a device is decoded exactly when
      some token of the string names it, with the rate of the last such
      token. */
  lemma DecodeLastWins(s: string, a: string)
    ensures a in Decode(s) <==> exists i :: 0 <= i < |Split(s, EntrySeparator)|
                                           && Names(DecodeToken(Split(s, EntrySeparator)[i]), a)
    ensures a in Decode(s) ==>
      exists i :: 0 <= i < |Split(s, EntrySeparator)|
                  && DecodeToken(Split(s, EntrySeparator)[i]) == Entry(a, Decode(s)[a])
                  && forall j :: i < j < |Split(s, EntrySeparator)|
                               ==> !Names(DecodeToken(Split(s, EntrySeparator)[j]), a)
  {
    CollectLastWins(Outcomes(Split(s, EntrySeparator)), a);
  }

  /** A token that is malformed or names no device is skipped: the tokens
      around it decode as if it were not there. */
  lemma {:induction false} CollectSkips(before: seq<TokenOutcome>, o: TokenOutcome, after: seq<TokenOutcome>)
    requires !o.Entry?
    ensures Collect(before + [o] + after) == Collect(before + after)
  {
    if after == [] {
      var xs := before + [o] + after;
      assert xs == before + [o];
      assert xs[..|xs| - 1] == before;
      assert xs[|xs| - 1] == o;
      assert before + after == before;
    } else {
      var n := |after| - 1;
      CollectSkips(before, o, after[..n]);
      var xs, ys := before + [o] + after, before + after;
      assert xs[..|xs| - 1] == before + [o] + after[..n];
      assert ys[..|ys| - 1] == before + after[..n];
      assert xs[|xs| - 1] == after[n] == ys[|ys| - 1];
    }
  }

  lemma OutcomesAppend(xs: seq<string>, ys: seq<string>)
    ensures Outcomes(xs + ys) == Outcomes(xs) + Outcomes(ys)
  {
  }

  /** The same on tokens: a token that does not decode to an entry does not
      stop, nor change, the decoding of the others. */
  lemma DecodeSkipsToken(before: seq<string>, t: string, after: seq<string>)
    requires !DecodeToken(t).Entry?
    ensures Collect(Outcomes(before + [t] + after)) == Collect(Outcomes(before + after))
  {
    OutcomesAppend(before + [t], after);
    OutcomesAppend(before, [t]);
    assert Outcomes([t]) == [DecodeToken(t)];
    OutcomesAppend(before, after);
    CollectSkips(Outcomes(before), DecodeToken(t), Outcomes(after));
  }

  /** An item with no `=` makes its whole token malformed. */
  lemma ItemWithoutEqualsIsMalformed(token: string, k: nat)
    requires k < |Split(token, ',')| && '=' !in Split(token, ',')[k]
    ensures DecodeToken(token) == Malformed
  {
  }

  /** A token whose items parse but none of which is keyed `addr` names no
      device. */
  lemma TokenWithoutAddress(token: string)
    requires ParseList(token).Some?
    requires forall k :: 0 <= k < |ParseList(token).value| ==> ParseList(token).value[k].key != AddrKey
    ensures DecodeToken(token) == NoAddress
  {
  }

  /** Whatever else a parsable token holds, and in whatever order, an `addr`
      whose last value trims to nothing names no device. */
  lemma EmptyAddressNamesNoDevice(token: string)
    requires ParseList(token).Some? && GetString(ParseList(token).value, AddrKey) == Some([])
    ensures DecodeToken(token) == NoAddress
  {
  }

  /** A token that names a device but holds no `sbcbr` item yields rate 0,
      wherever its `addr` item stands. */
  lemma MissingRateIsZero(token: string)
    requires ParseList(token).Some?
    requires forall k :: 0 <= k < |ParseList(token).value| ==> ParseList(token).value[k].key != RateKey
    ensures DecodeToken(token).Entry? ==> DecodeToken(token).rate == 0
  {
  }

  /** So does a token whose last `sbcbr` value `Integer.parseInt` rejects. */
  lemma RejectedRateIsZero(token: string)
    requires ParseList(token).Some?
    requires var v := GetString(ParseList(token).value, RateKey); v.Some? && ParseInt(v.value).None?
    ensures DecodeToken(token).Entry? ==> DecodeToken(token).rate == 0
  {
  }

  /** An `addr` item with an empty value names no device either, alone or
      followed by another item. */
  lemma TokenWithEmptyAddress(y: string)
    requires y != [] && ',' !in y && ParseItem(y).Some? && ParseItem(y).value.key != AddrKey
    ensures DecodeToken(AddrKey + "=") == NoAddress
    ensures DecodeToken(AddrKey + "=," + y) == NoAddress
  {
    EmptyAddressItem();
    ParseOneItem(AddrKey + "=");
    assert GetString([Pair(AddrKey, "")], AddrKey) == Some("");
    EmptyAddressThenItem(y);
  }

  lemma EmptyAddressItem()
    ensures ParseItem(AddrKey + "=") == Some(Pair(AddrKey, ""))
  {
    ParseItemExact(AddrKey, "");
    assert AddrKey + "=" + "" == AddrKey + "=";
  }

  lemma EmptyAddressThenItem(y: string)
    requires y != [] && ',' !in y && ParseItem(y).Some? && ParseItem(y).value.key != AddrKey
    ensures DecodeToken(AddrKey + "=," + y) == NoAddress
  {
    ParseEmptyThenItem(AddrKey, y);
    var ps := [Pair(AddrKey, ""), ParseItem(y).value];
    assert GetString(ps, AddrKey) == Some("");
  }

  /** The items of a token this format writes. */
  lemma EntryTextItems(a: string, r: Int32)
    requires ValidAddress(a)
    ensures ParseList(EntryText(a, r)) == Some([Pair(AddrKey, a), Pair(RateKey, ShowInt(r))])
  {
    ShowIntPlain(r);
    ParsePairList(AddrKey, a, RateKey, ShowInt(r));
  }

  /** Reading back a single token this format writes. */
  lemma DecodeEntryText(a: string, r: Int32)
    requires ValidAddress(a)
    ensures DecodeToken(EntryText(a, r)) == Entry(a, r)
  {
    EntryTextItems(a, r);
    var ps := [Pair(AddrKey, a), Pair(RateKey, ShowInt(r))];
    assert GetString(ps, AddrKey) == Some(a);
    assert GetString(ps, RateKey) == Some(ShowInt(r));
    ParseShowInt(r);
  }

  /** Another writer may put the rate first: `sbcbr=<r>,addr=<a>` reads
      as the same entry as the token this format writes. */
  lemma RateFirstToken(a: string, r: Int32)
    requires ValidAddress(a)
    ensures DecodeToken(RateKey + "=" + ShowInt(r) + "," + AddrKey + "=" + a) == Entry(a, r)
  {
    RateFirstItems(a, r);
    var ps := [Pair(RateKey, ShowInt(r)), Pair(AddrKey, a)];
    assert GetString(ps, AddrKey) == Some(a);
    assert GetString(ps, RateKey) == Some(ShowInt(r));
    ParseShowInt(r);
  }

  lemma RateFirstItems(a: string, r: Int32)
    requires ValidAddress(a)
    ensures ParseList(RateKey + "=" + ShowInt(r) + "," + AddrKey + "=" + a)
            == Some([Pair(RateKey, ShowInt(r)), Pair(AddrKey, a)])
  {
    ShowIntPlain(r);
    ParsePairList(RateKey, ShowInt(r), AddrKey, a);
  }

  /** The one-item token `addr=<a>` yields rate 0. */
  lemma AddressOnlyToken(a: string)
    requires ValidAddress(a)
    ensures DecodeToken(AddrKey + "=" + a) == Entry(a, 0)
  {
    ParseSingleItem(AddrKey, a);
    var ps := [Pair(AddrKey, a)];
    assert GetString(ps, AddrKey) == Some(a);
    assert GetString(ps, RateKey).None?;
  }

  /** So does the token `addr=<a>,sbcbr=<v>` when `Integer.parseInt`
      rejects `v`. */
  lemma UnparsableRateIsZero(a: string, v: string)
    requires ValidAddress(a)
    requires ',' !in v && v != [] && !IsBlank(v[0]) && !IsBlank(v[|v| - 1])
    requires ParseInt(v).None?
    ensures DecodeToken(AddrKey + "=" + a + "," + RateKey + "=" + v) == Entry(a, 0)
  {
    ParsePairList(AddrKey, a, RateKey, v);
    var ps := [Pair(AddrKey, a), Pair(RateKey, v)];
    assert GetString(ps, AddrKey) == Some(a);
    assert GetString(ps, RateKey) == Some(v);
  }

  // ---------------------------------------------------------------------------
  // Round trip

  lemma {:induction false} EncodeEntriesIsJoin(es: seq<(string, Int32)>)
    ensures EncodeEntries(es) == JoinTerminated(EntryTexts(es), EntrySeparator)
  {
    if es != [] {
      EncodeEntriesIsJoin(es[1..]);
      assert EntryTexts(es)[1..] == EntryTexts(es[1..]);
    }
  }

  lemma EntryTextHasNoSeparator(a: string, r: Int32)
    requires ValidAddress(a)
    ensures EntrySeparator !in EntryText(a, r)
  {
    ShowIntPlain(r);
    assert forall k :: 0 <= k < |ShowInt(r)| ==> ShowInt(r)[k] != EntrySeparator;
    assert EntrySeparator !in AddrKey + "=" && EntrySeparator !in "," + RateKey + "=";
    assert EntryText(a, r) == (AddrKey + "=") + a + ("," + RateKey + "=") + ShowInt(r);
  }

  /** The tokens the decoder sees in an encoding are exactly the entries'
      tokens, one per entry, in order; the trailing `|` adds none. */
  lemma EncodeSplitsIntoEntries(es: seq<(string, Int32)>)
    requires forall k :: 0 <= k < |es| ==> ValidAddress(es[k].0)
    ensures Split(EncodeEntries(es), EntrySeparator) == EntryTexts(es)
  {
    EncodeEntriesIsJoin(es);
    EntryTextsHaveNoSeparator(es);
    SplitJoinTerminated(EntryTexts(es), EntrySeparator);
  }

  lemma EntryTextsHaveNoSeparator(es: seq<(string, Int32)>)
    requires forall k :: 0 <= k < |es| ==> ValidAddress(es[k].0)
    ensures forall k :: 0 <= k < |EntryTexts(es)| ==> EntrySeparator !in EntryTexts(es)[k]
  {
    forall k | 0 <= k < |es|
      ensures EntrySeparator !in EntryTexts(es)[k]
    {
      EntryTextHasNoSeparator(es[k].0, es[k].1);
    }
  }

  /** Each entry as the outcome its token decodes to. */
  function Entries(es: seq<(string, Int32)>): (outs: seq<TokenOutcome>)
    ensures |outs| == |es|
  {
    seq(|es|, k requires 0 <= k < |es| => Entry(es[k].0, es[k].1))
  }

  lemma {:induction false} CollectEntries(es: seq<(string, Int32)>)
    ensures Collect(Entries(es)) == ToMap(es)
  {
    if es != [] {
      var n := |es| - 1;
      CollectEntries(es[..n]);
      assert Entries(es)[..n] == Entries(es[..n]);
    }
  }

  lemma DecodeEntryTexts(es: seq<(string, Int32)>)
    requires forall k :: 0 <= k < |es| ==> ValidAddress(es[k].0)
    ensures Collect(Outcomes(EntryTexts(es))) == ToMap(es)
  {
    forall k | 0 <= k < |es| {
      DecodeEntryText(es[k].0, es[k].1);
    }
    assert Outcomes(EntryTexts(es)) == Entries(es);
    CollectEntries(es);
  }

  lemma {:induction false} ToMapListing(m: Rates, order: seq<string>)
    requires forall k :: 0 <= k < |order| ==> order[k] in m
    ensures ToMap(Listing(m, order)) == map a | a in order :: m[a]
  {
    if order != [] {
      var n := |order| - 1;
      ToMapListing(m, order[..n]);
      assert Listing(m, order)[..n] == Listing(m, order[..n]);
      assert forall a :: a in order <==> a in order[..n] || a == order[n];
    }
  }

  /** Decoding the encoding of a cache gives the cache back, whatever order
      its keys are written in, provided every address is one the format can
      carry. */
  lemma RoundTrip(m: Rates, order: seq<string>)
    requires IsEnumeration(order, m.Keys)
    requires forall a :: a in m ==> ValidAddress(a)
    ensures Decode(Encode(m, order)) == m
  {
    var es := Listing(m, order);
    EncodeSplitsIntoEntries(es);
    DecodeEntryTexts(es);
    ToMapListing(m, order);
    EnumeratedMap(m, order);
  }

  /** A map rebuilt from an enumeration of its keys is the map itself. */
  lemma EnumeratedMap(m: Rates, order: seq<string>)
    requires IsEnumeration(order, m.Keys)
    ensures (map a | a in order :: m[a]) == m
  {
  }

  /** The empty cache is written as the empty string, and the empty string
      (also what a factory reset stores) decodes to the empty cache. */
  lemma EmptyEncoding()
    ensures Encode(map[], []) == ""
    ensures Decode("") == map[]
  {
  }

  /** One device is written as one terminated token and read back. */
  lemma SingleDevice(a: string, r: Int32)
    requires ValidAddress(a)
    ensures Encode(map[a := r], [a]) == EntryText(a, r) + "|"
    ensures Decode(EntryText(a, r) + "|") == map[a := r]
  {
    var m := map[a := r];
    assert Listing(m, [a]) == [(a, r)];
    assert EncodeEntries([(a, r)]) == EntryText(a, r) + "|";
    RoundTrip(m, [a]);
  }

  /** Example: one device at 328 is written as
      `addr=AA:BB:CC:DD:EE:FF,sbcbr=328|` and read back. */
  lemma SingleDeviceExample(a: string)
    requires a == "AA:BB:CC:DD:EE:FF"
    ensures Encode(map[a := 328], [a]) == "addr=" + a + ",sbcbr=328|"
    ensures Decode("addr=" + a + ",sbcbr=328|") == map[a := 328]
  {
    assert EntryText(a, 328) + "|" == "addr=" + a + ",sbcbr=328|" by {
      assert ShowNat(3) == "3";
      assert ShowNat(32) == "32";
    }
    assert ValidAddress(a) by {
      assert forall k :: 0 <= k < |a| ==> a[k] != EntrySeparator && a[k] != ',';
    }
    SingleDevice(a, 328);
  }

  /** A well-formed token next to one that names no device: only the
      well-formed one is decoded. */
  lemma AddresslessTokenSkipped(a: string, r: Int32, y: string)
    requires ValidAddress(a)
    requires EntrySeparator !in y && !DecodeToken(y).Entry?
    ensures Decode(EntryText(a, r) + "|" + y + "|") == map[a := r]
  {
    EntryTextHasNoSeparator(a, r);
    DecodeTwoTokens(EntryText(a, r), y);
    DecodeEntryText(a, r);
    CollectEntryThenSkip(a, r, DecodeToken(y));
  }

  lemma CollectEntryThenSkip(a: string, r: Int32, o: TokenOutcome)
    requires !o.Entry?
    ensures Collect([Entry(a, r), o]) == map[a := r]
  {
    assert [Entry(a, r), o][..1] == [Entry(a, r)];
    assert [Entry(a, r)][..0] == [];
    assert Collect([Entry(a, r)]) == map[a := r];
    match o
    case Malformed =>
    case NoAddress =>
  }

  lemma DecodeTwoTokens(t: string, y: string)
    requires EntrySeparator !in t && EntrySeparator !in y
    ensures Decode(t + "|" + y + "|") == Collect([DecodeToken(t), DecodeToken(y)])
  {
    assert [t, y][1..] == [y] && [y][1..] == [];
    assert JoinTerminated([y], EntrySeparator) == y + "|";
    assert t + "|" + y + "|" == JoinTerminated([t, y], EntrySeparator);
    SplitJoinTerminated([t, y], EntrySeparator);
    assert Outcomes([t, y]) == [DecodeToken(t), DecodeToken(y)];
  }

  /** A token holding only a rate is such a token, whatever comma-free
      value the rate has. */
  lemma RateOnlyTokenNamesNoDevice(v: string)
    requires ',' !in v
    ensures DecodeToken(RateKey + "=" + v) == NoAddress
  {
    var x := RateKey + "=" + v;
    ItemHasNoComma(RateKey, v);
    IndexOfSplitPoint(RateKey, '=', v);
    assert x == RateKey + ['='] + v;
    assert x[..|RateKey|] == RateKey;
    TrimUnblanked(RateKey);
    ParseOneItem(x);
    assert ParseItem(x).value.key == RateKey;
    assert GetString([ParseItem(x).value], AddrKey).None?;
  }
}
