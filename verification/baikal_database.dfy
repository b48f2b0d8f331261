/** The per-device SBC bitrate store of the Bluetooth service. Its state is
    static in the Java class and shared by every instance: the global
    setting that persists the bitrates, the setting's string as last read or
    written (`mSbcBitrateString`), and the device-to-bitrate cache
    (`mBtDatabase`, null until first loaded). Every operation is modelled
    as one atomic step from a state to a state; `factoryReset` takes no
    lock and only writes the setting. */
module BaikalDatabase {
  import opened Options
  import opened JavaText
  import opened SbcCodec

  datatype Db = Db(store: Option<string>, lastSeen: Option<string>, cache: Option<Rates>)

  /** The cache has been created. */
  predicate Loaded(db: Db)
  {
    db.cache.Some?
  }

  /** The cache holds what the last seen string decodes to: the agreement
      the reload-if-changed check relies on. */
  predicate Coherent(db: Db)
  {
    db.cache.Some? && db.lastSeen.Some? ==> Decode(db.lastSeen.value) == db.cache.value
  }

  /** Every cached device has an address the string form can carry. */
  predicate CarriedAddresses(db: Db)
  {
    db.cache.Some? ==> forall a :: a in db.cache.value ==> ValidAddress(a)
  }

  // ---------------------------------------------------------------------------
  // Operations

  /** Reloading the cache from the setting, as the code does it: the cache
      is replaced by an empty one FIRST; a setting that is unset or equal to
      the last seen string then stops the reload, leaving the cache empty;
      any other setting becomes the last seen string and is decoded into
      the cache. */
  function Reload(db: Db): (r: Db)
    ensures r.store == db.store && Loaded(r)
    ensures db.store.None? || db.store == db.lastSeen ==>
              r.lastSeen == db.lastSeen && r.cache.value == map[]
    ensures db.store.Some? && db.store != db.lastSeen ==>
              r.lastSeen == db.store && r.cache.value == Decode(db.store.value)
    ensures CarriedAddresses(r)
  {
    var emptied := db.(cache := Some(map[]));
    match db.store
    case None => emptied
    case Some(s) =>
      if db.lastSeen == Some(s) then emptied
      else Db(db.store, Some(s), Some(Decode(s)))
  }

  /** Writing the cache out, its keys iterated in `order`: the string is
      always remembered as last seen, but the setting is written only when
      the string differs from the last seen one. */
  function Persist(db: Db, order: seq<string>): (r: Db)
    requires Loaded(db) && IsEnumeration(order, db.cache.value.Keys)
    ensures r.cache == db.cache
    ensures r.lastSeen == Some(Encode(db.cache.value, order))
    ensures db.lastSeen == r.lastSeen ==> r.store == db.store
    ensures db.lastSeen != r.lastSeen ==> r.store == r.lastSeen
  {
    var val := Encode(db.cache.value, order);
    if db.lastSeen == Some(val) then db
    else Db(Some(val), Some(val), db.cache)
  }

  /** What `setSbcBitrate` does: it dereferences the cache, so a cache that
      was never created throws. */
  datatype SetOutcome = NullPointer | Returned(db: Db, changed: bool)

  /** Setting a device's rate. Setting the rate it already has returns
      false and changes nothing; otherwise the cache entry is replaced, the
      cache persisted (keys iterated in `order`) and true returned. */
  function SetRate(db: Db, addr: string, value: Int32, order: seq<string>): (r: SetOutcome)
    requires Loaded(db) ==> IsEnumeration(order, db.cache.value.Keys + {addr})
    ensures r.NullPointer? <==> !Loaded(db)
    ensures r.Returned? ==>
              (r.changed <==> !(addr in db.cache.value && db.cache.value[addr] == value))
    ensures r.Returned? && !r.changed ==> r.db == db
    ensures r.Returned? && r.changed ==>
              r.db.cache == Some(db.cache.value[addr := value])
              && r.db.lastSeen == Some(Encode(db.cache.value[addr := value], order))
    ensures r.Returned? && r.changed ==>
              (db.lastSeen == r.db.lastSeen ==> r.db.store == db.store)
              && (db.lastSeen != r.db.lastSeen ==> r.db.store == r.db.lastSeen)
  {
    match db.cache
    case None => NullPointer
    case Some(m) =>
      if addr in m && m[addr] == value then Returned(db, false)
      else
        var updated := db.(cache := Some(m[addr := value]));
        assert updated.cache.value.Keys == m.Keys + {addr};
        Returned(Persist(updated, order), true)
  }

  /** What `getSbcBitrate` hands back: the state after the call and the rate. */
  datatype GetOutcome = GetOutcome(db: Db, rate: Int32)

  /** Reading a device's rate: a cache that was never created is loaded
      first; a device without an entry reads as 0. */
  function GetRate(db: Db, addr: string): (r: GetOutcome)
    ensures Loaded(db) ==> r.db == db
    ensures !Loaded(db) ==> r.db == Reload(db)
    ensures Loaded(r.db)
    ensures addr in r.db.cache.value ==> r.rate == r.db.cache.value[addr]
    ensures addr !in r.db.cache.value ==> r.rate == 0
  {
    var loaded := if db.cache.None? then Reload(db) else db;
    var m := loaded.cache.value;
    if addr !in m then GetOutcome(loaded, 0) else GetOutcome(loaded, m[addr])
  }

  /** A factory reset writes the empty string to the setting and nothing
      else: the cache and the last seen string are left as they are. */
  function FactoryReset(db: Db): (r: Db)
    ensures r.store == Some("") && Decode(r.store.value) == map[]
    ensures r.cache == db.cache && r.lastSeen == db.lastSeen
  {
    db.(store := Some(""))
  }

  /** Another writer changes the setting. The class registers for change
      notifications but never overrides `onChange`, so nothing else
      happens. */
  function ExternalWrite(db: Db, value: Option<string>): (r: Db)
    ensures r.store == value
    ensures r.cache == db.cache && r.lastSeen == db.lastSeen
  {
    db.(store := value)
  }

  /** The state of a freshly started process before the first instance is
      constructed: nothing seen, no cache. */
  function Boot(store: Option<string>): Db
  {
    Db(store, None, None)
  }

  // ---------------------------------------------------------------------------
  // Properties of single operations

  /** The constructor's reload in a fresh process loads the setting. */
  lemma FirstConstructionLoads(s: string)
    ensures Reload(Boot(Some(s))).cache == Some(Decode(s))
    ensures Reload(Boot(None)).cache == Some(map[])
  {
  }

  /** Once created, the cache stays created: a constructed store never
      throws from `setSbcBitrate`, and every operation keeps it loaded. */
  lemma LoadedIsKept(db: Db, addr: string, value: Int32, order: seq<string>, v: Option<string>)
    requires Loaded(db) && IsEnumeration(order, db.cache.value.Keys + {addr})
    ensures SetRate(db, addr, value, order).Returned?
    ensures Loaded(SetRate(db, addr, value, order).db)
    ensures Loaded(GetRate(db, addr).db)
    ensures Loaded(Reload(db)) && Loaded(FactoryReset(db)) && Loaded(ExternalWrite(db, v))
  {
  }

  /** After a persist the last seen string decodes back to the cache, and
      so does the setting whenever it was written. */
  lemma PersistIsReadBack(db: Db, order: seq<string>)
    requires Loaded(db) && IsEnumeration(order, db.cache.value.Keys)
    requires CarriedAddresses(db)
    ensures Coherent(Persist(db, order))
    ensures Persist(db, order).store != db.store ==>
              Decode(Persist(db, order).store.value) == db.cache.value
  {
    RoundTrip(db.cache.value, order);
  }

  /** Persisting twice writes once: the second persist finds its string
      already seen and leaves the state alone. */
  lemma PersistSuppressesRewrite(db: Db, order: seq<string>)
    requires Loaded(db) && IsEnumeration(order, db.cache.value.Keys)
    ensures Persist(Persist(db, order), order) == Persist(db, order)
  {
  }

  /** Setting the same rate twice: the second call returns false and leaves
      the state, the setting included, exactly as the first left it. */
  lemma SetTwiceWritesOnce(db: Db, addr: string, value: Int32, order: seq<string>)
    requires Loaded(db) && IsEnumeration(order, db.cache.value.Keys + {addr})
    ensures var first := SetRate(db, addr, value, order);
            first.Returned? && IsEnumeration(order, first.db.cache.value.Keys + {addr})
            && SetRate(first.db, addr, value, order) == Returned(first.db, false)
  {
    var m := db.cache.value;
    assert m[addr := value].Keys + {addr} == m.Keys + {addr};
  }

  /** A set is seen by the next get of that device, and by no other. */
  lemma GetAfterSet(db: Db, addr: string, other: string, value: Int32, order: seq<string>)
    requires Loaded(db) && IsEnumeration(order, db.cache.value.Keys + {addr})
    requires other != addr
    ensures GetRate(SetRate(db, addr, value, order).db, addr).rate == value
    ensures GetRate(SetRate(db, addr, value, order).db, other).rate == GetRate(db, other).rate
  {
  }

  /** Setting keeps the cache in step with the last seen string, as long
      as every address is one the string form can carry. */
  lemma SetKeepsCoherent(db: Db, addr: string, value: Int32, order: seq<string>)
    requires Loaded(db) && IsEnumeration(order, db.cache.value.Keys + {addr})
    requires Coherent(db) && CarriedAddresses(db) && ValidAddress(addr)
    ensures Coherent(SetRate(db, addr, value, order).db)
    ensures CarriedAddresses(SetRate(db, addr, value, order).db)
  {
    var m := db.cache.value;
    if !(addr in m && m[addr] == value) {
      var updated := db.(cache := Some(m[addr := value]));
      assert updated.cache.value.Keys == m.Keys + {addr};
      PersistIsReadBack(updated, order);
    }
  }

  /** The external-change quirk: a write by someone else reaches neither
      the cache nor the last seen string, so reads keep returning the
      cached rates. */
  lemma ExternalWriteIsNotSeen(db: Db, addr: string, v: Option<string>)
    requires Loaded(db)
    ensures GetRate(ExternalWrite(db, v), addr).rate == GetRate(db, addr).rate
    ensures GetRate(ExternalWrite(db, v), addr).db.cache == db.cache
  {
  }

  /** The reload quirk: a second reload always ends with an empty cache,
      because the first one made the setting the last seen string. */
  lemma ReloadTwiceEmpties(db: Db)
    ensures Reload(Reload(db)).cache == Some(map[])
    ensures Reload(Reload(db)).lastSeen == Reload(db).lastSeen
  {
  }

  /** Example: one set on a freshly constructed, empty store. */
  lemma SetExample(a: string)
    requires a == "AA:BB:CC:DD:EE:FF"
    ensures var r := SetRate(Reload(Boot(None)), a, 328, [a]);
            var text := "addr=" + a + ",sbcbr=328|";
            r == Returned(Db(Some(text), Some(text), Some(map[a := 328])), true)
            && GetRate(r.db, a).rate == 328
  {
    var db := Reload(Boot(None));
    assert db == Db(None, None, Some(map[]));
    assert map[][a := 328] == map[a := 328];
    var empty: Rates := map[];
    assert empty.Keys + {a} == map[a := 328].Keys;
    SingleDeviceExample(a);
  }

  // ---------------------------------------------------------------------------
  // Findings

  /** As written, a reload that finds the setting equal to the last seen
      string ends with an empty cache although the setting holds rates:
      after a set, constructing the store again in the same process makes
      the device read as 0. */
  lemma ReloadAfterOwnWriteLosesRates(a: string)
    requires a == "AA:BB:CC:DD:EE:FF"
    ensures var db := SetRate(Reload(Boot(None)), a, 328, [a]).db;
            Coherent(db)
            && Decode(db.store.value)[a] == 328
            && GetRate(Reload(db), a).rate == 0
  {
    SetExample(a);
    SingleDeviceExample(a);
  }

  /** The reload the dedup check evidently intends: an unchanged setting
      keeps the loaded cache, an unset one forgets what was seen. */
  function ReloadFixed(db: Db): (r: Db)
    ensures r.store == db.store && Loaded(r)
    ensures Coherent(db) ==> Coherent(r)
    ensures db.store.None? ==> r.cache == Some(map[])
    ensures Coherent(db) && db.store.Some? ==> r.cache == Some(Decode(db.store.value))
    ensures CarriedAddresses(db) ==> CarriedAddresses(r)
  {
    match db.store
    case None => Db(None, None, Some(map[]))
    case Some(s) =>
      if db.lastSeen == Some(s) && db.cache.Some? then db
      else Db(db.store, Some(s), Some(Decode(s)))
  }

  /** As written, a factory reset does not reach the cache: every device
      keeps reading its old rate. */
  lemma FactoryResetKeepsCachedRates(db: Db, addr: string)
    requires Loaded(db)
    ensures GetRate(FactoryReset(db), addr).rate == GetRate(db, addr).rate
  {
  }

  /** The change callback the class registers for but does not define:
      re-read the setting. */
  function OnChange(db: Db): (r: Db)
    ensures Loaded(r) && r.store == db.store
    ensures Sound(db) ==> Sound(r)
  {
    ReloadFixed(db)
  }

  /** With that callback, a factory reset followed by its notification
      makes every device read as 0. */
  lemma FactoryResetThenNotifyClears(db: Db, addr: string)
    requires Coherent(db)
    ensures GetRate(OnChange(FactoryReset(db)), addr).rate == 0
  {
    EmptyEncoding();
  }

  /** The invariant the corrected store keeps: the cache is what the last
      seen string decodes to, and every cached address can be written. */
  predicate Sound(db: Db)
  {
    Coherent(db) && CarriedAddresses(db)
  }

  /** With the corrected reload and the change callback, the store starts
      sound and every operation keeps it sound, so the cache always agrees
      with the setting it last read or wrote. */
  lemma FixedStoreStaysSound(db: Db, start: Option<string>, addr: string, value: Int32,
                             order: seq<string>, v: Option<string>)
    requires Sound(db) && Loaded(db)
    requires ValidAddress(addr) && IsEnumeration(order, db.cache.value.Keys + {addr})
    ensures Sound(ReloadFixed(Boot(start)))
    ensures Sound(ReloadFixed(db))
    ensures Sound(SetRate(db, addr, value, order).db)
    ensures Sound(OnChange(FactoryReset(db)))
    ensures Sound(OnChange(ExternalWrite(db, v)))
  {
    SetKeepsCoherent(db, addr, value, order);
  }
}
