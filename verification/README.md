# SBC bitrate store: a Dafny model

`BaikalDatabase` remembers, for each Bluetooth audio device, the SBC codec
bitrate chosen for it. The rates live in a process-wide `HashMap` cache
(device address to rate) and are mirrored into one global string setting
in the form `addr=<address>,sbcbr=<rate>|` per device. The class also keeps
the last string it read or wrote, and skips work when the setting still
holds that string.

This project models that store in five modules:

- `Options`: the `Option` type for values Java lets be null.
- `JavaText`: the library behaviour the store depends on, as total functions.
  This covers `SimpleStringSplitter` (no empty token after a trailing
  delimiter), `String.trim`, `Integer.parseInt` and `Integer.toString`.
- `KeyValueList`: `KeyValueListParser`. The store does not import it, so
  it is a class of the store's own package whose source is not at hand.
  The module assumes it behaves like `android.util.KeyValueListParser`:
  it splits on `,` and cuts each item
  at its first `=`. Keys and values are trimmed. An item without `=` makes
  the whole list malformed, and a later item wins over an earlier one with
  the same key.
- `SbcCodec`: the string format. `Decode` (the loop of
  `updateSbcBitratesLocked`) and `Encode` (the loop of
  `saveSbcBitratesLocked`), with the decoding rules and the round trip.
- `BaikalDatabase`: the static state `Db(store, lastSeen, cache)`. Each
  operation is one pure function from state to state. The public methods
  `setSbcBitrate`, `getSbcBitrate` and `factoryReset` are `SetRate`,
  `GetRate` and `FactoryReset`. The private helpers `updateSbcBitratesLocked`
  and `saveSbcBitratesLocked` are `Reload` and `Persist`. `ExternalWrite`
  models another process changing the setting.

The iteration order of the `HashMap` is unspecified in Java. So `Persist`
and `SetRate` take an `order` parameter, which must list the cache's keys
once each. All encoding facts hold for every such order.

The code is followed as written. This includes two quirks. First, the reload
empties the cache *before* its "setting unset" and "setting unchanged"
checks. Second, the class registers as a `ContentObserver` but never
overrides `onChange`, so changes made elsewhere reach nobody. One would
expect a factory reset to make every device read as 0 afterwards. The code
only writes the empty string to the setting and leaves the cache alone. The model follows the code (see `FactoryResetKeepsCachedRates`).
Corrected versions of both quirks sit beside the model under "Findings".
The operations `Reload`, `GetRate` and `SetRate` keep the behaviour as
written.

## Model

| member | source | states |
|---|---|---|
| `JavaText.Split` | android/app/src/com/android/bluetooth/btservice/storage/BaikalDatabase.java:133-139 | The splitter yields no token for the empty string, and no token holds the delimiter. |
| `JavaText.SplitTokenChars` | android/app/src/com/android/bluetooth/btservice/storage/BaikalDatabase.java:133-139 | A token holds only characters of the split string. |
| `JavaText.SplitJoinTerminated` | android/app/src/com/android/bluetooth/btservice/storage/BaikalDatabase.java:133-139 | Splitting a `\|`-terminated join of delimiter-free tokens yields exactly those tokens. The trailing separator produces no empty token. |
| `JavaText.JoinTerminatedSplit` | android/app/src/com/android/bluetooth/btservice/storage/BaikalDatabase.java:133-139 | Re-joining the tokens of any string gives the string back. A separator is added only when the string did not already end in one. |
| `JavaText.JoinTerminatedAppend` | android/app/src/com/android/bluetooth/btservice/storage/BaikalDatabase.java:159-161 | Joining one more token appends that token and its separator. |
| `JavaText.ParseShowInt` | android/app/src/com/android/bluetooth/btservice/storage/BaikalDatabase.java:147-160 | `Integer.parseInt` reads back `Integer.toString` for every 32-bit `int`, negative values and the minimum included. |
| `JavaText.Trim` | android/app/src/com/android/bluetooth/btservice/storage/BaikalDatabase.java:144-145 | Neither end of a trimmed string is a character up to the space. |
| `JavaText.TrimChars` | android/app/src/com/android/bluetooth/btservice/storage/BaikalDatabase.java:144-145 | Trimming keeps only characters of its input. |
| `JavaText.ParseInt` | android/app/src/com/android/bluetooth/btservice/storage/BaikalDatabase.java:147 | A string parses exactly when it is an optional `+` or `-` followed by at least one decimal digit, denoting a value that fits in 32 bits. Any other character, such as the `a` in `12a3`, is the `NumberFormatException`. A parsed string yields the value of its digits, negated after a `-`, so `+5` is 5 and `007` is 7. The round trip is `ParseShowInt`. |
| `JavaText.ShowInt` | android/app/src/com/android/bluetooth/btservice/storage/BaikalDatabase.java:160 | The text starts with `-` exactly for negative values. After the sign come decimal digits with no leading zero, and they denote the absolute value. |
| `JavaText.TrimStartDropsBlankPrefix` | android/app/src/com/android/bluetooth/btservice/storage/BaikalDatabase.java:144-145 | Leading trimming removes only characters up to the space and keeps the rest of the string unchanged. |
| `JavaText.TrimEndDropsBlankSuffix` | android/app/src/com/android/bluetooth/btservice/storage/BaikalDatabase.java:144-145 | Trailing trimming removes only characters up to the space and keeps the rest of the string unchanged. |
| `KeyValueList.ParseItem` | android/app/src/com/android/bluetooth/btservice/storage/BaikalDatabase.java:144 | An item is rejected exactly when it holds no `=`. |
| `KeyValueList.ParseList` | android/app/src/com/android/bluetooth/btservice/storage/BaikalDatabase.java:144 | A list parses exactly when every `,`-separated item holds `=`, with one pair per item. |
| `KeyValueList.ListValueChars` | android/app/src/com/android/bluetooth/btservice/storage/BaikalDatabase.java:144-145 | A looked-up value is trimmed, holds no `,`, and is made only of the parsed string's characters. |
| `KeyValueList.ParseItems` | android/app/src/com/android/bluetooth/btservice/storage/BaikalDatabase.java:143-144 | A list parses exactly when every item contains `=`. The result has one pair per item, in order. |
| `KeyValueList.GetString` | android/app/src/com/android/bluetooth/btservice/storage/BaikalDatabase.java:145 | The lookup fails exactly when no item has the key. Otherwise it returns the value of the last item with that key. |
| `KeyValueList.GetInt` | android/app/src/com/android/bluetooth/btservice/storage/BaikalDatabase.java:147 | The default is returned when the key is absent or its value is not an `int`. Otherwise the parsed value is returned. |
| `KeyValueList.ParseSingleItem` | android/app/src/com/android/bluetooth/btservice/storage/BaikalDatabase.java:141-144 | `key=value` with no separators and no blanks at its ends parses to exactly that pair. |
| `KeyValueList.ParseEmptyThenItem` | android/app/src/com/android/bluetooth/btservice/storage/BaikalDatabase.java:141-144 | `key=,item` parses to the key with the empty value, followed by the item's pair. |
| `KeyValueList.ParsePairList` | android/app/src/com/android/bluetooth/btservice/storage/BaikalDatabase.java:141-147 | `k1=v1,k2=v2` parses back to those two pairs when the parts have no separators and no blanks at their ends. |
| `SbcCodec.CollectLastWins` | android/app/src/com/android/bluetooth/btservice/storage/BaikalDatabase.java:139-153 | A device is in the decoded map exactly when some token names it. Its rate is the one from the last such token. |
| `SbcCodec.DecodeLastWins` | android/app/src/com/android/bluetooth/btservice/storage/BaikalDatabase.java:139-153 | The same rule, stated for the tokens of the stored string. |
| `SbcCodec.DecodeToken` | android/app/src/com/android/bluetooth/btservice/storage/BaikalDatabase.java:141-151 | A token is malformed exactly when its key/value list does not parse. A parsable token names no device exactly when it has no `addr` item or its last `addr` value trims to empty. Otherwise it names that value, at the `getInt("sbcbr", 0)` rate, wherever the items stand. A device it names has a non-empty address, with no `,` and no blank at either end, made only of the token's characters. |
| `SbcCodec.Decode` | android/app/src/com/android/bluetooth/btservice/storage/BaikalDatabase.java:139-153 | Every decoded device has an address the string form can carry: non-empty, free of `\|` and `,`, and without blanks at its ends. |
| `SbcCodec.DecodedAddressesCarried` | android/app/src/com/android/bluetooth/btservice/storage/BaikalDatabase.java:139-153 | The same property, proved from the tokens of the stored string, which is the proof behind `Decode`'s contract. |
| `SbcCodec.CollectSkips` | android/app/src/com/android/bluetooth/btservice/storage/BaikalDatabase.java:146-152 | An outcome that is not an entry can be removed without changing the decoded map. |
| `SbcCodec.DecodeSkipsToken` | android/app/src/com/android/bluetooth/btservice/storage/BaikalDatabase.java:146-152 | A malformed or addressless token does not abort or change the decoding of the tokens around it. |
| `SbcCodec.ItemWithoutEqualsIsMalformed` | android/app/src/com/android/bluetooth/btservice/storage/BaikalDatabase.java:143-151 | One item without `=` makes the whole token malformed. |
| `SbcCodec.TokenWithoutAddress` | android/app/src/com/android/bluetooth/btservice/storage/BaikalDatabase.java:145-146 | A parsable token with no `addr` item names no device. |
| `SbcCodec.EmptyAddressNamesNoDevice` | android/app/src/com/android/bluetooth/btservice/storage/BaikalDatabase.java:145-146 | Any parsable token whose last `addr` value is empty names no device, whatever other items it holds. |
| `SbcCodec.TokenWithEmptyAddress` | android/app/src/com/android/bluetooth/btservice/storage/BaikalDatabase.java:145-146 | Instances for the texts `addr=` and `addr=,<y>`: both name no device. |
| `SbcCodec.MissingRateIsZero` | android/app/src/com/android/bluetooth/btservice/storage/BaikalDatabase.java:147-148 | Any parsable token with no `sbcbr` item that names a device names it at rate 0. |
| `SbcCodec.AddressOnlyToken` | android/app/src/com/android/bluetooth/btservice/storage/BaikalDatabase.java:147-148 | Instance for the one-item text `addr=<a>`: it decodes to device `a` at rate 0. |
| `SbcCodec.RejectedRateIsZero` | android/app/src/com/android/bluetooth/btservice/storage/BaikalDatabase.java:147-148 | Any parsable token whose last `sbcbr` value `Integer.parseInt` rejects, and that names a device, names it at rate 0. |
| `SbcCodec.UnparsableRateIsZero` | android/app/src/com/android/bluetooth/btservice/storage/BaikalDatabase.java:147-148 | Instance for the text `addr=<a>,sbcbr=<v>` with a trimmed, comma-free `v` that is not an `int`: it decodes to device `a` at rate 0. |
| `SbcCodec.RateFirstToken` | android/app/src/com/android/bluetooth/btservice/storage/BaikalDatabase.java:141-148 | The items in the other order, `sbcbr=<r>,addr=<a>`, decode to the same entry as the token this format writes. |
| `SbcCodec.DecodeEntryText` | android/app/src/com/android/bluetooth/btservice/storage/BaikalDatabase.java:145-148 | The token written for a device decodes to exactly that device and rate. |
| `SbcCodec.AddresslessTokenSkipped` | android/app/src/com/android/bluetooth/btservice/storage/BaikalDatabase.java:139-153 | A well-formed token next to one that names no device decodes to exactly one entry. |
| `SbcCodec.RateOnlyTokenNamesNoDevice` | android/app/src/com/android/bluetooth/btservice/storage/BaikalDatabase.java:145-146 | The text `sbcbr=<v>` names no device, for every comma-free `v`. A `v` with a comma would hold further items. |
| `SbcCodec.Encode` | android/app/src/com/android/bluetooth/btservice/storage/BaikalDatabase.java:157-162 | The cache is written as the empty string exactly when it is empty. Otherwise the string ends with `\|`. |
| `SbcCodec.EncodeEntries` | android/app/src/com/android/bluetooth/btservice/storage/BaikalDatabase.java:157-162 | The encoding is empty exactly when there are no entries. Otherwise it ends with `\|`. |
| `SbcCodec.EncodeEntriesAppend` | android/app/src/com/android/bluetooth/btservice/storage/BaikalDatabase.java:159-161 | Each entry appends `addr=<a>,sbcbr=<r>\|`, the last entry included. |
| `SbcCodec.EncodeSplitsIntoEntries` | android/app/src/com/android/bluetooth/btservice/storage/BaikalDatabase.java:157-162 | The decoder's split of an encoding is exactly the entries' tokens, one per entry, in order. |
| `SbcCodec.RoundTrip` | android/app/src/com/android/bluetooth/btservice/storage/BaikalDatabase.java:139-162 | Decoding the encoding of a map gives the map back, in every key order, when addresses are non-empty, free of `\|` and `,`, and without blanks at their ends. |
| `SbcCodec.EmptyEncoding` | android/app/src/com/android/bluetooth/btservice/storage/BaikalDatabase.java:157-162 | The empty map encodes to `""`, and `""` decodes to the empty map. |
| `SbcCodec.SingleDevice` | android/app/src/com/android/bluetooth/btservice/storage/BaikalDatabase.java:139-161 | A single device is written as one terminated token, and that text decodes back to the single device. |
| `SbcCodec.SingleDeviceExample` | android/app/src/com/android/bluetooth/btservice/storage/BaikalDatabase.java:159-161 | `{AA:BB:CC:DD:EE:FF: 328}` is written as `addr=AA:BB:CC:DD:EE:FF,sbcbr=328\|` and read back. |
| `BaikalDatabase.Reload` | android/app/src/com/android/bluetooth/btservice/storage/BaikalDatabase.java:121-153 | The cache is always emptied first. When the setting is null or equal to the last seen string, the cache stays empty and the last seen string is unchanged. Otherwise the setting becomes the last seen string and its decoding becomes the cache. Every address it loads can be written back. |
| `BaikalDatabase.Persist` | android/app/src/com/android/bluetooth/btservice/storage/BaikalDatabase.java:156-167 | The cache is untouched and the last seen string becomes the cache's encoding. The setting is written with that encoding only when it differs from the previous last seen string. |
| `BaikalDatabase.SetRate` | android/app/src/com/android/bluetooth/btservice/storage/BaikalDatabase.java:94-104 | Throws exactly when the cache was never created. Returns false and changes nothing when the device already has the value. Otherwise returns true and sets `cache[addr := value]`. The last seen string becomes the new cache's encoding, and the setting is written with it unless it equals the previous last seen string. |
| `BaikalDatabase.GetRate` | android/app/src/com/android/bluetooth/btservice/storage/BaikalDatabase.java:106-119 | Returns the cached rate, or 0 for an unknown device. The state changes only by the lazy reload of a cache that was never created. |
| `BaikalDatabase.FirstConstructionLoads` | android/app/src/com/android/bluetooth/btservice/storage/BaikalDatabase.java:88-92 | In a fresh process the constructor's reload loads the setting's decoding. An unset setting loads the empty cache. |
| `BaikalDatabase.LoadedIsKept` | android/app/src/com/android/bluetooth/btservice/storage/BaikalDatabase.java:94-119 | A loaded cache stays loaded through every operation, so a constructed store never throws from a set. |
| `BaikalDatabase.PersistIsReadBack` | android/app/src/com/android/bluetooth/btservice/storage/BaikalDatabase.java:156-167 | After a persist, the last seen string decodes to the cache. So does the setting whenever it was written. |
| `BaikalDatabase.PersistSuppressesRewrite` | android/app/src/com/android/bluetooth/btservice/storage/BaikalDatabase.java:164-166 | A second persist of the same cache changes nothing. |
| `BaikalDatabase.SetTwiceWritesOnce` | android/app/src/com/android/bluetooth/btservice/storage/BaikalDatabase.java:97-98 | Repeating a set returns false and leaves the state, the setting included, as the first set left it. |
| `BaikalDatabase.GetAfterSet` | android/app/src/com/android/bluetooth/btservice/storage/BaikalDatabase.java:97-117 | After a set, the next get of that device returns the value. Every other device reads as before. |
| `BaikalDatabase.SetKeepsCoherent` | android/app/src/com/android/bluetooth/btservice/storage/BaikalDatabase.java:94-104 | A set keeps the cache equal to the decoding of the last seen string, given carriable addresses. |
| `BaikalDatabase.FactoryReset` | android/app/src/com/android/bluetooth/btservice/storage/BaikalDatabase.java:82-86 | The setting becomes `""`, which decodes to no devices. The cache and the last seen string are unchanged. |
| `BaikalDatabase.ExternalWrite` | android/app/src/com/android/bluetooth/btservice/storage/BaikalDatabase.java:66-71 | Another writer sets the setting. The cache and the last seen string are unchanged, because no `onChange` is defined. |
| `BaikalDatabase.ExternalWriteIsNotSeen` | android/app/src/com/android/bluetooth/btservice/storage/BaikalDatabase.java:66-71 | A change to the setting made elsewhere leaves the cache and every read unchanged. |
| `BaikalDatabase.ReloadTwiceEmpties` | android/app/src/com/android/bluetooth/btservice/storage/BaikalDatabase.java:123-128 | Two reloads in a row always end with an empty cache. |
| `BaikalDatabase.SetExample` | android/app/src/com/android/bluetooth/btservice/storage/BaikalDatabase.java:94-104 | On a freshly constructed empty store, setting `AA:BB:CC:DD:EE:FF` to 328 writes `addr=AA:BB:CC:DD:EE:FF,sbcbr=328\|` and reads back 328. |
| `BaikalDatabase.ReloadAfterOwnWriteLosesRates` | android/app/src/com/android/bluetooth/btservice/storage/BaikalDatabase.java:123-128 | After a set, a reload finds the setting unchanged. The device then reads 0 although the setting holds 328. |
| `BaikalDatabase.ReloadFixed` | android/app/src/com/android/bluetooth/btservice/storage/BaikalDatabase.java:121-130 | Corrected reload: coherence is kept, the cache equals the setting's decoding, and cached addresses stay writable. |
| `BaikalDatabase.FactoryResetKeepsCachedRates` | android/app/src/com/android/bluetooth/btservice/storage/BaikalDatabase.java:82-86 | After a factory reset every device still reads its old rate. |
| `BaikalDatabase.OnChange` | android/app/src/com/android/bluetooth/btservice/storage/BaikalDatabase.java:66-69 | The missing change callback: it leaves the setting alone, always leaves a loaded cache, and keeps the store sound. |
| `BaikalDatabase.FixedStoreStaysSound` | android/app/src/com/android/bluetooth/btservice/storage/BaikalDatabase.java:82-130 | With the corrected reload and the callback, the store starts sound and stays sound through reloads, sets, factory resets and external writes. Sound means the cache equals the last seen string's decoding and every cached address is writable. |
| `BaikalDatabase.FactoryResetThenNotifyClears` | android/app/src/com/android/bluetooth/btservice/storage/BaikalDatabase.java:82-86 | With the change callback, a factory reset and its notification make every device read 0. |

## Findings

| source | as written | input that shows it | evidently intended | confidence | as-written member | corrected member |
|---|---|---|---|---|---|---|
| android/app/src/com/android/bluetooth/btservice/storage/BaikalDatabase.java:123-128 | The cache is replaced by an empty map before the "setting unchanged" check, so an unchanged setting leaves the cache empty. | Set `AA:BB:CC:DD:EE:FF` to 328, then construct the store again in the same process (the state is static). The reload sees its own string and empties the cache, and the device reads 0. | An unchanged setting keeps the loaded cache, and the cache always equals the setting's decoding. | medium; not executed | `BaikalDatabase.ReloadAfterOwnWriteLosesRates` | `BaikalDatabase.ReloadFixed` |
| android/app/src/com/android/bluetooth/btservice/storage/BaikalDatabase.java:66-86 | The class registers as a change observer but defines no `onChange`. A factory reset writes `""` and nothing else. | Any loaded store with a device at 328: after `factoryReset` the device still reads 328, and the next set writes it back. | The change notification re-reads the setting, so a reset makes every device read 0. | medium; not executed | `BaikalDatabase.FactoryResetKeepsCachedRates` | `BaikalDatabase.FactoryResetThenNotifyClears` |

## Left out

- Settings access through `ContentResolver` and `Settings.Global` is platform I/O. The setting is the `store` field of the state. A read that returns null is `None`.
- Observer registration in the constructor (lines 66-71) and `cleanup` (lines 76-80) are left out. Registration only matters through the missing `onChange`, which `ExternalWrite` models.
- The `mResolver != null` test in `factoryReset` is left out. The constructor sets the resolver before any instance method can run.
- The `synchronized` blocks and static locks are left out. Each operation is one atomic step, including `factoryReset`, which takes no lock and only writes the setting.
- `Slog` logging is observability only.
- The `catch` after `setString` on the splitter (lines 134-136) is not modelled. `SimpleStringSplitter.setString` does not throw, so the branch is dead.
- `KeyValueListParser` is not imported, so it is a class of the store's own package whose source is not at hand. `KeyValueList` assumes it behaves like `android.util.KeyValueListParser`.
- `TextUtils.SimpleStringSplitter` is a framework class whose source is not at hand. `JavaText.Split` models its documented behaviour.
- `JavaText.ParseInt`: accepts ASCII digits only. Java also accepts other Unicode decimal digits, which never occur in strings this store writes.
- `BluetoothDevice` is represented by its address string. A device with a null address is not modelled.
- The iteration order of `HashMap` is not modelled. It is the `order` parameter, and every property holds for every order.
- `SbcCodec.RoundTrip`: holds only for addresses with no `|` or `,` and no blank at either end. Other addresses break the format: for them the store is not a round trip. Bluetooth addresses (`XX:XX:XX:XX:XX:XX`) always qualify.
- The constructor is modelled by `Reload`, which is what `updateConstants` runs. It is not a separate member.
- `system/main/shim/entry.cc` holds only accessors into the stack manager and has no logic to model.
