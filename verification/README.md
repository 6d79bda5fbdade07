# Temporary storage and Japanese character classes, in Dafny

This project models two pieces of UtilitiesToolLib.

The first is its **temporary storage**, a key-value buffer that keeps memory bounded by spilling to disk:

- `StorageUtil` supplies the byte helpers:
  - the UTF-8 byte count of a string;
  - UTF-8 decoding;
  - 4-byte big-endian ints.
- `TemporaryPartition` is an insertion-ordered map (a Java `LinkedHashMap`) with a running byte-size counter and a `persisted` flag.
  - `save` writes the map to its file and then evicts every value, keeping the keys.
  - `load` parses the file back.
- `TemporaryStorage` keeps one active partition and an ordered list of persisted ones.
  - `add` rotates the active partition out once its size reaches the limit.
  - `get` swaps the first persisted partition holding the key back in.
  - `containsKey` scans key sets only.
  - `close` closes every partition.

The second is **`JapaneseCharacterUtils`**: range tests on UTF-16 code units for hiragana, katakana and kanji, and a scan for the first such character in a string.

## How the model is built

- **Modules** follow the Java classes:
  - `Prelude` and `LinkedMap` hold shared types;
  - `Utf8` and `StorageUtil` hold the byte helpers;
  - `PartitionFile` holds the file layout and the parser that `load` runs;
  - `TemporaryPartition` and `TemporaryStorage` hold the classes themselves;
  - `StorageProperties` holds end-to-end properties;
  - `JapaneseChars` holds the character classes.
- **Java `int`** is the subset type `Int32`, and a byte is its unsigned bit pattern 0..255. A Java `char` is a UTF-16 code unit (`Char16`), and a `String` is a sequence of them.
- **Keys and values** reach the file through a `Codec`, a text form plus a partial inverse. This stands for the raw-`String` case and for Jackson's `ObjectMapper`. `ValidCodec` says the inverse undoes the text form and the text has no unpaired surrogate. A failed decode is an `IOException`.
- **An evicted value** is a `None` slot, which plays the role of the `null` the source writes into the map.
- **The temporary directory** is a map from partition id to file bytes. A partition id is a `nat` drawn from a counter and stands for the random UUID that names the file.
- **File-system faults** are parameters:
  - `writeCut: Option<nat>`: the write fails after that many bytes reached the file;
  - `readFails`: opening the file fails;
  - `deleteFails`: a deletion in `close` fails.
- **Exceptions** are the `Fault` kinds `IoError`, `IllegalArgument` and `Unchecked`. Operations return them as values.
- **The code as written.** The model follows the code, including these behaviours a reader of its documentation might not expect:
  - the limit passed to the constructor is never checked;
  - an `IOException` during a swap is swallowed and `get` answers null;
  - `save` sets the flag before it writes, so a failed write leaves the partition flagged, with only the bytes written before the failure in its file. A second `save` then writes nothing and evicts every value (`SaveAfterFailedSave`, `LoadAfterFailedSave`). When the file cannot even be created, no file exists at all; the model reaches that case only through a `load` whose file fails to open (`readFails`);
  - an entry added to a partition that was swapped back in is never written, and the next reload drops it (`AddAfterPersistIsLost`). For this reason `AddFaithful` asks that the active partition not be such a partition unless it is about to be rotated out;
  - a fault in the value loop of `load` comes after the map was cleared, so the entries already reloaded stay;
  - a negative entry count in the file reads as no entries;
  - `close` clears each partition's map and flag, but not its size.

## Model

| member | source | states |
|---|---|---|
| StorageUtil.GetBytesCount | lib/src/main/java/UtilitiesToolLib/module/TemporaryStorage/StorageUtil.java:24-26 | the count is the length of the string's UTF-8 encoding, so between one and three bytes per UTF-16 code unit |
| StorageUtil.StringToByteArray | lib/src/main/java/UtilitiesToolLib/module/TemporaryStorage/TemporaryPartition.java:209 | `getBytes(UTF8)` gives one to three bytes per UTF-16 code unit |
| StorageUtil.ByteArrayToString | lib/src/main/java/UtilitiesToolLib/module/TemporaryStorage/StorageUtil.java:34-36 | decoding gives at most one code unit per byte |
| Utf8.EncodedLengthBounds | lib/src/main/java/UtilitiesToolLib/module/TemporaryStorage/StorageUtil.java:24-26 | every code unit of a string takes one to three bytes of its UTF-8 encoding |
| Utf8.DecodeEncode | lib/src/main/java/UtilitiesToolLib/module/TemporaryStorage/StorageUtil.java:34-36 | UTF-8 decoding gives back every string without an unpaired surrogate from its encoding, including surrogate pairs written as one 4-byte sequence |
| StorageUtil.StringRoundTrip | lib/src/main/java/UtilitiesToolLib/module/TemporaryStorage/StorageUtil.java:34-36 | `convertByteArrayToString` inverts `getBytes(UTF8)` on well-formed strings |
| StorageUtil.IntToByteArray | lib/src/main/java/UtilitiesToolLib/module/TemporaryStorage/StorageUtil.java:44-46 | exactly four bytes; read big-endian they are the int's two's-complement pattern, and the first byte has its top bit set exactly when the int is negative |
| StorageUtil.ByteArrayToInt | lib/src/main/java/UtilitiesToolLib/module/TemporaryStorage/StorageUtil.java:72-74 | fails (a buffer underflow) exactly when fewer than four bytes are given; otherwise the int's bit pattern is the first four bytes read big-endian |
| StorageUtil.IntRoundTrip | lib/src/main/java/UtilitiesToolLib/module/TemporaryStorage/StorageUtil.java:44-46 | reading the four bytes of any int, whatever follows them, gives the int back |
| StorageUtil.BytesRoundTrip | lib/src/main/java/UtilitiesToolLib/module/TemporaryStorage/StorageUtil.java:72-74 | four bytes read as an int and written again are the same four bytes, so the two conversions are a bijection |
| StorageUtil.DigitsUnique | lib/src/main/java/UtilitiesToolLib/module/TemporaryStorage/StorageUtil.java:44-46 | two byte quadruples with the same big-endian value are equal |
| LinkedMap.Lookup | lib/src/main/java/UtilitiesToolLib/module/TemporaryStorage/TemporaryPartition.java:152-154 | the map has a value for the key exactly when the key is among its keys |
| LinkedMap.LookupAt | lib/src/main/java/UtilitiesToolLib/module/TemporaryStorage/TemporaryPartition.java:152-154 | with distinct keys, the entry at any index is what a lookup of its key finds |
| LinkedMap.Put | lib/src/main/java/UtilitiesToolLib/module/TemporaryStorage/TemporaryPartition.java:143 | keys stay distinct; a new key is appended to the iteration order, and an existing key keeps its place |
| LinkedMap.PutLookup | lib/src/main/java/UtilitiesToolLib/module/TemporaryStorage/TemporaryPartition.java:143 | after a put the key maps to the new value and every other key maps as before |
| PartitionFile.Serialize | lib/src/main/java/UtilitiesToolLib/module/TemporaryStorage/TemporaryPartition.java:201-220 | the file starts with the entry count as a 4-byte int, and an empty map writes exactly those four bytes |
| PartitionFile.ReadN | lib/src/main/java/UtilitiesToolLib/module/TemporaryStorage/TemporaryPartition.java:287 | `readNBytes` returns the first `min(n, available)` bytes and leaves the rest of the stream |
| PartitionFile.ParseHeaders | lib/src/main/java/UtilitiesToolLib/module/TemporaryStorage/TemporaryPartition.java:262-277 | the header loop yields distinct keys, and the only faults it raises are an I/O or runtime exception |
| PartitionFile.ParseValues | lib/src/main/java/UtilitiesToolLib/module/TemporaryStorage/TemporaryPartition.java:282-296 | the value loop keeps keys distinct and never yields more entries than headers |
| PartitionFile.Parse | lib/src/main/java/UtilitiesToolLib/module/TemporaryStorage/TemporaryPartition.java:257-296 | a file shorter than four bytes is a runtime fault; a parsed map has distinct keys |
| PartitionFile.ParseOneHeader | lib/src/main/java/UtilitiesToolLib/module/TemporaryStorage/TemporaryPartition.java:205-209 | one header as `save` writes it is read back by one turn of the header loop as its key and value length |
| PartitionFile.HeaderBlockRoundTrip | lib/src/main/java/UtilitiesToolLib/module/TemporaryStorage/TemporaryPartition.java:201-210 | the header loop reads back, in order, every key `save` wrote with its value length, and stops exactly at the value block |
| PartitionFile.ValueBlockRoundTrip | lib/src/main/java/UtilitiesToolLib/module/TemporaryStorage/TemporaryPartition.java:216-220 | the value loop reads back every value `save` wrote, in order, without a fault |
| PartitionFile.RoundTrip | lib/src/main/java/UtilitiesToolLib/module/TemporaryStorage/TemporaryPartition.java:201-220 | parsing the written file restores the same keys, in the same order, with the same values |
| PartitionFile.Survivors | lib/src/main/java/UtilitiesToolLib/module/TemporaryStorage/TemporaryPartition.java:287-295 | what survives a file cut inside the value block never outnumbers the entries written |
| PartitionFile.SurvivorsFull | lib/src/main/java/UtilitiesToolLib/module/TemporaryStorage/TemporaryPartition.java:287-295 | with the whole value block present, every entry survives |
| PartitionFile.SurvivorsAt | lib/src/main/java/UtilitiesToolLib/module/TemporaryStorage/TemporaryPartition.java:287-295 | an entry survives a cut after `m` value bytes exactly when its value is empty or all its bytes lie before the cut |
| PartitionFile.ValueCutRoundTrip | lib/src/main/java/UtilitiesToolLib/module/TemporaryStorage/TemporaryPartition.java:282-296 | on a truncated value block the value loop keeps exactly the entries whose bytes were all read, and raises nothing for the short reads |
| PartitionFile.TruncatedFile | lib/src/main/java/UtilitiesToolLib/module/TemporaryStorage/TemporaryPartition.java:257-296 | a written file cut anywhere in its value block parses, without a fault, to the surviving entries |
| TemporaryPartition.New | lib/src/main/java/UtilitiesToolLib/module/TemporaryStorage/TemporaryPartition.java:96-103 | a new partition is empty, has size zero and is not persisted |
| TemporaryPartition.Get | lib/src/main/java/UtilitiesToolLib/module/TemporaryStorage/TemporaryPartition.java:152-154 | a value is found only for a key in the key set |
| TemporaryPartition.ContainsKey | lib/src/main/java/UtilitiesToolLib/module/TemporaryStorage/TemporaryPartition.java:162-164 | true exactly when the map has an entry for the key, even one whose value was evicted |
| TemporaryPartition.KeySet | lib/src/main/java/UtilitiesToolLib/module/TemporaryStorage/TemporaryPartition.java:171-173 | the keys of the map's entries, in insertion order, each of them contained, and without repeats in a valid partition |
| TemporaryPartition.Add | lib/src/main/java/UtilitiesToolLib/module/TemporaryStorage/TemporaryPartition.java:140-144 | the size grows by exactly the value's encoded byte length, even on overwrite, so it never falls; a new key is appended to the key set, and the flag and id stay |
| TemporaryPartition.AddGet | lib/src/main/java/UtilitiesToolLib/module/TemporaryStorage/TemporaryPartition.java:140-164 | after `add(k, v)`, `get(k)` is `v` and `containsKey(k)` holds; every other key reads and tests as before |
| TemporaryPartition.Evict | lib/src/main/java/UtilitiesToolLib/module/TemporaryStorage/TemporaryPartition.java:230-235 | eviction keeps every key in order and leaves no value |
| TemporaryPartition.Save | lib/src/main/java/UtilitiesToolLib/module/TemporaryStorage/TemporaryPartition.java:180-236 | afterwards the flag is set and the key set and size are unchanged. A save that returns evicts every value. Only an unflagged partition writes, and without a fault it writes the serialized map. A failed write throws an IOException and keeps the values. Other files are untouched |
| TemporaryPartition.EvictedGet | lib/src/main/java/UtilitiesToolLib/module/TemporaryStorage/TemporaryPartition.java:230-235 | after eviction `get` answers null for every key |
| TemporaryPartition.Load | lib/src/main/java/UtilitiesToolLib/module/TemporaryStorage/TemporaryPartition.java:246-302 | does nothing unless the partition is flagged; a missing or unreadable file is an IOException that leaves the map; the id, size and flag never change |
| TemporaryPartition.Close | lib/src/main/java/UtilitiesToolLib/module/TemporaryStorage/TemporaryPartition.java:109-120 | the map is emptied and the flag cleared; the file is gone unless its deletion failed, and every other file is untouched |
| TemporaryPartition.SaveLoadRoundTrip | lib/src/main/java/UtilitiesToolLib/module/TemporaryStorage/TemporaryPartition.java:180-302 | `load` after a successful `save` restores the same keys, in the same order, with the same values, and keeps the flag |
| TemporaryPartition.SaveAfterFailedSave | lib/src/main/java/UtilitiesToolLib/module/TemporaryStorage/TemporaryPartition.java:183-235 | after a failed write, a second `save` writes nothing, returns normally and evicts every value |
| TemporaryPartition.AddAfterPersistIsLost | lib/src/main/java/UtilitiesToolLib/module/TemporaryStorage/TemporaryPartition.java:183-184 | a key added to a partition already flagged is not in the file after the next `save`, and a reload loses it |
| TemporaryPartition.LoadParsed | lib/src/main/java/UtilitiesToolLib/module/TemporaryStorage/TemporaryPartition.java:280-296 | `load` of a file that parses without a fault replaces the map with the parsed entries |
| TemporaryPartition.LoadTruncated | lib/src/main/java/UtilitiesToolLib/module/TemporaryStorage/TemporaryPartition.java:282-296 | `load` of a file cut inside its value block takes exactly the surviving entries |
| TemporaryPartition.LoadAfterFailedSave | lib/src/main/java/UtilitiesToolLib/module/TemporaryStorage/TemporaryPartition.java:180-302 | a write that fails inside the value block, then a retried `save`: the values are evicted, and the next `load` brings back only the entries whose bytes reached the file |
| TemporaryStorage.Create | lib/src/main/java/UtilitiesToolLib/module/TemporaryStorage/TemporaryStorage.java:30-35 | a new storage is valid, keeps the limit unchecked, has an empty list and an empty, unflagged active partition |
| TemporaryStorage.IndexOfId | lib/src/main/java/UtilitiesToolLib/module/TemporaryStorage/TemporaryStorage.java:62 | the index is absent exactly when no partition in the list has the id, and otherwise points at one that has it |
| TemporaryStorage.FirstHolder | lib/src/main/java/UtilitiesToolLib/module/TemporaryStorage/TemporaryStorage.java:91-96 | the candidate is the first persisted partition, in list order, whose key set has the key; none means no partition has it |
| TemporaryStorage.ContainsKey | lib/src/main/java/UtilitiesToolLib/module/TemporaryStorage/TemporaryStorage.java:127-137 | `containsKey` holds exactly when the active partition or some persisted partition has the key in its key set |
| TemporaryStorage.Add | lib/src/main/java/UtilitiesToolLib/module/TemporaryStorage/TemporaryStorage.java:56-73 | the state stays valid: the active partition is never in the list and the list has no duplicates. The key ends up in the active partition. The list is either unchanged or grows by the old active partition at its end |
| TemporaryStorage.AddBelowLimit | lib/src/main/java/UtilitiesToolLib/module/TemporaryStorage/TemporaryStorage.java:56-73 | below the limit only the active partition changes, by a partition `add` |
| TemporaryStorage.AddRotates | lib/src/main/java/UtilitiesToolLib/module/TemporaryStorage/TemporaryStorage.java:59-66 | at the limit, after a successful save, the saved and evicted active partition is appended to the list, and a new partition with a fresh id becomes active and takes the entry |
| TemporaryStorage.AddSaveFails | lib/src/main/java/UtilitiesToolLib/module/TemporaryStorage/TemporaryStorage.java:60-72 | a save that throws is swallowed: the list is unchanged and the entry goes into the old active partition, now flagged with its values still in memory |
| TemporaryStorage.AddKeepsKeys | lib/src/main/java/UtilitiesToolLib/module/TemporaryStorage/TemporaryStorage.java:56-73 | `add` never takes a key out of the storage |
| TemporaryStorage.Exchange | lib/src/main/java/UtilitiesToolLib/module/TemporaryStorage/TemporaryStorage.java:102-112 | the save-and-exchange step keeps the state valid and the list length unchanged, and returns normally |
| TemporaryStorage.Swap | lib/src/main/java/UtilitiesToolLib/module/TemporaryStorage/TemporaryStorage.java:97-116 | the swap keeps the state valid and the list length unchanged; the only exception that escapes it is a runtime one |
| TemporaryStorage.Get | lib/src/main/java/UtilitiesToolLib/module/TemporaryStorage/TemporaryStorage.java:81-119 | a null key throws IllegalArgumentException and changes nothing; a key in the active partition is answered from it with no state change; a key no partition has gives null with no state change; the state stays valid with the same list length |
| TemporaryStorage.GetSwap | lib/src/main/java/UtilitiesToolLib/module/TemporaryStorage/TemporaryStorage.java:97-112 | when load and save succeed, the candidate leaves the list and becomes active, the saved old active partition joins the end, and the answer comes from the reloaded candidate |
| TemporaryStorage.GetSwapFails | lib/src/main/java/UtilitiesToolLib/module/TemporaryStorage/TemporaryStorage.java:114-118 | an IOException from the load or the save gives null; the active partition stays and the candidate keeps its place in the list |
| TemporaryStorage.CloseAll | lib/src/main/java/UtilitiesToolLib/module/TemporaryStorage/TemporaryStorage.java:44-46 | every listed partition is emptied and unflagged, its file deleted unless the deletion fails, and files of other partitions untouched |
| TemporaryStorage.Close | lib/src/main/java/UtilitiesToolLib/module/TemporaryStorage/TemporaryStorage.java:41-47 | the active partition and every persisted partition are closed, in that order, and other files are untouched |
| TemporaryStorage.CloseEmpties | lib/src/main/java/UtilitiesToolLib/module/TemporaryStorage/TemporaryStorage.java:41-47 | after `close` the storage holds no key and is still valid |
| StorageProperties.Restore | lib/src/main/java/UtilitiesToolLib/module/TemporaryStorage/TemporaryPartition.java:280-296 | refilling an evicted key list from the stored content keeps its keys and fills every slot with the stored value |
| StorageProperties.SavedHolds | lib/src/main/java/UtilitiesToolLib/module/TemporaryStorage/TemporaryPartition.java:180-236 | a partition whose values agree with the content is, once saved without a fault, backed by a file that reloads them |
| StorageProperties.SwapFaithful | lib/src/main/java/UtilitiesToolLib/module/TemporaryStorage/TemporaryStorage.java:97-112 | a swap without file faults answers the content's value for the key and keeps every partition backed by the content |
| StorageProperties.GetFaithful | lib/src/main/java/UtilitiesToolLib/module/TemporaryStorage/TemporaryStorage.java:81-119 | on a storage faithful to some content, `get` without file faults answers the content's value, or null for a key outside it, and keeps the storage faithful |
| StorageProperties.AddFaithful | lib/src/main/java/UtilitiesToolLib/module/TemporaryStorage/TemporaryStorage.java:56-73 | `add` of a new key without file faults keeps the storage faithful to the content extended with the entry |
| StorageProperties.ExtendLookup | lib/src/test/java/UtilitiesToolLib/module/TemporaryStorage/TemporaryStorageTest.java:42-48 | content extended by a batch of distinct additions maps each added key to its value and every other key as before |
| StorageProperties.RunAdds | lib/src/test/java/UtilitiesToolLib/module/TemporaryStorage/TemporaryStorageTest.java:42-48 | a batch of additions keeps the storage valid with the same limit |
| StorageProperties.RunGets | lib/src/test/java/UtilitiesToolLib/module/TemporaryStorage/TemporaryStorageTest.java:49 | a batch of lookups gives one answer per key and keeps the storage valid |
| StorageProperties.AddsFaithful | lib/src/test/java/UtilitiesToolLib/module/TemporaryStorage/TemporaryStorageTest.java:42-48 | a batch of additions under new, distinct keys keeps the storage faithful to the extended content |
| StorageProperties.GetsFaithful | lib/src/test/java/UtilitiesToolLib/module/TemporaryStorage/TemporaryStorageTest.java:49 | a batch of lookups on a faithful storage answers each key from the content and keeps the storage faithful |
| StorageProperties.AddsThenGets | lib/src/test/java/UtilitiesToolLib/module/TemporaryStorage/TemporaryStorageTest.java:42-56 | a new storage fed entries under distinct keys answers every later lookup with the value added under that key, or null, whatever the limit and however many partitions were spilled and swapped |
| JapaneseChars.IsHiragana | lib/src/main/java/UtilitiesToolLib/common/util/JapaneseCharacterUtils.java:44-46 | true exactly for the code units from 'ぁ' (U+3041) to 'ゞ' (U+309E), both ends included |
| JapaneseChars.IsHalfWidthKatakana | lib/src/main/java/UtilitiesToolLib/common/util/JapaneseCharacterUtils.java:64-66 | true exactly for the code units from 'ｦ' (U+FF66) to 'ﾝ' (U+FF9D), both ends included |
| JapaneseChars.IsFullWidthKatakana | lib/src/main/java/UtilitiesToolLib/common/util/JapaneseCharacterUtils.java:74-76 | true exactly for the code units from 'ァ' (U+30A1) to 'ヾ' (U+30FE), both ends included |
| JapaneseChars.IsKatakana | lib/src/main/java/UtilitiesToolLib/common/util/JapaneseCharacterUtils.java:54-56 | true exactly for a code unit in the half-width or the full-width katakana range |
| JapaneseChars.IsKana | lib/src/main/java/UtilitiesToolLib/common/util/JapaneseCharacterUtils.java:34-36 | true exactly for a code unit in the hiragana, half-width katakana or full-width katakana range |
| JapaneseChars.IsKanji | lib/src/main/java/UtilitiesToolLib/common/util/JapaneseCharacterUtils.java:84-92 | true exactly for a code unit from '一' (U+4E00) to '龥' (U+9FA5) or from '々' (U+3005) to '〇' (U+3007) |
| JapaneseChars.FirstJapanese | lib/src/main/java/UtilitiesToolLib/common/util/JapaneseCharacterUtils.java:17-26 | the index found holds a kana or kanji and nothing before it does; no index means no character of the string does |
| JapaneseChars.HasJapaneseCharacter | lib/src/main/java/UtilitiesToolLib/common/util/JapaneseCharacterUtils.java:17-26 | true exactly when some character is a kana or a kanji, so false for the empty string, and it agrees with the first-index search |
| JapaneseChars.FirstJapaneseAppend | lib/src/main/java/UtilitiesToolLib/common/util/JapaneseCharacterUtils.java:17-26 | the first Japanese character of a concatenation is the left part's first, or else the right part's, shifted |
| JapaneseChars.ClassesDisjoint | lib/src/main/java/UtilitiesToolLib/common/util/JapaneseCharacterUtils.java:34-92 | no character is both hiragana and katakana, both half- and full-width katakana, or both kana and kanji |

## Left out

- Encryption (AES, SHA-256, Base64) and the Jackson serializers that wrap it: foreign library calls with no logic of their own.
- The reflective capture of the key and value classes, and `ObjectMapper`: replaced by a `Codec` whose round trip is a precondition (`ValidCodec`).
- `convertObjectToByteArray`: Java object serialisation, unused by the storage.
- `closeQuietly`, buffered and GZIP streams, the temporary directory, the UUID file names and logging: I/O plumbing. A file is a byte sequence in a map, and compression is taken as a transform of the whole file that is undone exactly; a compressed file cut short is not covered (see `PartitionFile.TruncatedFile` below).
- `convertHiraganaToKatakana`: a thin wrapper over an ICU transliterator.
- Concurrent use: the classes are not synchronised, and the model is sequential.
- A null key in `add` or `containsKey`, and null values: the model covers the null key of `get` only.
- JapaneseChars.HasJapaneseCharacter: a null string, for which `hasContainsJapaneseCharacter` throws a `NullPointerException`, is not modelled, because a string here is a sequence of code units and cannot be null.
- A read that fails in the middle of a file, as opposed to one that fails to open: not modelled. An uncompressed file cut short is modelled (`PartitionFile.TruncatedFile`); a compressed one is not.
- Malformed UTF-8 input: decoded one replacement character per bad byte, while the JDK replaces maximal ill-formed subparts. Well-formed input, which is all `save` writes, is decoded exactly.
- An encoding failure in Jackson during `save` or `add`: the codec's text form is total.
- PartitionFile.TruncatedFile, PartitionFile.ValueCutRoundTrip, TemporaryPartition.LoadTruncated and TemporaryPartition.LoadAfterFailedSave: they describe an uncompressed file, read through a buffered stream that returns short reads at the cut. With compression on, the GZIP stream throws an `EOFException`, an `IOException`, when its input ends early. A cut in the value block then stops `load` with an I/O fault instead of keeping the survivors, and a cut in the headers gives an I/O fault, which `get` swallows, instead of an unchecked one.
- TemporaryPartition.Add: the partition size is unbounded, so the wrap-around of the Java `long` counter after 2^63 bytes is not modelled.
- PartitionFile.LengthField: a length above `Integer.MAX_VALUE` is clamped. The count is the map's `size()`, a Java int that saturates at `Integer.MAX_VALUE`, and each other length is a Java array length, which cannot exceed it; the round-trip lemmas require every length to fit (`Fits`).
- StorageProperties.AddFaithful: it assumes the active partition is not a persisted one swapped back in, unless it is at the limit; otherwise an added entry is lost, as `AddAfterPersistIsLost` shows.
- StorageProperties.GetFaithful: it covers lookups without file faults; with faults, `GetSwapFails` and `Swap` give the outcome.
