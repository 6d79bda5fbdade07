/** One partition of the temporary storage: an insertion-ordered map from
    keys to value slots with a byte-size counter and a `persisted` flag,
    which can spill itself to its backing file and reload from it. */
module TemporaryPartition {
  import opened Prelude
  import opened LinkedMap
  import opened PartitionFile
  import StorageUtil

  /** Stands for the partition's random UUID, which names its file. */
  type PartitionId = nat

  /** The temporary directory: the bytes of each partition's file, by id. */
  type Disk = map<PartitionId, seq<Byte>>

  /** `size` sums the encoded length of every value ever added. */
  datatype Partition<K, T> = Partition(id: PartitionId, data: Entries<K, Slot<T>>, size: nat, persisted: bool)

  predicate Valid<K(==), T>(p: Partition<K, T>)
  {
    DistinctKeys(p.data)
  }

  /** A fresh partition: no entries, size zero, not persisted. */
  function New<K, T>(id: PartitionId): (p: Partition<K, T>)
    ensures Valid(p) && p.id == id && p.data == [] && p.size == 0 && !p.persisted
  {
    Partition(id, [], 0, false)
  }

  /** `containsKey`: whether the map has an entry for the key, whatever
      its slot holds, an evicted (null) value included. */
  function ContainsKey<K(==), T>(p: Partition<K, T>, k: K): (r: bool)
    ensures r <==> Lookup(p.data, k).Some?
  {
    k in Keys(p.data)
  }

  /** `keySet()`: the keys in insertion order, one per entry, each tested
      true by `containsKey`, and no key twice in a valid partition. */
  function KeySet<K(==), T>(p: Partition<K, T>): (ks: seq<K>)
    ensures |ks| == |p.data| && forall i :: 0 <= i < |p.data| ==> ks[i] == p.data[i].key
    ensures forall i :: 0 <= i < |ks| ==> ContainsKey(p, ks[i])
    ensures Valid(p) ==> forall i, j :: 0 <= i < j < |ks| ==> ks[i] != ks[j]
  {
    Keys(p.data)
  }

  /** Partitions with the same key set contain the same keys. */
  lemma SameKeysContain<K, T>(p: Partition<K, T>, q: Partition<K, T>, k: K)
    requires KeySet(p) == KeySet(q)
    ensures ContainsKey(p, k) <==> ContainsKey(q, k)
  {
    assert Keys(p.data) == KeySet(p);
  }

  /** `get`: the value for the key; `None` both for an absent key and for
      an evicted value. */
  function Get<K(==), T>(p: Partition<K, T>, k: K): (r: Option<T>)
    ensures r.Some? ==> ContainsKey(p, k)
  {
    match Lookup(p.data, k)
    case None => None
    case Some(slot) => slot
  }

  /** The number of bytes a value adds to `size`. */
  function ValueSize<T>(vc: Codec<T>, v: T): nat
  {
    StorageUtil.GetBytesCount(vc.toText(v))
  }

  /** `add`: grows `size` by the value's encoded length, even when the key
      was already present, and puts the value. */
  function Add<K(==), T>(vc: Codec<T>, p: Partition<K, T>, k: K, v: T): (q: Partition<K, T>)
    requires Valid(p)
    ensures Valid(q) && q.id == p.id && q.persisted == p.persisted
    ensures q.size == p.size + |EncodeSlot(vc, Some(v))| && q.size >= p.size
    ensures KeySet(q) == if ContainsKey(p, k) then KeySet(p) else KeySet(p) + [k]
  {
    p.(data := Put(p.data, k, Some(v)), size := p.size + ValueSize(vc, v))
  }

  /** After `add(k, v)`, `get(k)` is `v`, `containsKey(k)` holds, and every
      other key reads as before. */
  lemma AddGet<K, T>(vc: Codec<T>, p: Partition<K, T>, k: K, v: T, k': K)
    requires Valid(p)
    ensures ContainsKey(Add(vc, p, k, v), k)
    ensures Get(Add(vc, p, k, v), k) == Some(v)
    ensures k' != k ==> Get(Add(vc, p, k, v), k') == Get(p, k')
    ensures k' != k ==> (ContainsKey(Add(vc, p, k, v), k') <==> ContainsKey(p, k'))
  {
    PutLookup(p.data, k, Some(v), k);
    PutLookup(p.data, k, Some(v), k');
  }

  /** No slot holds a value. */
  predicate Evicted<K, T>(es: Entries<K, Slot<T>>)
  {
    forall i :: 0 <= i < |es| ==> es[i].value.None?
  }

  /** Every value dropped, every key kept. */
  function Evict<K, T>(es: Entries<K, Slot<T>>): (r: Entries<K, Slot<T>>)
    ensures Keys(r) == Keys(es)
    ensures Evicted(r)
  {
    seq(|es|, i requires 0 <= i < |es| => Entry(es[i].key, None))
  }

  /** The state after `save`, the disk after it, and the exception it threw. */
  datatype Saved<K, T> = Saved(part: Partition<K, T>, disk: Disk, thrown: Option<Fault>)

  /** `save`. When not yet persisted it sets the flag, then writes the file;
      a write that fails after `n` bytes (`writeCut == Some(n)`) leaves those
      bytes in the file and throws before the values are evicted. When
      already persisted it writes nothing. Either way a save that returns
      normally evicts every value. */
  function Save<K(==), T>(kc: Codec<K>, vc: Codec<T>, p: Partition<K, T>, disk: Disk, writeCut: Option<nat>)
    : (r: Saved<K, T>)
    requires Valid(p)
    ensures Valid(r.part) && r.part.persisted
    ensures r.part.id == p.id && r.part.size == p.size && KeySet(r.part) == KeySet(p)
    ensures r.thrown.None? ==> Evicted(r.part.data)
    ensures r.thrown.Some? ==> r.thrown == Some(IoError) && !p.persisted && r.part.data == p.data
    ensures p.persisted ==> r.disk == disk && r.thrown.None?
    ensures writeCut.None? ==> r.thrown.None?
    ensures !p.persisted && writeCut.None? ==> r.disk == disk[p.id := Serialize(kc, vc, p.data)]
    ensures forall id :: id != p.id ==> (id in r.disk <==> id in disk) && (id in disk ==> r.disk[id] == disk[id])
  {
    if p.persisted then
      Saved(p.(data := Evict(p.data)), disk, None)
    else
      var marked := p.(persisted := true);
      var file := Serialize(kc, vc, p.data);
      match writeCut
      case None =>
        Saved(marked.(data := Evict(p.data)), disk[p.id := file], None)
      case Some(n) =>
        Saved(marked, disk[p.id := file[..Min(n, |file|)]], Some(IoError))
  }

  /** With every value evicted, `get` finds nothing, whatever the key. */
  lemma EvictedGet<K, T>(p: Partition<K, T>, k: K)
    requires Valid(p) && Evicted(p.data)
    ensures Get(p, k).None?
  {
    if ContainsKey(p, k) {
      var i :| 0 <= i < |p.data| && Keys(p.data)[i] == k;
      LookupAt(p.data, i);
    }
  }

  /** The state after `load` and the exception it threw. */
  datatype Loaded<K, T> = Loaded(part: Partition<K, T>, thrown: Option<Fault>)

  /** `load`. Does nothing unless persisted. A missing file or an open that
      fails (`readFails`) throws an IOException; a fault in the header loop
      leaves the partition as it was; otherwise the entries become those
      reloaded from the file, which may stop early with a fault. The flag
      is never cleared. */
  function Load<K(==), T>(kc: Codec<K>, vc: Codec<T>, p: Partition<K, T>, disk: Disk, readFails: bool)
    : (r: Loaded<K, T>)
    ensures !p.persisted ==> r == Loaded(p, None)
    ensures r.part.id == p.id && r.part.size == p.size && r.part.persisted == p.persisted
    ensures Valid(p) ==> Valid(r.part)
    ensures r.thrown != Some(IllegalArgument)
    ensures p.persisted && (readFails || p.id !in disk) ==> r == Loaded(p, Some(IoError))
  {
    if !p.persisted then Loaded(p, None)
    else if readFails || p.id !in disk then Loaded(p, Some(IoError))
    else
      match Parse(kc, vc, disk[p.id])
      case HeaderFault(f) => Loaded(p, Some(f))
      case Parsed(es, stopped) => Loaded(p.(data := es), stopped)
  }

  /** `close`: deletes the file unless the deletion fails, which is ignored;
      always empties the map and clears the flag. */
  function Close<K, T>(p: Partition<K, T>, disk: Disk, deleteFails: bool): (r: (Partition<K, T>, Disk))
    ensures r.0.id == p.id && r.0.data == [] && !r.0.persisted
    ensures !deleteFails ==> p.id !in r.1
    ensures forall id :: id != p.id ==> (id in r.1 <==> id in disk) && (id in disk ==> r.1[id] == disk[id])
  {
    (p.(data := [], persisted := false), if deleteFails then disk else disk - {p.id})
  }

  /** `load` after a `save` that wrote its file restores the same keys, in
      the same order, with the same values, and keeps the flag set. */
  lemma SaveLoadRoundTrip<K(!new), T(!new)>(kc: Codec<K>, vc: Codec<T>, p: Partition<K, T>, disk: Disk)
    requires ValidCodec(kc) && ValidCodec(vc)
    requires Valid(p) && !p.persisted && Resident(p.data) && Fits(kc, vc, p.data)
    ensures var s := Save(kc, vc, p, disk, None);
            Load(kc, vc, s.part, s.disk, false) == Loaded(p.(persisted := true), None)
  {
    RoundTrip(kc, vc, p.data);
  }

  /** `save` marks the partition persisted before it writes, so after a
      write that failed, a second `save` writes nothing and evicts every
      value: the bytes that did not reach the file are gone from memory too. */
  lemma SaveAfterFailedSave<K, T>(kc: Codec<K>, vc: Codec<T>, p: Partition<K, T>, disk: Disk,
                                  n: nat, again: Option<nat>)
    requires Valid(p) && !p.persisted
    ensures var first := Save(kc, vc, p, disk, Some(n));
            var second := Save(kc, vc, first.part, first.disk, again);
            && first.thrown == Some(IoError)
            && first.part.data == p.data
            && second.disk == first.disk
            && second.thrown.None?
            && Evicted(second.part.data)
            && KeySet(second.part) == KeySet(p)
  {
  }

  /** An entry added to a partition that is already persisted is never
      written: the next `save` leaves the file as it was, and a `load` from
      that file drops the entry. */
  lemma AddAfterPersistIsLost<K(!new), T(!new)>(kc: Codec<K>, vc: Codec<T>, p: Partition<K, T>, disk: Disk,
                                               k: K, v: T)
    requires ValidCodec(kc) && ValidCodec(vc) && Valid(p) && p.persisted
    requires p.id in disk && disk[p.id] == Serialize(kc, vc, p.data)
    requires Resident(p.data) && Fits(kc, vc, p.data) && !ContainsKey(p, k)
    ensures var saved := Save(kc, vc, Add(vc, p, k, v), disk, None);
            && saved.disk == disk
            && !ContainsKey(Load(kc, vc, saved.part, saved.disk, false).part, k)
  {
    RoundTrip(kc, vc, p.data);
  }

  /** `load` of a flagged partition whose file parses without a fault
      takes the parsed entries. */
  lemma LoadParsed<K, T>(kc: Codec<K>, vc: Codec<T>, p: Partition<K, T>, disk: Disk, es: Entries<K, Slot<T>>)
    requires p.persisted && p.id in disk && Parse(kc, vc, disk[p.id]) == Parsed(es, None)
    ensures Load(kc, vc, p, disk, false) == Loaded(p.(data := es), None)
  {
  }

  /** A partition whose file holds the header and only the first `m`
      bytes of the value block loads the entries whose values fit there. */
  lemma LoadTruncated<K(!new), T(!new)>(kc: Codec<K>, vc: Codec<T>, q: Partition<K, T>, disk: Disk,
                                        es: Entries<K, Slot<T>>, m: nat)
    requires ValidCodec(kc) && ValidCodec(vc)
    requires DistinctKeys(es) && Resident(es) && Fits(kc, vc, es) && m <= |ValueBlock(vc, es)|
    requires q.persisted && q.id in disk
    requires disk[q.id] == Serialize(kc, vc, es)[..StorageUtil.IntWidth + |HeaderBlock(kc, vc, es)| + m]
    ensures Load(kc, vc, q, disk, false) == Loaded(q.(data := Survivors(vc, es, m)), None)
  {
    TruncatedFile(kc, vc, es, m);
    LoadParsed(kc, vc, q, disk, Survivors(vc, es, m));
  }

  /** A write that fails `m` bytes into the value block, then a retried
      `save` (which writes nothing, the flag being set): the next `load`
      brings back only the entries whose bytes reached the file. */
  lemma LoadAfterFailedSave<K(!new), T(!new)>(kc: Codec<K>, vc: Codec<T>, p: Partition<K, T>, disk: Disk,
                                             m: nat, again: Option<nat>)
    returns (first: Saved<K, T>, second: Saved<K, T>)
    requires ValidCodec(kc) && ValidCodec(vc)
    requires Valid(p) && !p.persisted && Resident(p.data) && Fits(kc, vc, p.data)
    requires m <= |ValueBlock(vc, p.data)|
    ensures first == Save(kc, vc, p, disk, Some(StorageUtil.IntWidth + |HeaderBlock(kc, vc, p.data)| + m))
    ensures first.thrown == Some(IoError)
    ensures second == Save(kc, vc, first.part, first.disk, again) && Evicted(second.part.data)
    ensures Load(kc, vc, second.part, second.disk, false)
            == Loaded(p.(persisted := true, data := Survivors(vc, p.data, m)), None)
  {
    var file := Serialize(kc, vc, p.data);
    var n := StorageUtil.IntWidth + |HeaderBlock(kc, vc, p.data)| + m;
    SerializeLength(kc, vc, p.data);
    first := Save(kc, vc, p, disk, Some(n));
    assert first == Saved(p.(persisted := true), disk[p.id := file[..n]], Some(IoError));
    second := Save(kc, vc, first.part, first.disk, again);
    assert second == Saved(first.part.(data := Evict(p.data)), first.disk, None);
    LoadTruncated(kc, vc, second.part, second.disk, p.data, m);
  }
}
