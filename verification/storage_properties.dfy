/** What the temporary storage promises when no file operation fails: a
    value added under a fresh key is what `get` returns for it, however
    often partitions are spilled to disk and swapped back in. The promise
    is carried by an invariant, `Faithful`, tying every partition and file
    to one abstract map from keys to values. */
module StorageProperties {
  import opened Prelude
  import opened LinkedMap
  import opened PartitionFile
  import TP = TemporaryPartition
  import opened TemporaryStorage

  /** Every slot holds the content's value for its key, or nothing. */
  ghost predicate Agrees<K, T>(es: Entries<K, Slot<T>>, content: map<K, T>)
  {
    forall i :: 0 <= i < |es| ==>
      es[i].key in content && (es[i].value.None? || es[i].value == Some(content[es[i].key]))
  }

  /** The entries with every slot filled from the content. */
  function Restore<K(==), T>(es: Entries<K, Slot<T>>, content: map<K, T>): (r: Entries<K, Slot<T>>)
    requires forall i :: 0 <= i < |es| ==> es[i].key in content
    ensures |r| == |es| && Keys(r) == Keys(es) && Resident(r) && Agrees(r, content)
  {
    seq(|es|, i requires 0 <= i < |es| => Entry(es[i].key, Some(content[es[i].key])))
  }

  /** A partition agrees with the content, and when flagged persisted its
      file holds exactly its keys with the content's values. */
  ghost predicate Holds<K, T>(cs: Codecs<K, T>, p: TP.Partition<K, T>, disk: TP.Disk, content: map<K, T>)
  {
    && TP.Valid(p) && Agrees(p.data, content) && |p.data| <= |content|
    && (p.persisted ==> p.id in disk && disk[p.id] == Serialize(cs.key, cs.value, Restore(p.data, content)))
  }

  /** Every count and length the content can produce fits a Java int. */
  ghost predicate FitsContent<K, T>(cs: Codecs<K, T>, content: map<K, T>)
  {
    && |content| <= MaxInt
    && forall k :: k in content ==>
         |EncodeKey(cs.key, k)| <= MaxInt && |EncodeSlot(cs.value, Some(content[k]))| <= MaxInt
  }

  /** The storage represents `content`: the active partition holds its
      values in memory, every listed partition is flagged persisted with a
      matching file, and every key of the content is somewhere. */
  ghost predicate Faithful<K(!new), T(!new)>(cs: Codecs<K, T>, s: Storage<K, T>, content: map<K, T>)
  {
    && Valid(s) && ValidCodec(cs.key) && ValidCodec(cs.value) && FitsContent(cs, content)
    && Resident(s.active.data) && Holds(cs, s.active, s.disk, content)
    && AllHold(cs, s.persisted, s.disk, content)
    && Covers(s, content)
  }

  /** Every listed partition is flagged persisted and holds. */
  ghost predicate AllHold<K, T>(cs: Codecs<K, T>, ps: seq<TP.Partition<K, T>>, disk: TP.Disk, content: map<K, T>)
  {
    forall i :: 0 <= i < |ps| ==> ps[i].persisted && Holds(cs, ps[i], disk, content)
  }

  /** Every key of the content is in some partition's key set. */
  ghost predicate Covers<K, T>(s: Storage<K, T>, content: map<K, T>)
  {
    forall k :: k in content ==> ContainsKey(s, k)
  }

  /** Restoring depends on the keys alone. */
  lemma RestoreSameKeys<K, T>(a: Entries<K, Slot<T>>, b: Entries<K, Slot<T>>, content: map<K, T>)
    requires Keys(a) == Keys(b) && forall i :: 0 <= i < |a| ==> a[i].key in content
    ensures Restore(a, content) == Restore(b, content)
  {
    assert |a| == |Keys(a)| == |b|;
    forall i | 0 <= i < |a| ensures a[i].key == b[i].key {
      assert Keys(a)[i] == Keys(b)[i];
    }
  }

  /** Entries already holding the content's values are their own restoration. */
  lemma RestoreResident<K, T>(es: Entries<K, Slot<T>>, content: map<K, T>)
    requires Resident(es) && Agrees(es, content)
    ensures Restore(es, content) == es
  {
  }

  /** A restored partition is a legal file content. */
  lemma RestoreFits<K, T>(cs: Codecs<K, T>, es: Entries<K, Slot<T>>, content: map<K, T>)
    requires Agrees(es, content) && DistinctKeys(es) && |es| <= |content| && FitsContent(cs, content)
    ensures DistinctKeys(Restore(es, content)) && Fits(cs.key, cs.value, Restore(es, content))
  {
    var r := Restore(es, content);
    forall i | 0 <= i < |r|
      ensures |EncodeKey(cs.key, r[i].key)| <= MaxInt && |EncodeSlot(cs.value, r[i].value)| <= MaxInt
    {
      assert r[i].key == es[i].key && r[i].key in content;
    }
    forall i, j | 0 <= i < j < |r| ensures r[i].key != r[j].key {
      assert r[i].key == es[i].key && r[j].key == es[j].key;
    }
  }

  /** Loading a persisted partition that holds restores its values from the file. */
  lemma LoadHeld<K(!new), T(!new)>(cs: Codecs<K, T>, p: TP.Partition<K, T>, disk: TP.Disk, content: map<K, T>)
    requires ValidCodec(cs.key) && ValidCodec(cs.value) && FitsContent(cs, content)
    requires p.persisted && Holds(cs, p, disk, content)
    ensures TP.Load(cs.key, cs.value, p, disk, false) == TP.Loaded(p.(data := Restore(p.data, content)), None)
  {
    RestoreFits(cs, p.data, content);
    RoundTrip(cs.key, cs.value, Restore(p.data, content));
  }

  /** In entries agreeing with the content, a key whose slot is filled reads as the content's value. */
  lemma ResidentGet<K, T>(p: TP.Partition<K, T>, content: map<K, T>, k: K)
    requires TP.Valid(p) && Resident(p.data) && Agrees(p.data, content) && TP.ContainsKey(p, k)
    ensures k in content && TP.Get(p, k) == Some(content[k])
  {
    var i :| 0 <= i < |p.data| && Keys(p.data)[i] == k;
    LookupAt(p.data, i);
  }

  /** Holding depends only on the partition's own file. */
  lemma HoldsFrame<K, T>(cs: Codecs<K, T>, p: TP.Partition<K, T>, disk: TP.Disk, disk': TP.Disk, content: map<K, T>)
    requires Holds(cs, p, disk, content)
    requires (p.id in disk' <==> p.id in disk) && (p.id in disk ==> disk'[p.id] == disk[p.id])
    ensures Holds(cs, p, disk', content)
  {
  }

  /** A new key in the content leaves every partition holding. */
  lemma HoldsUpdate<K, T>(cs: Codecs<K, T>, p: TP.Partition<K, T>, disk: TP.Disk, content: map<K, T>, k: K, v: T)
    requires Holds(cs, p, disk, content) && k !in content
    ensures Holds(cs, p, disk, content[k := v])
  {
    assert |content[k := v]| == |content| + 1;
    assert Restore(p.data, content[k := v]) == Restore(p.data, content);
  }

  /** Saving the active partition of a faithful state, with no fault,
      leaves a flagged partition whose file holds its keys and values. */
  lemma SavedHolds<K, T>(cs: Codecs<K, T>, a: TP.Partition<K, T>, disk: TP.Disk, content: map<K, T>)
    requires Resident(a.data) && Holds(cs, a, disk, content)
    ensures var saved := TP.Save(cs.key, cs.value, a, disk, None);
            && saved.thrown.None? && saved.part.persisted
            && Holds(cs, saved.part, saved.disk, content)
  {
    var saved := TP.Save(cs.key, cs.value, a, disk, None);
    var es := saved.part.data;
    assert Keys(es) == Keys(a.data);
    assert |es| == |a.data|;
    forall i | 0 <= i < |es| ensures es[i].key in content {
      assert Keys(es)[i] == Keys(a.data)[i];
    }
    RestoreSameKeys(es, a.data, content);
    RestoreResident(a.data, content);
    assert saved.disk[a.id] == Serialize(cs.key, cs.value, Restore(es, content));
  }

  /** After the swap of a faithful state every key of the content is still somewhere. */
  lemma SwapCovers<K, T>(s: Storage<K, T>, t: Storage<K, T>, i: nat, k: K)
    requires i < |s.persisted| && ContainsKey(s, k)
    requires TP.KeySet(t.active) == TP.KeySet(s.persisted[i])
    requires |t.persisted| > 0 && TP.KeySet(t.persisted[|t.persisted| - 1]) == TP.KeySet(s.active)
    requires t.persisted[..|t.persisted| - 1] == s.persisted[..i] + s.persisted[i + 1..]
    ensures ContainsKey(t, k)
  {
    var n := |t.persisted| - 1;
    if TP.ContainsKey(s.active, k) {
      TP.SameKeysContain(s.active, t.persisted[n], k);
      ListedContains(t, n, k);
    } else {
      var j := FirstHolder(s.persisted, k).value;
      if j == i {
        TP.SameKeysContain(s.persisted[i], t.active, k);
      } else {
        StillListed(s, t, i, j, k);
      }
    }
  }

  /** A partition other than the swapped one keeps its key in the new list. */
  lemma StillListed<K, T>(s: Storage<K, T>, t: Storage<K, T>, i: nat, j: nat, k: K)
    requires i < |s.persisted| && j < |s.persisted| && j != i && TP.ContainsKey(s.persisted[j], k)
    requires |t.persisted| > 0 && t.persisted[..|t.persisted| - 1] == s.persisted[..i] + s.persisted[i + 1..]
    ensures ContainsKey(t, k)
  {
    var n := |t.persisted| - 1;
    var j' := if j < i then j else j - 1;
    var dropped := s.persisted[..i] + s.persisted[i + 1..];
    DropAt(s.persisted, i, t.persisted[n]);
    assert (dropped + [t.persisted[n]])[j'] == dropped[j'];
    assert t.persisted[j'] == t.persisted[..n][j'];
    ListedContains(t, j', k);
  }

  /** A key in any listed partition is in the storage. */
  lemma ListedContains<K, T>(t: Storage<K, T>, j: nat, k: K)
    requires j < |t.persisted| && TP.ContainsKey(t.persisted[j], k)
    ensures ContainsKey(t, k)
  {
  }

  /** The disks agree on every id but `id`. */
  ghost predicate SameBut(disk: TP.Disk, disk': TP.Disk, id: TP.PartitionId)
  {
    forall x :: x != id ==> (x in disk' <==> x in disk) && (x in disk ==> disk'[x] == disk[x])
  }

  /** The listed partitions keep holding on a disk changed only under an id none of them has. */
  lemma AllHoldFrame<K, T>(cs: Codecs<K, T>, ps: seq<TP.Partition<K, T>>, disk: TP.Disk, disk': TP.Disk,
                           content: map<K, T>, id: TP.PartitionId)
    requires AllHold(cs, ps, disk, content) && SameBut(disk, disk', id) && id !in Ids(ps)
    ensures AllHold(cs, ps, disk', content)
  {
    forall j | 0 <= j < |ps| ensures Holds(cs, ps[j], disk', content) {
      assert Ids(ps)[j] == ps[j].id;
      HoldsFrame(cs, ps[j], disk, disk', content);
    }
  }

  /** Dropping the partition at `i` and appending one that holds keeps the list holding. */
  lemma AllHoldSwap<K, T>(cs: Codecs<K, T>, ps: seq<TP.Partition<K, T>>, i: nat, last: TP.Partition<K, T>,
                          disk: TP.Disk, content: map<K, T>)
    requires i < |ps| && AllHold(cs, ps, disk, content) && last.persisted && Holds(cs, last, disk, content)
    ensures AllHold(cs, ps[..i] + ps[i + 1..] + [last], disk, content)
  {
    var qs := ps[..i] + ps[i + 1..] + [last];
    DropAt(ps, i, last);
    forall j | 0 <= j < |qs| ensures qs[j].persisted && Holds(cs, qs[j], disk, content) {
      if j < |qs| - 1 {
        assert qs[j] == ps[if j < i then j else j + 1];
      }
    }
  }

  /** The state after a swap with no file fault is faithful. */
  lemma SwappedFaithful<K(!new), T(!new)>(cs: Codecs<K, T>, s: Storage<K, T>, content: map<K, T>, i: nat,
                                           saved: TP.Partition<K, T>, disk': TP.Disk, t: Storage<K, T>)
    requires Faithful(cs, s, content) && i < |s.persisted|
    requires saved.persisted && saved.id == s.active.id && TP.KeySet(saved) == TP.KeySet(s.active)
    requires Holds(cs, saved, disk', content) && SameBut(s.disk, disk', s.active.id)
    requires Valid(t) && t.disk == disk'
    requires t.active == s.persisted[i].(data := Restore(s.persisted[i].data, content))
    requires t.persisted == s.persisted[..i] + s.persisted[i + 1..] + [saved]
    ensures Faithful(cs, t, content)
  {
    var p := s.persisted[i];
    assert p.persisted && Holds(cs, p, s.disk, content);
    RestoreResident(t.active.data, content);
    assert p.id != s.active.id by { assert Ids(s.persisted)[i] == p.id; }
    HoldsFrame(cs, p, s.disk, disk', content);
    AllHoldFrame(cs, s.persisted, s.disk, disk', content, s.active.id);
    AllHoldSwap(cs, s.persisted, i, saved, disk', content);
    forall k | k in content ensures ContainsKey(t, k) {
      SwapCovers(s, t, i, k);
    }
  }

  /** A swap with no file fault answers the content's value and keeps the
      storage faithful. */
  lemma SwapFaithful<K(!new), T(!new)>(cs: Codecs<K, T>, s: Storage<K, T>, content: map<K, T>, k: K, i: nat)
    requires Faithful(cs, s, content)
    requires !TP.ContainsKey(s.active, k) && FirstHolder(s.persisted, k) == Some(i)
    ensures var r := Get(cs, s, Some(k), NoFaults);
            r.result == Success(Some(content[k])) && Faithful(cs, r.state, content)
  {
    var p := s.persisted[i];
    LoadHeld(cs, p, s.disk, content);
    var loaded := p.(data := Restore(p.data, content));
    var saved := TP.Save(cs.key, cs.value, s.active, s.disk, None);
    SavedHolds(cs, s.active, s.disk, content);
    GetSwap(cs, s, k, NoFaults, i);
    var r := Get(cs, s, Some(k), NoFaults);
    ResidentGet(loaded, content, k);
    SwappedFaithful(cs, s, content, i, saved.part, saved.disk, r.state);
  }

  /** `get` with no file fault on a faithful storage answers the content's
      value for the key, or null for a key outside it, and keeps the
      storage faithful. */
  lemma GetFaithful<K(!new), T(!new)>(cs: Codecs<K, T>, s: Storage<K, T>, content: map<K, T>, k: K)
    requires Faithful(cs, s, content)
    ensures var r := Get(cs, s, Some(k), NoFaults);
            && r.result == Success(if k in content then Some(content[k]) else None)
            && Faithful(cs, r.state, content)
  {
    if TP.ContainsKey(s.active, k) {
      ResidentGet(s.active, content, k);
    } else if FirstHolder(s.persisted, k).Some? {
      var i := FirstHolder(s.persisted, k).value;
      var p := s.persisted[i];
      assert k in content by {
        var j :| 0 <= j < |p.data| && Keys(p.data)[j] == k;
      }
      SwapFaithful(cs, s, content, k, i);
    }
  }

  /** Adding a new key below the limit keeps the storage faithful. */
  lemma AddBelowFaithful<K(!new), T(!new)>(cs: Codecs<K, T>, s: Storage<K, T>, content: map<K, T>, k: K, v: T, t: Storage<K, T>)
    requires Faithful(cs, s, content) && k !in content && |content| < MaxInt
    requires |EncodeKey(cs.key, k)| <= MaxInt && |EncodeSlot(cs.value, Some(v))| <= MaxInt
    requires !s.active.persisted && !TP.ContainsKey(s.active, k)
    requires Valid(t) && t == s.(active := s.active.(data := s.active.data + [Entry(k, Some(v))], size := t.active.size))
    requires forall k' :: k' in content ==> ContainsKey(t, k')
    ensures Faithful(cs, t, content[k := v])
  {
    var content' := content[k := v];
    assert |content'| == |content| + 1;
    forall j | 0 <= j < |s.persisted| ensures Holds(cs, s.persisted[j], s.disk, content') {
      HoldsUpdate(cs, s.persisted[j], s.disk, content, k, v);
    }
    assert TP.ContainsKey(t.active, k) by {
      assert Keys(t.active.data)[|s.active.data|] == k;
    }
  }

  /** Rotating at the limit keeps the storage faithful. */
  lemma AddRotateFaithful<K(!new), T(!new)>(cs: Codecs<K, T>, s: Storage<K, T>, content: map<K, T>, k: K, v: T,
                                             saved: TP.Partition<K, T>, disk': TP.Disk, t: Storage<K, T>)
    requires Faithful(cs, s, content) && k !in content && |content| < MaxInt
    requires |EncodeKey(cs.key, k)| <= MaxInt && |EncodeSlot(cs.value, Some(v))| <= MaxInt
    requires saved.persisted && saved.id == s.active.id
    requires Holds(cs, saved, disk', content) && SameBut(s.disk, disk', s.active.id)
    requires Valid(t) && t.disk == disk' && t.persisted == s.persisted + [saved]
    requires t.active.data == [Entry(k, Some(v))] && !t.active.persisted
    requires forall k' :: k' in content ==> ContainsKey(t, k')
    ensures Faithful(cs, t, content[k := v])
  {
    var content' := content[k := v];
    assert |content'| == |content| + 1;
    AllHoldFrame(cs, s.persisted, s.disk, disk', content, s.active.id);
    forall j | 0 <= j < |t.persisted| ensures t.persisted[j].persisted && Holds(cs, t.persisted[j], t.disk, content') {
      if j < |s.persisted| {
        assert t.persisted[j] == s.persisted[j];
      }
      HoldsUpdate(cs, t.persisted[j], t.disk, content, k, v);
    }
    assert TP.ContainsKey(t.active, k) by {
      assert Keys(t.active.data)[0] == k;
    }
  }

  /** `add` with no file fault keeps every key of the content somewhere. */
  lemma AddCovers<K, T>(cs: Codecs<K, T>, s: Storage<K, T>, content: map<K, T>, k: K, v: T)
    requires Valid(s) && Covers(s, content)
    ensures forall k' :: k' in content ==> ContainsKey(Add(cs, s, k, v, None), k')
  {
    forall k' | k' in content ensures ContainsKey(Add(cs, s, k, v, None), k') {
      AddKeepsKeys(cs, s, k, v, None, k');
    }
  }

  /** `add` with no file fault of a key outside the content keeps the
      storage faithful to the content extended with the entry. The active
      partition must not be one swapped back in, unless it is due to be
      rotated out: an entry put into a persisted partition is never written. */
  lemma AddFaithful<K(!new), T(!new)>(cs: Codecs<K, T>, s: Storage<K, T>, content: map<K, T>, k: K, v: T)
    requires Faithful(cs, s, content) && k !in content && |content| < MaxInt
    requires |EncodeKey(cs.key, k)| <= MaxInt && |EncodeSlot(cs.value, Some(v))| <= MaxInt
    requires !s.active.persisted || s.active.size >= s.limit
    ensures var t := Add(cs, s, k, v, None);
            && Faithful(cs, t, content[k := v])
            && (!s.active.persisted ==> !t.active.persisted)
  {
    var t := Add(cs, s, k, v, None);
    AddCovers(cs, s, content, k, v);
    if s.active.size < s.limit {
      AddBelowLimit(cs, s, k, v, None);
      AddBelowFaithful(cs, s, content, k, v, t);
    } else {
      SavedHolds(cs, s.active, s.disk, content);
      AddRotates(cs, s, k, v, None);
      var saved := TP.Save(cs.key, cs.value, s.active, s.disk, None);
      AddRotateFaithful(cs, s, content, k, v, saved.part, saved.disk, t);
    }
  }

  /** The content after a batch of additions, applied in order. */
  function Extend<K(==), T>(content: map<K, T>, adds: Entries<K, T>): map<K, T>
    decreases |adds|
  {
    if |adds| == 0 then content else Extend(content[adds[0].key := adds[0].value], adds[1..])
  }

  /** With distinct keys, the extended content is the old one overlaid
      with the additions read as a linked map. */
  lemma {:induction false} ExtendLookup<K, T>(content: map<K, T>, adds: Entries<K, T>, k: K)
    requires DistinctKeys(adds)
    ensures k in Extend(content, adds) <==> k in content || Lookup(adds, k).Some?
    ensures Lookup(adds, k).Some? ==> Extend(content, adds)[k] == Lookup(adds, k).value
    ensures Lookup(adds, k).None? && k in content ==> Extend(content, adds)[k] == content[k]
    decreases |adds|
  {
    if |adds| > 0 {
      DistinctTail(adds);
      ExtendLookup(content[adds[0].key := adds[0].value], adds[1..], k);
      if adds[0].key == k {
        assert Lookup(adds[1..], k).None?;
      }
    }
  }

  /** A batch of `add` calls with no file fault, in order. */
  function RunAdds<K(==), T>(cs: Codecs<K, T>, s: Storage<K, T>, adds: Entries<K, T>): (t: Storage<K, T>)
    requires Valid(s)
    ensures Valid(t) && t.limit == s.limit
    decreases |adds|
  {
    if |adds| == 0 then s else RunAdds(cs, Add(cs, s, adds[0].key, adds[0].value, None), adds[1..])
  }

  /** A batch of `get` calls with no file fault, in order, with their answers. */
  function RunGets<K(==), T>(cs: Codecs<K, T>, s: Storage<K, T>, keys: seq<K>)
    : (r: (Storage<K, T>, seq<Result<Option<T>, Fault>>))
    requires Valid(s)
    ensures Valid(r.0) && |r.1| == |keys|
    decreases |keys|
  {
    if |keys| == 0 then (s, [])
    else
      var g := Get(cs, s, Some(keys[0]), NoFaults);
      var rest := RunGets(cs, g.state, keys[1..]);
      (rest.0, [g.result] + rest.1)
  }

  /** Every key and value of the batch fits a Java int once encoded. */
  ghost predicate FitsAdds<K, T>(cs: Codecs<K, T>, adds: Entries<K, T>)
  {
    forall i :: 0 <= i < |adds| ==>
      |EncodeKey(cs.key, adds[i].key)| <= MaxInt && |EncodeSlot(cs.value, Some(adds[i].value))| <= MaxInt
  }

  /** A batch of additions under new, distinct keys keeps a storage with a
      partition of its own as the active one faithful. */
  lemma {:induction false} AddsFaithful<K(!new), T(!new)>(cs: Codecs<K, T>, s: Storage<K, T>, content: map<K, T>,
                                                          adds: Entries<K, T>)
    requires Faithful(cs, s, content) && !s.active.persisted
    requires DistinctKeys(adds) && FitsAdds(cs, adds) && |content| + |adds| <= MaxInt
    requires forall i :: 0 <= i < |adds| ==> adds[i].key !in content
    ensures Faithful(cs, RunAdds(cs, s, adds), Extend(content, adds))
    ensures !RunAdds(cs, s, adds).active.persisted
    decreases |adds|
  {
    if |adds| > 0 {
      var e := adds[0];
      AddFaithful(cs, s, content, e.key, e.value);
      var t := Add(cs, s, e.key, e.value, None);
      var content' := content[e.key := e.value];
      assert |content'| == |content| + 1;
      forall i | 0 <= i < |adds[1..]| ensures adds[1..][i].key !in content' {
        assert adds[1..][i] == adds[i + 1];
      }
      assert FitsAdds(cs, adds[1..]) by {
        forall i | 0 <= i < |adds[1..]| ensures adds[1..][i] == adds[i + 1] { }
      }
      DistinctTail(adds);
      AddsFaithful(cs, t, content', adds[1..]);
    }
  }

  /** A batch of lookups on a faithful storage answers each key from the
      content, and the storage stays faithful. */
  lemma {:induction false} GetsFaithful<K(!new), T(!new)>(cs: Codecs<K, T>, s: Storage<K, T>, content: map<K, T>,
                                                          keys: seq<K>)
    requires Faithful(cs, s, content)
    ensures var r := RunGets(cs, s, keys);
            && Faithful(cs, r.0, content)
            && forall j :: 0 <= j < |keys| ==>
                 r.1[j] == Success(if keys[j] in content then Some(content[keys[j]]) else None)
    decreases |keys|
  {
    if |keys| > 0 {
      GetFaithful(cs, s, content, keys[0]);
      var g := Get(cs, s, Some(keys[0]), NoFaults);
      GetsFaithful(cs, g.state, content, keys[1..]);
      var rest := RunGets(cs, g.state, keys[1..]);
      assert RunGets(cs, s, keys) == (rest.0, [g.result] + rest.1);
      AnswersCons(content, keys, g.result, rest.1);
    }
  }

  /** A first answer and the answers to the remaining keys answer every key. */
  lemma AnswersCons<K, T>(content: map<K, T>, keys: seq<K>, first: Result<Option<T>, Fault>, rest: seq<Result<Option<T>, Fault>>)
    requires |keys| > 0 && first == Success(if keys[0] in content then Some(content[keys[0]]) else None)
    requires |rest| >= |keys| - 1
    requires forall j :: 0 <= j < |keys[1..]| ==>
               rest[j] == Success(if keys[1..][j] in content then Some(content[keys[1..][j]]) else None)
    ensures forall j :: 0 <= j < |keys| ==>
              ([first] + rest)[j] == Success(if keys[j] in content then Some(content[keys[j]]) else None)
  {
    forall j | 0 <= j < |keys| ensures ([first] + rest)[j] == Success(if keys[j] in content then Some(content[keys[j]]) else None) {
      if j > 0 {
        assert keys[1..][j - 1] == keys[j];
      }
    }
  }

  /** A new storage fed a batch of entries under distinct keys answers
      every later lookup with the value added under that key, or null for
      a key never added, whatever the limit and however many partitions
      were spilled and swapped along the way. */
  lemma AddsThenGets<K(!new), T(!new)>(cs: Codecs<K, T>, limit: int, disk: TP.Disk, adds: Entries<K, T>, keys: seq<K>)
    requires ValidCodec(cs.key) && ValidCodec(cs.value)
    requires DistinctKeys(adds) && FitsAdds(cs, adds) && |adds| <= MaxInt
    ensures var r := RunGets(cs, RunAdds(cs, Create(limit, disk), adds), keys);
            forall j :: 0 <= j < |keys| ==> r.1[j] == Success(Lookup(adds, keys[j]))
  {
    var s: Storage<K, T> := Create(limit, disk);
    var empty: map<K, T> := map[];
    assert Faithful(cs, s, empty);
    AddsFaithful(cs, s, empty, adds);
    var content := Extend(empty, adds);
    GetsFaithful(cs, RunAdds(cs, s, adds), content, keys);
    forall j | 0 <= j < |keys| ensures (if keys[j] in content then Some(content[keys[j]]) else None) == Lookup(adds, keys[j]) {
      ExtendLookup(empty, adds, keys[j]);
    }
  }
}
