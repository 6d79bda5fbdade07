/** The temporary storage: one active partition that receives writes and
    an ordered list of persisted partitions, with rotation when the active
    partition reaches the size limit and a single-slot swap on lookup. */
module TemporaryStorage {
  import opened Prelude
  import opened LinkedMap
  import opened PartitionFile
  import opened TemporaryPartition

  /** The text forms of keys and values shared by every partition. */
  datatype Codecs<!K, !T> = Codecs(key: Codec<K>, value: Codec<T>)

  /** How the file operations of one storage call turn out: a write that
      fails after `n` bytes (`writeCut == Some(n)`), an open for reading
      that fails (`readFails`). */
  datatype Faults = Faults(writeCut: Option<nat>, readFails: bool)

  const NoFaults: Faults := Faults(None, false)

  /** `nextId` stands for the supply of fresh UUIDs. */
  datatype Storage<K, T> = Storage(
    limit: int,
    active: Partition<K, T>,
    persisted: seq<Partition<K, T>>,
    disk: Disk,
    nextId: nat)

  function Ids<K, T>(ps: seq<Partition<K, T>>): (ids: seq<PartitionId>)
    ensures |ids| == |ps| && forall i :: 0 <= i < |ps| ==> ids[i] == ps[i].id
  {
    seq(|ps|, i requires 0 <= i < |ps| => ps[i].id)
  }

  /** The ids of a non-empty list: the head's, then the tail's. */
  lemma IdsCons<K, T>(ps: seq<Partition<K, T>>)
    requires |ps| > 0
    ensures Ids(ps) == [ps[0].id] + Ids(ps[1..])
  {
    assert Ids(ps)[1..] == Ids(ps[1..]);
  }

  /** The active partition is never in the persisted list, the list holds
      no partition twice, and every id was drawn from the supply. */
  predicate Valid<K(==), T>(s: Storage<K, T>)
  {
    && TemporaryPartition.Valid(s.active)
    && (forall i :: 0 <= i < |s.persisted| ==> TemporaryPartition.Valid(s.persisted[i]))
    && s.active.id !in Ids(s.persisted)
    && (forall i, j :: 0 <= i < j < |s.persisted| ==> s.persisted[i].id != s.persisted[j].id)
    && s.active.id < s.nextId
    && (forall i :: 0 <= i < |s.persisted| ==> s.persisted[i].id < s.nextId)
  }

  /** The constructor: the limit is taken as given, not checked. */
  function Create<K(==), T>(limit: int, disk: Disk): (s: Storage<K, T>)
    ensures Valid(s) && s.limit == limit && s.disk == disk && s.persisted == []
    ensures s.active.data == [] && s.active.size == 0 && !s.active.persisted
  {
    Storage(limit, New(0), [], disk, 1)
  }

  /** `List.indexOf` by partition identity. */
  function IndexOfId<K, T>(ps: seq<Partition<K, T>>, id: PartitionId): (r: Option<nat>)
    ensures r.None? <==> id !in Ids(ps)
    ensures r.Some? ==> r.value < |ps| && ps[r.value].id == id
    decreases |ps|
  {
    if |ps| == 0 then None
    else if ps[0].id == id then Some(0)
    else
      IdsCons(ps);
      match IndexOfId(ps[1..], id)
      case None => None
      case Some(i) => Some(i + 1)
  }

  /** `List.remove` by partition identity: drops the first partition with the id. */
  function RemoveId<K, T>(ps: seq<Partition<K, T>>, id: PartitionId): (r: seq<Partition<K, T>>)
    ensures |r| <= |ps|
    decreases |ps|
  {
    if |ps| == 0 then []
    else if ps[0].id == id then ps[1..]
    else [ps[0]] + RemoveId(ps[1..], id)
  }

  /** Removing by id drops exactly the first partition with that id. */
  lemma {:induction false} RemoveIdAt<K, T>(ps: seq<Partition<K, T>>, id: PartitionId, i: nat)
    requires i < |ps| && ps[i].id == id
    requires forall j :: 0 <= j < i ==> ps[j].id != id
    ensures RemoveId(ps, id) == ps[..i] + ps[i + 1..]
    decreases i
  {
    if i > 0 {
      RemoveIdAt(ps[1..], id, i - 1);
      assert ps[..i] + ps[i + 1..] == [ps[0]] + (ps[1..][..i - 1] + ps[1..][i..]);
    }
  }

  /** Where each element lands when the one at `i` is dropped and `last` appended. */
  lemma DropAt<X>(xs: seq<X>, i: nat, last: X)
    requires i < |xs|
    ensures var ys := xs[..i] + xs[i + 1..] + [last];
            && |ys| == |xs| && ys[|xs| - 1] == last
            && (forall j :: 0 <= j < i ==> ys[j] == xs[j])
            && (forall j :: i <= j < |xs| - 1 ==> ys[j] == xs[j + 1])
  {
  }

  /** The first persisted partition, in list order, whose key set has the key. */
  function FirstHolder<K(==), T>(ps: seq<Partition<K, T>>, k: K): (r: Option<nat>)
    ensures r.Some? ==> r.value < |ps| && TemporaryPartition.ContainsKey(ps[r.value], k)
    ensures r.Some? ==> forall j :: 0 <= j < r.value ==> !TemporaryPartition.ContainsKey(ps[j], k)
    ensures r.None? ==> forall j :: 0 <= j < |ps| ==> !TemporaryPartition.ContainsKey(ps[j], k)
    decreases |ps|
  {
    if |ps| == 0 then None
    else if TemporaryPartition.ContainsKey(ps[0], k) then Some(0)
    else
      match FirstHolder(ps[1..], k)
      case None => None
      case Some(i) => Some(i + 1)
  }

  /** `containsKey`: the active key set, then the persisted key sets in
      order; reads no file and changes nothing. */
  function ContainsKey<K(==), T>(s: Storage<K, T>, k: K): (r: bool)
    ensures r <==>
      (TemporaryPartition.ContainsKey(s.active, k)
       || exists i :: 0 <= i < |s.persisted| && TemporaryPartition.ContainsKey(s.persisted[i], k))
  {
    TemporaryPartition.ContainsKey(s.active, k) || FirstHolder(s.persisted, k).Some?
  }

  /** A saved active partition joins the end of the list and a new
      partition with the next id becomes active. */
  lemma RotateValid<K, T>(s: Storage<K, T>, saved: Partition<K, T>, newActive: Partition<K, T>)
    requires Valid(s) && TemporaryPartition.Valid(saved) && TemporaryPartition.Valid(newActive)
    requires saved.id == s.active.id && newActive.id == s.nextId
    ensures Valid(Storage(s.limit, newActive, s.persisted + [saved], s.disk, s.nextId + 1))
  {
    var ps := s.persisted + [saved];
    assert forall i :: 0 <= i < |s.persisted| ==> ps[i] == s.persisted[i];
  }

  /** Replacing the active partition by one with the same id keeps the state valid. */
  lemma ReplaceActiveValid<K, T>(s: Storage<K, T>, a: Partition<K, T>, disk: Disk)
    requires Valid(s) && TemporaryPartition.Valid(a) && a.id == s.active.id
    ensures Valid(s.(active := a, disk := disk))
  {
  }

  /** `add`. When the active partition's size has reached the limit it is
      saved; if the save throws, the exception is swallowed and the entry
      goes into the same partition; otherwise the saved partition joins the
      persisted list (unless already there) and a fresh partition becomes
      active. The entry then goes into the active partition. */
  function Add<K(==), T>(cs: Codecs<K, T>, s: Storage<K, T>, k: K, v: T, writeCut: Option<nat>)
    : (t: Storage<K, T>)
    requires Valid(s)
    ensures Valid(t) && t.limit == s.limit
    ensures TemporaryPartition.ContainsKey(t.active, k)
    ensures || t.persisted == s.persisted
            || (&& |t.persisted| == |s.persisted| + 1
                && t.persisted[..|s.persisted|] == s.persisted
                && t.persisted[|s.persisted|].id == s.active.id)
  {
    if s.active.size >= s.limit then
      var saved := Save(cs.key, cs.value, s.active, s.disk, writeCut);
      if saved.thrown.Some? then
        var a := TemporaryPartition.Add(cs.value, saved.part, k, v);
        ReplaceActiveValid(s, a, saved.disk);
        s.(active := a, disk := saved.disk)
      else
        var newActive := TemporaryPartition.Add(cs.value, New(s.nextId), k, v);
        var ps := if IndexOfId(s.persisted, saved.part.id).None? then s.persisted + [saved.part] else s.persisted;
        RotateValid(s, saved.part, newActive);
        assert ps == s.persisted + [saved.part];
        assert ps[..|s.persisted|] == s.persisted;
        Storage(s.limit, newActive, ps, saved.disk, s.nextId + 1)
    else
      var a := TemporaryPartition.Add(cs.value, s.active, k, v);
      ReplaceActiveValid(s, a, s.disk);
      s.(active := a)
  }

  /** With the entry added below the limit, nothing but the active
      partition changes. */
  lemma AddBelowLimit<K, T>(cs: Codecs<K, T>, s: Storage<K, T>, k: K, v: T, writeCut: Option<nat>)
    requires Valid(s) && s.active.size < s.limit
    ensures Add(cs, s, k, v, writeCut) == s.(active := TemporaryPartition.Add(cs.value, s.active, k, v))
  {
  }

  /** At the limit with a save that succeeds, the old active partition,
      written and evicted, is appended to the persisted list, and a new
      empty partition with a fresh id becomes active and takes the entry. */
  lemma AddRotates<K, T>(cs: Codecs<K, T>, s: Storage<K, T>, k: K, v: T, writeCut: Option<nat>)
    requires Valid(s) && s.active.size >= s.limit
    requires Save(cs.key, cs.value, s.active, s.disk, writeCut).thrown.None?
    ensures var saved := Save(cs.key, cs.value, s.active, s.disk, writeCut);
            var t := Add(cs, s, k, v, writeCut);
            && t.persisted == s.persisted + [saved.part]
            && t.active == TemporaryPartition.Add(cs.value, New(s.nextId), k, v)
            && t.active.id !in Ids(s.persisted) && t.active.id != s.active.id
            && t.disk == saved.disk
            && saved.part.persisted && Evicted(saved.part.data)
  {
  }

  /** At the limit with a save that throws, the exception is swallowed: the
      list is unchanged and the entry goes into the old active partition,
      which is now flagged persisted though its values are still in memory. */
  lemma AddSaveFails<K, T>(cs: Codecs<K, T>, s: Storage<K, T>, k: K, v: T, writeCut: Option<nat>)
    requires Valid(s) && s.active.size >= s.limit
    requires Save(cs.key, cs.value, s.active, s.disk, writeCut).thrown.Some?
    ensures var saved := Save(cs.key, cs.value, s.active, s.disk, writeCut);
            var t := Add(cs, s, k, v, writeCut);
            && t.persisted == s.persisted
            && t.active == TemporaryPartition.Add(cs.value, saved.part, k, v)
            && t.active.id == s.active.id && t.active.persisted
            && saved.part.data == s.active.data
  {
  }

  /** `add` never takes a key out of the storage's key sets. */
  lemma AddKeepsKeys<K, T>(cs: Codecs<K, T>, s: Storage<K, T>, k: K, v: T, writeCut: Option<nat>, k': K)
    requires Valid(s) && ContainsKey(s, k')
    ensures ContainsKey(Add(cs, s, k, v, writeCut), k')
  {
    var t := Add(cs, s, k, v, writeCut);
    if k' != k {
      if s.active.size >= s.limit {
        var saved := Save(cs.key, cs.value, s.active, s.disk, writeCut);
        AddGet(cs.value, saved.part, k, v, k');
        if TemporaryPartition.ContainsKey(s.active, k') {
          assert TemporaryPartition.ContainsKey(saved.part, k');
          if saved.thrown.None? {
            assert t.persisted[|s.persisted|] == saved.part;
          }
        } else {
          var i := FirstHolder(s.persisted, k').value;
          assert t.persisted[i] == s.persisted[i];
        }
      } else {
        AddGet(cs.value, s.active, k, v, k');
        if !TemporaryPartition.ContainsKey(s.active, k') {
          var i := FirstHolder(s.persisted, k').value;
          assert t.persisted[i] == s.persisted[i];
        }
      }
    }
  }

  /** The state after `get` and what it returned or threw. */
  datatype Got<K, T> = Got(state: Storage<K, T>, result: Result<Option<T>, Fault>)

  /** A persisted partition taken out of the list to become active, and
      the old active partition appended at the end, keep the state valid. */
  lemma SwapValid<K, T>(s: Storage<K, T>, i: nat, loaded: Partition<K, T>, saved: Partition<K, T>)
    requires Valid(s) && i < |s.persisted|
    requires TemporaryPartition.Valid(loaded) && loaded.id == s.persisted[i].id
    requires TemporaryPartition.Valid(saved) && saved.id == s.active.id
    ensures var ps := s.persisted[..i] + s.persisted[i + 1..] + [saved];
            && Valid(Storage(s.limit, loaded, ps, s.disk, s.nextId))
            && ps == s.persisted[..i] + s.persisted[i + 1..] + [saved]
  {
    var ps := s.persisted[..i] + s.persisted[i + 1..] + [saved];
    assert forall j :: 0 <= j < i ==> ps[j] == s.persisted[j];
    assert forall j :: i <= j < |s.persisted| - 1 ==> ps[j] == s.persisted[j + 1];
    assert ps[|ps| - 1] == saved;
    forall a, b | 0 <= a < b < |ps| ensures ps[a].id != ps[b].id {
      if b < |ps| - 1 {
        var a' := if a < i then a else a + 1;
        var b' := if b < i then b else b + 1;
        assert ps[a] == s.persisted[a'] && ps[b] == s.persisted[b'];
      }
    }
    forall j | 0 <= j < |ps| ensures ps[j].id != loaded.id {
      if j < |ps| - 1 {
        var j' := if j < i then j else j + 1;
        assert ps[j] == s.persisted[j'];
      }
    }
  }

  /** Replacing a persisted partition by one with the same id keeps the state valid. */
  lemma ReplacePersistedValid<K, T>(s: Storage<K, T>, i: nat, p: Partition<K, T>)
    requires Valid(s) && i < |s.persisted|
    requires TemporaryPartition.Valid(p) && p.id == s.persisted[i].id
    ensures Valid(s.(persisted := s.persisted[i := p]))
  {
    var ps := s.persisted[i := p];
    assert forall j :: 0 <= j < |ps| ==> ps[j].id == s.persisted[j].id;
    assert Ids(ps) == Ids(s.persisted);
  }

  /** After the swap the list is the old list without the candidate, with
      the saved active partition appended. */
  lemma SwapShape<K, T>(s: Storage<K, T>, i: nat, loaded: Partition<K, T>, saved: Partition<K, T>)
    requires Valid(s) && i < |s.persisted|
    requires loaded.id == s.persisted[i].id && saved.id == s.active.id
    ensures var rest := RemoveId(s.persisted[i := loaded], loaded.id);
            && rest == s.persisted[..i] + s.persisted[i + 1..]
            && IndexOfId(rest, saved.id).None?
  {
    var ps := s.persisted[i := loaded];
    forall j | 0 <= j < i ensures ps[j].id != loaded.id {
      assert ps[j] == s.persisted[j];
    }
    RemoveIdAt(ps, loaded.id, i);
    assert ps[..i] == s.persisted[..i] && ps[i + 1..] == s.persisted[i + 1..];
    var rest := ps[..i] + ps[i + 1..];
    forall j | 0 <= j < |rest| ensures rest[j].id != saved.id {
      var j' := if j < i then j else j + 1;
      assert rest[j] == s.persisted[j'];
    }
  }

  /** The second half of the swap, once the candidate at `i` is loaded:
      save the active partition and exchange the two. A failed save is
      swallowed, leaving the loaded candidate in the list, and the answer
      is null. */
  function Exchange<K(==), T>(cs: Codecs<K, T>, s: Storage<K, T>, i: nat, loaded: Partition<K, T>, k: K, writeCut: Option<nat>): (r: Got<K, T>)
    requires Valid(s) && i < |s.persisted|
    requires TemporaryPartition.Valid(loaded) && loaded.id == s.persisted[i].id
    ensures Valid(r.state) && r.state.limit == s.limit && |r.state.persisted| == |s.persisted|
    ensures r.result.Success?
  {
    ReplacePersistedValid(s, i, loaded);
    var s1 := s.(persisted := s.persisted[i := loaded]);
    var saved := Save(cs.key, cs.value, s.active, s.disk, writeCut);
    if saved.thrown.Some? then
      ReplaceActiveValid(s1, saved.part, saved.disk);
      Got(s1.(active := saved.part, disk := saved.disk), Success(None))
    else
      var rest := RemoveId(s1.persisted, loaded.id);
      SwapShape(s, i, loaded, saved.part);
      SwapValid(s, i, loaded, saved.part);
      var ps := if IndexOfId(rest, saved.part.id).None? then rest + [saved.part] else rest;
      Got(Storage(s.limit, loaded, ps, saved.disk, s.nextId),
          Success(TemporaryPartition.Get(loaded, k)))
  }

  /** The swap half of `get`, for a key the active partition lacks and the
      persisted partition at `i` is the first to hold: load that partition,
      then exchange it with the active one. An IOException from the load is
      swallowed and the answer is null; a runtime exception escapes. */
  function Swap<K(==), T>(cs: Codecs<K, T>, s: Storage<K, T>, i: nat, k: K, faults: Faults): (r: Got<K, T>)
    requires Valid(s) && i < |s.persisted|
    ensures Valid(r.state) && r.state.limit == s.limit && |r.state.persisted| == |s.persisted|
    ensures r.result.Failure? ==> r.result.error == Unchecked
  {
    var loaded := Load(cs.key, cs.value, s.persisted[i], s.disk, faults.readFails);
    ReplacePersistedValid(s, i, loaded.part);
    if loaded.thrown == Some(IoError) then Got(s.(persisted := s.persisted[i := loaded.part]), Success(None))
    else if loaded.thrown.Some? then
      assert loaded.thrown.value.Unchecked? by { assert loaded.thrown.value != IllegalArgument; }
      Got(s.(persisted := s.persisted[i := loaded.part]), Failure(loaded.thrown.value))
    else Exchange(cs, s, i, loaded.part, k, faults.writeCut)
  }

  /** `get`. A null key is an IllegalArgumentException. A key the active
      partition has is answered from it, a key no partition has is null,
      and otherwise the first persisted partition holding it is swapped in. */
  function Get<K(==), T>(cs: Codecs<K, T>, s: Storage<K, T>, key: Option<K>, faults: Faults): (r: Got<K, T>)
    requires Valid(s)
    ensures Valid(r.state) && r.state.limit == s.limit && |r.state.persisted| == |s.persisted|
    ensures key.None? ==> r == Got(s, Failure(IllegalArgument))
    ensures key.Some? && TemporaryPartition.ContainsKey(s.active, key.value) ==>
              r == Got(s, Success(TemporaryPartition.Get(s.active, key.value)))
    ensures key.Some? && !ContainsKey(s, key.value) ==> r == Got(s, Success(None))
    ensures r.result.Failure? ==> key.None? || r.result.error == Unchecked
  {
    if key.None? then Got(s, Failure(IllegalArgument))
    else if TemporaryPartition.ContainsKey(s.active, key.value) then
      Got(s, Success(TemporaryPartition.Get(s.active, key.value)))
    else
      match FirstHolder(s.persisted, key.value)
      case None => Got(s, Success(None))
      case Some(i) => Swap(cs, s, i, key.value, faults)
  }

  /** A swap in which both the load and the save complete: the candidate
      leaves the list and becomes active, the old active partition, saved
      and evicted, joins the end of the list, and the answer comes from
      the reloaded candidate. */
  lemma GetSwap<K, T>(cs: Codecs<K, T>, s: Storage<K, T>, k: K, faults: Faults, i: nat)
    requires Valid(s) && !TemporaryPartition.ContainsKey(s.active, k) && FirstHolder(s.persisted, k) == Some(i)
    requires Load(cs.key, cs.value, s.persisted[i], s.disk, faults.readFails).thrown.None?
    requires Save(cs.key, cs.value, s.active, s.disk, faults.writeCut).thrown.None?
    ensures var loaded := Load(cs.key, cs.value, s.persisted[i], s.disk, faults.readFails).part;
            var saved := Save(cs.key, cs.value, s.active, s.disk, faults.writeCut);
            var r := Get(cs, s, Some(k), faults);
            && r.result == Success(TemporaryPartition.Get(loaded, k))
            && r.state.active == loaded && r.state.active.id == s.persisted[i].id
            && r.state.persisted == s.persisted[..i] + s.persisted[i + 1..] + [saved.part]
            && r.state.disk == saved.disk
            && saved.part.persisted && Evicted(saved.part.data)
  {
    var loaded := Load(cs.key, cs.value, s.persisted[i], s.disk, faults.readFails).part;
    var saved := Save(cs.key, cs.value, s.active, s.disk, faults.writeCut);
    SwapShape(s, i, loaded, saved.part);
  }

  /** A swap whose load or save throws an IOException answers null and
      leaves the candidate in the list, at the same place. */
  lemma GetSwapFails<K, T>(cs: Codecs<K, T>, s: Storage<K, T>, k: K, faults: Faults, i: nat)
    requires Valid(s) && !TemporaryPartition.ContainsKey(s.active, k) && FirstHolder(s.persisted, k) == Some(i)
    requires var loaded := Load(cs.key, cs.value, s.persisted[i], s.disk, faults.readFails);
             loaded.thrown == Some(IoError)
             || (loaded.thrown.None? && Save(cs.key, cs.value, s.active, s.disk, faults.writeCut).thrown.Some?)
    ensures var r := Get(cs, s, Some(k), faults);
            && r.result == Success(None)
            && r.state.active.id == s.active.id
            && r.state.persisted == s.persisted[i := Load(cs.key, cs.value, s.persisted[i], s.disk, faults.readFails).part]
  {
  }

  /** Closes every partition of the list in order; a partition whose id is
      in `deleteFails` keeps its file. */
  function CloseAll<K, T>(ps: seq<Partition<K, T>>, disk: Disk, deleteFails: set<PartitionId>)
    : (r: (seq<Partition<K, T>>, Disk))
    ensures |r.0| == |ps|
    ensures forall i :: 0 <= i < |ps| ==> r.0[i] == ps[i].(data := [], persisted := false)
    ensures forall id :: id in Ids(ps) && id !in deleteFails ==> id !in r.1
    ensures forall id :: id !in Ids(ps) ==> (id in r.1 <==> id in disk) && (id in disk ==> r.1[id] == disk[id])
    decreases |ps|
  {
    if |ps| == 0 then ([], disk)
    else
      var (p, d) := TemporaryPartition.Close(ps[0], disk, ps[0].id in deleteFails);
      var (rest, d') := CloseAll(ps[1..], d, deleteFails);
      assert forall id :: id in Ids(ps) <==> id == ps[0].id || id in Ids(ps[1..]) by {
        IdsCons(ps);
      }
      ([p] + rest, d')
  }

  /** `close`: the active partition, then every persisted one; a failed
      deletion is ignored. */
  function Close<K, T>(s: Storage<K, T>, deleteFails: set<PartitionId>): (t: Storage<K, T>)
    ensures t.active == s.active.(data := [], persisted := false)
    ensures |t.persisted| == |s.persisted|
    ensures forall i :: 0 <= i < |s.persisted| ==> t.persisted[i] == s.persisted[i].(data := [], persisted := false)
    ensures forall id :: (id == s.active.id || id in Ids(s.persisted)) && id !in deleteFails ==> id !in t.disk
    ensures forall id :: id != s.active.id && id !in Ids(s.persisted) ==>
              (id in t.disk <==> id in s.disk) && (id in s.disk ==> t.disk[id] == s.disk[id])
    ensures t.limit == s.limit && t.nextId == s.nextId
  {
    var (a, d) := TemporaryPartition.Close(s.active, s.disk, s.active.id in deleteFails);
    var (ps, d') := CloseAll(s.persisted, d, deleteFails);
    Storage(s.limit, a, ps, d', s.nextId)
  }

  /** After `close` the storage holds no key, and a valid state stays valid. */
  lemma CloseEmpties<K, T>(s: Storage<K, T>, deleteFails: set<PartitionId>, k: K)
    requires Valid(s)
    ensures Valid(Close(s, deleteFails)) && !ContainsKey(Close(s, deleteFails), k)
  {
    var t := Close(s, deleteFails);
    assert Ids(t.persisted) == Ids(s.persisted);
  }
}
