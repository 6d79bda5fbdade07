/** The binary layout of a partition's backing file, and the parser that
    reads it back.

    All integers are 4 bytes, big-endian:
      N                                   entry count
      N times: keyLength, valueLength, key bytes
      N times, same order: value bytes
    A key or value is stored as the UTF-8 bytes of its text form. */
module PartitionFile {
  import opened Prelude
  import opened LinkedMap
  import Utf8
  import StorageUtil

  /** The text form of keys or values of one type: the identity for Java
      strings, a JSON mapping otherwise. `fromText` answers `None` when the
      text cannot be decoded (a JsonProcessingException). */
  datatype Codec<!T> = Codec(toText: T -> JString, fromText: JString -> Option<T>)

  /** A codec whose texts are well-formed and decode to what was encoded. */
  ghost predicate ValidCodec<T(!new)>(c: Codec<T>)
  {
    forall x :: Utf8.WellFormed(c.toText(x)) && c.fromText(c.toText(x)) == Some(x)
  }

  /** The text a JSON mapper writes for `null`. */
  const NullText: JString := [0x6E, 0x75, 0x6C, 0x6C]

  /** A value slot: `None` is a value the partition has evicted (null). */
  type Slot<T> = Option<T>

  function EncodeKey<K>(kc: Codec<K>, k: K): seq<Byte>
  {
    StorageUtil.StringToByteArray(kc.toText(k))
  }

  function EncodeSlot<T>(vc: Codec<T>, slot: Slot<T>): seq<Byte>
  {
    match slot
    case Some(v) => StorageUtil.StringToByteArray(vc.toText(v))
    case None => StorageUtil.StringToByteArray(NullText)
  }

  /** A count or byte length as the Java int the source writes. A Java
      array or map never exceeds MaxInt elements; beyond it `size()`
      saturates. */
  function LengthField(n: nat): (r: Int32)
    ensures n <= MaxInt ==> r == n
  {
    if n <= MaxInt then n else MaxInt
  }

  function Header<K, T>(kc: Codec<K>, vc: Codec<T>, e: Entry<K, Slot<T>>): seq<Byte>
  {
    StorageUtil.IntToByteArray(LengthField(|EncodeKey(kc, e.key)|))
    + StorageUtil.IntToByteArray(LengthField(|EncodeSlot(vc, e.value)|))
    + EncodeKey(kc, e.key)
  }

  function HeaderBlock<K, T>(kc: Codec<K>, vc: Codec<T>, es: Entries<K, Slot<T>>): seq<Byte>
    decreases |es|
  {
    if |es| == 0 then [] else Header(kc, vc, es[0]) + HeaderBlock(kc, vc, es[1..])
  }

  function ValueBlock<K, T>(vc: Codec<T>, es: Entries<K, Slot<T>>): seq<Byte>
    decreases |es|
  {
    if |es| == 0 then [] else EncodeSlot(vc, es[0].value) + ValueBlock(vc, es[1..])
  }

  /** The bytes `save` writes for the entries of a partition, in map order. */
  function Serialize<K, T>(kc: Codec<K>, vc: Codec<T>, es: Entries<K, Slot<T>>): (r: seq<Byte>)
    ensures |r| >= StorageUtil.IntWidth
    ensures StorageUtil.ByteArrayToInt(r) == Some(LengthField(|es|))
    ensures |es| == 0 ==> |r| == StorageUtil.IntWidth
  {
    var count := StorageUtil.IntToByteArray(LengthField(|es|));
    StorageUtil.IntRoundTrip(LengthField(|es|), HeaderBlock(kc, vc, es) + ValueBlock(vc, es));
    count + (HeaderBlock(kc, vc, es) + ValueBlock(vc, es))
  }

  /** `readNBytes(n)`: up to `n` bytes, fewer at the end of the stream. */
  function ReadN(input: seq<Byte>, n: nat): (r: (seq<Byte>, seq<Byte>))
    ensures r.0 + r.1 == input
    ensures |r.0| == Min(n, |input|)
  {
    var m := Min(n, |input|);
    assert input[..m] + input[m..] == input;
    (input[..m], input[m..])
  }

  /** The header loop of `load`: reads `remaining` headers, collecting each
      decoded key with its declared value length in an insertion-ordered
      map, and answers the input that follows. A short 4-byte field is a
      buffer underflow, a negative key length an illegal read length, an
      undecodable key an IOException. */
  function ParseHeaders<K(==)>(kc: Codec<K>, input: seq<Byte>, remaining: nat, acc: Entries<K, Int32>)
    : (r: Result<(Entries<K, Int32>, seq<Byte>), Fault>)
    requires DistinctKeys(acc)
    ensures r.Success? ==> DistinctKeys(r.value.0)
    ensures r.Failure? ==> r.error != IllegalArgument
    decreases remaining
  {
    if remaining == 0 then Success((acc, input))
    else
      var (kb, r1) := ReadN(input, StorageUtil.IntWidth);
      var (db, r2) := ReadN(r1, StorageUtil.IntWidth);
      match StorageUtil.ByteArrayToInt(kb)
      case None => Failure(Unchecked)
      case Some(keyLength) =>
        match StorageUtil.ByteArrayToInt(db)
        case None => Failure(Unchecked)
        case Some(dataLength) =>
          if keyLength < 0 then Failure(Unchecked)
          else
            var (keyBytes, r3) := ReadN(r2, keyLength);
            match kc.fromText(StorageUtil.ByteArrayToString(keyBytes))
            case None => Failure(IoError)
            case Some(k) => ParseHeaders(kc, r3, remaining - 1, Put(acc, k, dataLength))
  }

  /** The value loop of `load`: for each header in order reads the declared
      number of bytes; an entry whose bytes are all there is decoded and
      put, one whose read came up short is skipped. A negative length or an
      undecodable value stops the loop with the entries put so far. */
  function ParseValues<K(==), T>(vc: Codec<T>, input: seq<Byte>, hs: Entries<K, Int32>, acc: Entries<K, Slot<T>>)
    : (r: (Entries<K, Slot<T>>, Option<Fault>))
    requires DistinctKeys(acc)
    ensures DistinctKeys(r.0)
    ensures |r.0| <= |acc| + |hs|
    ensures r.1 != Some(IllegalArgument)
    decreases |hs|
  {
    if |hs| == 0 then (acc, None)
    else
      var dataLength := hs[0].value;
      if dataLength < 0 then (acc, Some(Unchecked))
      else
        var (dataBytes, rest) := ReadN(input, dataLength);
        if |dataBytes| == dataLength then
          match vc.fromText(StorageUtil.ByteArrayToString(dataBytes))
          case None => (acc, Some(IoError))
          case Some(v) => ParseValues(vc, rest, hs[1..], Put(acc, hs[0].key, Some(v)))
        else ParseValues(vc, rest, hs[1..], acc)
  }

  /** What `load` makes of a file: a fault before the map is cleared, or the
      entries reloaded, with the fault that stopped the value loop if any. */
  datatype ParseOutcome<K, T> =
    | HeaderFault(cause: Fault)
    | Parsed(entries: Entries<K, Slot<T>>, stopped: Option<Fault>)

  function Parse<K(==), T>(kc: Codec<K>, vc: Codec<T>, file: seq<Byte>): (r: ParseOutcome<K, T>)
    ensures r.Parsed? ==> DistinctKeys(r.entries) && r.stopped != Some(IllegalArgument)
    ensures r.HeaderFault? ==> r.cause != IllegalArgument
    ensures |file| < StorageUtil.IntWidth ==> r == HeaderFault(Unchecked)
  {
    var (countBytes, rest) := ReadN(file, StorageUtil.IntWidth);
    match StorageUtil.ByteArrayToInt(countBytes)
    case None => HeaderFault(Unchecked)
    case Some(total) =>
      match ParseHeaders(kc, rest, if total < 0 then 0 else total, [])
      case Failure(f) => HeaderFault(f)
      case Success((hs, values)) =>
        var (es, fault) := ParseValues(vc, values, hs, []);
        Parsed(es, fault)
  }

  /** The count field is the first four bytes of the file. */
  lemma ReadCount(count: seq<Byte>, rest: seq<Byte>)
    requires |count| == StorageUtil.IntWidth
    ensures ReadN(count + rest, StorageUtil.IntWidth) == (count, rest)
  {
    assert (count + rest)[..StorageUtil.IntWidth] == count;
  }

  /** `load` read as its three stages: the count, the header loop and the
      value loop. */
  lemma ParseSteps<K, T>(kc: Codec<K>, vc: Codec<T>, file: seq<Byte>, count: seq<Byte>, rest: seq<Byte>, n: Int32,
                         hs: Entries<K, Int32>, values: seq<Byte>, es: Entries<K, Slot<T>>, fault: Option<Fault>)
    requires ReadN(file, StorageUtil.IntWidth) == (count, rest) && StorageUtil.ByteArrayToInt(count) == Some(n)
    requires n >= 0 && ParseHeaders(kc, rest, n, []) == Success((hs, values))
    requires ParseValues(vc, values, hs, []) == (es, fault)
    ensures Parse(kc, vc, file) == Parsed(es, fault)
  {
  }

  // ---------------------------------------------------------------------
  // Round trip

  /** Every slot holds a value (nothing evicted). */
  predicate Resident<K, T>(es: Entries<K, Slot<T>>)
  {
    forall i :: 0 <= i < |es| ==> es[i].value.Some?
  }

  /** Every count and byte length fits the int field that stores it. */
  predicate Fits<K, T>(kc: Codec<K>, vc: Codec<T>, es: Entries<K, Slot<T>>)
  {
    && |es| <= MaxInt
    && forall i :: 0 <= i < |es| ==>
         |EncodeKey(kc, es[i].key)| <= MaxInt && |EncodeSlot(vc, es[i].value)| <= MaxInt
  }

  /** The keys with their encoded value lengths, as the header loop collects them. */
  function Lengths<K, T>(vc: Codec<T>, es: Entries<K, Slot<T>>): (hs: Entries<K, Int32>)
    ensures |hs| == |es| && Keys(hs) == Keys(es)
  {
    seq(|es|, i requires 0 <= i < |es| => Entry(es[i].key, LengthField(|EncodeSlot(vc, es[i].value)|)))
  }

  lemma DistinctTail<K, V>(es: Entries<K, V>)
    requires |es| > 0 && DistinctKeys(es)
    ensures DistinctKeys(es[1..]) && es[0].key !in Keys(es[1..])
  {
  }

  /** One header written by `save` is read back by one turn of the header loop. */
  lemma ParseOneHeader<K(!new), T>(kc: Codec<K>, vc: Codec<T>, e: Entry<K, Slot<T>>, tail: seq<Byte>,
                                   remaining: nat, acc: Entries<K, Int32>)
    requires ValidCodec(kc) && DistinctKeys(acc) && remaining > 0
    requires |EncodeKey(kc, e.key)| <= MaxInt
    ensures ParseHeaders(kc, Header(kc, vc, e) + tail, remaining, acc)
            == ParseHeaders(kc, tail, remaining - 1, Put(acc, e.key, LengthField(|EncodeSlot(vc, e.value)|)))
  {
    var kBytes := EncodeKey(kc, e.key);
    var kl := LengthField(|kBytes|);
    var dl := LengthField(|EncodeSlot(vc, e.value)|);
    var a := StorageUtil.IntToByteArray(kl);
    var b := StorageUtil.IntToByteArray(dl);
    HeaderFields(a, b, kBytes, tail);
    StorageUtil.IntRoundTrip(kl, []);
    StorageUtil.IntRoundTrip(dl, []);
    assert a + [] == a && b + [] == b;
    StorageUtil.StringRoundTrip(kc.toText(e.key));
  }

  /** The three reads of one header split it back into its fields. */
  lemma HeaderFields(a: seq<Byte>, b: seq<Byte>, kBytes: seq<Byte>, tail: seq<Byte>)
    requires |a| == StorageUtil.IntWidth && |b| == StorageUtil.IntWidth
    ensures a + b + kBytes + tail == a + (b + (kBytes + tail))
    ensures ReadN(a + b + kBytes + tail, StorageUtil.IntWidth) == (a, b + (kBytes + tail))
    ensures ReadN(b + (kBytes + tail), StorageUtil.IntWidth) == (b, kBytes + tail)
    ensures ReadN(kBytes + tail, |kBytes|) == (kBytes, tail)
  {
    assert a + b + kBytes + tail == a + (b + (kBytes + tail));
  }

  lemma LengthsCons<K, T>(vc: Codec<T>, es: Entries<K, Slot<T>>)
    requires |es| > 0
    ensures Lengths(vc, es) == [Entry(es[0].key, LengthField(|EncodeSlot(vc, es[0].value)|))] + Lengths(vc, es[1..])
  {
    var l := Lengths(vc, es);
    var r := [Entry(es[0].key, LengthField(|EncodeSlot(vc, es[0].value)|))] + Lengths(vc, es[1..]);
    assert |l| == |r|;
    forall i | 0 <= i < |l| ensures l[i] == r[i] {
      if i > 0 {
        assert r[i] == Lengths(vc, es[1..])[i - 1];
        assert es[1..][i - 1] == es[i];
      }
    }
  }

  /** What the header round trip needs of the entries after the first. */
  lemma TailReady<K, T, V>(kc: Codec<K>, vc: Codec<T>, es: Entries<K, Slot<T>>, acc: Entries<K, V>, v: V)
    requires |es| > 0 && Fits(kc, vc, es) && DistinctKeys(es) && DistinctKeys(acc)
    requires forall i :: 0 <= i < |es| ==> es[i].key !in Keys(acc)
    ensures Fits(kc, vc, es[1..]) && DistinctKeys(es[1..])
    ensures Resident(es) ==> Resident(es[1..])
    ensures DistinctKeys(acc + [Entry(es[0].key, v)])
    ensures forall i :: 0 <= i < |es[1..]| ==> es[1..][i].key !in Keys(acc + [Entry(es[0].key, v)])
  {
    var acc' := acc + [Entry(es[0].key, v)];
    assert Keys(acc') == Keys(acc) + [es[0].key];
    DistinctTail(es);
    forall i | 0 <= i < |es[1..]|
      ensures es[1..][i].key !in Keys(acc')
    {
      assert es[1..][i] == es[i + 1];
    }
    forall i | 0 <= i < |es[1..]|
      ensures |EncodeKey(kc, es[1..][i].key)| <= MaxInt && |EncodeSlot(vc, es[1..][i].value)| <= MaxInt
    {
      assert es[1..][i] == es[i + 1];
    }
  }

  lemma AppendFirst<X>(acc: seq<X>, xs: seq<X>)
    requires |xs| > 0
    ensures acc + [xs[0]] + xs[1..] == acc + xs
  {
    assert xs == [xs[0]] + xs[1..];
  }

  /** One turn of the header round trip: the first header is consumed and
      its entry appended, and the rest meets the round trip's requirements. */
  lemma HeaderBlockStep<K(!new), T>(kc: Codec<K>, vc: Codec<T>, es: Entries<K, Slot<T>>,
                                    rest: seq<Byte>, acc: Entries<K, Int32>)
    requires ValidCodec(kc) && Fits(kc, vc, es) && |es| > 0
    requires DistinctKeys(es) && DistinctKeys(acc)
    requires forall i :: 0 <= i < |es| ==> es[i].key !in Keys(acc)
    ensures var acc' := acc + [Entry(es[0].key, LengthField(|EncodeSlot(vc, es[0].value)|))];
      && DistinctKeys(acc')
      && ParseHeaders(kc, HeaderBlock(kc, vc, es) + rest, |es|, acc)
         == ParseHeaders(kc, HeaderBlock(kc, vc, es[1..]) + rest, |es[1..]|, acc')
      && Fits(kc, vc, es[1..]) && DistinctKeys(es[1..])
      && (forall i :: 0 <= i < |es[1..]| ==> es[1..][i].key !in Keys(acc'))
      && acc' + Lengths(vc, es[1..]) == acc + Lengths(vc, es)
  {
    var e := es[0];
    var dl := LengthField(|EncodeSlot(vc, e.value)|);
    var tail := HeaderBlock(kc, vc, es[1..]) + rest;
    assert HeaderBlock(kc, vc, es) + rest == Header(kc, vc, e) + tail;
    ParseOneHeader(kc, vc, e, tail, |es|, acc);
    TailReady(kc, vc, es, acc, dl);
    var acc' := acc + [Entry(e.key, dl)];
    assert Put(acc, e.key, dl) == acc';
    LengthsCons(vc, es);
    AppendFirst(acc, Lengths(vc, es));
  }

  /** The header block `save` writes is read back by the header loop as
      the keys in order with their value lengths, leaving the input after it. */
  lemma {:induction false} HeaderBlockRoundTrip<K(!new), T>(kc: Codec<K>, vc: Codec<T>, es: Entries<K, Slot<T>>,
                                   rest: seq<Byte>, acc: Entries<K, Int32>)
    requires ValidCodec(kc) && Fits(kc, vc, es)
    requires DistinctKeys(es) && DistinctKeys(acc)
    requires forall i :: 0 <= i < |es| ==> es[i].key !in Keys(acc)
    ensures ParseHeaders(kc, HeaderBlock(kc, vc, es) + rest, |es|, acc)
            == Success((acc + Lengths(vc, es), rest))
    decreases |es|
  {
    if |es| == 0 {
      assert acc + Lengths(vc, es) == acc;
      assert HeaderBlock(kc, vc, es) + rest == rest;
    } else {
      HeaderBlockStep(kc, vc, es, rest, acc);
      HeaderBlockRoundTrip(kc, vc, es[1..], rest,
                           acc + [Entry(es[0].key, LengthField(|EncodeSlot(vc, es[0].value)|))]);
    }
  }

  /** One value written by `save` is read back by one turn of the value loop. */
  lemma ParseOneValue<K, T(!new)>(vc: Codec<T>, e: Entry<K, Slot<T>>, tail: seq<Byte>,
                                     hs: Entries<K, Int32>, acc: Entries<K, Slot<T>>)
    requires ValidCodec(vc) && DistinctKeys(acc) && e.value.Some?
    requires |hs| > 0 && hs[0] == Entry(e.key, |EncodeSlot(vc, e.value)|)
    ensures ParseValues(vc, EncodeSlot(vc, e.value) + tail, hs, acc)
            == ParseValues(vc, tail, hs[1..], Put(acc, e.key, e.value))
  {
    var bytes := EncodeSlot(vc, e.value);
    assert ReadN(bytes + tail, |bytes|) == (bytes, tail);
    StorageUtil.StringRoundTrip(vc.toText(e.value.value));
  }

  /** One turn of the value round trip. */
  lemma ValueBlockStep<K, T(!new)>(kc: Codec<K>, vc: Codec<T>, es: Entries<K, Slot<T>>,
                                  rest: seq<Byte>, acc: Entries<K, Slot<T>>)
    requires ValidCodec(vc) && Fits(kc, vc, es) && Resident(es) && |es| > 0
    requires DistinctKeys(es) && DistinctKeys(acc)
    requires forall i :: 0 <= i < |es| ==> es[i].key !in Keys(acc)
    ensures var acc' := acc + [es[0]];
      && DistinctKeys(acc')
      && ParseValues(vc, ValueBlock(vc, es) + rest, Lengths(vc, es), acc)
         == ParseValues(vc, ValueBlock(vc, es[1..]) + rest, Lengths(vc, es[1..]), acc')
      && Fits(kc, vc, es[1..]) && Resident(es[1..]) && DistinctKeys(es[1..])
      && (forall i :: 0 <= i < |es[1..]| ==> es[1..][i].key !in Keys(acc'))
      && acc' + es[1..] == acc + es
  {
    var e := es[0];
    var tail := ValueBlock(vc, es[1..]) + rest;
    assert ValueBlock(vc, es) + rest == EncodeSlot(vc, e.value) + tail;
    LengthsCons(vc, es);
    assert LengthField(|EncodeSlot(vc, e.value)|) == |EncodeSlot(vc, e.value)|;
    ParseOneValue(vc, e, tail, Lengths(vc, es), acc);
    assert Lengths(vc, es)[1..] == Lengths(vc, es[1..]);
    TailReady(kc, vc, es, acc, e.value);
    assert Put(acc, e.key, e.value) == acc + [e];
    AppendFirst(acc, es);
  }

  /** The value block `save` writes is read back by the value loop as the
      same entries, in the same order, with nothing skipped. */
  lemma {:induction false} ValueBlockRoundTrip<K, T(!new)>(kc: Codec<K>, vc: Codec<T>, es: Entries<K, Slot<T>>,
                                                          rest: seq<Byte>, acc: Entries<K, Slot<T>>)
    requires ValidCodec(vc) && Fits(kc, vc, es) && Resident(es)
    requires DistinctKeys(es) && DistinctKeys(acc)
    requires forall i :: 0 <= i < |es| ==> es[i].key !in Keys(acc)
    ensures ParseValues(vc, ValueBlock(vc, es) + rest, Lengths(vc, es), acc) == (acc + es, None)
    decreases |es|
  {
    if |es| == 0 {
      assert acc + es == acc;
      assert ValueBlock(vc, es) + rest == rest;
    } else {
      ValueBlockStep(kc, vc, es, rest, acc);
      ValueBlockRoundTrip(kc, vc, es[1..], rest, acc + [es[0]]);
    }
  }

  /** Round trip: the file `save` writes for a partition whose values are
      all resident is parsed by `load` into the same keys, in the same
      order, with the same values, and without a fault. */
  lemma RoundTrip<K(!new), T(!new)>(kc: Codec<K>, vc: Codec<T>, es: Entries<K, Slot<T>>)
    requires ValidCodec(kc) && ValidCodec(vc)
    requires DistinctKeys(es) && Resident(es) && Fits(kc, vc, es)
    ensures Parse(kc, vc, Serialize(kc, vc, es)) == Parsed(es, None)
  {
    var file := Serialize(kc, vc, es);
    var hb := HeaderBlock(kc, vc, es);
    var vb := ValueBlock(vc, es);
    var count := StorageUtil.IntToByteArray(LengthField(|es|));
    assert file == count + (hb + vb);
    assert ReadN(file, 4) == (count, hb + vb);
    StorageUtil.IntRoundTrip(LengthField(|es|), []);
    assert count + [] == count;
    HeaderBlockRoundTrip(kc, vc, es, vb, []);
    assert [] + Lengths(vc, es) == Lengths(vc, es);
    ValueBlockRoundTrip(kc, vc, es, [], []);
    assert vb + [] == vb;
    assert [] + es == es;
  }

  // ---------------------------------------------------------------------
  // A value block cut short

  /** The entries the value loop keeps when only the first `m` bytes of
      the value block reached the file: each entry whose bytes are all
      there; after the first one cut short, the stream is exhausted and
      only entries of length zero still read in full. */
  function Survivors<K, T>(vc: Codec<T>, es: Entries<K, Slot<T>>, m: nat): (r: Entries<K, Slot<T>>)
    ensures |r| <= |es|
    decreases |es|
  {
    if |es| == 0 then []
    else
      var len := |EncodeSlot(vc, es[0].value)|;
      if len <= m then [es[0]] + Survivors(vc, es[1..], m - len)
      else Survivors(vc, es[1..], 0)
  }

  /** The first entry survives when its value fits in the first `m`
      bytes; the rest are cut after what it leaves, or at zero. */
  lemma SurvivorsCons<K, T>(vc: Codec<T>, es: Entries<K, Slot<T>>, m: nat)
    requires |es| > 0
    ensures |EncodeSlot(vc, es[0].value)| <= m ==>
              Survivors(vc, es, m) == [es[0]] + Survivors(vc, es[1..], m - |EncodeSlot(vc, es[0].value)|)
    ensures |EncodeSlot(vc, es[0].value)| > m ==> Survivors(vc, es, m) == Survivors(vc, es[1..], 0)
  {
  }

  /** With the whole value block present every entry survives. */
  lemma {:induction false} SurvivorsFull<K, T>(vc: Codec<T>, es: Entries<K, Slot<T>>)
    ensures Survivors(vc, es, |ValueBlock(vc, es)|) == es
    decreases |es|
  {
    if |es| > 0 {
      SurvivorsFull(vc, es[1..]);
      assert [es[0]] + es[1..] == es;
    }
  }

  /** Nothing but an entry survives. */
  lemma {:induction false} SurvivorsFrom<K, T>(vc: Codec<T>, es: Entries<K, Slot<T>>, m: nat, e: Entry<K, Slot<T>>)
    requires e !in es
    ensures e !in Survivors(vc, es, m)
    decreases |es|
  {
    if |es| > 0 {
      var len := |EncodeSlot(vc, es[0].value)|;
      assert e !in es[1..] by {
        forall j | 0 <= j < |es[1..]| ensures es[1..][j] != e {
          assert es[1..][j] == es[j + 1];
        }
      }
      SurvivorsFrom(vc, es[1..], if len <= m then m - len else 0, e);
    }
  }

  /** Where the value of entry `i` starts in the value block. */
  function Offset<K, T>(vc: Codec<T>, es: Entries<K, Slot<T>>, i: nat): nat
    requires i <= |es|
  {
    |ValueBlock(vc, es[..i])|
  }

  /** An entry survives a cut after `m` value bytes exactly when its value
      is empty or ends within the first `m` bytes. */
  lemma {:induction false} SurvivorsAt<K, T>(vc: Codec<T>, es: Entries<K, Slot<T>>, m: nat, i: nat)
    requires DistinctKeys(es) && i < |es|
    ensures es[i] in Survivors(vc, es, m) <==>
            |EncodeSlot(vc, es[i].value)| == 0 || Offset(vc, es, i) + |EncodeSlot(vc, es[i].value)| <= m
    decreases |es|
  {
    var len0 := |EncodeSlot(vc, es[0].value)|;
    var m' := if len0 <= m then m - len0 else 0;
    DistinctTail(es);
    if i == 0 {
      assert es[..0] == [];
      assert es[0] !in es[1..] by {
        forall j | 0 <= j < |es[1..]| ensures es[1..][j] != es[0] {
          assert Keys(es[1..])[j] == es[1..][j].key;
        }
      }
      SurvivorsFrom(vc, es[1..], m', es[0]);
    } else {
      SurvivorsAt(vc, es[1..], m', i - 1);
      assert es[1..][i - 1] == es[i];
      assert es[..i][1..] == es[1..][..i - 1];
      assert ValueBlock(vc, es[..i]) == EncodeSlot(vc, es[0].value) + ValueBlock(vc, es[1..][..i - 1]);
      assert es[i] != es[0] by { assert es[i].key != es[0].key; }
    }
  }

  /** One turn of the value loop over a block cut after `m` bytes, when
      the first value is all there. */
  lemma ValueCutKeep<K, T(!new)>(kc: Codec<K>, vc: Codec<T>, es: Entries<K, Slot<T>>, m: nat, acc: Entries<K, Slot<T>>)
    requires ValidCodec(vc) && Fits(kc, vc, es) && Resident(es) && |es| > 0
    requires DistinctKeys(es) && DistinctKeys(acc) && m <= |ValueBlock(vc, es)|
    requires forall i :: 0 <= i < |es| ==> es[i].key !in Keys(acc)
    requires |EncodeSlot(vc, es[0].value)| <= m
    ensures var m' := m - |EncodeSlot(vc, es[0].value)|;
      && DistinctKeys(acc + [es[0]]) && m' <= |ValueBlock(vc, es[1..])|
      && ParseValues(vc, ValueBlock(vc, es)[..m], Lengths(vc, es), acc)
         == ParseValues(vc, ValueBlock(vc, es[1..])[..m'], Lengths(vc, es[1..]), acc + [es[0]])
      && Fits(kc, vc, es[1..]) && Resident(es[1..]) && DistinctKeys(es[1..])
      && (forall i :: 0 <= i < |es[1..]| ==> es[1..][i].key !in Keys(acc + [es[0]]))
  {
    var m' := m - |EncodeSlot(vc, es[0].value)|;
    assert |ValueBlock(vc, es)| == |EncodeSlot(vc, es[0].value)| + |ValueBlock(vc, es[1..])|;
    TailReady(kc, vc, es, acc, es[0].value);
    KeepStep(vc, es, m, acc, ValueBlock(vc, es)[..m], Lengths(vc, es),
             ValueBlock(vc, es[1..])[..m'], Lengths(vc, es[1..]), acc + [es[0]]);
  }

  /** `ValueCutKeep`'s step of the loop, over the cut blocks, the header
      lists and the accumulated entries given by name. */
  lemma KeepStep<K, T(!new)>(vc: Codec<T>, es: Entries<K, Slot<T>>, m: nat, acc: Entries<K, Slot<T>>,
                              input: seq<Byte>, hs: Entries<K, Int32>, rest: seq<Byte>, hs1: Entries<K, Int32>,
                              acc1: Entries<K, Slot<T>>)
    requires ValidCodec(vc) && Resident(es) && |es| > 0 && |EncodeSlot(vc, es[0].value)| <= m
    requires DistinctKeys(acc) && DistinctKeys(acc1) && es[0].key !in Keys(acc)
    requires forall i :: 0 <= i < |es| ==> |EncodeSlot(vc, es[i].value)| <= MaxInt
    requires m <= |ValueBlock(vc, es)| && input == ValueBlock(vc, es)[..m]
    requires rest == ValueBlock(vc, es[1..])[..m - |EncodeSlot(vc, es[0].value)|]
    requires hs == Lengths(vc, es) && hs1 == Lengths(vc, es[1..]) && acc1 == acc + [es[0]]
    ensures ParseValues(vc, input, hs, acc) == ParseValues(vc, rest, hs1, acc1)
  {
    var e := es[0];
    var bytes := EncodeSlot(vc, e.value);
    var vb1 := ValueBlock(vc, es[1..]);
    assert ValueBlock(vc, es) == bytes + vb1;
    LengthsCons(vc, es);
    assert hs[1..] == hs1;
    assert LengthField(|bytes|) == |bytes|;
    assert input == bytes + rest;
    ParseOneValue(vc, e, rest, hs, acc);
    assert Put(acc, e.key, e.value) == acc1;
  }

  /** One turn of the value loop over a block cut after `m` bytes, when
      the first value is cut short: it is skipped and the stream is spent. */
  lemma ValueCutSkip<K, T>(kc: Codec<K>, vc: Codec<T>, es: Entries<K, Slot<T>>, m: nat, acc: Entries<K, Slot<T>>)
    requires Fits(kc, vc, es) && Resident(es) && |es| > 0
    requires DistinctKeys(es) && DistinctKeys(acc) && m <= |ValueBlock(vc, es)|
    requires forall i :: 0 <= i < |es| ==> es[i].key !in Keys(acc)
    requires |EncodeSlot(vc, es[0].value)| > m
    ensures && ParseValues(vc, ValueBlock(vc, es)[..m], Lengths(vc, es), acc)
               == ParseValues(vc, ValueBlock(vc, es[1..])[..0], Lengths(vc, es[1..]), acc)
            && Fits(kc, vc, es[1..]) && Resident(es[1..]) && DistinctKeys(es[1..])
            && (forall i :: 0 <= i < |es[1..]| ==> es[1..][i].key !in Keys(acc))
  {
    var len := |EncodeSlot(vc, es[0].value)|;
    LengthsCons(vc, es);
    assert Lengths(vc, es)[1..] == Lengths(vc, es[1..]);
    assert LengthField(len) == len;
    var cut := ValueBlock(vc, es)[..m];
    assert |cut| == m;
    assert |ReadN(cut, len).0| == m;
    assert ReadN(cut, len).1 == [];
    assert ValueBlock(vc, es[1..])[..0] == [];
    TailReady(kc, vc, es, acc, es[0].value);
    forall i | 0 <= i < |es[1..]| ensures es[1..][i].key !in Keys(acc) {
      assert es[1..][i] == es[i + 1];
    }
  }

  /** The value loop over a block cut after `m` bytes reloads exactly the
      survivors, without a fault. */
  lemma {:induction false} ValueCutRoundTrip<K, T(!new)>(kc: Codec<K>, vc: Codec<T>, es: Entries<K, Slot<T>>, m: nat,
                                                        acc: Entries<K, Slot<T>>)
    requires ValidCodec(vc) && Fits(kc, vc, es) && Resident(es)
    requires DistinctKeys(es) && DistinctKeys(acc) && m <= |ValueBlock(vc, es)|
    requires forall i :: 0 <= i < |es| ==> es[i].key !in Keys(acc)
    ensures ParseValues(vc, ValueBlock(vc, es)[..m], Lengths(vc, es), acc) == (acc + Survivors(vc, es, m), None)
    decreases |es|, 1
  {
    if |es| == 0 {
      assert acc + [] == acc;
    } else if |EncodeSlot(vc, es[0].value)| <= m {
      ValueCutKept(kc, vc, es, m, acc);
    } else {
      ValueCutSkipped(kc, vc, es, m, acc);
    }
  }

  /** `ValueCutRoundTrip` when the first value is all there. */
  lemma {:induction false} ValueCutKept<K, T(!new)>(kc: Codec<K>, vc: Codec<T>, es: Entries<K, Slot<T>>, m: nat,
                                                   acc: Entries<K, Slot<T>>)
    requires ValidCodec(vc) && Fits(kc, vc, es) && Resident(es) && |es| > 0
    requires DistinctKeys(es) && DistinctKeys(acc) && m <= |ValueBlock(vc, es)|
    requires forall i :: 0 <= i < |es| ==> es[i].key !in Keys(acc)
    requires |EncodeSlot(vc, es[0].value)| <= m
    ensures ParseValues(vc, ValueBlock(vc, es)[..m], Lengths(vc, es), acc) == (acc + Survivors(vc, es, m), None)
    decreases |es|, 0
  {
    var len := |EncodeSlot(vc, es[0].value)|;
    var rest := Survivors(vc, es[1..], m - len);
    SurvivorsCons(vc, es, m);
    ValueCutKeep(kc, vc, es, m, acc);
    ValueCutRoundTrip(kc, vc, es[1..], m - len, acc + [es[0]]);
    AppendOne(acc, es[0], rest);
  }

  /** `ValueCutRoundTrip` when the first value is cut short. */
  lemma {:induction false} ValueCutSkipped<K, T(!new)>(kc: Codec<K>, vc: Codec<T>, es: Entries<K, Slot<T>>, m: nat,
                                                      acc: Entries<K, Slot<T>>)
    requires ValidCodec(vc) && Fits(kc, vc, es) && Resident(es) && |es| > 0
    requires DistinctKeys(es) && DistinctKeys(acc) && m <= |ValueBlock(vc, es)|
    requires forall i :: 0 <= i < |es| ==> es[i].key !in Keys(acc)
    requires |EncodeSlot(vc, es[0].value)| > m
    ensures ParseValues(vc, ValueBlock(vc, es)[..m], Lengths(vc, es), acc) == (acc + Survivors(vc, es, m), None)
    decreases |es|, 0
  {
    SurvivorsCons(vc, es, m);
    ValueCutSkip(kc, vc, es, m, acc);
    ValueCutRoundTrip(kc, vc, es[1..], 0, acc);
  }

  lemma AppendOne<X>(acc: seq<X>, x: X, rest: seq<X>)
    ensures acc + [x] + rest == acc + ([x] + rest)
  {
  }

  lemma SerializeLength<K, T>(kc: Codec<K>, vc: Codec<T>, es: Entries<K, Slot<T>>)
    ensures |Serialize(kc, vc, es)| == StorageUtil.IntWidth + |HeaderBlock(kc, vc, es)| + |ValueBlock(vc, es)|
  {
  }

  /** Cutting a file inside its value block keeps the whole prefix before it. */
  lemma SerializePrefix(count: seq<Byte>, hb: seq<Byte>, vb: seq<Byte>, m: nat)
    requires m <= |vb|
    ensures (count + (hb + vb))[..|count| + |hb| + m] == count + (hb + vb[..m])
  {
  }

  /** A file whose write stopped inside the value block, after the count,
      every header and `m` value bytes, is parsed by `load` into the
      survivors: every entry whose bytes all reached the file, in order. */
  lemma TruncatedFile<K(!new), T(!new)>(kc: Codec<K>, vc: Codec<T>, es: Entries<K, Slot<T>>, m: nat)
    requires ValidCodec(kc) && ValidCodec(vc)
    requires DistinctKeys(es) && Resident(es) && Fits(kc, vc, es) && m <= |ValueBlock(vc, es)|
    ensures var cut := StorageUtil.IntWidth + |HeaderBlock(kc, vc, es)| + m;
            Parse(kc, vc, Serialize(kc, vc, es)[..cut]) == Parsed(Survivors(vc, es, m), None)
  {
    var cut := StorageUtil.IntWidth + |HeaderBlock(kc, vc, es)| + m;
    ParseCut(kc, vc, es, m, Serialize(kc, vc, es)[..cut], Survivors(vc, es, m));
  }

  /** `TruncatedFile` for the cut file and the survivors given by name. */
  lemma ParseCut<K(!new), T(!new)>(kc: Codec<K>, vc: Codec<T>, es: Entries<K, Slot<T>>, m: nat,
                                   file: seq<Byte>, survivors: Entries<K, Slot<T>>)
    requires ValidCodec(kc) && ValidCodec(vc)
    requires DistinctKeys(es) && Resident(es) && Fits(kc, vc, es) && m <= |ValueBlock(vc, es)|
    requires file == Serialize(kc, vc, es)[..StorageUtil.IntWidth + |HeaderBlock(kc, vc, es)| + m]
    requires survivors == Survivors(vc, es, m)
    ensures Parse(kc, vc, file) == Parsed(survivors, None)
  {
    var hb := HeaderBlock(kc, vc, es);
    var vb := ValueBlock(vc, es);
    var count := StorageUtil.IntToByteArray(LengthField(|es|));
    assert file == count + (hb + vb[..m]) by {
      assert Serialize(kc, vc, es) == count + (hb + vb);
      SerializePrefix(count, hb, vb, m);
    }
    ReadCount(count, hb + vb[..m]);
    assert StorageUtil.ByteArrayToInt(count) == Some(|es|) by {
      StorageUtil.IntRoundTrip(LengthField(|es|), []);
      assert count + [] == count;
    }
    assert ParseHeaders(kc, hb + vb[..m], |es|, []) == Success((Lengths(vc, es), vb[..m])) by {
      HeaderBlockRoundTrip(kc, vc, es, vb[..m], []);
      assert [] + Lengths(vc, es) == Lengths(vc, es);
    }
    assert ParseValues(vc, vb[..m], Lengths(vc, es), []) == (Survivors(vc, es, m), None) by {
      ValueCutRoundTrip(kc, vc, es, m, []);
      assert [] + Survivors(vc, es, m) == Survivors(vc, es, m);
    }
    ParseSteps(kc, vc, file, count, hb + vb[..m], |es|, Lengths(vc, es), vb[..m], survivors, None);
  }
}
