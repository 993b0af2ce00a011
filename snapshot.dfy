/**
 * The snapshot format that Backup writes and Restore reads: the whole store
 * as a list of buckets, each with its list of items, every map listed in
 * ascending key order. A record starts with the byte More and a list ends
 * with the byte End; names, keys and values are serialized strings. When a
 * snapshot names a bucket or a key twice, the later entry wins, as when a
 * JSON object with a repeated key is decoded into a map.
 */
module SnapshotFormat {
  import opened Errors
  import opened Serial
  import opened KeyOrder
  import opened StoreModel

  const More: byte := 1
  const End: byte := 0

  /** A bucket's items as listed in a snapshot. */
  type ItemList = seq<(string, string)>

  /** A store as listed in a snapshot. */
  type BucketList = seq<(string, ItemList)>

  /** The map a list of pairs denotes; a later pair overrides an earlier one with the same key. */
  function FromPairs<V>(ps: seq<(string, V)>): (m: map<string, V>) {
    if ps == [] then map[]
    else FromPairs(ps[..|ps| - 1])[ps[|ps| - 1].0 := ps[|ps| - 1].1]
  }

  /** The pairs of `m` for the keys `ks`, in the order of `ks`. */
  function Listing<V>(m: map<string, V>, ks: seq<string>): (ps: seq<(string, V)>)
    requires forall i :: 0 <= i < |ks| ==> ks[i] in m
    ensures |ps| == |ks|
  {
    if ks == [] then []
    else Listing(m, ks[..|ks| - 1]) + [(ks[|ks| - 1], m[ks[|ks| - 1]])]
  }

  /** Listing one more key of `ks` appends its pair. */
  lemma ListingStep<V>(m: map<string, V>, ks: seq<string>, i: nat)
    requires forall j :: 0 <= j < |ks| ==> ks[j] in m
    requires i < |ks|
    ensures Listing(m, ks[..i + 1]) == Listing(m, ks[..i]) + [(ks[i], m[ks[i]])]
  {
    assert ks[..i + 1][..i] == ks[..i];
  }

  /** Reading back a listing of `m` gives `m` restricted to the listed keys. */
  lemma {:induction false} FromPairsListing<V>(m: map<string, V>, ks: seq<string>)
    requires forall i :: 0 <= i < |ks| ==> ks[i] in m
    ensures FromPairs(Listing(m, ks)) == map k | k in ks :: m[k]
  {
    if ks != [] {
      var init := ks[..|ks| - 1];
      var ps := Listing(m, ks);
      assert ps[..|ps| - 1] == Listing(m, init);
      FromPairsListing(m, init);
      assert forall k :: k in ks <==> k in init || k == ks[|ks| - 1];
    }
  }

  /** A listing that covers every key of `m` reads back as `m`. */
  lemma ListingCovers<V>(m: map<string, V>, ks: seq<string>)
    requires forall k :: k in ks <==> k in m
    ensures FromPairs(Listing(m, ks)) == m
  {
    FromPairsListing(m, ks);
  }

  /** The listing of a store: buckets and their items in ascending key order. */
  ghost function ListingOf(s: State): (d: BucketList)
  {
    SortedListing(map n | n in s :: SortedListing(s[n]))
  }

  /** The pairs of `m` in ascending key order. */
  ghost function SortedListing<V>(m: map<string, V>): (ps: seq<(string, V)>)
    ensures FromPairs(ps) == m
  {
    SortedKeysMembers(m.Keys);
    ListingCovers(m, SortedKeys(m.Keys));
    Listing(m, SortedKeys(m.Keys))
  }

  /** The store a listing denotes. */
  function StateOf(d: BucketList): (s: State) {
    var m := FromPairs(d);
    map n | n in m :: FromPairs(m[n])
  }

  /** Appending a bucket record to a listing sets that bucket, replacing an earlier one. */
  lemma StateOfSnoc(d: BucketList, p: (string, ItemList))
    ensures StateOf(d + [p]) == StateOf(d)[p.0 := FromPairs(p.1)]
  {
    assert (d + [p])[..|d|] == d;
  }

  /** The store the first `j + 1` records denote: record `j` set on top of the first `j`. */
  lemma StateOfPrefix(d: BucketList, j: nat)
    requires j < |d|
    ensures StateOf(d[..j + 1]) == StateOf(d[..j])[d[j].0 := FromPairs(d[j].1)]
  {
    assert d[..j + 1] == d[..j] + [d[j]];
    StateOfSnoc(d[..j], d[j]);
  }

  lemma ListingRoundTrip(s: State)
    ensures StateOf(ListingOf(s)) == s
  {
  }

  function EncodeItems(ps: ItemList): (bs: seq<byte>) {
    if ps == [] then [End]
    else [More] + (EncodeString(ps[0].0) + (EncodeString(ps[0].1) + EncodeItems(ps[1..])))
  }

  /** Reads an item list off the front of `bs`; on success fewer bytes remain. */
  function DecodeItems(bs: seq<byte>): (r: Result<(ItemList, seq<byte>)>)
    ensures r.Success? ==> |r.value.1| < |bs|
    ensures r.Failure? ==> r.error == DecodeError
    decreases |bs|
  {
    if |bs| == 0 then Failure(DecodeError)
    else if bs[0] == End then Success(([], bs[1..]))
    else if bs[0] != More then Failure(DecodeError)
    else match DecodeString(bs[1..])
      case Failure(e) => Failure(e)
      case Success((k, r1)) =>
        match DecodeString(r1)
        case Failure(e) => Failure(e)
        case Success((v, r2)) =>
          match DecodeItems(r2)
          case Failure(e) => Failure(e)
          case Success((ps, r3)) => Success(([(k, v)] + ps, r3))
  }

  /** A non-empty sequence is its first element followed by the rest. */
  lemma HeadTail<T>(s: seq<T>)
    requires s != []
    ensures [s[0]] + s[1..] == s
  {
  }

  /** One step of DecodeItems: an item record followed by the rest of the list. */
  lemma DecodeItemsStep(bs: seq<byte>, k: string, r1: seq<byte>, v: string, r2: seq<byte>, ps: ItemList, r3: seq<byte>)
    requires |bs| > 0 && bs[0] == More
    requires DecodeString(bs[1..]) == Success((k, r1))
    requires DecodeString(r1) == Success((v, r2))
    requires DecodeItems(r2) == Success((ps, r3))
    ensures DecodeItems(bs) == Success(([(k, v)] + ps, r3))
  {
  }

  /** Encoding a non-empty item list writes its first record, then the rest. */
  lemma EncodeItemsStep(ps: ItemList, rest: seq<byte>)
    requires ps != []
    ensures EncodeItems(ps) + rest
         == [More] + (EncodeString(ps[0].0) + (EncodeString(ps[0].1) + (EncodeItems(ps[1..]) + rest)))
  {
  }

  /** An item record in front of a decodable tail decodes to that item in front of the tail's items. */
  lemma ItemsCons(p: (string, string), tail: seq<byte>, ps: ItemList, rest: seq<byte>)
    requires DecodeItems(tail) == Success((ps, rest))
    ensures DecodeItems([More] + (EncodeString(p.0) + (EncodeString(p.1) + tail))) == Success(([p] + ps, rest))
  {
    var (k, v) := p;
    var ek, ev := EncodeString(k), EncodeString(v);
    Prefixed(More, ek + (ev + tail));
    StringRoundTrip(k, ev + tail);
    StringRoundTrip(v, tail);
    DecodeItemsStep([More] + (ek + (ev + tail)), k, ev + tail, v, tail, ps, rest);
  }

  lemma {:induction false} ItemsRoundTrip(ps: ItemList, rest: seq<byte>)
    ensures DecodeItems(EncodeItems(ps) + rest) == Success((ps, rest))
  {
    if ps == [] {
      assert EncodeItems(ps) + rest == [End] + rest;
    } else {
      ItemsRoundTrip(ps[1..], rest);
      ItemsCons(ps[0], EncodeItems(ps[1..]) + rest, ps[1..], rest);
      EncodeItemsStep(ps, rest);
      HeadTail(ps);
    }
  }

  function EncodeBuckets(d: BucketList): (bs: seq<byte>) {
    if d == [] then [End]
    else [More] + (EncodeString(d[0].0) + (EncodeItems(d[0].1) + EncodeBuckets(d[1..])))
  }

  /** Reads a bucket list off the front of `bs`; on success fewer bytes remain. */
  function DecodeBuckets(bs: seq<byte>): (r: Result<(BucketList, seq<byte>)>)
    ensures r.Success? ==> |r.value.1| < |bs|
    ensures r.Failure? ==> r.error == DecodeError
    decreases |bs|
  {
    if |bs| == 0 then Failure(DecodeError)
    else if bs[0] == End then Success(([], bs[1..]))
    else if bs[0] != More then Failure(DecodeError)
    else match DecodeString(bs[1..])
      case Failure(e) => Failure(e)
      case Success((name, r1)) =>
        match DecodeItems(r1)
        case Failure(e) => Failure(e)
        case Success((ps, r2)) =>
          match DecodeBuckets(r2)
          case Failure(e) => Failure(e)
          case Success((d, r3)) => Success(([(name, ps)] + d, r3))
  }

  /** One step of DecodeBuckets: a record followed by the rest of the list. */
  lemma DecodeBucketsStep(bs: seq<byte>, name: string, r1: seq<byte>, ps: ItemList, r2: seq<byte>, d: BucketList, r3: seq<byte>)
    requires |bs| > 0 && bs[0] == More
    requires DecodeString(bs[1..]) == Success((name, r1))
    requires DecodeItems(r1) == Success((ps, r2))
    requires DecodeBuckets(r2) == Success((d, r3))
    ensures DecodeBuckets(bs) == Success(([(name, ps)] + d, r3))
  {
  }

  /** Encoding a non-empty bucket list writes its first record, then the rest. */
  lemma EncodeBucketsStep(d: BucketList, rest: seq<byte>)
    requires d != []
    ensures EncodeBuckets(d) + rest
         == [More] + (EncodeString(d[0].0) + (EncodeItems(d[0].1) + (EncodeBuckets(d[1..]) + rest)))
  {
  }

  /** A bucket record in front of a decodable tail decodes to that bucket in front of the tail's buckets. */
  lemma BucketsCons(b: (string, ItemList), tail: seq<byte>, d: BucketList, rest: seq<byte>)
    requires DecodeBuckets(tail) == Success((d, rest))
    ensures DecodeBuckets([More] + (EncodeString(b.0) + (EncodeItems(b.1) + tail))) == Success(([b] + d, rest))
  {
    var (name, ps) := b;
    var en, ei := EncodeString(name), EncodeItems(ps);
    Prefixed(More, en + (ei + tail));
    StringRoundTrip(name, ei + tail);
    ItemsRoundTrip(ps, tail);
    DecodeBucketsStep([More] + (en + (ei + tail)), name, ei + tail, ps, tail, d, rest);
  }

  lemma {:induction false} BucketsRoundTrip(d: BucketList, rest: seq<byte>)
    ensures DecodeBuckets(EncodeBuckets(d) + rest) == Success((d, rest))
  {
    if d == [] {
      assert EncodeBuckets(d) + rest == [End] + rest;
    } else {
      BucketsRoundTrip(d[1..], rest);
      BucketsCons(d[0], EncodeBuckets(d[1..]) + rest, d[1..], rest);
      EncodeBucketsStep(d, rest);
      HeadTail(d);
    }
  }

  /** The snapshot bytes of a store. */
  ghost function Encode(s: State): (bs: seq<byte>) {
    EncodeBuckets(ListingOf(s))
  }

  /** The listing a snapshot holds; bytes after the listing are ignored. */
  function DecodeListing(bs: seq<byte>): (r: Result<BucketList>)
    ensures r.Failure? ==> r.error == DecodeError
  {
    match DecodeBuckets(bs)
    case Failure(e) => Failure(e)
    case Success((d, _)) => Success(d)
  }

  /** The store a snapshot denotes. */
  function Decode(bs: seq<byte>): (r: Result<State>)
    ensures r.Failure? ==> r.error == DecodeError
  {
    match DecodeListing(bs)
    case Failure(e) => Failure(e)
    case Success(d) => Success(StateOf(d))
  }

  /** Restoring a backup reproduces exactly the bucket, key and value mapping backed up. */
  lemma SnapshotRoundTrip(s: State)
    ensures Decode(Encode(s)) == Success(s)
  {
    BucketsRoundTrip(ListingOf(s), []);
    assert EncodeBuckets(ListingOf(s)) + [] == Encode(s);
    ListingRoundTrip(s);
  }
}
