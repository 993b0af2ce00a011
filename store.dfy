/**
 * The bucketed in-memory store. A store object holds a map from bucket name
 * to bucket object, and each bucket object holds a map from key to item;
 * both maps are updated in place. Every operation is proved to follow the
 * matching function of StoreModel on the abstract contents.
 */
module Store {
  import opened Errors
  import opened Serial
  import opened KeyOrder
  import StoreModel
  import SnapshotFormat

  /** A stored value. */
  datatype Item = Item(value: string)

  /** The key-to-value view of a bucket's items. */
  function ValuesOf(items: map<string, Item>): (r: StoreModel.Items)
    ensures r.Keys == items.Keys
  {
    map k | k in items :: items[k].value
  }

  /** The items holding the values of `values`: the inverse of ValuesOf. */
  function ItemsOf(values: StoreModel.Items): (r: map<string, Item>)
    ensures ValuesOf(r) == values
  {
    var r := map k | k in values :: Item(values[k]);
    assert ValuesOf(r) == values;
    r
  }

  class Bucket {
    var items: map<string, Item>

    constructor ()
      ensures items == map[]
    {
      items := map[];
    }

    /** A bucket already holding `items`, as decoding a snapshot builds one. */
    constructor From(items: map<string, Item>)
      ensures this.items == items
    {
      this.items := items;
    }

    /** Sets or overwrites `key`; never fails. */
    method Set(key: string, value: string) returns (err: Option<Error>)
      modifies this
      ensures items == old(items)[key := Item(value)]
      ensures err == None
    {
      items := items[key := Item(value)];
      err := None;
    }

    /** The value stored under `key`, or a key-not-found error. */
    method Get(key: string) returns (r: Result<string>)
      ensures r == StoreModel.Lookup(ValuesOf(items), key)
    {
      if key in items {
        r := Success(items[key].value);
      } else {
        r := Failure(KeyNotFound(key));
      }
    }

    /** Removes `key` if present; never fails. */
    method Delete(key: string) returns (err: Option<Error>)
      modifies this
      ensures items == old(items) - {key}
      ensures err == None
    {
      items := items - {key};
      err := None;
    }
  }

  class BlehStore {
    var buckets: map<string, Bucket>

    /** No bucket object is shared by two names. */
    ghost predicate Valid()
      reads this
    {
      forall n, m :: n in buckets && m in buckets && n != m ==> buckets[n] != buckets[m]
    }

    /** The store's contents: bucket name to key to value. */
    ghost function Contents(): (s: StoreModel.State)
      reads this, buckets.Values
    {
      map n | n in buckets :: ValuesOf(buckets[n].items)
    }

    /** A new, empty store. */
    constructor ()
      ensures Valid() && Contents() == StoreModel.Empty
    {
      buckets := map[];
    }

    /** Every bucket name exactly once, in no particular order. */
    method ListBuckets() returns (names: seq<string>)
      ensures forall n :: n in names <==> n in Contents()
      ensures forall i, j :: 0 <= i < j < |names| ==> names[i] != names[j]
    {
      names := [];
      var rest := buckets.Keys;
      while rest != {}
        invariant rest <= buckets.Keys
        invariant forall n :: n in names <==> n in buckets && n !in rest
        invariant forall i, j :: 0 <= i < j < |names| ==> names[i] != names[j]
        decreases |rest|
      {
        var n :| n in rest;
        names := names + [n];
        rest := rest - {n};
      }
    }

    /** Whether a bucket of that name exists. */
    method BucketExists(name: string) returns (ok: bool)
      ensures ok <==> name in Contents()
    {
      ok := name in buckets;
    }

    method CreateBucket(name: string) returns (err: Option<Error>)
      requires Valid()
      modifies this
      ensures Valid()
      ensures (Contents(), err) == StoreModel.CreateBucket(old(Contents()), name)
      ensures forall b :: b in buckets.Values ==> b in old(buckets.Values) || fresh(b)
    {
      if name in buckets {
        return Some(BucketAlreadyExists(name));
      }
      ghost var s := Contents();
      var b := new Bucket();
      buckets := buckets[name := b];
      err := None;
      assert ValuesOf(b.items) == map[];
      assert Contents() == s[name := map[]];
    }

    method DeleteBucket(name: string) returns (err: Option<Error>)
      requires Valid()
      modifies this
      ensures Valid()
      ensures (Contents(), err) == StoreModel.DeleteBucket(old(Contents()), name)
      ensures forall b :: b in buckets.Values ==> b in old(buckets.Values)
    {
      ghost var s := Contents();
      buckets := buckets - {name};
      err := if name in buckets then Some(BucketNotDeleted(name)) else None;
      assert Contents() == s - {name};
    }

    method SetItem(bucket: string, key: string, value: string) returns (err: Option<Error>)
      requires Valid()
      modifies buckets.Values
      ensures Valid()
      ensures (Contents(), err) == StoreModel.SetItem(old(Contents()), bucket, key, value)
    {
      if bucket !in buckets {
        return Some(BucketNotFound(bucket));
      }
      ghost var s := Contents();
      var b := buckets[bucket];
      err := b.Set(key, value);
      assert forall n :: n in buckets && n != bucket ==> buckets[n] != b;
      assert ValuesOf(b.items) == s[bucket][key := value];
      assert Contents() == s[bucket := s[bucket][key := value]];
    }

    method GetItem(bucket: string, key: string) returns (r: Result<string>)
      ensures r == StoreModel.GetItem(Contents(), bucket, key)
    {
      if bucket !in buckets {
        return Failure(BucketNotFound(bucket));
      }
      var b := buckets[bucket];
      r := b.Get(key);
    }

    method DeleteItem(bucket: string, key: string) returns (err: Option<Error>)
      requires Valid()
      modifies buckets.Values
      ensures Valid()
      ensures (Contents(), err) == StoreModel.DeleteItem(old(Contents()), bucket, key)
    {
      if bucket !in buckets {
        return Some(BucketNotFound(bucket));
      }
      ghost var s := Contents();
      var b := buckets[bucket];
      err := b.Delete(key);
      assert forall n :: n in buckets && n != bucket ==> buckets[n] != b;
      assert ValuesOf(b.items) == s[bucket] - {key};
      assert Contents() == s[bucket := s[bucket] - {key}];
    }

    /**
     * Stores a fresh bucket holding `items` under `name`, replacing any bucket
     * of that name: how decoding a snapshot fills the bucket map.
     */
    method PutBucket(name: string, items: StoreModel.Items)
      requires Valid()
      modifies this
      ensures Valid()
      ensures Contents() == old(Contents())[name := items]
      ensures forall b :: b in buckets.Values ==> b in old(buckets.Values) || fresh(b)
    {
      ghost var s := Contents();
      var b := new Bucket.From(ItemsOf(items));
      assert Contents() == s;
      buckets := buckets[name := b];
      assert Contents() == s[name := items];
    }

    /** The snapshot of the whole store: the same bytes for the same contents. */
    method Backup() returns (data: seq<byte>)
      ensures data == SnapshotFormat.Encode(Contents())
    {
      var view := View();
      ContentsOfView();
      data := Marshal(view);
    }

    /** Each bucket's item map, by bucket name. */
    function View(): (view: map<string, map<string, Item>>)
      reads this, buckets.Values
    {
      map n | n in buckets :: buckets[n].items
    }

    lemma ContentsOfView()
      ensures Contents() == ViewContents(View())
    {
    }
  }

  /** The contents a bucket-name-to-items map denotes. */
  function ViewContents(view: map<string, map<string, Item>>): (s: StoreModel.State) {
    map n | n in view :: ValuesOf(view[n])
  }

  /** Each bucket's items as a snapshot lists them. */
  ghost function ItemListings(view: map<string, map<string, Item>>): (lists: map<string, SnapshotFormat.ItemList>) {
    map n | n in view :: SnapshotFormat.SortedListing(ValuesOf(view[n]))
  }

  lemma ListingOfView(view: map<string, map<string, Item>>)
    ensures SnapshotFormat.ListingOf(ViewContents(view))
         == SnapshotFormat.Listing(ItemListings(view), SortedKeys(view.Keys))
  {
    var s := ViewContents(view);
    assert (map n | n in s :: SnapshotFormat.SortedListing(s[n])) == ItemListings(view);
    assert s.Keys == view.Keys;
  }

  /** Writes every bucket and its items, each map in ascending key order. */
  method Marshal(view: map<string, map<string, Item>>) returns (data: seq<byte>)
    ensures data == SnapshotFormat.Encode(ViewContents(view))
  {
    var names := SortKeys(view.Keys);
    var d := ListBucketItems(view, names);
    ListingOfView(view);
    data := SnapshotFormat.EncodeBuckets(d);
  }

  /** The named buckets with their items, in the order of `names`. */
  method ListBucketItems(view: map<string, map<string, Item>>, names: seq<string>)
    returns (d: SnapshotFormat.BucketList)
    requires forall i :: 0 <= i < |names| ==> names[i] in view
    ensures d == SnapshotFormat.Listing(ItemListings(view), names)
  {
    ghost var lists := ItemListings(view);
    d := [];
    for i := 0 to |names|
      invariant d == SnapshotFormat.Listing(lists, names[..i])
    {
      var items := ListItems(view[names[i]]);
      SnapshotFormat.ListingStep(lists, names, i);
      d := d + [(names[i], items)];
    }
    assert names[..|names|] == names;
  }

  /** The items of a bucket in ascending key order, as a snapshot lists them. */
  method ListItems(items: map<string, Item>) returns (ps: SnapshotFormat.ItemList)
    ensures ps == SnapshotFormat.SortedListing(ValuesOf(items))
  {
    var keys := SortKeys(items.Keys);
    ps := SnapshotFormat.Listing(ValuesOf(items), keys);
  }

  /**
   * A new store built from snapshot bytes, or the decode error. The new store
   * holds exactly the contents the snapshot denotes.
   */
  method Restore(data: seq<byte>) returns (r: Result<BlehStore>)
    ensures r.Success? <==> SnapshotFormat.Decode(data).Success?
    ensures r.Failure? ==> r.error == SnapshotFormat.Decode(data).error
    ensures r.Success? ==> fresh(r.value) && r.value.Valid()
    ensures r.Success? ==> forall b :: b in r.value.buckets.Values ==> fresh(b)
    ensures r.Success? ==> r.value.Contents() == SnapshotFormat.Decode(data).value
  {
    var listing := SnapshotFormat.DecodeListing(data);
    if listing.Failure? {
      return Failure(listing.error);
    }
    var d := listing.value;
    var bs := new BlehStore();
    assert bs.buckets.Keys == bs.Contents().Keys;
    for j := 0 to |d|
      invariant fresh(bs) && bs.Valid()
      invariant forall b :: b in bs.buckets.Values ==> fresh(b)
      invariant bs.Contents() == SnapshotFormat.StateOf(d[..j])
    {
      bs.PutBucket(d[j].0, SnapshotFormat.FromPairs(d[j].1));
      SnapshotFormat.StateOfPrefix(d, j);
    }
    assert d[..|d|] == d;
    r := Success(bs);
  }
}
