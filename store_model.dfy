/**
 * The store's contents as a value, bucket name to key to value, and each
 * store operation as a function from the contents before to the contents
 * after and the error the operation returns. The class in module Store is
 * proved to follow these functions, and the replicated state machine is
 * specified in terms of them.
 */
module StoreModel {
  import opened Errors

  /** One bucket's items: key to value. */
  type Items = map<string, string>

  /** The whole store: bucket name to items. */
  type State = map<string, Items>

  /** The contents of a freshly created store. */
  const Empty: State := map[]

  /**
   * Creating a bucket is strict: a present name is an error and changes
   * nothing; an absent name gets an empty bucket and nothing else changes.
   */
  function CreateBucket(s: State, name: string): (r: (State, Option<Error>))
    ensures name in s ==> r == (s, Some(BucketAlreadyExists(name)))
    ensures name !in s ==>
      && r.1 == None
      && r.0.Keys == s.Keys + {name}
      && r.0[name] == map[]
      && (forall n :: n in s ==> r.0[n] == s[n])
  {
    if name in s then (s, Some(BucketAlreadyExists(name)))
    else (s[name := map[]], None)
  }

  /**
   * Deleting a bucket always succeeds: afterwards the name is absent and
   * every other bucket is as it was. The re-check after the delete can
   * never report an error.
   */
  function DeleteBucket(s: State, name: string): (r: (State, Option<Error>))
    ensures r.1 == None
    ensures r.0.Keys == s.Keys - {name}
    ensures forall n :: n in r.0 ==> r.0[n] == s[n]
  {
    var t := s - {name};
    (t, if name in t then Some(BucketNotDeleted(name)) else None)
  }

  /**
   * Setting an item needs the bucket: without it the result is an error and
   * nothing changes; with it exactly that key gets the value.
   */
  function SetItem(s: State, bucket: string, key: string, value: string): (r: (State, Option<Error>))
    ensures bucket !in s ==> r == (s, Some(BucketNotFound(bucket)))
    ensures bucket in s ==>
      && r.1 == None
      && r.0.Keys == s.Keys
      && r.0[bucket].Keys == s[bucket].Keys + {key}
      && r.0[bucket][key] == value
      && (forall k :: k in s[bucket] && k != key ==> r.0[bucket][k] == s[bucket][k])
      && (forall n :: n in s && n != bucket ==> r.0[n] == s[n])
  {
    if bucket !in s then (s, Some(BucketNotFound(bucket)))
    else (s[bucket := s[bucket][key := value]], None)
  }

  /** The value of `key` among `items`, or a key-not-found error. */
  function Lookup(items: Items, key: string): (r: Result<string>)
    ensures key in items <==> r.Success?
    ensures key in items ==> r.value == items[key]
    ensures key !in items ==> r.error == KeyNotFound(key)
  {
    if key in items then Success(items[key]) else Failure(KeyNotFound(key))
  }

  /** Reading an item: bucket-not-found, key-not-found, or the stored value. */
  function GetItem(s: State, bucket: string, key: string): (r: Result<string>)
    ensures bucket !in s ==> r == Failure(BucketNotFound(bucket))
    ensures bucket in s && key !in s[bucket] ==> r == Failure(KeyNotFound(key))
    ensures bucket in s && key in s[bucket] ==> r == Success(s[bucket][key])
  {
    if bucket !in s then Failure(BucketNotFound(bucket)) else Lookup(s[bucket], key)
  }

  /**
   * Deleting an item needs the bucket: without it the result is an error and
   * nothing changes; with it the key is gone (present or not before) and
   * nothing else changes.
   */
  function DeleteItem(s: State, bucket: string, key: string): (r: (State, Option<Error>))
    ensures bucket !in s ==> r == (s, Some(BucketNotFound(bucket)))
    ensures bucket in s ==>
      && r.1 == None
      && r.0.Keys == s.Keys
      && r.0[bucket].Keys == s[bucket].Keys - {key}
      && (forall k :: k in r.0[bucket] ==> r.0[bucket][k] == s[bucket][k])
      && (forall n :: n in s && n != bucket ==> r.0[n] == s[n])
  {
    if bucket !in s then (s, Some(BucketNotFound(bucket)))
    else (s[bucket := s[bucket] - {key}], None)
  }

  /** After a successful set, reading the key gives the value just written. */
  lemma GetAfterSet(s: State, bucket: string, key: string, value: string)
    requires bucket in s
    ensures GetItem(SetItem(s, bucket, key, value).0, bucket, key) == Success(value)
  {
  }

  /** After deleting a key of an existing bucket, reading it fails with key-not-found. */
  lemma GetAfterDelete(s: State, bucket: string, key: string)
    requires bucket in s
    ensures GetItem(DeleteItem(s, bucket, key).0, bucket, key) == Failure(KeyNotFound(key))
  {
  }

  /** Deleting a bucket twice is the same as deleting it once. */
  lemma DeleteBucketIdempotent(s: State, name: string)
    ensures DeleteBucket(DeleteBucket(s, name).0, name) == DeleteBucket(s, name)
  {
    var t := s - {name};
    assert t - {name} == t;
  }

  /** Deleting an absent key of an existing bucket succeeds and changes nothing. */
  lemma DeleteAbsentItem(s: State, bucket: string, key: string)
    requires bucket in s && key !in s[bucket]
    ensures DeleteItem(s, bucket, key) == (s, None)
  {
    assert s[bucket] - {key} == s[bucket];
    assert s[bucket := s[bucket]] == s;
  }
}
