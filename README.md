# blehdb replication core in Dafny

blehdb is a replicated, bucketed key-value store. All writes go through a
consensus log. Every node applies the same committed entries, in the same
order, to a local in-memory store, so every replica ends up with the same
contents. This project models three parts of it:

- **The store** (`store/bleh_store.go`). It maps bucket names to buckets, and
  each bucket maps keys to values. The Go code mutates both maps in place.
  - The model is the class `Store.BlehStore`, whose field is bucket name to
    `Store.Bucket` objects. Each `Bucket` holds a field of key to item.
  - The abstract contents are bucket, then key, then value.
  - Each mutating method (CreateBucket, DeleteBucket, SetItem, DeleteItem)
    and GetItem is proved to follow the matching pure function of module
    `StoreModel` on those contents.
  - BucketExists and ListBuckets are specified directly against the
    contents. Backup is specified against the snapshot encoding of the
    contents. PutBucket, which installs one decoded bucket, is specified as
    a map update of the contents.
  - The error behaviour is asymmetric, as in the code:
    - creating a bucket that exists is an error;
    - deleting an absent bucket or an absent key is not;
    - item operations on an absent bucket are errors.
- **Backup and Restore of the whole store.** They use a snapshot format of
  this model's own (module `SnapshotFormat`):
  - buckets and items are listed in ascending key order, as the JSON encoder
    writes map keys, so a backup depends only on the store's contents;
  - when a name repeats, the later record wins.

  `SnapshotFormat.SnapshotRoundTrip` proves that decoding a backup gives back
  exactly the store it was taken from.
- **The command codec and the state-machine adapter** (`fsm.go`).
  - A log entry is one tag byte followed by the serialized
    bucket/key/value command (module `Codec`).
  - `Fsm.BlehFSM.Apply` dispatches on the tag. Tags 0 to 3 perform the
    matching store operation and return its error; any other tag is ignored.
  - `Snapshot` returns the store's backup bytes. `Restore` swaps in a store
    decoded from a snapshot, and keeps the old store when decoding fails.
  - The function `Fsm.Replay` folds the effect of an entry
    (`Fsm.ApplyEntry`) over a log. The lemmas about it state three things:
    - replaying two logs one after the other is replaying their
      concatenation;
    - entries with unknown tags can be dropped;
    - a replica that installs a snapshot and replays the rest of the log
      ends where a replica that replayed the whole log ends.
- **The configuration check** (`config.go`): the defaults, and the rule that
  a storage directory is required.

JSON is replaced by a serializer of this model's own (module `Serial`):
- each character of a string is encoded as three bytes, and the string ends
  with a single terminator byte;
- the command codec and the snapshot format are both built on it;
- round-trip lemmas cover every layer: strings, commands, item lists,
  bucket lists and whole snapshots.

Modules: `Errors` (error values, `Option`, `Result`), `Serial`, `Codec`,
`KeyOrder` (the key order and sorting), `StoreModel`, `SnapshotFormat`,
`Store`, `Fsm` and `Config`.

DeleteBucket deletes the name and then checks whether it is still present,
returning "did not delete" if so (store/bleh_store.go:81-84). The model keeps
that branch: `StoreModel.DeleteBucket` has it, and the error
`BucketNotDeleted` exists. Its contract proves the branch never fires, so
DeleteBucket never fails.

## Model

| member | source | states |
|---|---|---|
| Serial.DecodeString | fsm.go:31-33 | reading a string off the front of a byte sequence either fails with a decode error or returns the string and a strictly shorter remainder that is a suffix of the input |
| Serial.StringRoundTrip | fsm.go:23-33 | decoding the encoding of any string followed by any bytes returns that string and exactly those bytes |
| Codec.Tag | fsm.go:14-21 | the tag byte of each message type is its ordinal: CreateBucket 0, DeleteBucket 1, SetItem 2, DeleteItem 3 |
| Codec.TypeOf | fsm.go:58-72 | a byte names no message type exactly when it is above 3, and otherwise names the type whose tag it is |
| Codec.TagRoundTrip | fsm.go:14-21 | reading the tag of a type back gives that type |
| Codec.EncodeMessage | fsm.go:23-29 | an entry is non-empty, its first byte is the type's tag and the rest is the serialized command |
| Codec.DecodeMessage | fsm.go:31-33 | decoding a payload fails only with a decode error |
| Codec.MessageRoundTrip | fsm.go:23-33 | decoding the bytes after the tag of an encoded entry returns the original command |
| KeyOrder.SortedKeys | store/bleh_store.go:30-36 | the sorted key list has one entry per element of the set, and every entry is an element |
| KeyOrder.SortedKeysMembers | store/bleh_store.go:30-36 | the sorted key list contains a key exactly when the set does |
| KeyOrder.SortedKeysAscending | store/bleh_store.go:30-36 | the sorted key list has no repeats and is in ascending order |
| KeyOrder.SortKeys | store/bleh_store.go:30-36 | the selection loop that repeatedly takes the least remaining key returns exactly the sorted key list |
| StoreModel.CreateBucket | store/bleh_store.go:65-76 | on a present name, an already-exists error and no change; on an absent name, no error, one empty bucket added under that name and every other bucket kept |
| StoreModel.DeleteBucket | store/bleh_store.go:78-87 | never an error: the name is absent afterwards and every other bucket is kept unchanged |
| StoreModel.SetItem | store/bleh_store.go:89-100 | on an absent bucket, a not-found error and no change; otherwise no error, the key holds the value, and every other key and bucket is unchanged |
| StoreModel.Lookup | store/bleh_store.go:143-153 | a key present in a bucket gives its value; an absent key gives a key-not-found error |
| StoreModel.GetItem | store/bleh_store.go:102-112 | bucket-not-found for an absent bucket, key-not-found for an absent key, otherwise the stored value |
| StoreModel.DeleteItem | store/bleh_store.go:120-130 | on an absent bucket, a not-found error and no change; otherwise no error, the key is gone whether or not it was present, and everything else is unchanged |
| StoreModel.GetAfterSet | store/bleh_store.go:89-112 | after setting a key in an existing bucket, reading it returns the value just written |
| StoreModel.GetAfterDelete | store/bleh_store.go:102-130 | after deleting a key of an existing bucket, reading it fails with key-not-found |
| StoreModel.DeleteBucketIdempotent | store/bleh_store.go:78-87 | deleting a bucket twice has the same result and state as deleting it once |
| StoreModel.DeleteAbsentItem | store/bleh_store.go:155-162 | deleting an absent key of an existing bucket succeeds and changes nothing |
| SnapshotFormat.Listing | store/bleh_store.go:30-36 | listing a map for a sequence of keys gives one pair per key |
| SnapshotFormat.FromPairsListing | store/bleh_store.go:38-43 | reading back a listing of a map gives the map restricted to the listed keys |
| SnapshotFormat.ListingCovers | store/bleh_store.go:38-43 | a listing over every key of a map reads back as that map |
| SnapshotFormat.SortedListing | store/bleh_store.go:30-43 | the ascending listing of a map reads back as that map |
| SnapshotFormat.StateOfSnoc | store/bleh_store.go:38-43 | appending a bucket record to a snapshot listing sets that bucket to the record's items, replacing an earlier record with the same name |
| SnapshotFormat.StateOfPrefix | store/bleh_store.go:38-43 | the store denoted by the first j+1 records is the one denoted by the first j with record j set on top |
| SnapshotFormat.ListingRoundTrip | store/bleh_store.go:30-43 | the store a backup listing denotes is the store it was listed from |
| SnapshotFormat.ItemsRoundTrip | store/bleh_store.go:30-43 | decoding an encoded item list followed by any bytes gives back the list and exactly those bytes |
| SnapshotFormat.BucketsRoundTrip | store/bleh_store.go:30-43 | decoding an encoded bucket list followed by any bytes gives back the list and exactly those bytes |
| SnapshotFormat.DecodeItems | store/bleh_store.go:38-43 | reading an item list fails only with a decode error, and on success leaves strictly fewer bytes |
| SnapshotFormat.DecodeBuckets | store/bleh_store.go:38-43 | reading a bucket list fails only with a decode error, and on success leaves strictly fewer bytes |
| SnapshotFormat.Decode | store/bleh_store.go:38-43 | a snapshot that cannot be read fails only with a decode error, the single error Restore passes on |
| SnapshotFormat.SnapshotRoundTrip | store/bleh_store.go:30-43 | restoring a backup reproduces exactly the bucket, key and value mapping that was backed up |
| Store.ValuesOf | store/bleh_store.go:20-22 | a bucket's value view has exactly the bucket's keys |
| Store.ItemsOf | store/bleh_store.go:38-43 | the items built from a key-to-value map have exactly that map as their value view |
| Store.Bucket.constructor | store/bleh_store.go:114-118 | a new bucket holds no items |
| Store.Bucket.From | store/bleh_store.go:38-43 | a bucket decoded from a snapshot holds exactly the decoded items |
| Store.Bucket.Set | store/bleh_store.go:132-141 | the items become the old items with the key set to the value, and there is no error |
| Store.Bucket.Get | store/bleh_store.go:143-153 | the stored value, or key-not-found |
| Store.Bucket.Delete | store/bleh_store.go:155-162 | the items become the old items without the key, and there is no error |
| Store.BlehStore.constructor | store/bleh_store.go:24-28 | a new store is empty and no bucket object is shared |
| Store.BlehStore.ListBuckets | store/bleh_store.go:45-55 | every bucket name appears, each exactly once, and no other name appears |
| Store.BlehStore.BucketExists | store/bleh_store.go:57-63 | true exactly when the name is a bucket of the store |
| Store.BlehStore.CreateBucket | store/bleh_store.go:65-76 | the new contents and the error are those of StoreModel.CreateBucket on the old contents; no bucket object becomes shared, and every bucket object afterwards is an old one or newly allocated |
| Store.BlehStore.DeleteBucket | store/bleh_store.go:78-87 | the new contents and the error are those of StoreModel.DeleteBucket on the old contents, and every remaining bucket object is an old one |
| Store.BlehStore.SetItem | store/bleh_store.go:89-100 | the new contents and the error are those of StoreModel.SetItem on the old contents |
| Store.BlehStore.GetItem | store/bleh_store.go:102-112 | the result is StoreModel.GetItem of the contents |
| Store.BlehStore.DeleteItem | store/bleh_store.go:120-130 | the new contents and the error are those of StoreModel.DeleteItem on the old contents |
| Store.BlehStore.PutBucket | store/bleh_store.go:38-43 | installing a decoded bucket sets exactly that name to the decoded items, and every bucket object afterwards is an old one or newly allocated |
| Store.BlehStore.Backup | store/bleh_store.go:30-36 | the backup bytes are the snapshot encoding of the store's contents |
| Store.Marshal | store/bleh_store.go:34 | serializing the bucket-to-items map gives the snapshot encoding of the contents it denotes |
| Store.ListBucketItems | store/bleh_store.go:34 | the loop lists the named buckets, in order, each with its items in ascending key order |
| Store.ListItems | store/bleh_store.go:34 | a bucket's items are listed in ascending key order, and the list reads back as the bucket |
| Store.Restore | store/bleh_store.go:38-43 | succeeds exactly when the snapshot decodes, with the decode error otherwise; on success, a newly allocated store, all of whose bucket objects are newly allocated, holding exactly the decoded contents |
| Fsm.ApplyPayload | fsm.go:79-133 | a payload that does not decode gives the decode error and no change; otherwise the decoded command's operation is performed |
| Fsm.ApplyEntry | fsm.go:55-73 | an unknown tag changes nothing and gives no error; a known tag applies that type's operation to the decoded payload |
| Fsm.ApplyEncoded | fsm.go:55-68 | applying an encoded entry performs exactly the store operation its type names, with the original bucket, key and value |
| Fsm.DeleteBucketTwice | fsm.go:121-133 | applying the same DeleteBucket entry twice gives no error both times; the bucket is absent and the second application changes nothing |
| Fsm.SetItemMissingBucket | fsm.go:79-91 | applying a SetItem entry for an absent bucket gives bucket-not-found and changes nothing |
| Fsm.ReplayAppend | fsm.go:55-73 | replaying two logs one after the other is replaying their concatenation |
| Fsm.Known | fsm.go:69-71 | the kept entries are exactly the entries of the log whose tag names an operation, and they form a well-formed log no longer than the original |
| Fsm.ReplayIgnoresUnknown | fsm.go:69-71 | dropping every entry with an unknown tag does not change the replayed store |
| Fsm.CatchUp | fsm.go:135-150 | a replica that restores a snapshot taken after a prefix of the log, then replays the rest, ends with the same store as one that replayed the whole log |
| Fsm.SetThenGet | fsm_test.go:92-121 | from an empty store, applying CreateBucket and then SetItem makes the item readable with the value written |
| Fsm.BlehFSM.constructor | fsm.go:46-53 | a new state machine holds an empty store |
| Fsm.BlehFSM.Apply | fsm.go:55-73 | the new contents and the result are exactly ApplyEntry of the old contents and the entry; the active store stays the same object, and its bucket objects afterwards are old ones or newly allocated, so entries can be applied one after another |
| Fsm.BlehFSM.ApplySetItem | fsm.go:79-91 | decode error with no change, or the store's SetItem on the decoded command; the bucket map is the same |
| Fsm.BlehFSM.ApplyDeleteItem | fsm.go:93-105 | decode error with no change, or the store's DeleteItem on the decoded command; the bucket map is the same |
| Fsm.BlehFSM.ApplyCreateBucket | fsm.go:107-119 | decode error with no change, or the store's CreateBucket on the decoded bucket; bucket objects afterwards are old ones or newly allocated |
| Fsm.BlehFSM.ApplyDeleteBucket | fsm.go:121-133 | decode error with no change, or the store's DeleteBucket on the decoded bucket; bucket objects afterwards are old ones or newly allocated |
| Fsm.BlehFSM.Snapshot | fsm.go:135-141 | the snapshot holds the backup encoding of the current contents |
| Fsm.BlehFSM.Restore | fsm.go:143-150 | on a decodable snapshot, no error and the active store holds the decoded contents; on success the active store and its bucket objects are newly allocated; otherwise the decode error, with the previous store still active and unchanged |
| Config.DefaultConfig | config.go:18-23 | the defaults have an empty storage directory, consensus bind ":11000" and RPC bind ":12000" |
| Config.ValidateConfig | config.go:25-31 | an error (storage directory missing) exactly when the storage directory is empty |
| Config.ValidateIgnoresBinds | config.go:25-31 | changing the bind addresses never changes the validation result |
| Config.DefaultNeedsStorageDir | config_test.go:12-26 | the defaults are rejected, and the defaults with any non-empty storage directory are accepted |

## Left out

- Locking (the store-wide and per-bucket read/write mutexes) and every form of concurrency. The model is sequential. The race between Backup and concurrent item writes is not represented.
- The JSON wire format is replaced by the serializer in `Serial`. The JSON decoder would accept inputs that this one rejects: missing or extra fields, whitespace, and escapes. It would also encode a trailing newline. Like the JSON stream decoder, the command decoder ignores bytes after the command it reads.
- Go strings may hold bytes that are not valid UTF-8, which JSON replaces when encoding. Model strings are sequences of Unicode scalar values.
- Store.Restore: the Go function returns the partly filled store together with a decode error. The state machine discards that store, so the model returns only the error. A JSON snapshot `null` (which would install a nil store) has no counterpart in the model's format.
- Codec.EncodeMessage: the Go encodeMessage also returns the JSON encoder's error (fsm.go:27-28). Encoding a struct of three strings into a memory buffer cannot fail, and the model's encoder is total, so no error is returned.
- Store.BlehStore.Backup and Fsm.BlehFSM.Snapshot: the Go versions also return the serializer's error. Marshalling string maps cannot fail, and the model's encoder is total, so no error is returned.
- Fsm.BlehFSM.Apply: the Go code reads the first byte without a length check and would panic on an empty entry. The model requires a non-empty entry instead of modelling the panic.
- The log index passed to the apply helpers is used only in log messages, and the logger is not modelled.
- `Store()` (fsm.go:75-77) is a read of the `store` field, which the model exposes directly.
- `fsmSnapshot.Persist` and `Release` (fsm.go:156-178) write the snapshot to a sink and are I/O. Restore's stream is modelled as the bytes read from it; read failures are not modelled.
- Store.BlehStore.ListBuckets: Go returns names in map iteration order, which is unspecified. The model picks names in an unspecified order and states only that each name appears exactly once.
- The consensus engine's in-order delivery of entries is modelled by the fold `Fsm.Replay`; the loop that hands entries to Apply belongs to the consensus library and is not modelled. server.go (leader gating, commit with timeout, setup and join) is not part of this model, and neither are management_endpoint.go or the example programs: they are wrappers over the consensus and RPC libraries and the HTTP server.
