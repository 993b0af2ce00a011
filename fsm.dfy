/**
 * The replicated state machine adapter. The consensus log hands it committed
 * entries one at a time, in log order; each entry is decoded and applied to
 * the active store, and the operation's error is the entry's result. The
 * adapter also produces snapshots of the store and installs a store decoded
 * from a snapshot.
 */
module Fsm {
  import opened Errors
  import opened Serial
  import opened Codec
  import StoreModel
  import SnapshotFormat
  import Store

  type State = StoreModel.State

  /** The store operation a command of type `t` performs, with its error. */
  function Perform(s: State, t: MessageType, c: Command): (r: (State, Option<Error>)) {
    match t
    case CreateBucketRequest => StoreModel.CreateBucket(s, c.bucket)
    case DeleteBucketRequest => StoreModel.DeleteBucket(s, c.bucket)
    case SetItemRequest => StoreModel.SetItem(s, c.bucket, c.key, c.value)
    case DeleteItemRequest => StoreModel.DeleteItem(s, c.bucket, c.key)
  }

  /**
   * What one of the four apply helpers does with a payload: a payload that
   * does not decode is the decode error and leaves the store alone; otherwise
   * the decoded command is performed.
   */
  function ApplyPayload(s: State, t: MessageType, payload: seq<byte>): (r: (State, Option<Error>))
    ensures DecodeMessage(payload).Failure? ==> r == (s, Some(DecodeError))
    ensures DecodeMessage(payload).Success? ==> r == Perform(s, t, DecodeMessage(payload).value)
  {
    match DecodeMessage(payload)
    case Failure(e) => (s, Some(e))
    case Success(c) => Perform(s, t, c)
  }

  /**
   * The effect of one log entry: its first byte picks the operation, and a
   * tag that names no operation is ignored without an error.
   */
  function ApplyEntry(s: State, data: seq<byte>): (r: (State, Option<Error>))
    requires |data| > 0
    ensures TypeOf(data[0]).None? ==> r == (s, None)
    ensures TypeOf(data[0]).Some? ==> r == ApplyPayload(s, TypeOf(data[0]).value, data[1..])
  {
    match TypeOf(data[0])
    case None => (s, None)
    case Some(t) => ApplyPayload(s, t, data[1..])
  }

  /** Every entry has a tag byte. */
  predicate WellFormed(log: seq<seq<byte>>) {
    forall i :: 0 <= i < |log| ==> |log[i]| > 0
  }

  /** The store after applying every entry of `log`, in order, starting from `s`. */
  function Replay(s: State, log: seq<seq<byte>>): (t: State)
    requires WellFormed(log)
    decreases |log|
  {
    if log == [] then s
    else
      assert WellFormed(log[1..]) by {
        forall i | 0 <= i < |log| - 1 ensures |log[1..][i]| > 0 { assert log[1..][i] == log[i + 1]; }
      }
      Replay(ApplyEntry(s, log[0]).0, log[1..])
  }

  /** An encoded command, once applied, performs exactly the operation it names. */
  lemma ApplyEncoded(s: State, t: MessageType, c: Command)
    ensures ApplyEntry(s, EncodeMessage(t, c)) == Perform(s, t, c)
  {
    TagRoundTrip(t);
    MessageRoundTrip(t, c);
  }

  /** Applying a DeleteBucket entry twice gives no error either time and leaves the bucket absent. */
  lemma DeleteBucketTwice(s: State, name: string)
    ensures var e := EncodeMessage(DeleteBucketRequest, Command(name, "", ""));
      var r1 := ApplyEntry(s, e);
      var r2 := ApplyEntry(r1.0, e);
      r1.1 == None && r2.1 == None && name !in r1.0 && r2.0 == r1.0
  {
    var c := Command(name, "", "");
    ApplyEncoded(s, DeleteBucketRequest, c);
    ApplyEncoded(ApplyEntry(s, EncodeMessage(DeleteBucketRequest, c)).0, DeleteBucketRequest, c);
    StoreModel.DeleteBucketIdempotent(s, name);
  }

  /** A SetItem entry for a bucket that does not exist is an error and changes nothing. */
  lemma SetItemMissingBucket(s: State, c: Command)
    requires c.bucket !in s
    ensures ApplyEntry(s, EncodeMessage(SetItemRequest, c)) == (s, Some(BucketNotFound(c.bucket)))
  {
    ApplyEncoded(s, SetItemRequest, c);
  }

  /** Replaying two logs one after the other is replaying their concatenation. */
  lemma {:induction false} ReplayAppend(s: State, a: seq<seq<byte>>, b: seq<seq<byte>>)
    requires WellFormed(a) && WellFormed(b)
    ensures WellFormed(a + b)
    ensures Replay(s, a + b) == Replay(Replay(s, a), b)
    decreases |a|
  {
    assert forall i :: 0 <= i < |a + b| ==> (a + b)[i] == if i < |a| then a[i] else b[i - |a|];
    if a == [] {
      assert a + b == b;
    } else {
      var s' := ApplyEntry(s, a[0]).0;
      assert (a + b)[0] == a[0] && (a + b)[1..] == a[1..] + b;
      ReplayAppend(s', a[1..], b);
      assert Replay(s, a + b) == Replay(s', a[1..] + b);
      assert Replay(s, a) == Replay(s', a[1..]);
    }
  }

  /** The entries of `log` whose tag names an operation. */
  function Known(log: seq<seq<byte>>): (k: seq<seq<byte>>)
    requires WellFormed(log)
    ensures WellFormed(k) && |k| <= |log|
    ensures forall e :: e in k ==> e in log && TypeOf(e[0]).Some?
    ensures forall e :: e in log && TypeOf(e[0]).Some? ==> e in k
    decreases |log|
  {
    if log == [] then []
    else if TypeOf(log[0][0]).None? then Known(log[1..])
    else [log[0]] + Known(log[1..])
  }

  /** Entries with unknown tags can be dropped from a log without changing the replayed store. */
  lemma {:induction false} ReplayIgnoresUnknown(s: State, log: seq<seq<byte>>)
    requires WellFormed(log)
    ensures Replay(s, Known(log)) == Replay(s, log)
    decreases |log|
  {
    if log != [] {
      ReplayIgnoresUnknown(ApplyEntry(s, log[0]).0, log[1..]);
      if TypeOf(log[0][0]).Some? {
        var k := [log[0]] + Known(log[1..]);
        assert k[0] == log[0] && k[1..] == Known(log[1..]);
      }
    }
  }

  /**
   * A replica that installs a snapshot taken after the prefix `a` of the log
   * and then replays the rest `b` ends with the same store as a replica that
   * replayed the whole log.
   */
  lemma CatchUp(s: State, a: seq<seq<byte>>, b: seq<seq<byte>>)
    requires WellFormed(a) && WellFormed(b)
    ensures WellFormed(a + b)
    ensures var restored := SnapshotFormat.Decode(SnapshotFormat.Encode(Replay(s, a)));
      restored.Success? && Replay(restored.value, b) == Replay(s, a + b)
  {
    SnapshotFormat.SnapshotRoundTrip(Replay(s, a));
    ReplayAppend(s, a, b);
  }

  /** Replaying a two-entry log applies the first entry, then the second. */
  lemma ReplayTwo(s: State, e1: seq<byte>, e2: seq<byte>)
    requires |e1| > 0 && |e2| > 0
    ensures WellFormed([e1, e2])
    ensures Replay(s, [e1, e2]) == ApplyEntry(ApplyEntry(s, e1).0, e2).0
  {
    var t := ApplyEntry(s, e1).0;
    assert [e1, e2][0] == e1 && [e1, e2][1..] == [e2];
    assert Replay(s, [e1, e2]) == Replay(t, [e2]);
    assert [e2][0] == e2 && [e2][1..] == [];
    assert Replay(t, [e2]) == Replay(ApplyEntry(t, e2).0, []);
  }

  /**
   * A fresh state machine that applies CreateBucket for a bucket and then
   * SetItem in it reads the value back.
   */
  lemma SetThenGet(bucket: string, key: string, value: string)
    ensures var log := [EncodeMessage(CreateBucketRequest, Command(bucket, "", "")),
                        EncodeMessage(SetItemRequest, Command(bucket, key, value))];
      WellFormed(log) && StoreModel.GetItem(Replay(StoreModel.Empty, log), bucket, key) == Success(value)
  {
    var e1 := EncodeMessage(CreateBucketRequest, Command(bucket, "", ""));
    var e2 := EncodeMessage(SetItemRequest, Command(bucket, key, value));
    ApplyEncoded(StoreModel.Empty, CreateBucketRequest, Command(bucket, "", ""));
    var s1 := ApplyEntry(StoreModel.Empty, e1).0;
    assert bucket in s1;
    ApplyEncoded(s1, SetItemRequest, Command(bucket, key, value));
    ReplayTwo(StoreModel.Empty, e1, e2);
    StoreModel.GetAfterSet(s1, bucket, key, value);
  }

  /** A snapshot: the store's backup bytes, held until the log persists them. */
  datatype FsmSnapshot = FsmSnapshot(snap: seq<byte>)

  class BlehFSM {
    var store: Store.BlehStore

    ghost predicate Valid()
      reads this, store
    {
      store.Valid()
    }

    /** The contents of the active store. */
    ghost function State(): (s: State)
      reads this, store, store.buckets.Values
    {
      store.Contents()
    }

    /** A state machine over a new, empty store. */
    constructor ()
      ensures Valid() && State() == StoreModel.Empty
    {
      store := new Store.BlehStore();
    }

    /** Applies one committed log entry; the result is the operation's error, if any. */
    method Apply(data: seq<byte>) returns (resp: Option<Error>)
      requires Valid() && |data| > 0
      modifies store, store.buckets.Values
      ensures Valid() && store == old(store)
      ensures (State(), resp) == ApplyEntry(old(State()), data)
      ensures forall b :: b in store.buckets.Values ==> b in old(store.buckets.Values) || fresh(b)
    {
      match TypeOf(data[0])
      case None =>
        resp := None;
      case Some(t) =>
        match t
        case CreateBucketRequest => resp := ApplyCreateBucket(data[1..]);
        case DeleteBucketRequest => resp := ApplyDeleteBucket(data[1..]);
        case SetItemRequest => resp := ApplySetItem(data[1..]);
        case DeleteItemRequest => resp := ApplyDeleteItem(data[1..]);
    }

    method ApplySetItem(payload: seq<byte>) returns (resp: Option<Error>)
      requires Valid()
      modifies store.buckets.Values
      ensures Valid()
      ensures (State(), resp) == ApplyPayload(old(State()), SetItemRequest, payload)
      ensures store.buckets == old(store.buckets)
    {
      var c := DecodeMessage(payload);
      if c.Failure? {
        return Some(c.error);
      }
      resp := store.SetItem(c.value.bucket, c.value.key, c.value.value);
    }

    method ApplyDeleteItem(payload: seq<byte>) returns (resp: Option<Error>)
      requires Valid()
      modifies store.buckets.Values
      ensures Valid()
      ensures (State(), resp) == ApplyPayload(old(State()), DeleteItemRequest, payload)
      ensures store.buckets == old(store.buckets)
    {
      var c := DecodeMessage(payload);
      if c.Failure? {
        return Some(c.error);
      }
      resp := store.DeleteItem(c.value.bucket, c.value.key);
    }

    method ApplyCreateBucket(payload: seq<byte>) returns (resp: Option<Error>)
      requires Valid()
      modifies store
      ensures Valid()
      ensures (State(), resp) == ApplyPayload(old(State()), CreateBucketRequest, payload)
      ensures forall b :: b in store.buckets.Values ==> b in old(store.buckets.Values) || fresh(b)
    {
      var c := DecodeMessage(payload);
      if c.Failure? {
        return Some(c.error);
      }
      resp := store.CreateBucket(c.value.bucket);
    }

    method ApplyDeleteBucket(payload: seq<byte>) returns (resp: Option<Error>)
      requires Valid()
      modifies store
      ensures Valid()
      ensures (State(), resp) == ApplyPayload(old(State()), DeleteBucketRequest, payload)
      ensures forall b :: b in store.buckets.Values ==> b in old(store.buckets.Values) || fresh(b)
    {
      var c := DecodeMessage(payload);
      if c.Failure? {
        return Some(c.error);
      }
      resp := store.DeleteBucket(c.value.bucket);
    }

    /** A snapshot of the active store: its backup bytes. */
    method Snapshot() returns (s: FsmSnapshot)
      ensures s.snap == SnapshotFormat.Encode(State())
    {
      var data := store.Backup();
      s := FsmSnapshot(data);
    }

    /**
     * Installs the store a snapshot denotes. On a decode error the previous
     * store stays active and the error is returned.
     */
    method Restore(data: seq<byte>) returns (err: Option<Error>)
      requires Valid()
      modifies this
      ensures Valid()
      ensures SnapshotFormat.Decode(data).Success? ==>
        err == None && State() == SnapshotFormat.Decode(data).value
      ensures SnapshotFormat.Decode(data).Failure? ==>
        err == Some(SnapshotFormat.Decode(data).error) && store == old(store) && State() == old(State())
      ensures SnapshotFormat.Decode(data).Success? ==>
        fresh(store) && forall b :: b in store.buckets.Values ==> fresh(b)
    {
      var r := Store.Restore(data);
      if r.Failure? {
        return Some(r.error);
      }
      store := r.value;
      err := None;
    }
  }
}
