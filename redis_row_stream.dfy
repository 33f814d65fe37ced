/**
 * The write side of a row stream that persists each record it receives
 * to a key-value store under a fresh key `keyPrefix:eventID`, optionally
 * forwarding selected field values to a full-text search index.
 *
 * What the stream hands to its collaborators is recorded in three fields:
 * `stores`, the store writes submitted, in order; `indexed`, the index
 * submissions, in order; and `events`, the lifecycle events emitted.
 * Submissions are fire-and-forget: the stream never learns their outcome.
 */
module RowStream {
  import opened Wrappers
  import opened Decimal
  import opened Records

  /** One `set(key, value)` sent to the store. */
  datatype StoreWrite = StoreWrite(key: string, value: string)

  /** One `index(text, key)` sent to the search index; `text` is None when the field is absent. */
  datatype IndexRequest = IndexRequest(text: Option<string>, key: string)

  datatype Event = EndEvent | CloseEvent | PauseEvent | DrainEvent | FlushEvent

  /** The two errors `write` throws on misuse. */
  datatype StreamError = WriteAfterEnd | NotWritable

  /**
   * The construction options that the stream reads. An absent keyPrefix or
   * indexedFields is None; an absent `index` is false.
   */
  datatype Options = Options(keyPrefix: Option<string>, index: bool, indexedFields: Option<seq<string>>)

  const NoOptions := Options(None, false, None)

  const DefaultKeyPrefix := "Default"

  /** The key of the record carrying event counter `id`. */
  function Key(prefix: string, id: nat): string {
    prefix + ":" + NatToString(id)
  }

  /** The event counter a key was built from, if it is a key under `prefix`. */
  function ParseKey(prefix: string, key: string): Option<nat> {
    if |key| > |prefix| && key[..|prefix|] == prefix && key[|prefix|] == ':'
    then ParseDecimal(key[|prefix| + 1..])
    else None
  }

  lemma ParseKeyOfKey(prefix: string, id: nat)
    ensures ParseKey(prefix, Key(prefix, id)) == Some(id)
  {
    var key := Key(prefix, id);
    assert key[..|prefix|] == prefix;
    assert key[|prefix| + 1..] == NatToString(id);
    ParseNatToString(id);
  }

  lemma KeyOfParseKey(prefix: string, key: string, id: nat)
    requires ParseKey(prefix, key) == Some(id)
    ensures key == Key(prefix, id)
  {
    NatToStringOfParse(key[|prefix| + 1..], id);
    assert key == key[..|prefix|] + [key[|prefix|]] + key[|prefix| + 1..];
  }

  /** Under one prefix, distinct counters give distinct keys. */
  lemma KeyInjective(prefix: string, m: nat, n: nat)
    requires Key(prefix, m) == Key(prefix, n)
    ensures m == n
  {
    ParseKeyOfKey(prefix, m);
    ParseKeyOfKey(prefix, n);
  }

  /** A key under `prefix` whose counter is below `n`. */
  predicate IssuedKey(prefix: string, key: string, n: nat) {
    ParseKey(prefix, key).Some? && ParseKey(prefix, key).value < n
  }

  /** The keys `prefix:0` to `prefix:(n-1)`. */
  ghost function KeySet(prefix: string, n: nat): set<string> {
    if n == 0 then {} else KeySet(prefix, n - 1) + {Key(prefix, n - 1)}
  }

  /** KeySet holds exactly the keys issued before counter n. */
  lemma {:induction false} KeySetIssued(prefix: string, n: nat)
    ensures forall k :: k in KeySet(prefix, n) <==> IssuedKey(prefix, k, n)
  {
    if n > 0 {
      KeySetIssued(prefix, n - 1);
      ParseKeyOfKey(prefix, n - 1);
      forall k | IssuedKey(prefix, k, n) ensures k in KeySet(prefix, n) {
        KeyOfParseKey(prefix, k, ParseKey(prefix, k).value);
      }
    }
  }

  /** KeySet holds n distinct keys. */
  lemma {:induction false} KeySetSize(prefix: string, n: nat)
    ensures |KeySet(prefix, n)| == n
  {
    if n > 0 {
      KeySetSize(prefix, n - 1);
      KeySetIssued(prefix, n - 1);
      ParseKeyOfKey(prefix, n - 1);
      assert Key(prefix, n - 1) !in KeySet(prefix, n - 1);
    }
  }

  /** The non-empty names of `names`, in order: the ones the index loop acts on. */
  function NonEmptyNames(names: seq<string>): (r: seq<string>)
    ensures |r| <= |names|
    ensures forall x :: x in r <==> x in names && x != ""
  {
    if names == [] then []
    else
      var init := names[..|names| - 1];
      var last := names[|names| - 1];
      assert names == init + [last];
      NonEmptyNames(init) + (if last != "" then [last] else [])
  }

  /** Filtering a concatenation filters each part in turn, so NonEmptyNames keeps list order. */
  lemma {:induction false} NonEmptyNamesAppend(a: seq<string>, b: seq<string>)
    ensures NonEmptyNames(a + b) == NonEmptyNames(a) + NonEmptyNames(b)
    decreases |b|
  {
    if b == [] {
      assert a + b == a;
    } else {
      var init := b[..|b| - 1];
      var last := b[|b| - 1];
      assert (a + b)[..|a + b| - 1] == a + init;
      assert (a + b)[|a + b| - 1] == last;
      NonEmptyNamesAppend(a, init);
    }
  }

  /** Each non-empty name is kept once per occurrence, and the empty name never. */
  lemma {:induction false} NonEmptyNamesCounts(names: seq<string>)
    ensures multiset(NonEmptyNames(names)) == multiset(names)["" := 0]
    decreases |names|
  {
    if names != [] {
      var init := names[..|names| - 1];
      var last := names[|names| - 1];
      assert names == init + [last];
      NonEmptyNamesCounts(init);
    }
  }

  /** A single name survives the filter exactly when it is non-empty. */
  lemma NonEmptyNamesSingle(x: string)
    ensures NonEmptyNames([x]) == if x != "" then [x] else []
  {
  }

  /**
   * The index submissions for `record` stored under `key` when the index
   * fields are `names`: one per non-empty name, in list order, each carrying
   * that field's value (or None) and the record's key.
   */
  function IndexRequests(names: seq<string>, record: Record, key: string): (r: seq<IndexRequest>)
    ensures |r| == |NonEmptyNames(names)|
    ensures forall j :: 0 <= j < |r| ==> r[j] == IndexRequest(Lookup(record.fields, NonEmptyNames(names)[j]), key)
  {
    if names == [] then []
    else
      var last := names[|names| - 1];
      IndexRequests(names[..|names| - 1], record, key) +
      (if last != "" then [IndexRequest(Lookup(record.fields, last), key)] else [])
  }

  /**
   * The logs of a stream that has accepted n records: store write i went to
   * key `prefix:i`, there is exactly one per accepted record, and every
   * index submission names a key already written.
   */
  ghost predicate LogsValid(prefix: string, stores: seq<StoreWrite>, indexed: seq<IndexRequest>, n: nat) {
    && |stores| == n
    && (forall i :: 0 <= i < |stores| ==> stores[i].key == Key(prefix, i))
    && (forall j :: 0 <= j < |indexed| ==> IssuedKey(prefix, indexed[j].key, n))
  }

  /** Accepting one more record under the next key, with index submissions under that key, keeps the logs valid. */
  lemma LogsValidAppend(prefix: string, stores: seq<StoreWrite>, indexed: seq<IndexRequest>, n: nat,
                        value: string, requests: seq<IndexRequest>)
    requires LogsValid(prefix, stores, indexed, n)
    requires forall j :: 0 <= j < |requests| ==> requests[j].key == Key(prefix, n)
    ensures LogsValid(prefix, stores + [StoreWrite(Key(prefix, n), value)], indexed + requests, n + 1)
  {
    ParseKeyOfKey(prefix, n);
    var indexed' := indexed + requests;
    forall j | 0 <= j < |indexed'| ensures IssuedKey(prefix, indexed'[j].key, n + 1) {
      if j >= |indexed| {
        assert indexed'[j] == requests[j - |indexed|];
      }
    }
  }

  class RedisRowStream {
    var writable: bool
    var readable: bool
    var paused: bool
    var ended: bool
    var destroyed: bool
    /** Counts accepted records; appended to every key. */
    var eventID: nat

    const keyPrefix: string
    const index: bool
    const indexedFields: seq<string>
    /** The record serialisation used for every store write. */
    const serialize: Record -> string

    var stores: seq<StoreWrite>
    var indexed: seq<IndexRequest>
    var events: seq<Event>

    /**
     * The stream's logs are those of a stream that has accepted `eventID`
     * records, and a destroyed stream has ended (destroy sets both, and
     * nothing clears either).
     */
    ghost predicate Valid()
      reads this
    {
      && LogsValid(keyPrefix, stores, indexed, eventID)
      && (destroyed ==> ended)
    }

    /** The index submissions a write of `record` under `key` makes. */
    function Submissions(record: Record, key: string): seq<IndexRequest> {
      if index then IndexRequests(indexedFields, record, key) else []
    }

    /** The effect of one accepted write of `record` on the counter and the logs. */
    twostate predicate Accepted(record: Record)
      reads this
    {
      && eventID == old(eventID) + 1
      && stores == old(stores) + [StoreWrite(Key(keyPrefix, old(eventID)), serialize(record))]
      && indexed == old(indexed) + Submissions(record, Key(keyPrefix, old(eventID)))
    }

    twostate predicate FlagsUnchanged()
      reads this
    {
      && writable == old(writable) && readable == old(readable)
      && paused == old(paused) && ended == old(ended) && destroyed == old(destroyed)
    }

    constructor (opts: Option<Options>, serialize: Record -> string)
      ensures Valid()
      ensures writable && readable && !paused && !ended && !destroyed && eventID == 0
      ensures stores == [] && indexed == [] && events == []
      ensures var o := opts.GetOr(NoOptions);
        && keyPrefix == (if o.keyPrefix.Some? && o.keyPrefix.value != "" then o.keyPrefix.value else DefaultKeyPrefix)
        && index == o.index
        && indexedFields == o.indexedFields.GetOr([])
      ensures this.serialize == serialize
    {
      var o := opts.GetOr(NoOptions);
      writable, readable := true, true;
      paused, ended, destroyed := false, false, false;
      eventID := 0;
      index := o.index;
      indexedFields := if o.indexedFields.Some? then o.indexedFields.value else [];
      keyPrefix := if o.keyPrefix.Some? && o.keyPrefix.value != "" then o.keyPrefix.value else DefaultKeyPrefix;
      this.serialize := serialize;
      stores, indexed, events := [], [], [];
    }

    /**
     * Accept one record: store it under the next key, submit its index
     * entries, count it. Fails after end, fails on a non-writable stream,
     * and declines (false, nothing done, nothing buffered) while paused.
     */
    method Write(record: Record) returns (r: Result<bool, StreamError>)
      requires Valid()
      modifies this
      ensures Valid()
      ensures old(ended) ==> r == Failure(WriteAfterEnd) && unchanged(this)
      ensures old(destroyed) ==> r == Failure(WriteAfterEnd)
      ensures !old(ended) && !old(writable) ==> r == Failure(NotWritable) && unchanged(this)
      ensures !old(ended) && old(writable) && old(paused) ==> r == Success(false) && unchanged(this)
      ensures !old(ended) && old(writable) && !old(paused) ==>
        && r == Success(true)
        && Accepted(record)
        && FlagsUnchanged()
        && events == old(events)
    {
      if ended {
        return Failure(WriteAfterEnd);
      }
      if !writable {
        return Failure(NotWritable);
      }
      if paused {
        return Success(false);
      }

      var key := Key(keyPrefix, eventID);
      stores := stores + [StoreWrite(key, serialize(record))];

      if index {
        SubmitIndexRequests(record, key);
      }

      LogsValidAppend(keyPrefix, old(stores), old(indexed), eventID, serialize(record), Submissions(record, key));
      eventID := eventID + 1;
      return Success(true);
    }

    /** The index loop: one submission per non-empty index field name, in list order. */
    method SubmitIndexRequests(record: Record, key: string)
      modifies this`indexed
      ensures indexed == old(indexed) + IndexRequests(indexedFields, record, key)
    {
      var i := 0;
      while i < |indexedFields|
        invariant 0 <= i <= |indexedFields|
        invariant indexed == old(indexed) + IndexRequests(indexedFields[..i], record, key)
      {
        var field := indexedFields[i];
        assert indexedFields[..i + 1] == indexedFields[..i] + [field];
        if field != "" {
          indexed := indexed + [IndexRequest(Lookup(record.fields, field), key)];
        }
        i := i + 1;
      }
      assert indexedFields[..i] == indexedFields;
    }

    /**
     * End the stream, writing `last` first when it is given. Does nothing
     * on an ended or non-writable stream; otherwise the stream ends and
     * emits end then close.
     */
    method End(last: Option<Record>)
      requires Valid()
      modifies this
      ensures Valid()
      ensures old(ended) || !old(writable) ==> unchanged(this)
      ensures !old(ended) && old(writable) ==>
        && ended && !writable && !readable
        && paused == old(paused) && destroyed == old(destroyed)
        && events == old(events) + [EndEvent, CloseEvent]
        && if last.Some? && !old(paused) then Accepted(last.value)
           else eventID == old(eventID) && stores == old(stores) && indexed == old(indexed)
    {
      if ended {
        return;
      }
      if !writable {
        return;
      }
      if last.Some? {
        var _ := Write(last.value);
      }
      ended := true;
      readable := false;
      writable := false;
      events := events + [EndEvent, CloseEvent];
    }

    /** Pause: sets the flag and emits pause, unless already paused. */
    method Pause()
      requires Valid()
      modifies this
      ensures Valid()
      ensures old(paused) ==> unchanged(this)
      ensures !old(paused) ==>
        && paused && events == old(events) + [PauseEvent]
        && writable == old(writable) && readable == old(readable)
        && ended == old(ended) && destroyed == old(destroyed)
        && eventID == old(eventID) && stores == old(stores) && indexed == old(indexed)
    {
      if paused {
        return;
      }
      paused := true;
      events := events + [PauseEvent];
    }

    /** Resume: clears the flag and emits drain, only when paused. */
    method Resume()
      requires Valid()
      modifies this
      ensures Valid()
      ensures !old(paused) ==> unchanged(this)
      ensures old(paused) ==>
        && !paused && events == old(events) + [DrainEvent]
        && writable == old(writable) && readable == old(readable)
        && ended == old(ended) && destroyed == old(destroyed)
        && eventID == old(eventID) && stores == old(stores) && indexed == old(indexed)
    {
      if paused {
        paused := false;
        events := events + [DrainEvent];
      }
    }

    /**
     * Destroy: guarded only by a previous destroy, so it still acts on a
     * stream that has already ended, emitting end and close once more.
     */
    method Destroy()
      requires Valid()
      modifies this
      ensures Valid() && ended
      ensures old(destroyed) ==> unchanged(this)
      ensures !old(destroyed) ==>
        && destroyed && ended && !readable && !writable
        && paused == old(paused)
        && events == old(events) + [EndEvent, CloseEvent]
        && eventID == old(eventID) && stores == old(stores) && indexed == old(indexed)
    {
      if destroyed {
        return;
      }
      destroyed := true;
      ended := true;
      readable := false;
      writable := false;
      events := events + [EndEvent, CloseEvent];
    }

    /** Flush: there is no buffer; only the flush event is emitted. */
    method Flush()
      requires Valid()
      modifies this`events
      ensures Valid()
      ensures events == old(events) + [FlushEvent]
    {
      events := events + [FlushEvent];
    }
  }

  /** The keys of a stream's store writes are pairwise distinct. */
  lemma StoredKeysDistinct(s: RedisRowStream)
    requires s.Valid()
    ensures forall i, j :: 0 <= i < j < |s.stores| ==> s.stores[i].key != s.stores[j].key
  {
    forall i, j | 0 <= i < j < |s.stores|
      ensures s.stores[i].key != s.stores[j].key
    {
      if s.stores[i].key == s.stores[j].key {
        KeyInjective(s.keyPrefix, i, j);
      }
    }
  }

  /** After n accepted writes the store holds exactly the n keys `prefix:0` to `prefix:(n-1)`. */
  lemma StoredKeysAreKeySet(s: RedisRowStream)
    requires s.Valid()
    ensures (set w | w in s.stores :: w.key) == KeySet(s.keyPrefix, s.eventID)
  {
    var written := set w | w in s.stores :: w.key;
    var expected := KeySet(s.keyPrefix, s.eventID);
    KeySetIssued(s.keyPrefix, s.eventID);
    forall k | k in written ensures k in expected {
      var i :| 0 <= i < |s.stores| && s.stores[i].key == k;
      ParseKeyOfKey(s.keyPrefix, i);
    }
    forall k | k in expected ensures k in written {
      var id := ParseKey(s.keyPrefix, k).value;
      KeyOfParseKey(s.keyPrefix, k, id);
      assert s.stores[id].key == k;
    }
  }

  /** After n accepted writes the store holds n distinct keys. */
  lemma StoredKeyCount(s: RedisRowStream)
    requires s.Valid()
    ensures |set w | w in s.stores :: w.key| == s.eventID
  {
    StoredKeysAreKeySet(s);
    KeySetSize(s.keyPrefix, s.eventID);
  }
}
