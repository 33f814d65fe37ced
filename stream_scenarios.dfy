/**
 * Client runs of the stream, following the repository's tests and
 * examples. Each method drives a fresh stream and states, from the
 * stream's contracts alone, what it hands to the store, the index and
 * its listeners.
 */
module StreamScenarios {
  import opened Wrappers
  import opened Decimal
  import opened Records
  import opened RowStream

  /**
   * Three records written to a stream with prefix "stringRowTest": the
   * store receives the keys ":0" to ":2", and key ":2" holds the
   * serialised third record.
   */
  method StringRowScenario(serialize: Record -> string, a: Record, b: Record, c: Record)
    returns (keys: seq<string>, third: StoreWrite)
    ensures keys == ["stringRowTest:0", "stringRowTest:1", "stringRowTest:2"]
    ensures third == StoreWrite("stringRowTest:2", serialize(c))
  {
    assert Key("stringRowTest", 0) == "stringRowTest:0" by { assert NatToString(0) == "0"; }
    assert Key("stringRowTest", 1) == "stringRowTest:1" by { assert NatToString(1) == "1"; }
    assert Key("stringRowTest", 2) == "stringRowTest:2" by { assert NatToString(2) == "2"; }
    var s := new RedisRowStream(Some(Options(Some("stringRowTest"), false, None)), serialize);
    assert s.keyPrefix == "stringRowTest";
    var _ := s.Write(a);
    var _ := s.Write(b);
    var _ := s.Write(c);
    var st := s.stores;
    assert st[0].key == Key("stringRowTest", 0) && st[1].key == Key("stringRowTest", 1);
    assert st[2] == StoreWrite(Key("stringRowTest", 2), serialize(c));
    keys := [st[0].key, st[1].key, st[2].key];
    third := s.stores[2];
  }

  /** The same three writes leave exactly three distinct keys in the store. */
  method StringRowKeyCountScenario(serialize: Record -> string, a: Record, b: Record, c: Record)
    returns (distinct: set<string>)
    ensures |distinct| == 3
  {
    var s := new RedisRowStream(Some(Options(Some("stringRowTest"), false, None)), serialize);
    var _ := s.Write(a);
    var _ := s.Write(b);
    var _ := s.Write(c);
    distinct := set w | w in s.stores :: w.key;
    StoredKeyCount(s);
  }

  /**
   * Indexing on, with the index fields "A label", "" and "D label": the
   * empty name is skipped, a name the record lacks still submits its
   * (absent) value, and every submission carries the record's key.
   */
  method IndexScenario(serialize: Record -> string)
    returns (submitted: seq<IndexRequest>, stored: seq<StoreWrite>)
    ensures submitted == [IndexRequest(Some("56"), "addData:0"), IndexRequest(None, "addData:0")]
    ensures |stored| == 1 && stored[0].key == "addData:0"
  {
    var row := Record([Field("A label", "56"), Field("B label", "78"), Field("C label", "90")]);
    var names := ["A label", "", "D label"];
    assert Key("addData", 0) == "addData:0" by { assert NatToString(0) == "0"; }
    assert IndexRequests(names, row, "addData:0") == [IndexRequest(Some("56"), "addData:0"), IndexRequest(None, "addData:0")] by {
      assert Lookup(row.fields, "A label") == Some("56");
      assert Lookup(row.fields, "D label") == None;
      assert NonEmptyNames(names) == ["A label", "D label"] by {
        assert names[..2] == ["A label", ""];
        assert names[..2][..1] == ["A label"];
        assert names[..2][..1][..0] == [];
      }
    }
    var s := new RedisRowStream(Some(Options(Some("addData"), true, Some(names))), serialize);
    var _ := s.Write(row);
    submitted, stored := s.indexed, s.stores;
  }

  /**
   * A record written while paused is declined and not kept; after resume
   * the next write is accepted under the first key.
   */
  method PauseResumeScenario(serialize: Record -> string, declined: Record, accepted: Record)
    returns (whilePaused: Result<bool, StreamError>, afterResume: Result<bool, StreamError>,
             stored: seq<StoreWrite>, events: seq<Event>)
    ensures whilePaused == Success(false) && afterResume == Success(true)
    ensures stored == [StoreWrite("Default:0", serialize(accepted))]
    ensures events == [PauseEvent, DrainEvent]
  {
    assert Key("Default", 0) == "Default:0" by { assert NatToString(0) == "0"; }
    var s := new RedisRowStream(Some(NoOptions), serialize);
    s.Pause();
    s.Pause();
    whilePaused := s.Write(declined);
    s.Resume();
    s.Resume();
    assert s.eventID == 0 && s.stores == [];
    assert s.keyPrefix == "Default";
    afterResume := s.Write(accepted);
    stored, events := s.stores, s.events;
  }

  /**
   * end with a final record writes it and closes; a second end does
   * nothing; destroy afterwards still emits end and close; every later
   * write fails with "write after end".
   */
  method TerminalScenario(serialize: Record -> string, final: Record, late: Record)
    returns (afterEnd: Result<bool, StreamError>, stored: seq<StoreWrite>, events: seq<Event>)
    ensures afterEnd == Failure(WriteAfterEnd)
    ensures stored == [StoreWrite("Default:0", serialize(final))]
    ensures events == [EndEvent, CloseEvent, EndEvent, CloseEvent]
  {
    assert Key("Default", 0) == "Default:0" by { assert NatToString(0) == "0"; }
    var s := new RedisRowStream(None, serialize);
    s.End(Some(final));
    s.End(None);
    s.Destroy();
    s.Destroy();
    afterEnd := s.Write(late);
    stored, events := s.stores, s.events;
  }

  /** A stream whose writable flag was cleared from outside rejects writes, counter and logs untouched. */
  method NotWritableScenario(serialize: Record -> string, r: Record)
    returns (result: Result<bool, StreamError>, stored: seq<StoreWrite>, counter: nat)
    ensures result == Failure(NotWritable) && stored == [] && counter == 0
  {
    var s := new RedisRowStream(None, serialize);
    s.writable := false;
    result := s.Write(r);
    stored, counter := s.stores, s.eventID;
  }

  /**
   * On any valid stream, once destroy has been called every write fails
   * with "write after end"; once end has been called every write fails
   * (with "write after end", or "not a writable stream" when end found the
   * stream already non-writable and did nothing).
   */
  method ClosedStreamRejectsWrites(s: RedisRowStream, r: Record, viaDestroy: bool)
    returns (result: Result<bool, StreamError>)
    requires s.Valid()
    modifies s
    ensures viaDestroy ==> result == Failure(WriteAfterEnd)
    ensures !viaDestroy ==> result.Failure?
    ensures viaDestroy ==> s.stores == old(s.stores) && s.eventID == old(s.eventID)
  {
    if viaDestroy {
      s.Destroy();
      s.Destroy();
    } else {
      s.End(None);
    }
    result := s.Write(r);
  }
}
