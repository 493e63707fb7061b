/** Properties relating several driver operations: the connection invariant, idempotent
    teardown, store updates read back, the store surviving a restart, and frames crossing
    the link intact. */
module TiKitBoardProperties {
  import opened Wrappers
  import opened Framing
  import opened Entries
  import opened StorageCodec
  import opened TiKitBoard

  /** Being connected implies holding an open handle. */
  predicate Coherent(s: State) {
    s.connected ==> s.serial.Some? && s.serial.value.isOpen
  }

  /** Every transition keeps a connected driver attached to an open handle. */
  lemma TransitionsKeepCoherent(s: State, probe: Probe, read: ReadOutcome, message: seq<byte>, key: string, value: string)
    requires Coherent(s)
    ensures Coherent(IsBoardConnected(s, probe).0)
    ensures Coherent(ReadSerial(s, probe, read).0)
    ensures Coherent(SendMessage(s, message).0)
    ensures Coherent(WriteKeyToStorage(s, key, value))
    ensures Coherent(RemoveKeyFromStorage(s, key))
  {
  }

  /** Once the liveness check has answered `false`, asking again answers `false` whatever the
      port would say, and changes nothing further. */
  lemma IsBoardConnectedIdempotent(s: State, p1: Probe, p2: Probe)
    requires !IsBoardConnected(s, p1).1
    ensures IsBoardConnected(IsBoardConnected(s, p1).0, p2) == (IsBoardConnected(s, p1).0, false)
  {
  }

  /** A value written while connected is what a following get returns, and no other key's
      reading changes. */
  lemma WriteThenGet(s: State, key: string, value: string, other: string)
    requires Ready(s)
    ensures GetValueFromStorage(WriteKeyToStorage(s, key, value), key) == Some(value)
    ensures other != key ==>
      GetValueFromStorage(WriteKeyToStorage(s, key, value), other) == GetValueFromStorage(s, other)
  {
  }

  /** After a remove while connected, a get of that key returns nothing and no other key's
      reading changes. */
  lemma RemoveThenGet(s: State, key: string, other: string)
    requires Ready(s)
    ensures GetValueFromStorage(RemoveKeyFromStorage(s, key), key) == None
    ensures other != key ==>
      GetValueFromStorage(RemoveKeyFromStorage(s, key), other) == GetValueFromStorage(s, other)
  {
  }

  /** The single-key round trip through the file: after writing `key` while connected to a
      store holding no other key, the file parses back as exactly that one entry. */
  lemma RestartRecoversSingleEntry(s: State, key: string, value: string)
    requires Ready(s) && |s.storage| <= 1 && Keys(s.storage) <= {key}
    requires '=' !in key && NoLineBreak(key) && NoLineBreak(value)
    ensures ParseFile(WriteKeyToStorage(s, key, value).file) == [Entry(key, value)]
  {
    SetOnSingleKey(s.storage, key, value);
    var w := WriteKeyToStorage(s, key, value);
    assert w.file == Some(Serialize([Entry(key, value)]));
    SingleEntryRoundTrip(key, value);
  }

  /** A restart: after writing `key` as above, a new driver with the same configuration is built
      over the file and connects with its default number of attempts (`opens` says which of them
      succeed). A get of `key` then returns the written value iff the reconnection succeeds. */
  method RestartThenGet(s: State, key: string, value: string, opens: nat -> bool) returns (v: Option<string>)
    requires Ready(s) && |s.storage| <= 1 && Keys(s.storage) <= {key}
    requires '=' !in key && NoLineBreak(key) && NoLineBreak(value)
    ensures (exists i :: 0 <= i < AttemptBudget(s.config, None) && opens(i)) ==> v == Some(value)
    ensures !(exists i :: 0 <= i < AttemptBudget(s.config, None) && opens(i)) ==> v == None
  {
    var w := WriteKeyToStorage(s, key, value);
    var c := s.config;
    var restarted := Init(c.port, c.baudRate, c.maxRetries, c.terminator, c.storagePath, w.file);
    assert restarted.config == c;
    RestartRecoversSingleEntry(s, key, value);
    var r, _ := ConnectWithRetries(restarted, None, opens);
    assert r.storage == [Entry(key, value)];
    v := GetValueFromStorage(r, key);
  }

  /** Two connections with no write in between lose the store: the first reload truncates the
      file, so the second reloads nothing and truncates it again, whatever either connection's
      outcome. */
  method ReconnectWithoutWriteLosesStore(s: State, m1: Option<int>, o1: nat -> bool, m2: Option<int>, o2: nat -> bool)
    returns (r1: State, r2: State)
    ensures r1.storage == ParseFile(s.file) && r1.file == Some("")
    ensures r2.storage == [] && r2.file == Some("")
  {
    var a1, a2;
    r1, a1 := ConnectWithRetries(s, m1, o1);
    r2, a2 := ConnectWithRetries(r1, m2, o2);
    assert Parse("") == [];
  }

  /** The whole store and a single get agree: every key reads from `get_full_storage` as
      `get_value_from_storage` returns it, and both give nothing when disconnected. */
  lemma FullStorageAgreesWithGet(s: State, key: string)
    ensures GetFullStorage(s).Some? ==> Get(GetFullStorage(s).value, key) == GetValueFromStorage(s, key)
    ensures GetFullStorage(s).None? ==> GetValueFromStorage(s, key).None?
  {
  }

  /** Setting the only key a store of at most one entry may hold leaves exactly that entry. */
  lemma SetOnSingleKey(t: Table, key: string, value: string)
    requires |t| <= 1 && Keys(t) <= {key}
    ensures Set(t, key, value) == [Entry(key, value)]
  {
    if |t| == 0 {
      assert Keys(t) == {};
    } else {
      assert t[0].key in Keys(t);
    }
  }

  /** The storage file after the driver's first write of the default timer length (the value the
      dashboard stores at start-up) on a freshly connected, empty store. */
  lemma TimerLengthFile(s: State)
    requires Ready(s) && s.storage == []
    ensures WriteKeyToStorage(s, "timer_length", "21600000").file == Some("timer_length=21600000")
  {
    var e := Entry("timer_length", "21600000");
    var t: Table := [];
    assert Keys(t) == {};
    assert Set(t, e.key, e.value) == [e];
    assert Serialize([e]) == Record(e) + Serialize([]) by {
      assert [e][1..] == [];
    }
    assert Serialize([]) == "";
    assert Record(e) + "" == Record(e);
    assert Record(e) == "timer_length=21600000";
    assert WriteKeyToStorage(s, e.key, e.value).file == Some(Serialize([e]));
    assert Some(Serialize([e])) == Some("timer_length=21600000");
  }

  /** A frame crosses the link intact with a one-byte terminator: when the peer sends the bytes
      `send_message` would write, `read_serial` returns exactly the payload. */
  lemma FrameRoundTrip(s: State, message: seq<byte>, rest: seq<byte>, waiting: nat)
    requires Ready(s) && |s.config.terminator| == 1 && s.config.terminator[0] !in message
    requires 0 < waiting
    ensures SendMessage(s, message).1.Some?
    ensures ReadSerial(s, Waiting(waiting),
                       Received(ReadUntil(SendMessage(s, message).1.value + rest, s.config.terminator).0))
            == (s, Some(message))
  {
    var term := s.config.terminator;
    assert term == [term[0]];
    SingleByteTerminatorOnlyAtEnd(message, term[0]);
    ReadUntilFrame(message, term, rest);
    DropLastOfFrame(message, term);
  }

  /** With a terminator of two bytes or more, `read_serial` keeps all but the terminator's last
      byte on the payload, so the payload never comes back alone. */
  lemma MultiByteTerminatorLeftOnPayload(s: State, message: seq<byte>, rest: seq<byte>, waiting: nat)
    requires Ready(s) && |s.config.terminator| >= 2
    requires TerminatorOnlyAtEnd(message, s.config.terminator)
    requires 0 < waiting
    ensures var term := s.config.terminator;
      ReadSerial(s, Waiting(waiting), Received(ReadUntil(Frame(message, term) + rest, term).0))
      == (s, Some(message + term[..|term| - 1]))
    ensures ReadSerial(s, Waiting(waiting),
                       Received(ReadUntil(Frame(message, s.config.terminator) + rest, s.config.terminator).0))
            != (s, Some(message))
  {
    ReadUntilFrame(message, s.config.terminator, rest);
    DropLastOfFrame(message, s.config.terminator);
  }
}
