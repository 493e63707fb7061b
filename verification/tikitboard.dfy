/** The `TiKitBoard` host driver: a connection flag, an optional serial handle, the in-memory
    store and the content of the storage file, with one transition per public operation.
    Everything the serial port or the file system would decide is passed in as an outcome. */
module TiKitBoard {
  import opened Wrappers
  import opened Framing
  import opened Entries
  import opened StorageCodec

  const DefaultBaudRate: int := 9600
  const DefaultMaxRetries: int := 3
  const DefaultTerminator: seq<byte> := [Newline]
  const DefaultStoragePath: string := "data.txt"
  /** Read timeout, in seconds, the driver opens the port with. */
  const ReadTimeout: int := 1

  /** Construction parameters, fixed for the life of the driver. */
  datatype Config = Config(
    port: string,
    baudRate: int,
    maxRetries: int,
    terminator: seq<byte>,
    storagePath: string)

  /** An open-or-closed serial handle on a named port. */
  datatype Port = Port(name: string, baudRate: int, timeout: int, isOpen: bool)

  /** The driver's fields, plus the content of the storage file (`None`: no such file). */
  datatype State = State(
    config: Config,
    connected: bool,
    serial: Option<Port>,
    storage: Table,
    file: Option<string>)

  /** What reading the port's `in_waiting` count gives: a count, or a raised I/O error. */
  datatype Probe = Waiting(count: nat) | ProbeFails

  /** What `read_until` gives: the bytes read, or a raised I/O error. */
  datatype ReadOutcome = Received(data: seq<byte>) | ReadFails

  /** The guard every gated operation starts with: `connected and serial is not None`. */
  predicate Ready(s: State) {
    s.connected && s.serial.Some?
  }

  /** The handle `serial.Serial(port, baud_rate, timeout=1)` returns: open on the configured port. */
  function OpenPort(c: Config): (p: Port)
    ensures p.isOpen && p.name == c.port && p.baudRate == c.baudRate
  {
    Port(c.port, c.baudRate, ReadTimeout, true)
  }

  /** `TiKitBoard(port, ...)`: disconnected, no handle, empty store; the file on disk is whatever
      it was. */
  function Init(port: string, baudRate: int, maxRetries: int, terminator: seq<byte>, storagePath: string,
                file: Option<string>): (s: State)
    ensures !Ready(s) && !s.connected && s.serial.None?
    ensures s.storage == [] && s.file == file
    ensures s.config.port == port && s.config.baudRate == baudRate && s.config.maxRetries == maxRetries
    ensures s.config.terminator == terminator && s.config.storagePath == storagePath
  {
    State(Config(port, baudRate, maxRetries, terminator, storagePath), false, None, [], file)
  }

  /** `TiKitBoard(port)` with every other parameter left at its default. */
  function InitDefault(port: string, file: Option<string>): (s: State)
    ensures s.config.baudRate == 9600 && s.config.maxRetries == 3
    ensures s.config.terminator == [10 as byte] && s.config.storagePath == "data.txt"
    ensures !Ready(s) && s.storage == [] && s.file == file
  {
    Init(port, DefaultBaudRate, DefaultMaxRetries, DefaultTerminator, DefaultStoragePath, file)
  }

  /** `_init_storage`: the store is cleared and refilled from the file (empty if there is none),
      then the file is truncated. Connection fields are untouched. */
  function InitStorage(s: State): (r: State)
    ensures r.storage == ParseFile(s.file) && r.file == Some("")
    ensures UniqueKeys(r.storage)
    ensures r.config == s.config && r.connected == s.connected && r.serial == s.serial
  {
    s.(storage := ParseFile(s.file), file := Some(""))
  }

  /** `_write_to_storage`: when ready, the file becomes the serialised store; otherwise nothing. */
  function WriteToStorage(s: State): (r: State)
    ensures Ready(s) ==> r.file == Some(Serialize(s.storage))
    ensures !Ready(s) ==> r == s
    ensures r.config == s.config && r.connected == s.connected && r.serial == s.serial && r.storage == s.storage
  {
    if !Ready(s) then s else s.(file := Some(Serialize(s.storage)))
  }

  /** Number of open attempts a `max_retries` argument allows: the instance default when it is
      `None`, and none when it is not positive. */
  function AttemptBudget(c: Config, maxRetries: Option<int>): (n: nat)
    ensures maxRetries.None? ==> n == (if c.maxRetries < 0 then 0 else c.maxRetries)
    ensures maxRetries.Some? && maxRetries.value >= 0 ==> n == maxRetries.value
    ensures maxRetries.Some? && maxRetries.value < 0 ==> n == 0
  {
    var limit := maxRetries.GetOr(c.maxRetries);
    if limit < 0 then 0 else limit
  }

  /** `connect_with_retries(max_retries)`. `opens(i)` says whether the `i`-th call to open the
      port (counting from 0) succeeds. The loop stops at the first success or after the budget
      of failures; `attempts` counts the open calls made. The store is reloaded from the file,
      and the file truncated, whatever the outcome. */
  method ConnectWithRetries(s: State, maxRetries: Option<int>, opens: nat -> bool) returns (r: State, attempts: nat)
    ensures attempts <= AttemptBudget(s.config, maxRetries)
    ensures r.connected <==> exists i :: 0 <= i < AttemptBudget(s.config, maxRetries) && opens(i)
    ensures r.connected ==>
      && 0 < attempts && opens(attempts - 1)
      && (forall i :: 0 <= i < attempts - 1 ==> !opens(i))
      && r.serial == Some(OpenPort(s.config))
    ensures !r.connected ==>
      && attempts == AttemptBudget(s.config, maxRetries)
      && (forall i :: 0 <= i < attempts ==> !opens(i))
      && r.serial == None
    ensures r.storage == ParseFile(s.file) && r.file == Some("")
    ensures r.config == s.config
  {
    var budget := AttemptBudget(s.config, maxRetries);
    var numTries: nat := 0;
    var connected := false;
    var serial: Option<Port> := None;
    attempts := 0;
    while numTries < budget && !connected
      invariant numTries <= budget
      invariant attempts == numTries + (if connected then 1 else 0)
      invariant forall i :: 0 <= i < numTries ==> !opens(i)
      invariant connected ==> numTries < budget && opens(numTries) && serial == Some(OpenPort(s.config))
      invariant !connected ==> serial == None
      decreases budget - numTries + (if connected then 0 else 1)
    {
      if opens(numTries) {
        serial := Some(OpenPort(s.config));
        connected := true;
      } else {
        numTries := numTries + 1;
      }
      attempts := attempts + 1;
    }
    r := InitStorage(s.(connected := connected, serial := serial));
  }

  /** Closing and dropping the handle after an I/O error (a failing `close` is ignored). */
  function Teardown(s: State): (r: State)
    ensures !r.connected && r.serial == None && !Ready(r)
    ensures r.config == s.config && r.storage == s.storage && r.file == s.file
  {
    s.(connected := false, serial := None)
  }

  /** `is_board_connected()`: with no handle, or a closed one, the flag is cleared and nothing is
      probed; otherwise the `in_waiting` probe either confirms the link or tears it down. The
      answer is always the flag's final value. */
  function IsBoardConnected(s: State, probe: Probe): (r: (State, bool))
    ensures r.1 == r.0.connected
    ensures r.0.config == s.config && r.0.storage == s.storage && r.0.file == s.file
    ensures (s.serial.None? || !s.serial.value.isOpen) ==> r.0 == s.(connected := false) && !r.1
    ensures s.serial.Some? && s.serial.value.isOpen && probe.Waiting? ==> r.0 == s.(connected := true) && r.1
    ensures s.serial.Some? && s.serial.value.isOpen && probe.ProbeFails? ==> r.0 == Teardown(s) && !r.1
  {
    if s.serial.None? || !s.serial.value.isOpen then (s.(connected := false), false)
    else match probe
      case Waiting(_) => (s.(connected := true), true)
      case ProbeFails => (Teardown(s), false)
  }

  /** `read_serial()`: when ready and bytes are waiting, one `read_until` result minus its last
      byte. No waiting bytes gives `None` and changes nothing; an I/O error from the probe or the
      read tears the connection down and gives `None`. */
  function ReadSerial(s: State, probe: Probe, read: ReadOutcome): (r: (State, Option<seq<byte>>))
    ensures !Ready(s) ==> r == (s, None)
    ensures Ready(s) && probe == Waiting(0) ==> r == (s, None)
    ensures Ready(s) && (probe.ProbeFails? || (probe.Waiting? && probe.count > 0 && read.ReadFails?)) ==>
      r == (Teardown(s), None)
    ensures Ready(s) && probe.Waiting? && probe.count > 0 && read.Received? ==>
      && r.0 == s
      && r.1.Some?
      && (|read.data| > 0 ==> r.1.value + [read.data[|read.data| - 1]] == read.data)
      && (|read.data| == 0 ==> r.1.value == [])
  {
    if !Ready(s) then (s, None)
    else match probe
      case ProbeFails => (Teardown(s), None)
      case Waiting(n) =>
        if n == 0 then (s, None)
        else match read
          case ReadFails => (Teardown(s), None)
          case Received(data) => (s, Some(DropLast(data)))
  }

  /** `send_message(message)`: when ready, hands `message` followed by the terminator to the port
      in one write; otherwise writes nothing. No state changes either way (a failing write is
      not caught here and reaches the caller). */
  function SendMessage(s: State, message: seq<byte>): (r: (State, Option<seq<byte>>))
    ensures r.0 == s
    ensures r.1.Some? <==> Ready(s)
    ensures r.1.Some? ==>
      && |r.1.value| == |message| + |s.config.terminator|
      && r.1.value[..|message|] == message
      && r.1.value[|message|..] == s.config.terminator
  {
    if !Ready(s) then (s, None) else (s, Some(Frame(message, s.config.terminator)))
  }

  /** `write_key_to_storage(key, value)`: when ready, sets the key and rewrites the whole file. */
  function WriteKeyToStorage(s: State, key: string, value: string): (r: State)
    ensures !Ready(s) ==> r == s
    ensures Ready(s) ==>
      && r.storage == Set(s.storage, key, value)
      && ToMap(r.storage) == ToMap(s.storage)[key := value]
      && (UniqueKeys(s.storage) ==> UniqueKeys(r.storage))
      && r.file == Some(Serialize(r.storage))
      && r.config == s.config && r.connected == s.connected && r.serial == s.serial
  {
    if !Ready(s) then s
    else
      SetMap(s.storage, key, value);
      assert UniqueKeys(s.storage) ==> UniqueKeys(Set(s.storage, key, value)) by {
        if UniqueKeys(s.storage) { SetUnique(s.storage, key, value); }
      }
      WriteToStorage(s.(storage := Set(s.storage, key, value)))
  }

  /** `remove_key_from_storage(key)`: when ready, drops the key if present and rewrites the whole
      file, even when the key was absent. */
  function RemoveKeyFromStorage(s: State, key: string): (r: State)
    ensures !Ready(s) ==> r == s
    ensures Ready(s) ==>
      && r.storage == Remove(s.storage, key)
      && ToMap(r.storage) == ToMap(s.storage) - {key}
      && (UniqueKeys(s.storage) ==> UniqueKeys(r.storage))
      && key !in Keys(r.storage)
      && (key !in Keys(s.storage) ==> r.storage == s.storage)
      && r.file == Some(Serialize(r.storage))
      && r.config == s.config && r.connected == s.connected && r.serial == s.serial
  {
    if !Ready(s) then s
    else
      RemoveMap(s.storage, key);
      assert UniqueKeys(s.storage) ==> UniqueKeys(Remove(s.storage, key)) by {
        if UniqueKeys(s.storage) { RemoveUnique(s.storage, key); }
      }
      WriteToStorage(s.(storage := Remove(s.storage, key)))
  }

  /** `get_value_from_storage(key)`: the stored value when ready and the key is present,
      otherwise `None`. */
  function GetValueFromStorage(s: State, key: string): (r: Option<string>)
    ensures r.Some? <==> Ready(s) && key in ToMap(s.storage)
    ensures r.Some? ==> r.value == ToMap(s.storage)[key]
  {
    if !Ready(s) then None else Get(s.storage, key)
  }

  /** `get_full_storage()`: the whole store when ready, otherwise `None`. */
  function GetFullStorage(s: State): (r: Option<Table>)
    ensures r.Some? <==> Ready(s)
    ensures r.Some? ==> r.value == s.storage
  {
    if !Ready(s) then None else Some(s.storage)
  }
}
