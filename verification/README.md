# TiKitBoard host driver — Dafny model

This project models the `TiKitBoard` class that drives a TI Kit microcontroller board over a
serial link (`ti_kit_board_communication/main.py`). The model has three parts:

- **Connection state machine.** `connect_with_retries` opens the port with a bounded number of
  attempts. `is_board_connected` probes the port and tears the link down when the probe fails.
  `read_serial` tears the link down on a read error.
- **Framing.** An outbound frame is the payload followed by the terminator. An inbound frame is
  the `read_until` result with its last byte dropped.
- **Persistent key/value store.** The store is an insertion-ordered dict mirrored to one text
  file. Each call of `connect_with_retries` loads it and then truncates the file, once, after
  its retry loop. The whole file is rewritten after every mutation.

The driver is an immutable record `TiKitBoard.State` holding:

- `config`: port, baud rate, maximum retries, terminator and storage path;
- `connected`: the connection flag;
- `serial`: the optional port handle;
- `storage`: the store's entries in insertion order;
- `file`: the storage file's content, where `None` means there is no such file.

Every public method is a transition function on this record. What the serial port or the file
system would decide is passed in as a parameter:

- `opens: nat -> bool` says whether the i-th open attempt succeeds;
- `Probe` is the `in_waiting` count, or the error it raised;
- `ReadOutcome` is the bytes `read_until` returned, or the error it raised.

Modules:

| file | module | contents |
|---|---|---|
| wrappers.dfy | `Wrappers` | `Option`, Python's `Optional` |
| framing.dfy | `Framing` | bytes, `Frame`, `DropLast`, a model of the transport's `read_until` |
| entries.dfy | `Entries` | the insertion-ordered dict: `Get`, `Set` (`d[k] = v`), `Remove` (`d.pop(k, None)`), `ToMap` |
| storage_codec.dfy | `StorageCodec` | file format: `Serialize`, text-mode newline translation, `ReadLines`, `Partition`, `Parse` |
| tikitboard.dfy | `TiKitBoard` | the driver state and one function or method per operation |
| tikitboard_properties.dfy | `TiKitBoardProperties` | properties spanning several operations |

Behaviour of the code worth knowing, which the model reproduces:

- **Read framing.** The docstring of `read_serial` promises the bytes read "without the
  ending character". The code strips exactly one byte (`[:-1]`). With a multi-byte terminator,
  all but the terminator's last byte stay on the payload. `MultiByteTerminatorLeftOnPayload`
  states this. When the terminator never arrives, the read returns everything up to the
  timeout, and the driver drops the last data byte.
- **No teardown on write failure.** The only I/O errors that tear the link down are those of
  the probe and the read. A failed open is caught and retried, and a failing `close()` is
  ignored. `send_message` lets a write error reach its caller and changes no state.
- **Reload on failure too.** `_init_storage` runs after the retry loop whatever its outcome.
  So a failed connection attempt also clears the store, reloads it from the file and
  truncates the file. Nothing rewrites the file until the next write. So a second
  `connect_with_retries` with no write in between empties both the store and the file, whether
  either call succeeds or fails. This breaks the class docstring's promise that data persists
  beyond sessions. `ReconnectWithoutWriteLosesStore` states it.
- **Multi-entry files.** Records are written with no separator. So when no key or value holds
  a line break, a file of several entries reads back as one line. `MultiEntryCollapse` gives the exact result: the first key maps to
  everything after its `=`, including the other records.

## Model

| member | source | states |
|---|---|---|
| `TiKitBoard.Init` | ti_kit_board_communication/main.py:26-64 | A new driver is disconnected, holds no handle, has an empty store, and leaves the file on disk as it was. Its configuration is exactly the port, baud rate, retry count, terminator and storage path it was given. |
| `TiKitBoard.InitDefault` | ti_kit_board_communication/main.py:26-33 | The constructor defaults are baud rate 9600, 3 retries, terminator `\n` and storage file `data.txt`. |
| `TiKitBoard.OpenPort` | ti_kit_board_communication/main.py:106 | A successful open yields an open handle on the configured port and baud rate. |
| `TiKitBoard.InitStorage` | ti_kit_board_communication/main.py:66-76 | The store is replaced by what the file parses to, and is empty when there is no file. The file is then truncated. Connection fields are untouched and the loaded store has unique keys. |
| `TiKitBoard.WriteToStorage` | ti_kit_board_communication/main.py:78-84 | When connected with a handle, the file becomes the serialised store. Otherwise nothing changes, because the guard is checked again here. |
| `TiKitBoard.AttemptBudget` | ti_kit_board_communication/main.py:96-103 | The loop `while num_tries < max_retries` allows `max_retries` attempts. A missing argument uses the instance's `max_retries`. A negative value allows none. |
| `TiKitBoard.ConnectWithRetries` | ti_kit_board_communication/main.py:86-114 | It makes at most max(max_retries, 0) open attempts, and `None` means the instance default. It connects iff some attempt within the budget succeeds. It stops at the first success with an open handle. If every attempt fails, exactly the budget of attempts is made, and the driver ends disconnected with no handle. In every outcome the store is the parse of the previous file and the file is empty. |
| `TiKitBoard.Teardown` | ti_kit_board_communication/main.py:135-141 | After an I/O error, the driver is disconnected with no handle, and the store and file are untouched. |
| `TiKitBoard.IsBoardConnected` | ti_kit_board_communication/main.py:144-169 | The answer is always the final connection flag. With no handle or a closed handle, it answers false without probing and keeps the handle. A probe that answers sets the flag. A probe that raises tears the link down. The store and file are never touched. |
| `TiKitBoard.ReadSerial` | ti_kit_board_communication/main.py:116-142 | When not connected, it returns nothing and changes nothing. When no bytes are waiting, it returns nothing and changes nothing. A probe or read error tears the link down and returns nothing. Otherwise it returns the bytes read minus their last byte, and the state is unchanged. |
| `TiKitBoard.SendMessage` | ti_kit_board_communication/main.py:171-177 | When connected, it writes exactly the message followed by the configured terminator. Otherwise it writes nothing. The state is never changed, not even on a write error. |
| `TiKitBoard.WriteKeyToStorage` | ti_kit_board_communication/main.py:179-187 | When connected, the store becomes the dict assignment of the key: an existing key keeps its place, a new key goes last. So the map view is updated at the key, unique keys stay unique, and the file is rewritten as the records of the new store in that order. When disconnected, nothing changes. |
| `TiKitBoard.RemoveKeyFromStorage` | ti_kit_board_communication/main.py:189-197 | When connected, the store becomes the dict pop of the key: the other entries keep their order. The map view loses only that key and unique keys stay unique. Removing an absent key leaves the store unchanged, but the file is still rewritten from the store. When disconnected, nothing changes. |
| `TiKitBoard.GetValueFromStorage` | ti_kit_board_communication/main.py:199-211 | It returns a value iff connected and the key is stored, and that value is the one the map view holds. |
| `TiKitBoard.GetFullStorage` | ti_kit_board_communication/main.py:213-225 | It returns the store, in insertion order, iff connected. |
| `Framing.Frame` | ti_kit_board_communication/main.py:177 | An outbound frame is the payload followed by the terminator, with nothing added or escaped. |
| `Framing.DropLast` | ti_kit_board_communication/main.py:131 | `[:-1]` removes exactly the last byte, and an empty read stays empty. |
| `Framing.ReadUntil` | ti_kit_board_communication/main.py:131 | The read consumes the buffer up to and including the first terminator, or the whole buffer when none arrives. What is read and what is left make up the buffer. |
| `Framing.ReadUntilFrame` | ti_kit_board_communication/main.py:131 | When the terminator occurs only at the end of a frame, reading a frame followed by further bytes returns exactly that frame and leaves the rest. |
| `Framing.SingleByteTerminatorOnlyAtEnd` | ti_kit_board_communication/main.py:131 | A one-byte terminator absent from the payload occurs in the frame only at its end. |
| `Framing.DropLastOfFrame` | ti_kit_board_communication/main.py:131 | Dropping one byte from a frame leaves the payload plus all but the terminator's last byte. This equals the payload iff the terminator is one byte long. |
| `Entries.Get` | ti_kit_board_communication/main.py:211 | `dict.get` returns a value iff the key is present, and that value belongs to an entry with that key. With unique keys, it is that entry's value. |
| `Entries.Set` | ti_kit_board_communication/main.py:185 | `d[k] = v` adds `k` to the keys. An existing key keeps its position and only entries with that key change. A new key is appended at the end. |
| `Entries.Remove` | ti_kit_board_communication/main.py:195 | `d.pop(k, None)` drops exactly the entries with key `k`. An absent key leaves the dict unchanged. With unique keys, the result is the dict with the one entry for `k` cut out and every other entry in its original order. |
| `Entries.ToMap` | ti_kit_board_communication/main.py:64 | The map view has exactly the dict's keys, and each key maps to the value `get` returns. |
| `Entries.SetUnique` | ti_kit_board_communication/main.py:185 | Assignment keeps keys unique. |
| `Entries.RemoveUnique` | ti_kit_board_communication/main.py:195 | Removal keeps keys unique. |
| `Entries.GetSet` | ti_kit_board_communication/main.py:185 | After `d[k] = v`, `get(k)` is `v` and every other key reads as before. |
| `Entries.GetRemove` | ti_kit_board_communication/main.py:195 | After `pop(k)`, `get(k)` is absent and every other key reads as before. |
| `Entries.SetMap` | ti_kit_board_communication/main.py:185 | The map view of `d[k] = v` is the old map view updated at `k`. |
| `Entries.RemoveMap` | ti_kit_board_communication/main.py:195 | The map view of `pop(k)` is the old map view without `k`. |
| `StorageCodec.Serialize` | ti_kit_board_communication/main.py:82-84 | The file is empty iff the store is empty. When no key or value holds a line break, neither does the file, so there is no separator and no trailing newline. |
| `StorageCodec.SerializeAppend` | ti_kit_board_communication/main.py:83-84 | Records appear in insertion order: the file for a store plus one more entry is the old file followed by that entry's `key=value`. |
| `StorageCodec.TranslateNewlines` | ti_kit_board_communication/main.py:70 | Text-mode reading leaves no `\r`, and text without `\r` is read unchanged. `TranslateCRLF` and `TranslateLoneCR` say what replaces each `\r`. |
| `StorageCodec.TranslatePlainPrefix` | ti_kit_board_communication/main.py:70 | Text with no `\r` is read back unchanged, whatever text follows it. |
| `StorageCodec.TranslateCRLF` | ti_kit_board_communication/main.py:70 | A `\r\n` line ending is read as one `\n`, and the text before it is unchanged. |
| `StorageCodec.TranslateLoneCR` | ti_kit_board_communication/main.py:70 | A `\r` not followed by `\n` is read as one `\n` too. |
| `StorageCodec.ReadLines` | ti_kit_board_communication/main.py:71 | The lines concatenate back to the text. No line is empty. A `\n` can only be a line's last character, and every line but the last ends with one. |
| `StorageCodec.Partition` | ti_kit_board_communication/main.py:72 | A line with no `=` gives key = the whole line and value `""`. Otherwise key, `=` and value concatenate back to the line and the key holds no `=`, so the value keeps any trailing newline. |
| `StorageCodec.Record` | ti_kit_board_communication/main.py:84 | A record is the key, then one `=`, then the value, with nothing else. |
| `StorageCodec.Load` | ti_kit_board_communication/main.py:71-73 | Loading lines onto a store gives exactly the old keys plus every line's text before its first `=`. |
| `StorageCodec.Parse` | ti_kit_board_communication/main.py:70-73 | A file's store has one entry per distinct key among its lines, and keys are unique. Empty text gives an empty store. |
| `StorageCodec.ParseFile` | ti_kit_board_communication/main.py:67-73 | A missing file gives an empty store, and a loaded store has unique keys. |
| `StorageCodec.LoadUnique` | ti_kit_board_communication/main.py:73 | Loading lines into a store keeps keys unique. |
| `StorageCodec.GetLoad` | ti_kit_board_communication/main.py:71-73 | After loading lines onto a store, a key reads as the last line that carries it. A key that no line carries reads as before. |
| `StorageCodec.ParseReadsLastLine` | ti_kit_board_communication/main.py:67-73 | In a freshly parsed file, every key reads as the value on its last line, so later duplicates overwrite earlier ones. A key on no line is absent. |
| `StorageCodec.ParseRecord` | ti_kit_board_communication/main.py:71-73 | A single `key=value` text reads back as exactly that one entry, when the key holds no `=` and neither part holds a line break. |
| `StorageCodec.PartitionRecord` | ti_kit_board_communication/main.py:72 | `partition` splits `key=value` back into key and value when the key holds no `=`. |
| `StorageCodec.SingleEntryRoundTrip` | ti_kit_board_communication/main.py:67-84 | Writing a one-entry store and reading the file back gives the same store, when the key holds no `=` and neither part holds a line break. |
| `StorageCodec.MultiEntryCollapse` | ti_kit_board_communication/main.py:71-84 | Under the same conditions, a store of several entries reads back as one entry: the first key mapped to its value followed by all later records. |
| `TiKitBoardProperties.TransitionsKeepCoherent` | ti_kit_board_communication/main.py:126-197 | Probe, read, send, write and remove each keep "connected implies an open handle". |
| `TiKitBoardProperties.IsBoardConnectedIdempotent` | ti_kit_board_communication/main.py:153-169 | Once the liveness check answers false, asking again answers false whatever the port says, and changes nothing. |
| `TiKitBoardProperties.WriteThenGet` | ti_kit_board_communication/main.py:179-211 | A value written while connected is what the next get returns, and no other key's reading changes. |
| `TiKitBoardProperties.RemoveThenGet` | ti_kit_board_communication/main.py:189-211 | After a remove while connected, a get of the key returns nothing, and no other key's reading changes. |
| `TiKitBoardProperties.RestartRecoversSingleEntry` | ti_kit_board_communication/main.py:67-84 | Take a store holding at most one entry, and only for this key. After writing the key while connected, the file parses back as exactly that entry. |
| `TiKitBoardProperties.RestartThenGet` | ti_kit_board_communication/main.py:55-114 | After that write, a new driver with the same configuration is built over the file and calls `connect_with_retries()`. A get of the key then returns the written value iff some attempt within the default budget succeeds, and nothing otherwise. |
| `TiKitBoardProperties.ReconnectWithoutWriteLosesStore` | ti_kit_board_communication/main.py:66-114 | Two calls of `connect_with_retries` with no write in between leave an empty store and an empty file. This holds for any starting state and any open outcomes, so data written before the first call does not persist. |
| `TiKitBoardProperties.FullStorageAgreesWithGet` | ti_kit_board_communication/main.py:199-225 | Every key reads from the store `get_full_storage` returns as `get_value_from_storage` returns it. When disconnected, both give nothing. |
| `TiKitBoardProperties.SetOnSingleKey` | ti_kit_board_communication/main.py:185 | Assigning the only key that a store of at most one entry holds leaves exactly that one entry. |
| `TiKitBoardProperties.TimerLengthFile` | ti_kit_board_communication/main.py:78-84 | Writing `timer_length` = `21600000` into an empty connected store leaves the file as exactly `timer_length=21600000`, with no trailing newline. |
| `TiKitBoardProperties.FrameRoundTrip` | ti_kit_board_communication/main.py:126-177 | With a one-byte terminator that is absent from the payload, `read_serial` on the bytes `send_message` writes returns exactly the payload. |
| `TiKitBoardProperties.MultiByteTerminatorLeftOnPayload` | ti_kit_board_communication/main.py:126-133 | With a terminator of two or more bytes, `read_serial` returns the payload plus all but the terminator's last byte, never the payload alone. |

## Left out

- Real serial I/O: port opening, `in_waiting`, `read_until` and `write` are supplied outcomes. `Framing.ReadUntil` is the assumed behaviour of the transport's `read_until`, given the bytes that arrive before its one-second timeout.
- `time.sleep(1)` between attempts and all `print` logging: they have no effect on state, so attempts are counted instead.
- Exceptions the driver does not catch are not modelled. These include a failing `write` in `send_message`, errors other than `SerialException` while opening, and errors other than `OSError`, `SerialException` or `AttributeError` while probing or reading. Each propagates to the caller.
- File-system errors are not modelled: an unreadable or unwritable path, a directory at the path, or text that does not decode.
- Text encoding: characters are modelled as Dafny `char`. Writing assumes a POSIX host, where text mode writes `\n` unchanged. On Windows it would write `\r\n`.
- Values are modelled as strings. The source stores arbitrary Python values (`Any`) and writes them through f-string formatting. A non-string value reads back as its string form after a reload, and before that `get` returns the original object.
- `get_full_storage` returns the live dict object, so a caller could mutate the store through it. Aliasing is not modelled.
- Closing a handle is not modelled beyond dropping it. A handle dropped at the start of `connect_with_retries` is not closed, and its state is not observable here.
- The repository-root `main.py` is an earlier driver with a hard-wired port and float-based timer parsing. `ui.py` is the Streamlit dashboard. Neither is part of this model.
