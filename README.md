# A verified model of the mitsi heat-pump driver

`mitsi.py` drives a Mitsubishi heat pump over a serial line. This project
models what it does, and proves properties of that model:

- **`Packet`** builds frames `[0xFC, type, 0x01, 0x30, len] + data + [checksum]`
  and checks them (`complete`, `valid`, `data`, `type`, `checksum`).
- **`LookupDict` tables** translate symbols (power, mode, setpoint, fan, vane,
  direction, room temperature) into wire codes and back.
- **`HeatPump`** holds seven tracked attributes and a `dirty` flag.
  - `loop` rebuilds frames from the bytes read.
  - It applies each complete, valid Set or Temp frame to the attributes.
  - Once more than a second has passed since the last send, it `diff`s the
    object against the wanted state. It sends a control frame when something
    differs and drops the wanted state when nothing does.
  - It then sends the next of two info requests, round-robin.

`mitsi_lookup.py` is a later revision of the tables. It adds half-degree
setpoints and a reverse lookup meant to answer None on a miss. It is modelled
on its own, in `LookupRevision`, because nothing in `mitsi.py` uses it.

## Layout

| file | module | what it holds |
|---|---|---|
| `wrappers.dfy` | `Wrappers` | `Option`, `Result` |
| `dicts.dfy` | `Dicts` | Python values, `int()`, truthiness, tables as `(key, code)` lists, the reverse comprehension, dict subscripting |
| `tables.dfy` | `Tables` | the tables of `mitsi.py` and its raising `lookup` |
| `packets.dfy` | `Packets` | `Packet`: frame layout, `build`, `checksum`, `complete`, `valid`, `data`, `type`, `__eq__` |
| `device.dfy` | `Device` | the object's state as a value; `__setattr__`, `to_dict`, `from_dict`, `valid` as functions |
| `receiver.dfy` | `Receiver` | the byte loop of `loop` as functions over that state, and its properties |
| `control.dfy` | `Control` | `diff` and the timed polling step as functions, and their properties |
| `heatpump.dfy` | `HeatPumps` | the `HeatPump` class; each method is proved against the functions above |
| `lookup_revision.dfy` | `LookupRevision` | `mitsi_lookup.py` |

### How the Python is represented

- **Values.** A Python value is `Nil` (None), `Str(s)` or `Num(halves)`.
  Numbers are counted in half units, so 24 is `Num(48)` and 24.5 is `Num(49)`.
  - No floats are needed.
  - `int()` truncates toward zero on half units.
- **Tables.** A table is the list of its literal's `key: code` pairs in source
  order. The program runs on Python 2, where `items()` has no fixed order and
  a repeated key keeps its last code. Neither matters here: no table repeats
  a key or a code (`Tables.TablesInjective`), so every scan order gives the
  same reverse lookup.
- **Exceptions** are data: `IndexError`, `KeyError`, `ValueError`,
  `TypeError`, `NameError`.
  - The `mitsi.py` reverse lookup indexes an empty list on a miss, which
    raises `IndexError`.
  - A dict subscript on a missing key raises `KeyError`.
  - `loop` ends either by returning or by raising one of these (`Outcome`).
- **Packets** are values (`Packet(bytes, dataLen)`).
- **The object.** `HeatPump` is a class with the Python attributes as fields.
  - Its abstract view is `Device.State`.
  - Its methods are proved equal to the functions that describe them:
    - `Loop` to `Control.LoopSpec`;
    - `ReceiveAll` to `Receiver.Receive`;
    - `PollDue` to `Control.Poll`;
    - `Diff` to `Control.DiffPacket`.
- **I/O.**
  - The batch `ser.read(22)` returns is an input of `Loop`.
  - The frames `ser.write` sends are its output `sent`.
  - `time.time()` is an input `now`, in integer milliseconds. "More than one
    second" is `now - lastSend > 1000`.

### Behaviour of the code worth knowing

- **The checksum is not reduced mod 256.** It is `0xFC - (sum & 0xFF)`, which
  is negative when the low byte of the sum is above 0xFC.
  - Such a frame never validates against a byte off the wire
    (`Packets.UnreducedChecksumRejects`).
  - A frame whose last byte follows `(0xFC - sum) mod 256` can therefore be
    rejected (`Packets.WireChecksumRejected`).
  - Every control frame `diff` builds stays clear of this
    (`Control.ControlFrameBytes`).
- **An unknown code in a frame raises.** `POWER.lookup(...)` and the other
  lookups in `mitsi.py` raise IndexError, which ends `loop` with an exception.
  - In a Set frame, the fields decoded before the unknown one keep their new
    values.
  - The fields after it, the history and the packet in progress are left as
    they were (`Receiver.ValidSetFrameUnknownFan`).
- **A wanted value outside its table raises in `loop`, not in `set`.** `diff`
  subscripts the table and raises KeyError (`Control.DiffErrors`). `set` only
  merges dictionaries.
- **A stray byte ends the batch.** A byte other than 0xFC with no packet in
  progress makes `loop` return at once. The rest of the batch is never looked
  at (`Receiver.StrayByteEndsBatch`).
- **No 0x00 code for direction.** DIR has no code 0x00 in either file, so a
  direction byte of 0 is an unknown code and raises IndexError
  (`Tables.DirHasNoZero`), and `diff` never writes 0 for it
  (`Control.FieldCodeRange`).
- **History key.** A frame is recorded in `packet_history` under payload
  byte 0, not under its type byte.

## Model

| member | source | states |
|---|---|---|
| Dicts.IntOf | mitsi.py:263-265 | `int()` succeeds exactly on numbers, gives a whole number within one half of the input on the side of zero, and leaves whole numbers unchanged |
| Dicts.KeysWithCode | mitsi.py:16 | the comprehension holds exactly the keys whose code is `c`, and its first element is the key of the first such entry |
| Dicts.GetMeaning | mitsi.py:259 | a dict subscript finds a code exactly when some entry has the key, and that code is the first such entry's |
| Dicts.EntryRoundTrip | mitsi.py:14-16 | in an injective table the reverse comprehension for an entry's code is exactly `[key]`, and subscripting the key gives the code |
| Tables.LookupMeaning | mitsi.py:14-16 | `lookup(c)` succeeds exactly when some entry has code `c` and yields the first such key; otherwise it raises IndexError |
| Tables.TableRoundTrip | mitsi.py:18-112 | for every entry of every value table, `lookup(code) == key` and `table[key] == code` |
| Tables.TempShape | mitsi.py:23-40 | TEMP maps degree 31 - i to code i, for i in 0..15 |
| Tables.RoomShape | mitsi.py:42-75 | ROOM_TEMP has 32 entries and maps degree 10 + i to code i |
| Tables.TablesInjective | mitsi.py:18-112 | no two entries of a value table share a key or a code |
| Tables.CodesAreSmall | mitsi.py:18-112 | every code of every value table is in 0..0x1F |
| Tables.DirHasNoZero | mitsi.py:95-103 | DIR has no key with code 0x00, so looking up a direction byte of 0 raises IndexError |
| Packets.ChecksumOver | mitsi.py:303-305 | the unreduced checksum lies in -3..0xFC, is negative exactly when the sum's low byte exceeds 0xFC, and agrees mod 256 with `0xFC - sum` |
| Packets.Checksum | mitsi.py:303-305 | `checksum` lies in -3..0xFC, and the bytes before the last plus the checksum add up to 0xFC mod 256 |
| Packets.Type | mitsi.py:307-309 | `type` is byte 1, and raises IndexError on a packet shorter than two bytes |
| Packets.Complete | mitsi.py:311-316 | `complete` is false while no length is declared; when true, the bytes after the 5-byte header are the declared payload plus one checksum byte |
| Packets.Valid | mitsi.py:318-322 | `valid` implies `complete`, and all the bytes of a valid packet add up to 0xFC mod 256 |
| Packets.Data | mitsi.py:324-326 | `data` is the bytes between header and checksum; a complete packet has exactly the declared number of them |
| Packets.SameFrame | mitsi.py:288-289 | `__eq__` compares byte lists only, whatever length each declares; equal packets have the same type, payload and checksum |
| Packets.Frame | mitsi.py:294-301 | a built frame has `len(d) + 6` bytes, the header `[0xFC, t, 0x01, 0x30, len(d)]`, payload `d`, type `t`, and its own checksum as last byte |
| Packets.Build | mitsi.py:294-301 | `build(t, d)` yields that frame with no declared length |
| Packets.BuiltFrame | mitsi.py:311-322 | a freshly built packet is neither complete nor valid; with its payload length declared it is valid, and with any other length it is not complete |
| Packets.UnreducedChecksumRejects | mitsi.py:318-322 | a complete packet whose prefix sum has a low byte above 0xFC is never valid when its last byte is a byte |
| Packets.WireChecksumRejected | mitsi.py:318-322 | a concrete 7-byte frame whose last byte is `(0xFC - sum) mod 256` is rejected by `valid` |
| Packets.FrameSum | mitsi.py:300 | the checksum of a built frame is taken over `0xFC + t + 0x01 + 0x30 + len(d) + sum(d)` |
| Packets.FrameBytes | mitsi.py:295-301 | a built frame holds only bytes when type, length, payload and checksum are bytes |
| Packets.SingleByteChangeInvalid | mitsi.py:318-322 | replacing any one byte of a valid frame by another byte makes it invalid |
| Device.Snapshot | mitsi.py:159-163 | `to_dict` maps exactly the seven attribute names, each to its attribute's value |
| Device.AllSet | mitsi.py:170-175 | `valid` holds exactly when the `to_dict` dictionary holds no None |
| Device.Assign | mitsi.py:153-157 | `__setattr__` stores the value, changes no other attribute, and sets `dirty` exactly when the value differs or `dirty` was already set |
| Device.FromDictOverPrefix | mitsi.py:165-168 | after visiting the first `k` attributes, `from_dict` has overwritten exactly those with a truthy dictionary value and set `dirty` exactly when one of them changed |
| Device.FromDictEffect | mitsi.py:165-168 | `from_dict` overwrites exactly the attributes with a truthy value in the dictionary, sets `dirty` exactly when one of them changes, and touches nothing else |
| Device.FromOwnSnapshot | mitsi.py:159-168 | `from_dict(to_dict())` changes nothing, not even `dirty` |
| Receiver.Push | mitsi.py:187-194 | 0xFC opens a fresh packet holding only itself with no declared length; any other byte extends the packet in progress, or finds none; the fifth byte becomes the declared length, and otherwise the length is kept |
| Receiver.DecodeMeaning | mitsi.py:198-203 | `self.a = T.lookup(data[i])` assigns the looked-up key exactly when the payload is long enough and the code is known; otherwise it raises IndexError and changes nothing |
| Receiver.ReceiveAppend | mitsi.py:185-222 | the byte loop over `xs + ys` is the loop over `xs` followed, if it carried on, by the loop over `ys` |
| Receiver.ReceiveSnoc | mitsi.py:185-222 | one more byte after a batch that carried on is one more pass of the loop body |
| Receiver.ReceiveStops | mitsi.py:189-191 | once the loop returned or raised, later bytes change nothing |
| Receiver.ApplyKeepsDirty | mitsi.py:196-219 | applying a valid packet never clears `dirty` |
| Receiver.ReceiveKeepsDirty | mitsi.py:185-222 | once set, `dirty` stays set whatever a batch of bytes does |
| Receiver.StrayByteEndsBatch | mitsi.py:189-191 | a non-0xFC byte with no packet in progress ends `loop` at once, changing nothing and dropping the rest of the batch |
| Receiver.FramePrefix | mitsi.py:192-195 | before its last byte, a frame only grows the packet in progress, which records the fifth byte as declared length |
| Receiver.PartialStray | mitsi.py:187-199 | a start byte followed by stray bytes that stop before a packet completes (at most four, or fewer than the declared length) only grows the partial packet, never applying or dropping it |
| Receiver.FrameDelivered | mitsi.py:185-222 | a whole frame, from any state, yields one complete packet of exactly its bytes: applied when valid, dropped when not |
| Receiver.BuiltFrameRoundTrip | mitsi.py:186-222 | a built frame with no inner 0xFC comes back from the loop as a valid packet equal to the built one; a frame that is neither Set nor Temp only lands in the history |
| Receiver.ResyncDiscardsPartial | mitsi.py:187-199 | a start byte and stray bytes that never complete a packet (at most four, or a header whose declared length is not reached), then a frame, leave the loop where the frame alone leaves an idle loop |
| Receiver.ValidSetFrame | mitsi.py:197-203 | a valid Set frame with known codes assigns power, mode, temp, fan, vane and dir from bytes 3, 4, 5, 6, 7 and 10, sets `dirty` iff something changed, and is recorded under 0x02 |
| Receiver.ValidSetFrameUnknownFan | mitsi.py:198-201 | with an unknown fan code, power, mode and temp are assigned, then IndexError is raised with fan, vane, dir, history and packet in progress unchanged |
| Receiver.ValidTempFrame | mitsi.py:204-206 | a valid Temp frame assigns only room_temp, from byte 3, and is recorded under 0x03 |
| Receiver.ValidOtherFrame | mitsi.py:208-219 | any other valid frame changes no attribute and is only recorded under its payload byte 0 |
| Control.EncodeMeaning | mitsi.py:259 | `T[v]` succeeds exactly when `v` is a key, with that key's code, and raises KeyError otherwise |
| Control.EncodeDecodes | mitsi.py:18-112 | for every value table, the code `T[v]` gives decodes back to `v` through `T.lookup` |
| Control.FieldCodeMeaning | mitsi.py:259-274 | one field of `diff` (`FieldCode`): it finds no change exactly when the values are equal (for temp: the wanted temp is falsy or truncates to the current one), and a change it finds is a code that the reverse lookup decodes back to the wanted value (for temp: to its truncation) |
| Control.ChangesErrorStops | mitsi.py:257-274 | once a field raises, `diff` raises that exception and no later field matters |
| Control.ChangesOverMeaning | mitsi.py:257-274 | over the first `k` fields, `diff` fails exactly when some field raises, with the first error in field order; otherwise it collects exactly the differing fields, each with its code |
| Control.ChangesMeaning | mitsi.py:257-274 | the same for all six fields, by field |
| Control.NotYetChanged | mitsi.py:257-274 | before field `f` is compared, it has not been flagged |
| Control.MaskBits | mitsi.py:258-273 | payload byte 1 is in 0..0x9F, is 0 exactly when no field differs, and has a field's CONTROL_PACKET_VALUES bit exactly when that field differs |
| Control.DiffNothingIffAgrees | mitsi.py:275-277 | `diff` returns None exactly when power, mode, fan, vane and dir are equal and the wanted temp is falsy or truncates to the current one |
| Control.FieldCodeRange | mitsi.py:259-274 | every code `diff` writes lies between 0 and its table's largest code, and a DIR code is never 0 |
| Control.SumPayload | mitsi.py:255-274 | a control payload sums to 1 + the mask + the six codes |
| Control.PayloadBytes | mitsi.py:255-274 | a control payload holds only bytes, and its sum lies in 1..69 without a DIR change and 130..0xD1 with one |
| Control.ControlFrameBytes | mitsi.py:276 | every control frame holds only bytes: its unreduced checksum is never negative |
| Control.DiffErrors | mitsi.py:257-274 | `diff` raises only KeyError, or ValueError for a non-empty string temp |
| Control.PayloadLayout | mitsi.py:255-274 | a control payload is 16 bytes led by 0x01, byte 1 marks exactly the changed fields, each field's CONTROL_PACKET_POSITIONS slot holds its code or 0, the rest are 0 |
| Control.DiffFrame | mitsi.py:252-277 | a frame `diff` returns is a type-0x41 frame with no declared length and only bytes; it only comes when the object does not agree with the wanted state, and byte 1 and the field slots decode back to exactly what each field's comparison found |
| Control.PollInfoOnly | mitsi.py:242-247 | a due poll with no wanted state sends the next info request and advances the index mod 2 |
| Control.InfoRoundRobin | mitsi.py:242-247 | two due polls without a wanted state send both info requests in turn and restore the index |
| Control.PollWanted | mitsi.py:224-247 | a due poll with a wanted state sends the diff frame and then info request 0 (index becomes 1), or drops the wanted state and sends the next info request, or raises changing nothing |
| Control.PollKeepsIndex | mitsi.py:242-247 | a poll keeps the info index in range, never raises IndexError, and a poll that raises changes and sends nothing |
| Control.PollFrame | mitsi.py:224-247 | a poll changes only the wanted state, `last_send` and the info index, never the attributes, `dirty`, the history or the packet in progress; a poll that is not yet due sends nothing and changes nothing |
| Control.LoopKeepsDirty | mitsi.py:183-247 | once set, `dirty` stays set through a whole `loop`, bytes and poll |
| Control.WantedAgrees | mitsi.py:227-229 | the copy updated by `from_dict(wanted_state)` agrees with the object exactly when every supplied wanted value has been reached |
| Control.ClearsWantedIffReached | mitsi.py:226-240 | a due poll drops the wanted state exactly when it has been reached |
| Control.TempCode | mitsi.py:23-40 | TEMP maps whole degree t in 16..31 to 31 - t |
| Control.TempOnlyPayload | mitsi.py:255-265 | a temp-only change with code c has payload `[0x01, 0x04, 0, 0, 0, c, 0, …]` |
| Control.TempFieldCode | mitsi.py:263-265 | setting temp to a different whole degree t gives the temp code 31 - t |
| Control.SingleChange | mitsi.py:257-274 | when only temp differs, `diff` collects exactly `{temp: c}` |
| Control.TempOnlyFrame | mitsi.py:263-276 | changing only temp to a whole degree t yields the frame with bit 0x04 and code 31 - t at position 5 |
| HeatPumps.HoldsPayload | mitsi.py:255-274 | a buffer holding the mask, codes and zeros for the changes is exactly their control payload |
| HeatPumps.Flag | mitsi.py:258-259 | adding a field's bit to byte 1 and writing its code at its slot records one more change |
| HeatPumps.CompareField | mitsi.py:257-259 | one field block of `diff` records the field's code when it differs, or raises KeyError, exactly as `Control.ChangesOver` does over one more field |
| HeatPumps.CompareTemp | mitsi.py:263-265 | the temp block records TEMP's code for `int(other.temp)` when it is truthy and differs, raising exactly where `Control.ChangesOver` does |
| HeatPumps.HeatPump.constructor | mitsi.py:136-151 | each attribute comes from its keyword argument or None, room_temp is None, `dirty` is set, nothing is pending, and the start and info packets are built |
| HeatPumps.HeatPump.Copy | mitsi.py:227 | `copy(self)` has the same state |
| HeatPumps.HeatPump.Assign | mitsi.py:153-157 | the new state is `Device.Assign` of the old |
| HeatPumps.HeatPump.ToDict | mitsi.py:159-163 | returns `Device.Snapshot` of the attributes |
| HeatPumps.HeatPump.IsValid | mitsi.py:170-175 | true exactly when no attribute is None |
| HeatPumps.HeatPump.FromDict | mitsi.py:165-168 | the new state is `Device.FromDict` of the old |
| HeatPumps.HeatPump.Set | mitsi.py:249-250 | the wanted state is updated with `state`, later keys winning; nothing else changes |
| HeatPumps.HeatPump.DecodeField | mitsi.py:198 | one lookup-and-assign, as `Receiver.Decode` |
| HeatPumps.HeatPump.ApplySet | mitsi.py:197-203 | a Set frame's six assignments, stopping at the first that raises, as `Receiver.ApplySetFrame` |
| HeatPumps.HeatPump.ApplyPacket | mitsi.py:196-219 | a valid packet's handling, as `Receiver.ApplyValid` |
| HeatPumps.HeatPump.ReceiveByte | mitsi.py:186-222 | one pass of the byte loop, as `Receiver.ReceiveByte` |
| HeatPumps.HeatPump.Settle | mitsi.py:195-222 | apply or drop a complete packet, as `Receiver.Settle` |
| HeatPumps.HeatPump.ReceiveAll | mitsi.py:185-222 | the byte loop over a batch, as `Receiver.Receive` |
| HeatPumps.FeedOne | mitsi.py:186-222 | one pass of the byte loop either extends the handled prefix of the batch by one byte or, on returning or raising, decides the whole batch |
| HeatPumps.HeatPump.Diff | mitsi.py:252-277 | the payload filled in place gives exactly `Control.DiffPacket` |
| HeatPumps.HeatPump.DiffWanted | mitsi.py:227-229 | `diff` against a copy updated by `from_dict(wanted_state)` gives `Control.DiffPacket` against `Device.FromDict`, leaving the object alone |
| HeatPumps.HeatPump.ApplyDiff | mitsi.py:230-240 | sending the frame restarts the round-robin, no frame drops the wanted state, an exception changes nothing, as `Control.Resolve` |
| HeatPumps.HeatPump.ResolveWanted | mitsi.py:226-240 | the wanted-state part of a due poll, as `Control.ResolveWanted` |
| HeatPumps.HeatPump.PollDue | mitsi.py:224-247 | the timed half of `loop`, as `Control.Poll` |
| HeatPumps.HeatPump.Loop | mitsi.py:183-247 | `loop` as a whole, as `Control.LoopSpec` |
| LookupRevision.LookupAsWritten | mitsi_lookup.py:7-13 | on a hit the first key with the code; on a miss NameError, because the except branch names an undefined `log` |
| LookupRevision.Lookup | mitsi_lookup.py:7-13 | the intended lookup: None exactly when no key has the code, otherwise the first such key |
| LookupRevision.MissRaisesNameError | mitsi_lookup.py:10-12 | on every miss the written lookup raises NameError where the intended one answers None |
| LookupRevision.PowerMissExample | mitsi_lookup.py:15-18 | `POWER.lookup(0x02)` raises NameError as written |
| LookupRevision.TempShape | mitsi_lookup.py:20-53 | TEMP maps degree 31 - i to code i and degree 16.5 + (i - 16) to 0x2F - i |
| LookupRevision.RoomTempShape | mitsi_lookup.py:55-88 | ROOM_TEMP maps degree 10 + i to code i, for i in 0..31 |
| LookupRevision.TablesInjective | mitsi_lookup.py:15-143 | no two entries of any table share a key or a code |
| LookupRevision.ReverseLookupRoundTrip | mitsi_lookup.py:7-13 | for every entry of every table, both lookups give back its key and the subscript gives back its code |
| LookupRevision.InjectiveRoundTrip | mitsi_lookup.py:7-13 | in any table with no repeated key or code, both versions of the lookup give back an entry's key from its code, and subscripting the key gives the code |
| LookupRevision.TempEncoding | mitsi_lookup.py:20-53 | whole degrees take 0x00..0x0F (31 - t), half degrees 0x10..0x1F (0x10 + 31.5 - t): disjoint ranges |
| LookupRevision.RoomTempEncoding | mitsi_lookup.py:55-88 | ROOM_TEMP's code is t - 10, strictly increasing, ending at 41 → 0x1F |
| LookupRevision.ValueCodesBelow0x20 | mitsi_lookup.py:15-125 | every code of every value table is in 0..0x1F |
| LookupRevision.PositionsInsidePayload | mitsi_lookup.py:136-143 | the six positions are distinct and in 3..10 |
| LookupRevision.ControlBitsAddAsOr | mitsi_lookup.py:127-134 | summing any subset of CONTROL_PACKET_VALUES equals OR-ing it and stays below 256 |

## Left out

- Serial I/O is not modelled: `connect` (mitsi.py:177-181), opening the port, and the writes themselves. The start frame is built in the constructor and checked by `Valid()`. The frames `loop` writes are returned as `sent`.
- `ser.read(22)`: the batch is an input of `Loop`, and its size is not bounded to 22.
- `time.time()` is an input in milliseconds. `time.sleep(1)` after a control frame is not modelled, because it only delays.
- Logging (`log.debug`, `log.info`) is not modelled. Neither is the `packet_history` comparison at mitsi.py:208-216, which only decides whether to log.
- `Packet.__str__`, `LookupDict`'s `name` (mitsi_lookup.py:3-5) and the `__main__` loop (mitsi.py:328-337) are not modelled, because they are formatting and process entry.
- Python 2 `ord(c)`: input bytes are integers 0..255 (`Receiver.Byte`).
- Dicts.IntOf: `int()` of a string always raises ValueError, even for a numeric string such as `"22"` that Python would parse; strings are not parsed here.
- `diff`'s `if not other` branch (mitsi.py:253-254) cannot be taken: a `HeatPump` object is always truthy.
- `copy(self)` is shallow, so the copy shares `packet_history` and `wanted_state` with the original. The copy's `from_dict` only assigns attributes, so the sharing is never visible, and `HeatPump.Copy` makes an independent object.
- The packet in progress is a value. In Python it is appended to in place, but it is only referenced by `current_packet` until it is stored in the history, and `current_packet` is then reset, so no aliasing is observable.
- The packet's attribute `data_len` is the `dataLen` field. `Packet()` with no arguments is `Packet([], None)`.
- `Tables.Lookup`, `Dicts.Get`, `Control.Encode`, `Control.FieldCode` and `Receiver.Decode` carry their contracts in the lemmas `LookupMeaning`, `GetMeaning`, `EncodeMeaning`, `FieldCodeMeaning` and `DecodeMeaning` rather than on themselves.

## Findings

| source | as written | input that shows it | evidently intended | confidence | as-written member | corrected member |
|---|---|---|---|---|---|---|
| mitsi_lookup.py:10-12 | on a miss the `except` branch calls `log.error`, but the module never defines `log`, so the lookup raises NameError | `POWER.lookup(0x02)` | a miss returns None | not executed; high, since `log` has no binding in the file | LookupRevision.MissRaisesNameError | LookupRevision.Lookup |
