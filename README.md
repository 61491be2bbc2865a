# cs3700_raft storage and state machine, modelled in Dafny

This project models the node-local part of a Raft key/value store written in Rust.
It covers three pieces:

- **`RamStorage`** (`storage.dfy`), the in-memory storage that the consensus library drives. It holds:
  - the log of entries, each tagged with its term and holding a client command or a cluster configuration;
  - the current term and the vote;
  - the installed snapshot: its bytes and the index and term of the last entry it covers;
  - the buffer where a snapshot sent in chunks is reassembled;
  - the initial state machine, which is used when no snapshot decodes.
- **The key/value state machine** (`state_machine.dfy`):
  - a map from strings to strings that `apply_command` updates;
  - its snapshot codec: a u32 count, then a length-prefixed key and a length-prefixed value per entry;
  - the `SetValueCommand` codec: key, value and message id, each length-prefixed;
  - `clone_state_machine`.
- **Network names** (`network_names.dfy`): a node id is written as four or more uppercase hex digits and read back with `u32::from_str_radix`.

The other files are shared vocabulary:
- `bytes.dfy` holds `u8`, `u32`, the 4-byte integer layout and the read cursor.
- `utf8.dfy` holds the UTF-8 validity `String::from_utf8` checks.
- `raft_types.dfy` holds the log entry and replicated state machine types of the consensus library.
- `wrappers.dfy` holds `Option`.

`RamStorage` and `KvStateMachine` are classes whose methods update fields in place. `try_from_bytes`, `write_bytes` and the last-config scan are loops, proved against specification functions (`DecodeKv`, `EncodeKv`, `IsLastConfig`). The codecs, chunk arithmetic and name conversion are functions with lemmas.

Two behaviours of the code differ from what the storage interface's callers expect. The model follows the code in both:
- **Chunk writes truncate.** `add_new_snapshot_chunk` resizes the buffer to the chunk's offset before splicing the chunk in, so every byte beyond the new chunk is dropped. Chunks sent in order from offset 0 reassemble the snapshot (`Storage.TransferInOrder`). Reassembly is not order-independent, as a two-chunk example shows (`Storage.OutOfOrderDeliveryTruncates`). A chunk at offset 0 restarts the transfer (`Storage.WriteChunkRestart`). That is how a new transfer discards an abandoned one, so the truncation is plausibly intended and is not listed as a finding.
- **Promotion returns `None`.** `try_use_chunks_as_new_snapshot` installs a buffer that decodes but always returns `None` (see Findings).

## Model

| member | source | states |
|---|---|---|
| Bytes.U32RoundTrip | src/state_machine.rs:29-31 | the four bytes `write_u32` writes for `x` are read back by `next_u32` as `x` |
| Bytes.BytesRoundTrip | src/state_machine.rs:43-45 | every four bytes are the layout of the u32 they are read as, so the layout is a bijection |
| Bytes.NextU32 | src/state_machine.rs:29 | `next_u32` succeeds exactly when four bytes remain and leaves the bytes after them |
| Bytes.NextBytes | src/state_machine.rs:32 | `next_bytes(n)` succeeds exactly when `n` bytes remain; the run taken and the rest make up the input |
| Bytes.NextU32OfWritten | src/state_machine.rs:29-31 | reading a u32 from a written u32 followed by anything yields the value and exactly what followed |
| Utf8.SequenceLength | src/state_machine.rs:32 | the encoded length of the character at `i` is 1 to 4 bytes, within the input, and 1 exactly for an ASCII byte |
| Utf8.AsciiIsValid | src/state_machine.rs:32 | bytes below 0x80 are accepted by `String::from_utf8` |
| StateMachine.EncodeString | src/state_machine.rs:45-48 | a string field is four length bytes followed by its bytes |
| StateMachine.ReadString | src/state_machine.rs:31-32 | a string read consumes four length bytes plus the string, and nothing else |
| StateMachine.ReadStringIsEncoded | src/state_machine.rs:31-32 | whatever a string read accepts is a written string field followed by the rest it leaves |
| StateMachine.ReadEncodedString | src/state_machine.rs:31-32 | a written string field is read back, whatever follows it, leaving what follows |
| StateMachine.ReadTruncatedString | src/state_machine.rs:31-32 | a string field cut off before its last byte reads as `None` |
| StateMachine.ReadEncodedPrefix | src/state_machine.rs:31-32 | a cut-off input whose first string field is whole reads that field and leaves the cut-off remainder |
| StateMachine.ReadTruncatedPrefix | src/state_machine.rs:31-32 | a cut-off input that ends inside its first string field reads as `None` |
| StateMachine.ReadInvalidString | src/state_machine.rs:32 | a well-framed field whose bytes are not UTF-8 makes the `unwrap` abort instead of giving `None` |
| StateMachine.EncodeCommand | src/state_machine.rs:66-75 | the command encoding is key, value and mid, each length-prefixed: `12 + len(key) + len(value) + len(mid)` bytes |
| StateMachine.CommandRoundTrip | src/state_machine.rs:54-75 | decoding an encoded command, followed by anything, yields the same key, value and mid |
| StateMachine.CommandTruncated | src/state_machine.rs:54-62 | every strict prefix of an encoded command decodes to `None` |
| StateMachine.DecodeCommandStop | src/state_machine.rs:56-61 | the command decoder gives `None` as soon as its key, value or mid field is cut off |
| StateMachine.CommandInvalidKeyPanics | src/state_machine.rs:56-57 | a framed key that is not UTF-8 aborts the command decoder |
| StateMachine.DecodedCommandIsEncoded | src/state_machine.rs:56-62 | three field reads that all succeed consumed exactly the encoding of the command they build |
| StateMachine.ThreeFields | src/state_machine.rs:56-61 | three fields read one after another make up the input together with what is left |
| StateMachine.CommandDecodesExactly | src/state_machine.rs:54-64 | `DecodeCommand`, the model of the command's `try_from_bytes`: it yields a command exactly when that command is encodable and its encoding begins the input |
| StateMachine.EncodePairsAppend | src/state_machine.rs:44-49 | `EncodePairs`, the records the loop writes: one more loop iteration appends exactly that entry's key and value records |
| StateMachine.EncodePairsLength | src/state_machine.rs:44-49 | the records take `Σ (8 + len(key) + len(value))` bytes |
| StateMachine.EncodeKvLength | src/state_machine.rs:41-52 | `EncodeKv`, the bytes `write_bytes` writes for an iteration order: a snapshot encoding takes `4 + Σ (8 + len(key) + len(value))` bytes |
| StateMachine.DecodeEncodedPairs | src/state_machine.rs:30-36 | the decoder loop reads back written records, inserting each pair in turn, and stops after the last declared one |
| StateMachine.DecodedPairsAreEncoded | src/state_machine.rs:30-36 | `DecodePairs`, the model of the decoder loop: when it succeeds, the input begins with the records of `count` fitting pairs whose insertion gives its result |
| StateMachine.NoDecodedPairs | src/state_machine.rs:30 | a loop of no iterations consumes nothing and keeps the map |
| StateMachine.PairsStepReads | src/state_machine.rs:31-34 | a successful loop with iterations left read a key and a value |
| StateMachine.PairsStepGoesOn | src/state_machine.rs:31-35 | after a successful iteration the rest of the loop succeeds on the bytes left, with the pair inserted |
| StateMachine.ConsDecodedPairs | src/state_machine.rs:31-36 | the records of one iteration followed by the records of the remaining ones are the records of the whole loop |
| StateMachine.TwoFieldsThenPrefix | src/state_machine.rs:31-34 | a key field, a value field and a prefix of what follows them begin the input |
| StateMachine.PrefixAfter | src/state_machine.rs:30 | a prefix stays a prefix after the same bytes are put in front of both |
| StateMachine.KvDecodesExactly | src/state_machine.rs:26-38 | `DecodeKv`, the model of the snapshot's `try_from_bytes`: it yields a map exactly when the input begins with the encoding of pairs that denote that map |
| StateMachine.DecodedKvIsEncoded | src/state_machine.rs:26-38 | a snapshot that decodes begins with the encoding of pairs denoting the decoded map |
| StateMachine.EncodedKvDecodes | src/state_machine.rs:26-38 | an input that begins with the encoding of some pairs decodes to the map they denote |
| StateMachine.KvRoundTrip | src/state_machine.rs:26-52 | decoding the encoding written in any iteration order, followed by anything, yields the map those pairs denote |
| StateMachine.DecodePairsStep | src/state_machine.rs:31-35 | one loop iteration reads a key and a value and inserts them |
| StateMachine.DecodePairsStop | src/state_machine.rs:31-34 | a cut-off key or value field ends the decoder with `None` |
| StateMachine.DecodeTruncatedPairs | src/state_machine.rs:30-34 | records cut off anywhere before their end decode to `None` |
| StateMachine.TruncatedFirstPair | src/state_machine.rs:31-34 | records cut off inside their first key or value decode to `None` |
| StateMachine.CutAfterFirstPair | src/state_machine.rs:31-35 | records cut off after their first pair insert that pair and continue on the cut-off rest |
| StateMachine.KvTruncated | src/state_machine.rs:29-34 | every strict prefix of a snapshot encoding, including one shorter than the count, decodes to `None` |
| StateMachine.InsertAllOther | src/state_machine.rs:35 | inserting pairs with other keys leaves a key's presence and value as they were |
| StateMachine.LastPairWins | src/state_machine.rs:35 | when a key repeats, the value of its last pair is the one in the map |
| StateMachine.InsertAllAppend | src/state_machine.rs:35 | inserting one more pair updates the map at that key |
| StateMachine.InsertAllKeys | src/state_machine.rs:35 | the map's keys are the keys inserted plus the ones it had |
| StateMachine.MapOfSize | src/state_machine.rs:43 | pairs without repeated keys denote a map with one entry per pair, so the count written is the number of records |
| StateMachine.WriteStep | src/state_machine.rs:44-49 | visiting one more entry keeps the written pairs free of repeats and fitting, and the written and unvisited entries partition the map |
| StateMachine.AppendFreshKey | src/state_machine.rs:44 | appending a pair whose key is not yet written keeps the written keys distinct |
| StateMachine.AppendFitting | src/state_machine.rs:45-48 | written entries all have lengths that fit the u32 fields |
| StateMachine.MoveEntry | src/state_machine.rs:44 | moving one entry from unvisited to written keeps their disjoint union equal to the map |
| StateMachine.WriteDone | src/state_machine.rs:44-49 | when no entry is left, the written pairs list every entry exactly once |
| StateMachine.CloneStateMachine | src/state_machine.rs:77-83 | the field-by-field copy equals the original |
| StateMachine.KvStateMachine.constructor | src/state_machine.rs:14-15 | the default state machine is the empty map |
| StateMachine.KvStateMachine.ApplyCommand | src/state_machine.rs:20-22 | the key maps to the command's value afterwards, the key set gains the key, and every other key keeps its value |
| StateMachine.KvStateMachine.WriteBytes | src/state_machine.rs:41-52 | the bytes written are the count followed by one record per entry, in an iteration order listing every entry once, and they decode back to the map |
| StateMachine.KvStateMachine.WriteRecords | src/state_machine.rs:44-49 | the loop over the map writes the records of an order that lists every entry once |
| StateMachine.KvStateMachine.TryFromBytes | src/state_machine.rs:26-38 | the cursor loop returns what the decoder specification `DecodeKv` gives for the input, including `None` and the UTF-8 abort |
| Storage.Zeros | src/storage.rs:97 | the fill is `n` zero bytes |
| Storage.Resized | src/storage.rs:97 | `resize_with(n, 0)` leaves exactly `n` bytes |
| Storage.ResizedLayout | src/storage.rs:97 | the resized buffer keeps its old bytes below `n` and is zero from its old end up to `n` |
| Storage.WriteChunk | src/storage.rs:95-99 | the buffer after a chunk write is exactly `offset + len(data)` long |
| Storage.WriteChunkLayout | src/storage.rs:95-99 | the buffer after a chunk write keeps the old bytes below the offset, is zero from the old end to the offset, and holds `data` from the offset to its end, so old bytes beyond that are gone |
| Storage.WriteChunkIdempotent | src/storage.rs:95-99 | writing the same chunk twice leaves the buffer as writing it once |
| Storage.WriteChunkRestart | src/storage.rs:97-98 | a chunk at offset 0 replaces the whole buffer |
| Storage.WriteChunkInside | src/storage.rs:97-98 | a chunk at or before the end keeps the bytes below its offset and drops the rest |
| Storage.ChunksOfCover | src/storage.rs:112-116 | each chunk cut from a snapshot is non-empty, at most the chunk size, within the snapshot, and holds the snapshot bytes at its own offset |
| Storage.ChunkOfDrop | src/storage.rs:112-116 | a chunk of the bytes after the first chunk is a chunk of the whole snapshot |
| Storage.DeliverFirst | src/storage.rs:95-99 | delivering the first chunk of a transfer places it at its offset |
| Storage.DeliverLast | src/storage.rs:95-99 | delivering the last chunk completes the bytes it was cut from |
| Storage.Rejoin | src/storage.rs:98 | a chunk and the bytes after it rejoin to the whole |
| Storage.DeliverInOrder | src/storage.rs:95-99 | chunks delivered in offset order rebuild the bytes they were cut from after the buffer's earlier bytes |
| Storage.TransferInOrder | src/storage.rs:95-99 | a snapshot sent in chunks from offset 0, in order, arrives intact whatever the buffer held |
| Storage.OutOfOrderDeliveryTruncates | src/storage.rs:97-98 | two chunks delivered in reverse order leave only the first chunk's bytes, so reassembly depends on order |
| Storage.RamStorage.constructor | src/storage.rs:20-31 | a new storage has an empty log, term 0, no vote, no snapshot bytes, index and term 0, and an empty chunk buffer |
| Storage.RamStorage.AddLogEntry | src/storage.rs:35-37 | the log is the old log plus the entry, one longer, with the entry at its last index; nothing else changes |
| Storage.RamStorage.RemoveLogEntriesBefore | src/storage.rs:39-41 | the log is the old log from `index` on, and unchanged for index 0; an index past the end is excluded because `drain` panics; nothing else changes |
| Storage.RamStorage.RemoveLogEntriesStartingAt | src/storage.rs:43-45 | the log is the old log up to `index`, and unchanged for the log length; nothing else changes |
| Storage.RamStorage.LogEntry | src/storage.rs:49-51 | an entry is returned exactly when the index is in range, and it is the entry at that index |
| Storage.RamStorage.LogEntries | src/storage.rs:53-55 | the slice from `start` is what follows the first `start` entries, entry by entry |
| Storage.RamStorage.NumLogEntries | src/storage.rs:70-72 | every index below the count holds an entry and the count itself does not |
| Storage.RamStorage.GetIndexOfLastConfigInLog | src/storage.rs:57-68 | the result is the largest index of a `Config` entry, and `None` exactly when the log has none |
| Storage.RamStorage.SetSnapshot | src/storage.rs:74-93 | the index and term read back as set by `snapshot_last_index()` and `snapshot_last_term()`, which are plain field reads, the bytes are the encoded snapshot, `snapshot()` returns it when the codec reads it back, and the log, term, vote and chunk buffer are untouched |
| Storage.RamStorage.Snapshot | src/storage.rs:82-85 | the installed bytes decoded, or the initial state machine when they do not decode |
| Storage.RamStorage.AddNewSnapshotChunk | src/storage.rs:95-99 | the chunk buffer becomes `WriteChunk` of the old buffer: `offset + len(data)` long, old bytes kept below the offset, zeros from the old end to the offset, `data` from the offset on; nothing else changes |
| Storage.RamStorage.TryUseChunksAsNewSnapshot | src/storage.rs:101-110 | as written: a buffer that decodes becomes the installed snapshot with the new index and term, and the buffer empties; otherwise nothing changes; the result is `None` either way |
| Storage.RamStorage.TryUseChunksAsNewSnapshotReturning | src/storage.rs:101-110 | corrected: the same effects, and the result is the decoded state machine, which `snapshot()` then returns |
| Storage.PromotionDiscardsSnapshot | src/storage.rs:103-109 | for a buffer that decodes, the code as written returns `None` while the corrected operation returns the snapshot |
| Storage.RamStorage.SnapshotChunk | src/storage.rs:112-116 | the `amt` bytes from `offset`, which the bytes before and after complete to the installed bytes; a range past the end is excluded because slicing panics |
| Storage.RamStorage.TotalSnapshotBytes | src/storage.rs:118-120 | the byte length cast to u32: equal to it below 2^32 and congruent to it modulo 2^32 |
| Storage.RamStorage.SetVotedFor | src/storage.rs:122-128 | `voted_for()`, a plain field read, returns the vote set; the term, log and snapshot are untouched |
| Storage.RamStorage.SetCurrentTerm | src/storage.rs:130-136 | `current_term()`, a plain field read, returns the term set; the vote, log and snapshot are untouched |
| NetworkNames.DigitValue | src/main.rs:63 | a hex digit of either case has a value below 16 |
| NetworkNames.HexChar | src/main.rs:67 | the digit written for a value below 16 is uppercase and has that value |
| NetworkNames.HexValue | src/main.rs:63 | `k` hex digits denote a number below `16^k` |
| NetworkNames.HexDigits | src/main.rs:67 | `{:X}` writes at least one uppercase digit, and starts with `'0'` only for zero, written as the single digit `0` |
| NetworkNames.PadLeft | src/main.rs:67 | `{:0>4}` right-aligns in a field of width 4 filled with `'0'`: the original string ends the result and everything before it is `'0'` |
| NetworkNames.NumToNetworkName | src/main.rs:66-68 | a name is 4 to 8 uppercase hex digits, exactly 4 for ids below 0x10000, and a name longer than 4 has no leading zero |
| NetworkNames.FromStrRadix16 | src/main.rs:63 | a parse succeeds only on a non-empty string, and not on a lone `'+'` |
| NetworkNames.NetworkNameToNum | src/main.rs:62-64 | a name of hex digits maps to the number they denote; a name that does not parse is excluded because `unwrap` panics |
| NetworkNames.HexValueSnoc | src/main.rs:63 | one more digit multiplies the value by 16 and adds the digit |
| NetworkNames.HexDigitsValue | src/main.rs:67 | the digits `{:X}` writes denote the number |
| NetworkNames.HexDigitsLength | src/main.rs:67 | a number below `16^k` has at most `k` digits |
| NetworkNames.LeadingZeros | src/main.rs:63-67 | leading zeros do not change the value, so the padding is harmless to the parse |
| NetworkNames.AllZerosValue | src/main.rs:67 | a run of zeros denotes zero |
| NetworkNames.UpperHexInjective | src/main.rs:67 | two uppercase digit strings of equal length and value are the same string |
| NetworkNames.LastDigitUnique | src/main.rs:63 | the last digit and the rest of a numeral are determined by its value |
| NetworkNames.UpperDigitInjective | src/main.rs:67 | two uppercase digits with the same value are the same character |
| NetworkNames.SameDigitsSameValue | src/main.rs:63 | strings whose digits have equal values denote equal numbers, whatever the case |
| NetworkNames.NameValue | src/main.rs:66-68 | a generated name denotes its id |
| NetworkNames.NameRoundTrip | src/main.rs:62-68 | every u32 id parses back from its name, so `network_name_to_num(num_to_network_name(n)) == n` |
| NetworkNames.Pow16Monotone | src/main.rs:63 | more digits allow larger values: `16^i <= 16^j` for `i <= j` |
| NetworkNames.LeadingDigitBound | src/main.rs:67 | digits without a leading zero denote at least `16^(k-1)` |
| NetworkNames.SameMagnitude | src/main.rs:67 | a number has one digit count: `16^(a-1) <= v < 16^a` fixes `a` |
| NetworkNames.CanonicalNameRoundTrip | src/main.rs:62-68 | every name of the generated shape (4 uppercase digits, or 5 to 8 without a leading zero) parses and is the name of the id it parses to |
| NetworkNames.CanonicalNameParses | src/main.rs:63 | a name of the generated shape is accepted by the parse, at the number its digits denote |
| NetworkNames.CanonicalNameLength | src/main.rs:66-68 | the name generated for the id a name of the generated shape denotes is as long as that name |
| NetworkNames.LongNameLength | src/main.rs:67 | an id of `k` significant digits, `k` above 4, has a name of exactly `k` digits |
| NetworkNames.NetworkNameShape | src/main.rs:66-68 | a string is the name of some id exactly when it has the generated shape |
| NetworkNames.ParseIgnoresZerosAndCase | src/main.rs:62-64 | leading zeros and the case of the digits do not change the id a name denotes: such a name is accepted by the parse exactly as its uppercase digits are, at the same value |

## Left out

- The socket transport, JSON framing and timeouts of `src/network.rs`: these are I/O with no behaviour to state here.
- `hash` in `src/main.rs`: it depends on the standard library's `DefaultHasher`, whose output is not specified.
- `main` and `get_nodes_and_id`: process start-up and command-line reading.
- `save_log`: it does nothing in this storage.
- The consensus engine and the library's encoding of `RaftStateMachine`, which covers its configuration and client command ids. `Storage.RamStorage` takes that codec as two function parameters of the constructor, `encode` and `decode`. `SetSnapshot` promises its read-back only when the codec round-trips.
- The library's `write_u32`/`next_u32` byte order is not part of this model. It is fixed here as 4-byte big-endian, the same for writer and reader.
- I/O errors of `BytesWriter`: the writers here append to a `Vec`, which cannot fail, so `write_bytes` is modelled as always succeeding.
- HashMap hashing and iteration order. `StateMachine.KvStateMachine.WriteBytes` visits the entries in an unspecified order, chosen with `:|` and reported as a ghost sequence. Its guarantees hold for every order.
- `StateMachine.EncodeString`: requires the length below 2^32. It does not model the `as u32` truncation of a longer length.
- `StateMachine.EncodeCommand`: requires the key, value and mid lengths below 2^32.
- `StateMachine.KvStateMachine.WriteBytes`: requires the entry count and every key and value length below 2^32. It does not model the `as u32` truncation.
- Rust `String`/`&str` are modelled by their UTF-8 bytes (`Utf8.Str`); characters, `char` boundaries and normalisation are not modelled.
- `NetworkNames`: names are sequences of Dafny `char`. The parse follows `u32::from_str_radix` for radix 16: an optional `+`, then at least one digit of either case, with a value below 2^32. Other bases are not modelled.
- `usize` is unbounded here. `offset + amt` in `snapshot_chunk` cannot overflow a 64-bit `usize` for two `u32` values.
- `Storage.RamStorage.Snapshot`: clones the initial state machine with `StateMachine.CloneStateMachine`, as the code does; a value copy cannot alias, so sharing between the clone and the original is not modelled.
- `Storage.RamStorage`: its `decode` parameter is total, so the storage model cannot show the abort that the key/value codec's `unwrap` raises on a field that is not UTF-8 (`StateMachine.ReadInvalidString`) inside `snapshot()` or `try_use_chunks_as_new_snapshot`.
- Durability and flush ordering of the storage: this storage keeps everything in memory.

## Findings

| source | as written | input that shows it | evidently intended | confidence | as-written member | corrected member |
|---|---|---|---|---|---|---|
| src/storage.rs:107-109 | `Some(snapshot);` ends in a semicolon, so the value is discarded and the function always returns `None`, even after installing the decoded buffer | a chunk buffer that decodes, e.g. the one built in `Storage.PromotionDiscardsSnapshot` | return `Some(snapshot)` after promoting the buffer, `None` only when it does not decode | not executed; high | Storage.RamStorage.TryUseChunksAsNewSnapshot | Storage.RamStorage.TryUseChunksAsNewSnapshotReturning |
