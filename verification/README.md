# The rust-computers-api runtime, modelled and proved

The crate `crates/rust-computers-api` is the guest side of a computer that talks to
peripherals through a host. This project models its three connected mechanisms in Dafny and
proves what they are there for.

* **The MessagePack codec** (`msgpack.rs`, `serde_msgpack.rs`): an encoder, a recursive
  decoder, a second reader that skips over elements to index argument lists without decoding
  them, and the typed serde layer on top. Bytes are numbers below 256, text is a byte string
  that is valid UTF-8, a float is its bit pattern, a map is its entries in ascending key order.
  The decoder decodes text lossily, as `String::from_utf8_lossy` does, so it is modelled on all
  byte strings, well-formed or not.
* **The book, flush, poll and read protocol** (`book_store.rs`, `future.rs`, `executor.rs`,
  `peripheral.rs`): requests are booked, issued at the next flush, polled once per tick and
  consumed on read. The host may assign any ids, answer any status at any time, except those on
  which the runtime panics, and fill buffers with anything. A ghost log records what was booked, issued, asked, answered and read;
  ghost serial numbers say which host call a result belongs to. The host keeps its own ghost logs
  of the calls, polls and fetches it saw, and every method says how they grow.
* **The bitwise CRC-32** (`peripheral.rs`) that turns method names into ids, with the register
  as 32 bits, least significant first.

Code that works by changing things (the store, the wait and join futures, the executor, the
serializers, the decode and skip loops) is a class or a method with loops. Each such method is
proved against a function that specifies it, and the theorems are about those functions.

| files | what they hold |
|---|---|
| `Bytes`, `Utf8`, `Scalars`, `SortedMap`, `Value` | bytes, text and its characters, ordered maps, values and integer casts |
| `Encoder`, `Decoder`, `RoundTrip`, `Wire`, `Boundary`, `LongKey`, `Widening` | the two directions of the codec, and where one undoes the other |
| `ArgIndex`, `ArgRoundTrip` | skipping and argument access, and how they refine the decoder |
| `CodecLoops` | the encode, skip, index and decode loops |
| `Serde`, `SerdeMeaning`, `SerdeObjects`, `SerdeReading` | typed data to values and back, what each stands for; the serializer and deserializer objects and the loops over them |
| `Host`, `BookStore`, `BookSafety`, `BookOrder`, `BookWaitRead` | the store, its invariant over all runs, result order, and the book-wait-read program |
| `Futures`, `FutureObjects`, `Trace`, `Driver`, `Executor` | futures polled once per tick, joins, awaits, the objects behind them with everything they say to store and host, and the tick loop |
| `Crc32`, `CrcReference` | the checksum and its algebra; the same checksum over numbers and by table |

Where code and documentation disagree the code is followed: the comment at
`crates/rust-computers-api/src/ffi.rs:103` says that a positive status is the size, but
`book_store.rs:232-237` takes it for the size plus one.

Five things the proofs show that the sources do not say:

* Text of 256 bytes and more, and binary data of 65536 bytes and more, do not come back from
  their encoding: the length field is cut. `Boundary.ComesBackIff` says so for whole values. Only
  a map with an over-long key that reads, after the cut, as something above itself can come back
  by accident, put together from its own bytes and those that follow; `LongKey` gives one.
* `decode_bool_at` indexes past the end exactly when a fixarray announces the argument and the
  data ends before it (`ArgIndex.BoolArgPanicsIff`); at most one index of given data does so, and
  none of data that decodes.
* A task that books, waits and reads gets the host's answer to its own call in every run exactly
  when no older information request of that key is in flight at the booking
  (`BookWaitRead.ReplyIsCertainIff`, and `OwnReplyIsCertainIff` for a host that gives no id twice);
  otherwise the older one may finish later and overwrite it.
* All data of a type comes back exactly when no reachable option wraps unit or another option
  (`Serde.TypeRoundTripIff`); `Some(None)` of a nested option reads back as `None`.
* A tree of joins and awaits over the real futures behaves as the futures alone do with the
  answers the store and the host gave their leaves, whatever is booked and read in between, and
  polls exactly the leaves that are reached (`Drivers.Drive`).

## Model

| member | source | states |
|---|---|---|
| RoundTrip.DecodeOfEncode | crates/rust-computers-api/src/msgpack.rs:549-774 | for every encodable value nested to any depth, decoding its encoding, whatever bytes follow, gives that very value and the length of the encoding |
| Wire.IsFormIff | crates/rust-computers-api/src/msgpack.rs:42-142 | an encodable value has one form on the wire, given by first bytes and arithmetic on the bytes after them (nil, bool, int, float 64, str, bin, array and map families), and its encoding is exactly that |
| Wire.FormIsRead | crates/rust-computers-api/src/msgpack.rs:556-774 | a value in that form is read as it, whatever follows |
| Wire.IntIsRead | crates/rust-computers-api/src/msgpack.rs:575-623 | every integer tag with its field of 1, 2, 4 or 8 bytes is read as the number the bytes denote, with a sign from 0xD0 on, those the encoder never writes included |
| Wire.FloatIsRead | crates/rust-computers-api/src/msgpack.rs:625-635 | a float 32 is read as its bytes' number, widened |
| Wire.UnreadTags | crates/rust-computers-api/src/msgpack.rs:556-774 | the other tags are not read: ext, bin 32, str 32, array 32, map 32, uint 64 and the one never used |
| RoundTrip.DecodeBetween | crates/rust-computers-api/src/msgpack.rs:556-774 | behind any bytes and before any others, decoding at the start of an encoding gives the value and the offset just past it |
| RoundTrip.DecodeOfItems | crates/rust-computers-api/src/msgpack.rs:707-732 | a concatenation of encodings parses back to the same list |
| RoundTrip.DecodeOfEntries | crates/rust-computers-api/src/msgpack.rs:733-771 | a map's entries written one after the other parse back to the same ordered map |
| RoundTrip.EncodingIsPrefixFree | crates/rust-computers-api/src/msgpack.rs:852-881 | two encodings that start the same stream are of the same value, with the same rest: encoding is injective and self-delimiting |
| RoundTrip.DecodeOfStr | crates/rust-computers-api/src/msgpack.rs:64-79 | what encoded text of any length decodes to, including what is lost when its length is cut to a byte |
| RoundTrip.HeadOfInt | crates/rust-computers-api/src/msgpack.rs:127-142 | every 64-bit integer is read back with its exact length, across the five width classes and both signs |
| RoundTrip.DecodeOfStr16 | crates/rust-computers-api/src/msgpack.rs:670-682 | text written as a str 16, a form the encoder never uses, is read with its exact length |
| RoundTrip.DecodeOfArray16 | crates/rust-computers-api/src/msgpack.rs:719-732 | an array 16 of up to 65535 encoded values is read as the list of them |
| Widening.PromoteIsExact | crates/rust-computers-api/src/msgpack.rs:625-635 | reading a float32 keeps the sign, is exact on every finite number down to the subnormals, and takes infinities to infinities and NaNs to NaNs |
| Boundary.ComesBackIff | crates/rust-computers-api/src/msgpack.rs:852-881 | a value whose map keys do not read as something above themselves comes back exactly when all its text fits 255 bytes, its binary data 65535 bytes and its maps 65535 entries, and then with its exact length |
| Boundary.CleanCutDoesNotRise | crates/rust-computers-api/src/msgpack.rs:72-77 | keys that fit do not rise, nor do longer ones whose cut falls between two characters |
| Boundary.LongIsLost | crates/rust-computers-api/src/msgpack.rs:64-79 | text reads as itself after the cut exactly when it has at most 255 bytes |
| LongKey.LongKeyComesBack | crates/rust-computers-api/src/msgpack.rs:852-881 | the condition on keys is needed: a map with a key of 46342 bytes, cut inside a character, that comes back |
| Boundary.ComesBackOnlyIf | crates/rust-computers-api/src/msgpack.rs:556-774 | the hard half: misread lengths are never made up for later in the value |
| Boundary.EntriesBound | crates/rust-computers-api/src/msgpack.rs:733-771 | n decoded entries make a map at most n larger, and n larger only if none is overwritten |
| Scalars.ValidIffText | crates/rust-computers-api/src/msgpack.rs:648-681 | text is valid exactly when it is the encoding of some characters, each the number of a scalar value spread over one to four bytes |
| Scalars.CharacterIsFirst | crates/rust-computers-api/src/msgpack.rs:648-681 | every character is recognized, whatever follows it |
| Scalars.OkIsCharacter | crates/rust-computers-api/src/msgpack.rs:648-681 | nothing else is |
| Scalars.RunIsLongestStart | crates/rust-computers-api/src/msgpack.rs:648-681 | an ill-formed run, which becomes one U+FFFD, is the longest start of a character that the bytes begin with, or one byte if they begin with none |
| Utf8.LossyIsIdentityIffValid | crates/rust-computers-api/src/msgpack.rs:648-681 | lossy decoding (one U+FFFD per ill-formed run) changes nothing exactly on valid UTF-8 |
| Utf8.LossyOfCut | crates/rust-computers-api/src/msgpack.rs:648-681 | cutting valid text anywhere keeps all whole characters and makes one U+FFFD of a cut one |
| Values.UnsignedOfBigEndian | crates/rust-computers-api/src/msgpack.rs:98-142 | the big-endian bytes of a number denote it modulo the field's width |
| SortedMap.LessIff | crates/rust-computers-api/src/msgpack.rs:388-406 | keys are ordered by the first byte where they differ, a text after its own beginnings |
| SortedMap.SameLookups | crates/rust-computers-api/src/msgpack.rs:388-406 | an ordered map is given by what is found under each key |
| SortedMap.InsertLookup | crates/rust-computers-api/src/msgpack.rs:388-406 | inserting into the ordered map changes the value of that one key |
| SortedMap.InsertLast | crates/rust-computers-api/src/msgpack.rs:733-771 | entries inserted in ascending order are appended |
| Decoder.DecodeIsLocal | crates/rust-computers-api/src/msgpack.rs:556-774 | a successful decode gives the same result whatever follows the bytes it used |
| Decoder.TruncationFails | crates/rust-computers-api/src/msgpack.rs:556-774 | no strict truncation of the bytes a decode used decodes |
| Decoder.DecodedIsSmall | crates/rust-computers-api/src/msgpack.rs:556-774 | a decoded value has no more nodes than bytes were consumed |
| ArgIndex.SkipAgrees | crates/rust-computers-api/src/msgpack.rs:319-356 | where the decoder succeeds, skipping succeeds exactly when it knows every tag inside, and then ends at the same offset |
| ArgIndex.SkipBound | crates/rust-computers-api/src/msgpack.rs:319-356 | skipping passes the end of the data by at most 256, on any bytes |
| ArgIndex.OffsetRefinesDecode | crates/rust-computers-api/src/msgpack.rs:202-218 | on a decodable fixarray the offset of argument k is where the decoder started reading element k, or none exactly when an earlier element has an unknown tag or k is past the end |
| ArgIndex.Int64ArgIsElement | crates/rust-computers-api/src/msgpack.rs:146-199 | the 64-bit reader returns element k's integer, and 0 if it is none or cannot be reached |
| ArgIndex.Int32ArgIsElement | crates/rust-computers-api/src/msgpack.rs:221-256 | the 32-bit reader does the same, except that uint 32 and int 64 read as 0 |
| ArgIndex.BoolArgIsElement | crates/rust-computers-api/src/msgpack.rs:260-266 | on decodable data the bool reader does not panic, and is true exactly for a reachable element `true` |
| ArgIndex.BoolArgPanicsIff | crates/rust-computers-api/src/msgpack.rs:260-266 | on any bytes and index, the bool reader indexes past the end exactly when a fixarray announces that argument and ends, as skipping counts, at or inside the one before it |
| ArgIndex.OneIndexPanics | crates/rust-computers-api/src/msgpack.rs:260-266 | at most one index does so for given data |
| ArgIndex.StrArgIsElement | crates/rust-computers-api/src/msgpack.rs:269-287 | the text reader returns element k's text if it is a fixstr or str 8 of valid UTF-8, and the empty text otherwise |
| ArgRoundTrip.EncodedTags | crates/rust-computers-api/src/msgpack.rs:319-356 | skipping knows all tags of an encoding exactly when the value holds no binary data and no map of more than 15 entries |
| ArgRoundTrip.EncodedArgIsFound | crates/rust-computers-api/src/msgpack.rs:202-218 | argument k of an encoded list is found exactly when every argument before it is such a value |
| ArgRoundTrip.Int64ArgRoundTrip | crates/rust-computers-api/src/msgpack.rs:146-199 | integers among the arguments of an encoded list are read back unchanged |
| ArgRoundTrip.Int32ArgRoundTrip | crates/rust-computers-api/src/msgpack.rs:53-94 | a list of up to 15 32-bit integers is read back by the 32-bit reader |
| ArgRoundTrip.TextArgRoundTrip | crates/rust-computers-api/src/msgpack.rs:260-287 | texts and bools among the arguments of an encoded list are read back unchanged |
| ArgRoundTrip.SingleArgRoundTrip | crates/rust-computers-api/src/msgpack.rs:202-210 | an encoded value that is no list is read as argument 0 |
| ArgIndex.SingleArg | crates/rust-computers-api/src/msgpack.rs:202-210 | decodable data that is no fixarray is its own argument 0 for each reader, and has no other |
| CodecLoops.ArrayOf | crates/rust-computers-api/src/msgpack.rs:85-94 | the loop that joins encoded elements writes the specified fixarray |
| CodecLoops.EncodeValue | crates/rust-computers-api/src/msgpack.rs:852-881 | the encoder with its buffers writes the specified encoding |
| CodecLoops.EncodeMap | crates/rust-computers-api/src/msgpack.rs:864-880 | the map loop writes header, then keys and values in key order |
| CodecLoops.SkipElement | crates/rust-computers-api/src/msgpack.rs:319-356 | the loop that advances a position over nested elements computes the specified skip, -1 for none |
| CodecLoops.ArgOffset | crates/rust-computers-api/src/msgpack.rs:202-218 | the argument loop computes the specified offset, -1 for none |
| CodecLoops.DecodeInt64At | crates/rust-computers-api/src/msgpack.rs:146-199 | the shifting reader with wrap-around computes the specified integer |
| CodecLoops.ShiftIn | crates/rust-computers-api/src/msgpack.rs:181-188 | shifting bytes into a 64-bit register with overflow gives their big-endian number as a signed integer |
| CodecLoops.DecodeItemsAt | crates/rust-computers-api/src/msgpack.rs:707-732 | the array loop with its cursor refines the recursive decoder |
| CodecLoops.DecodeEntriesAt | crates/rust-computers-api/src/msgpack.rs:733-771 | the map loop with its cursor refines the recursive decoder |
| CodecLoops.DecodeAt | crates/rust-computers-api/src/msgpack.rs:556-774 | decoding at any position terminates, refines the recursive decoder, and on success ends past the position and within the data |
| SerdeMeaning.WritesIff | crates/rust-computers-api/src/serde_msgpack.rs:44-312 | data is written as the one value that stands for it: integers modulo 2^64, text as text, options as nothing or what they hold, sequences and tuples position by position, structs by exactly their field names, maps key by key, variants by their name |
| SerdeMeaning.NothingIsBinary | crates/rust-computers-api/src/serde_msgpack.rs:105-107 | no data of these types is written with binary data inside |
| SerdeMeaning.ReadsIff | crates/rust-computers-api/src/serde_msgpack.rs:332-665 | a value, written or not, is read as data exactly when it reads as that data: integers wrap around into their range, text may come as binary data, unit takes anything, a tuple takes the items it needs, fields are found by name and optional ones may be missing |
| SerdeMeaning.CastIs | crates/rust-computers-api/src/serde_msgpack.rs:368-415 | a cast is the one number in range that differs by a multiple of the range |
| SerdeMeaning.UndecodableIsNil | crates/rust-computers-api/src/serde_msgpack.rs:322-328 | empty or undecodable bytes read as unit and as `None` and as nothing else, like the encoding of nil |
| SerdeMeaning.DecodableReads | crates/rust-computers-api/src/serde_msgpack.rs:322-328 | anything decodable reads as its value does, whatever follows |
| Serde.ValueRoundTrip | crates/rust-computers-api/src/serde_msgpack.rs:44-548 | typed data of any schema comes back from its value exactly when no `Some` in it is written as nil |
| Serde.BytesRoundTrip | crates/rust-computers-api/src/serde_msgpack.rs:317-328 | the same through bytes on the encodable domain, whatever bytes follow |
| Serde.NilIffWritesNil | crates/rust-computers-api/src/serde_msgpack.rs:111-122 | what is written as nil: unit, `None`, and `Some` of such data |
| Serde.TypeRoundTripIff | crates/rust-computers-api/src/serde_msgpack.rs:44-548 | all data of a type comes back exactly when, in every position data can reach, no option wraps unit or another option |
| Serde.SafeIsFaithful | crates/rust-computers-api/src/serde_msgpack.rs:111-116 | all data of such types is faithful |
| Serde.UnsafeLoses | crates/rust-computers-api/src/serde_msgpack.rs:456-461 | every other type has data that is lost |
| Serde.NestedOptionIsLost | crates/rust-computers-api/src/serde_msgpack.rs:456-461 | `Some(None)` reads back as `None` |
| Serde.CastBack | crates/rust-computers-api/src/serde_msgpack.rs:70-93 | every integer type survives the trip through a signed 64-bit value, u64 by wrapping twice |
| Serde.SeqRoundTrip | crates/rust-computers-api/src/serde_msgpack.rs:551-572 | a sequence comes back exactly when each of its items does |
| Serde.FieldRoundTrip | crates/rust-computers-api/src/serde_msgpack.rs:280-295 | fields found under their names come back exactly when each of them does |
| Serde.MapRoundTrip | crates/rust-computers-api/src/serde_msgpack.rs:574-606 | a text-keyed map comes back exactly when each of its values does |
| SerdeObjects.MapSerializer.SerializeKey | crates/rust-computers-api/src/serde_msgpack.rs:260-269 | text becomes the pending key; anything else is an error that leaves the pending key |
| SerdeObjects.MapSerializer.SerializeValue | crates/rust-computers-api/src/serde_msgpack.rs:270-274 | the pending key is taken and its entry inserted; without one it is an error |
| SerdeObjects.SeqDeserializer.NextElement | crates/rust-computers-api/src/serde_msgpack.rs:558-566 | elements come out in order, then none |
| SerdeObjects.MapDeserializer.NextKey | crates/rust-computers-api/src/serde_msgpack.rs:582-593 | keys come out in order, each leaving its value to be taken |
| SerdeObjects.Serialize | crates/rust-computers-api/src/serde_msgpack.rs:44-312 | driving the serializer objects builds the specified value |
| SerdeObjects.SerializeStruct | crates/rust-computers-api/src/serde_msgpack.rs:178-187 | the field loop builds the specified map |
| SerdeObjects.SerializeMap | crates/rust-computers-api/src/serde_msgpack.rs:252-278 | the key and value loop builds the specified map |
| SerdeReading.Deserialize | crates/rust-computers-api/src/serde_msgpack.rs:317-548 | driving the deserializer objects reads the specified data, or fails exactly when it does |
| SerdeReading.DeserializeSeq | crates/rust-computers-api/src/serde_msgpack.rs:551-572 | the element loop reads the specified sequence |
| SerdeReading.DeserializeTuple | crates/rust-computers-api/src/serde_msgpack.rs:491-501 | as many elements as the tuple has parts are taken |
| SerdeReading.DeserializeStruct | crates/rust-computers-api/src/serde_msgpack.rs:515-522 | the key loop fills the fields in whatever order they come, ignores other keys, and gives the specified struct |
| SerdeReading.DeserializeMap | crates/rust-computers-api/src/serde_msgpack.rs:574-606 | the key and value loop reads the specified map |
| SerdeReading.DeserializeEnum | crates/rust-computers-api/src/serde_msgpack.rs:608-665 | a variant is found by its name; a newtype variant needs its payload, a unit variant ignores it |
| SerdeObjects.SerializeGeneric | crates/rust-computers-api/src/serde_msgpack.rs:668-693 | serializing a generic value through the objects is the identity |
| SerdeObjects.DeserializeGeneric | crates/rust-computers-api/src/serde_msgpack.rs:695-757 | and so is deserializing it |
| Hosts.PayloadIsDelivered | crates/rust-computers-api/src/book_store.rs:222-281 | a host that answers size plus one and writes the payload delivers exactly the payload, the empty one too |
| Hosts.OutcomeMeans | crates/rust-computers-api/src/book_store.rs:226-270 | for every reply: none while the status is 0; an error exactly when the status is negative or a payload cannot be fetched, and then the one with that number; otherwise the bytes fetched |
| Hosts.CodesAreErrors | crates/rust-computers-api/src/error.rs:43-57 | every code names one error, the named ones by the host's numbers (`forge/src/main/java/com/rustcomputers/wasm/ErrorCodes.java`), and any other is kept as it is |
| BookStores.SortedKeysAre | crates/rust-computers-api/src/book_store.rs:162-182 | the order in which pending requests are walked: all keys, by the number whose high half is the peripheral and whose low half is the method, rising |
| BookStores.BookStore.BookRequest | crates/rust-computers-api/src/book_store.rs:117-120 | the whole new state: the request of the key is replaced |
| BookStores.BookStore.BookAction | crates/rust-computers-api/src/book_store.rs:127-130 | the whole new state: the action is appended |
| BookStores.BookStore.ReadResult | crates/rust-computers-api/src/book_store.rs:137-140 | the result of the key is returned and removed |
| BookStores.BookStore.ReadActionResults | crates/rust-computers-api/src/book_store.rs:147-150 | all action results of the key are returned in order and removed |
| BookStores.BookStore.FlushRequests | crates/rust-computers-api/src/book_store.rs:162-182 | the first loop issues one call per pending request, keys ascending, and puts each in flight |
| BookStores.BookStore.FlushActions | crates/rust-computers-api/src/book_store.rs:184-201 | the second loop issues the pending actions in booking order and puts each in flight |
| BookStores.BookStore.Flush | crates/rust-computers-api/src/book_store.rs:162-202 | the host's log grows by exactly the pending requests and then the actions, and nothing stays pending |
| BookStores.BookStore.PollRequest | crates/rust-computers-api/src/book_store.rs:222-270 | one request's reply path: the host sees one poll under the given id, and one fetch under it exactly when the status, cut to 32 bits, announces a payload; the outcome is that of this status and buffer |
| BookStores.BookStore.PollAll | crates/rust-computers-api/src/book_store.rs:209-285 | one round: the host sees one poll for every request in flight, in order and under its own id, and one fetch for each answered with a payload; each is settled into its map by its own answer or kept; the return says whether none is left |
| BookStores.StepLogs | crates/rust-computers-api/src/book_store.rs:162-285 | the logs grow by exactly the calls a flush makes and the answers a round gets |
| BookSafety.RunKeepsInv | crates/rust-computers-api/src/book_store.rs:117-285 | in every run, whatever the host answers, bookings, calls, flights and results stay accounted for |
| BookSafety.StepKeepsInv | crates/rust-computers-api/src/book_store.rs:117-285 | every operation keeps that invariant from any state that has it |
| BookSafety.EveryRunConserves | crates/rust-computers-api/src/book_store.rs:127-285 | in every run each booked action is pending or was issued, once and in booking order, and each issued one is in exactly one place: in flight, stored or read |
| BookSafety.EachActionInOnePlace | crates/rust-computers-api/src/book_store.rs:147-285 | the same for any state with the invariant, and its result is under no other key |
| BookSafety.FlushIssues | crates/rust-computers-api/src/book_store.rs:162-202 | a flush issues one call per key booked since the last flush, their numbers rising, with the arguments of the last booking, all before any action |
| BookSafety.LastArgsAre | crates/rust-computers-api/src/book_store.rs:117-120 | those arguments are those of the key's last booking |
| BookSafety.FlushActionsAre | crates/rust-computers-api/src/book_store.rs:184-201 | the actions a flush issues are the pending ones in order |
| BookSafety.ReadyMeansAllSettled | crates/rust-computers-api/src/book_store.rs:209-285 | with nothing in flight every call ever issued has been settled exactly once |
| BookSafety.FinalAnswerIsLast | crates/rust-computers-api/src/book_store.rs:222-284 | if the host gives no id twice, it is asked under an id until its first final answer and never again: one final answer and at most one fetch per id |
| BookOrder.PollKeepsOrderIff | crates/rust-computers-api/src/book_store.rs:209-285 | a poll round keeps a key's results in issue order exactly when the host settled no request before an earlier one |
| BookOrder.RunKeepsOrderIff | crates/rust-computers-api/src/book_store.rs:162-285 | throughout a run a key's settled calls and then its flights are its calls in issue order exactly when every poll round of the run was fifo for it |
| BookOrder.RunKeepsOrder | crates/rust-computers-api/src/book_store.rs:162-285 | with such a host the settled calls and then the flights of a key are its calls in issue order, in every run |
| BookOrder.ActionResultsInOrder | crates/rust-computers-api/src/book_store.rs:147-150 | the concatenated reads of a key's action results, with what is still stored, are in booking order without gaps |
| BookOrder.InfoResultIsLatest | crates/rust-computers-api/src/book_store.rs:216-284 | a stored information result comes from the latest-issued request settled |
| BookWaitRead.ReplyIsCertainIff | crates/rust-computers-api/src/peripheral.rs:270-330 | from any reachable state: in every run of book, wait and read the read gives a final answer the host gave under the id of the one call issued for the key since the booking, which had those arguments, and is not `NotRequested`, exactly when no older request of the key is in flight |
| BookWaitRead.OwnReplyIsCertainIff | crates/rust-computers-api/src/peripheral.rs:270-330 | where the host gives no id twice: exactly then every such run ends with the one final answer the host ever gave under that call's id, which no other call has |
| BookWaitRead.OwnReplyIff | crates/rust-computers-api/src/book_store.rs:222-284 | with unique ids the two ways to say whose answer it is agree |
| BookWaitRead.BookWaitReadGetsReply | crates/rust-computers-api/src/peripheral.rs:304-315 | the positive half, from any state, with anything that does not touch the key in between |
| BookWaitRead.OlderRequestWins | crates/rust-computers-api/src/book_store.rs:216-284 | for every state with an older request in flight and any ids the host assigns, a run and host answers in which its outcome is read instead |
| BookWaitRead.FlushSends | crates/rust-computers-api/src/book_store.rs:162-182 | a flush puts exactly one request of a pending key in flight, with its arguments, and none of any other key |
| BookWaitRead.RunCallsOnce | crates/rust-computers-api/src/book_store.rs:117-182 | a booking nobody else touches is issued at most once, and not before it stops being pending |
| BookWaitRead.RunKeepsPhase | crates/rust-computers-api/src/book_store.rs:117-285 | a booking nobody else touches stays pending until a flush, and from then on in flight or answered |
| Futures.JoinIsProduct | crates/rust-computers-api/src/future.rs:203-232 | after any number of polls every slot of a join is where its child would be on its own; it is ready exactly when the slowest child is, every output in its slot, under any nesting |
| Futures.JoinReaches | crates/rust-computers-api/src/future.rs:569-587 | a join polls exactly the leaves its children would poll on their own: none twice, none after finishing |
| Futures.ChainCarries | crates/rust-computers-api/src/future.rs:49-67 | while its first await is pending a sequence only carries it along |
| Futures.ChainHandsOver | crates/rust-computers-api/src/future.rs:49-67 | when it is ready the next await starts in that very tick |
| Futures.NeverEarly | crates/rust-computers-api/src/future.rs:49-162 | through any nesting of joins and awaits no host makes a future ready before its fresh leaves were each given their own tick |
| Futures.PromptIsExact | crates/rust-computers-api/src/future.rs:49-162 | and a host that always answers makes it ready at the very next poll |
| FutureObjects.WaitForNextTickFuture.Poll | crates/rust-computers-api/src/future.rs:49-67 | the first poll flushes and is pending, later ones poll all; the host sees exactly the calls, polls and fetches of that step; ready means every call of the whole run is settled exactly once |
| FutureObjects.RequestFuture.Poll | crates/rust-computers-api/src/future.rs:108-162 | pending at first without a word to the host; then one poll under its own id, the same outcome function as the store's reply path, and a fetch under that id exactly when there is a payload |
| FutureObjects.JoinFuture.Poll | crates/rust-computers-api/src/future.rs:203-232 | the slots in place become those of one poll of every unfinished child; all outputs are handed out when all are there; polled again it stays pending |
| Drivers.PollNode | crates/rust-computers-api/src/future.rs:49-232 | one poll of a tree of joins and awaits over real wait and request objects: exactly the leaves that the future it stands for reaches are polled, each as often as it is reached, under their own kind, request id and first-poll flag; store and host logs go through exactly the steps of these polls and of the code in between; and the future goes on by what each leaf was told, a wait whether nothing is left in flight after its round, a request whether its answer is final |
| Drivers.Drive | crates/rust-computers-api/src/executor.rs:75-98 | a run of many ticks is the run of the future alone under the answers its leaves were told; its log, tick by tick, is everything store and host go through, with exactly the leaves reached polled; no run is ready before its fresh leaves were each given their own tick |
| Traces.RunReaches | crates/rust-computers-api/src/future.rs:203-232 | the leaves polled over a whole run are those the future reaches, counted |
| Traces.SlotThenSlots | crates/rust-computers-api/src/future.rs:203-232 | the events of a join are those of its children one after the other, and what each child is told is its own |
| Traces.StageHandsOver | crates/rust-computers-api/src/future.rs:49-67 | the events of a stage that completes and of the following ones make up those of the sequence in that tick |
| Executors.Executor.Tick | crates/rust-computers-api/src/executor.rs:75-98 | one poll per tick, with return code and held future |
| Executors.TraceShape | crates/rust-computers-api/src/executor.rs:75-98 | a future first ready at poll m+1 makes ticks return 1 for m times, then 0 once, then -1 forever |
| Executors.NeverReadyNeverEnds | crates/rust-computers-api/src/executor.rs:75-98 | a future that is never ready makes every tick return 1 |
| Executors.DelayTicksContinue | crates/rust-computers-api/src/executor.rs:75-98 | the ticks its fresh leaves need all return 1, whatever the host does |
| Executors.AwaitsTakeTicks | crates/rust-computers-api/src/executor.rs:75-98 | n sequential awaits make at least n ticks return 1, and with a prompt host exactly n |
| Crc32.MethodId | crates/rust-computers-api/src/peripheral.rs:166-185 | the nested loops compute the specified checksum |
| Crc32.StepIsBijective | crates/rust-computers-api/src/peripheral.rs:176-182 | every bit step is a bijection on the register, with its inverse |
| Crc32.RegisterIsFeed | crates/rust-computers-api/src/peripheral.rs:172-185 | mixing in a byte and stepping eight times is feeding its bits one by one |
| Crc32.CrcIsAffine | crates/rust-computers-api/src/peripheral.rs:172-185 | over equal-length strings, the checksum of a xor b xor c is the xor of the three checksums |
| Crc32.BurstChangesCrc | crates/rust-computers-api/src/peripheral.rs:172-185 | two strings that differ only inside 32 consecutive bits, wherever they start, have different checksums |
| Crc32.WindowChangesId | crates/rust-computers-api/src/peripheral.rs:166-185 | names that differ only inside a window of at most four bytes have different ids |
| Crc32.FiveBytesCollide | crates/rust-computers-api/src/peripheral.rs:166-185 | four is the limit: every five-byte window has another with the same id and ASCII characters in the same places, so every window of five ASCII characters has an ASCII twin |
| CrcReference.CrcIsNumber | crates/rust-computers-api/src/peripheral.rs:172-185 | the bits of the checksum are those of the number that shifting and xoring 32-bit numbers gives, on every input |
| CrcReference.CrcIsRfc1952 | crates/rust-computers-api/src/peripheral.rs:172-185 | the bitwise loop equals the table-driven algorithm of section 8 of RFC 1952, with its own table and constants, on every input |

## Left out

- ComesBackIff: assumes that no map key reads, after its length is cut to a byte, as something above itself; `LongKeyComesBack` shows that it is needed. Which of the maps with such a key come back, by what follows them, is not described. A value with an array of more than 15 elements cannot be encoded (the encoder panics).
- ComesBackOnlyIf: the same assumption.
- DecodeOfEncode: stated on the encodable domain, which `ComesBackIff` shows to be the exact one.
- DecodeAt: positions are unbounded numbers, so the wrap-around of a 32-bit position on data close to 2^31 bytes is not modelled; `SkipBound` shows that positions stay within the data plus 256.
- PollRequest: positive statuses whose low 32 bits are 0 or above 2^31 are not modelled; the runtime panics on them, computing the size or reserving the buffer. Running out of memory is not modelled either.
- RunKeepsInv: ids are whatever the host gives; calls are told apart by their place in the host's log. Where answers are told apart by id (`FinalAnswerIsLast`, `OwnReplyIsCertainIff`), unique ids are a stated assumption.
- ReplyIsCertainIff: progress (that a poll round ever leaves nothing in flight) is not claimed, and need not hold when a looping task is joined with another.
- JoinIsProduct: what a leaf hears in a tick is given by a function of leaf and tick, which `Drive` gets from the objects; `Join2` to `Join8` are modelled once, over a sequence of children.
- Drive: the leaves are objects, joins and awaits a tree over them that each poll replaces; the slots of a join updated in place are `JoinFuture`, whose children are values, so that how often it polls them is stated for the tree only. The code between awaits books and reads; it does not issue calls directly.
- ValueRoundTrip: floats, `char`, byte arrays, tuple variants and struct variants are not in the schemas; the code that serde derives for structs and enums is modelled by its effect; error texts are dropped.
- PromoteIsExact: NaN payloads of a widened float32 are made canonical.
- `decode_float64_at`, the conversions between integers and floats, the `Value` accessors and its `Display` text.
- The peripheral wrapper modules (one abstract book, wait and read program stands for them), `request_info`, `do_action`, `request_info_imm`, `find_imm`, `wrap`, `Direction` and `PeriphAddr`.
- Raw pointers, `Pin`, `UnsafeCell`, wakers, the allocator, the panic handler and the foreign function declarations; the host is an arbitrary machine instead.
- Fairness and liveness of waits.
- The Java side of the repository.
