# Protocol, codec and JSON Pointer model of the warehouse server

The server application stands on two vendored libraries: the networking library in
`serverApp/source/mongoose.c` and the JSON library under `serverApp/json-develop`. This project
models the parts of them whose correctness is not visible from one function body, and proves what
they are for. `dafny verify dfyconfig.toml` checks everything.

## Modules

| file | what it models |
|---|---|
| `Wrappers` | `Option`, and `Result` with the numeric identifier of the JSON library's exceptions |
| `PointerText`, `Numerals` | JSON Pointer as text: splitting, printing, escaping, array indices (RFC 6901) |
| `Json` | documents, the checked walker, the membership test, the creating walker as a lens |
| `Flatten`, `FlattenOrders`, `EmptyContainers`, `Flattening` | rebuilding, orders of visiting, what empty containers become, the writer, and when a document survives |
| `OrderedMap` | the insertion-ordered map over a shifting vector |
| `Arithmetic`, `Bytes`, `IoBuf` | remainders, bytes, and the growable buffer over a zeroed array |
| `Stream` | byte streams handled packet by packet, and why cutting them differently cannot be observed |
| `Mqtt`, `WebSocket` | framers, receive handlers and encoders over that buffer |
| `Glob`, `Sha1`, `Base64`, `Forms`, `Timers` | the matcher, the digest, base64, form encoding and lookup, the timer list |

## How to read it

What the source does step by step is a method over arrays, links or fields, proved equal to a
function of its input or of the old state; the lemmas are about that function. The receive handlers
are the clearest case: `Drain` says what a byte stream means (events, leftover, closing), `MqttCb`
and `WsCb` are proved to compute it on the real buffer, `Receiver.Valid` says that the whole state
is `Drain` of all bytes read so far, and `Fragmentation` says that cutting the stream differently
cannot be observed by the handler. The poll loop reads no more once a connection is to close;
`Stream.CutUnobserved` and `WebSocket.SentIsServed` say what a cut changes then. The timer list is
the same idea over time: `TimerList.Valid` says that each timer is where its history of polls,
folded one tick at a time, puts it. Callbacks are entries of a log and are assumed to leave the
buffers and the timer list alone. Allocation results, random keys, arrival of bytes and time are
parameters. Most modules end with tables: lemmas that spell out formats, opcodes, errors and cases
in literal numbers.

Where a promise turned out to have exceptions, the exact condition is proved in both directions:

- Rebuilding a flattened document. The documentation of `unflatten` excepts only empty containers.
  `ZeroKeyIsLost` gives another exception, an object whose only key is "0", `UnflattenFlatten` gives
  the exact condition for every visiting order, and `SortedRoundTrip` and `FlattenDocument` read it
  off the document for the sorted and for the written order.
- `contains` never throws 106 or 109, although its documentation lists both: its character tests
  come first. It throws 404 or 410 on an empty token, or on a numeral that is too big, at an array,
  and `Contains` says which of the two.
- The glob matcher tests for an equal character before it tests for a wildcard. A text that itself
  holds '*' or '#' can make it miss a match or never return; `Correctness` and `TerminationIff` say
  for which texts.
- `ws_process` adds the two lengths of a frame in 64 bits. `StaysWithin` says for which bytes the sum
  keeps the unmasking inside the buffer, and `AllInsideIff` says it for the whole handler.
- A published MQTT packet parses back exactly if its topic is shorter than 2^16 bytes and its
  remaining length is below 2^28; the sender truncates silently beyond that.

## Model

| member | source | states |
|---|---|---|
| `PointerText.ReplaceSubstring` | serverApp/json-develop/include/nlohmann/detail/string_escape.hpp:31-40 | the find-and-replace loop over the changing string equals one left-to-right pass that never looks inside a replacement |
| `PointerText.ReplaceTwice` | serverApp/json-develop/include/nlohmann/detail/string_escape.hpp:50-55 | escaping "~" in one pass and "/" in a second equals escaping character by character, so the second pass never touches what the first wrote |
| `PointerText.UnescapeIsDecode` | serverApp/json-develop/include/nlohmann/detail/string_escape.hpp:65-69 | on a well-escaped token, rewriting "~1" first and "~0" second reads each escape once ("~01" becomes "~1", never "/") |
| `PointerText.TextToken` | serverApp/json-develop/include/nlohmann/detail/string_escape.hpp:50-69 | unescaping undoes escaping on every token; an escaped token is well-escaped and holds no slash |
| `PointerText.EscapeReads` | serverApp/json-develop/include/nlohmann/detail/string_escape.hpp:50-55 | each '~' becomes "~0", each '/' becomes "~1", every other character stands |
| `PointerText.UnescapeReads` | serverApp/json-develop/include/nlohmann/detail/string_escape.hpp:65-69 | "~0" is read as '~' and "~1" as '/', character by character |
| `PointerText.CheckEscapes` | serverApp/json-develop/include/nlohmann/detail/json_pointer.hpp:702-716 | the scan accepts a token exactly when every '~' is followed by '0' or '1' |
| `PointerText.SplitLoop` | serverApp/json-develop/include/nlohmann/detail/json_pointer.hpp:666-724 | the tokenizer's loop, with its moving `slash` and `start`, computes the recursive `Split`, errors 107 and 108 included |
| `PointerText.TokensAccept` | serverApp/json-develop/include/nlohmann/detail/json_pointer.hpp:685-721 | cutting succeeds exactly when the text after the first slash is well-escaped as a whole |
| `PointerText.SplitThenPrint` | serverApp/json-develop/include/nlohmann/detail/json_pointer.hpp:666-724 | `split` accepts exactly the syntax of section 3 of RFC 6901, and printing the tokens gives the accepted text back |
| `PointerText.SplitErrors` | serverApp/json-develop/include/nlohmann/detail/json_pointer.hpp:676-716 | 107 exactly without a first slash, 108 exactly on any other text outside the syntax, and no other error |
| `PointerText.PrintThenSplit` | serverApp/json-develop/include/nlohmann/detail/json_pointer.hpp:68-76 | every token list, empty tokens and special characters included, survives printing and splitting |
| `PointerText.ToStringConcat` | serverApp/json-develop/include/nlohmann/detail/json_pointer.hpp:68-76 | printing is a homomorphism: the text of a concatenation is the concatenation of the texts |
| `Numerals.ArrayIndexIff` | serverApp/json-develop/include/nlohmann/detail/json_pointer.hpp:214-249 | `array_index` returns n exactly on the canonical decimal numeral of n, for n below the largest 64-bit size |
| `Numerals.ArrayIndexErrors` | serverApp/json-develop/include/nlohmann/detail/json_pointer.hpp:219-246 | exactly which tokens give errors 106, 109 and 410; every other rejected token gives 404 |
| `Numerals.LargestSizeRejected` | serverApp/json-develop/include/nlohmann/detail/json_pointer.hpp:243-246 | error 410 is given for one text only: the numeral of the largest size |
| `Numerals.CanonicalIsNumeral` | serverApp/json-develop/include/nlohmann/detail/json_pointer.hpp:218-228 | a text is canonical in the sense of section 4 of RFC 6901 only if it is the numeral of its own value |
| `Numerals.NumeralIsCanonical` | serverApp/json-develop/include/nlohmann/detail/json_pointer.hpp:218-228 | the numeral of every n is canonical and has value n |
| `Numerals.NumeralDigits` | serverApp/json-develop/include/nlohmann/detail/json_pointer.hpp:753 | a numeral is the numeral of the number without its last digit and that digit |
| `Numerals.AcceptedIndices` | serverApp/json-develop/include/nlohmann/detail/json_pointer.hpp:233-248 | the indices accepted, with the literal limit 2^64 - 1 |
| `Json.GetCheckedLoop` | serverApp/json-develop/include/nlohmann/detail/json_pointer.hpp:529-571 | the pointer-chasing loop equals the recursive walk, with errors 401, 402, 403, 404 and those of `array_index` |
| `Json.GetCheckedSnoc` | serverApp/json-develop/include/nlohmann/detail/json_pointer.hpp:422-464 | walking one token further is one step from where the shorter walk ended |
| `Json.CheckedSteps` | serverApp/json-develop/include/nlohmann/detail/json_pointer.hpp:422-464 | what a step finds in an object, an array and anything else, and the errors 401, 402, 403 and 404 |
| `Json.Contains` | serverApp/json-develop/include/nlohmann/detail/json_pointer.hpp:578-655 | true exactly when `get_checked` returns; it throws exactly when the walk meets, at an array, the empty token or a numeral above the largest size (404) or the numeral of the largest size (410), and nothing else |
| `Json.ContainsCanThrow` | serverApp/json-develop/include/nlohmann/detail/json_pointer.hpp:578-655 | a document and two pointers on which it throws 404 and 410; the documentation names 106 and 109 only |
| `Json.Grown` | serverApp/json-develop/include/nlohmann/json.hpp:2060-2100 | indexing past the end keeps the elements, fills the gap with nulls and ends at the index |
| `Json.PutStep` | serverApp/json-develop/include/nlohmann/detail/json_pointer.hpp:354-413 | where the checked walker can step, the creating walker steps to the same child and replaces only it |
| `Json.PutThenGet` | serverApp/json-develop/include/nlohmann/detail/json_pointer.hpp:354-464 | after a store through `get_unchecked`, `get_checked` finds the stored value if and only if the walk did not go through an array's "-" |
| `Json.PutFrame` | serverApp/json-develop/include/nlohmann/detail/json_pointer.hpp:354-464 | for every pointer that resolved before the store: above the place it sees the store made in what it saw, below it sees into the new value, elsewhere it sees what it saw |
| `Json.StepElsewhere` | serverApp/json-develop/include/nlohmann/detail/json_pointer.hpp:375-397 | a store through one token leaves the children under all other tokens alone, array growth included |
| `Json.GetThenPut` | serverApp/json-develop/include/nlohmann/detail/json_pointer.hpp:354-464 | storing what `get_checked` finds changes nothing |
| `Json.PutThenPut` | serverApp/json-develop/include/nlohmann/detail/json_pointer.hpp:354-413 | the second of two stores at one place wins if and only if the walk did not go through an array's "-", which appends anew each time |
| `Json.PutSucceeds` | serverApp/json-develop/include/nlohmann/detail/json_pointer.hpp:354-413 | whether a store succeeds depends on document and pointer only, not on the value |
| `Json.NullStores` | serverApp/json-develop/include/nlohmann/detail/json_pointer.hpp:354-413 | what a null becomes: an array for "-" and for an index, with nulls before it; the conversion's error for other digits; an object with one member for every other token |
| `Json.ObjectStores` | serverApp/json-develop/include/nlohmann/detail/json_pointer.hpp:375-382 | a store into a member, which starts as a null if it is absent; 404 below a primitive |
| `Json.ArrayStores` | serverApp/json-develop/include/nlohmann/detail/json_pointer.hpp:384-397 | a store into an element, or behind a gap of nulls |
| `Json.ArrayStoresElsewhere` | serverApp/json-develop/include/nlohmann/detail/json_pointer.hpp:384-397 | "-" appends, and a token that designates no element throws the conversion's error |
| `Json.StoreBelow` | serverApp/json-develop/include/nlohmann/detail/json_pointer.hpp:354-413 | below a place that resolves, a store is the store into what stands there |
| `Json.PutThenGetBelow` | serverApp/json-develop/include/nlohmann/detail/json_pointer.hpp:354-464 | below the place, `get_checked` sees exactly the stored value, errors included |
| `Json.StoreLoop` | serverApp/json-develop/include/nlohmann/detail/json_pointer.hpp:353-413 | the loop with its moving pointer, over a list of surroundings, makes the store that the recursive form says, or throws what it says and leaves a document in which everything up to some token has been created |
| `Json.FailedStore` | serverApp/json-develop/include/nlohmann/detail/json_pointer.hpp:353-413 | a walk that throws changes the value of no pointer that resolved before, except of pointers to places on its own path |
| `Json.ReachedIfChecked` | serverApp/json-develop/include/nlohmann/detail/json_pointer.hpp:353-464 | where `get_checked` gets, `get_unchecked` gets to the same value |
| `Flatten.ObjectDecomposes` | serverApp/json-develop/include/nlohmann/detail/json_pointer.hpp:284-304 | entries whose first path does not start with "0" rebuild an object, member by member, and fail exactly if some member fails |
| `Flatten.ArrayDecomposes` | serverApp/json-develop/include/nlohmann/detail/json_pointer.hpp:284-311 | entries whose first path starts with "0" rebuild an array whose element i comes from the entries under i and whose gaps are null; they fail exactly if a token is no index or an element fails |
| `Flatten.CreateLoop` | serverApp/json-develop/include/nlohmann/detail/json_pointer.hpp:274-332 | the loop with its moving pointer makes the store that the recursive form says, or throws what it says |
| `Flatten.CreateCases` | serverApp/json-develop/include/nlohmann/detail/json_pointer.hpp:282-328 | what `get_and_create` makes of a null (an array for "0", otherwise an object), of a member and of a primitive (313) |
| `Flatten.CreateInArray` | serverApp/json-develop/include/nlohmann/detail/json_pointer.hpp:306-311 | an element, one behind a gap of nulls, or the conversion's error |
| `Flatten.EnumeratesUnder` | serverApp/json-develop/include/nlohmann/detail/json_pointer.hpp:735-793 | below a child stand exactly the leaves of that child, each once |
| `Flatten.EnumeratesTokens` | serverApp/json-develop/include/nlohmann/detail/json_pointer.hpp:735-793 | the first tokens of a container's paths are exactly the tokens its children answer to |
| `Flatten.BuildReturns` | serverApp/json-develop/include/nlohmann/detail/json_pointer.hpp:274-332 | for every document and every order of its leaves, `get_and_create` rebuilds the document if and only if no container is empty, each array is first reached through "0" and each object through another key |
| `Flatten.UnflattenLoop` | serverApp/json-develop/include/nlohmann/detail/json_pointer.hpp:807-832 | the loop over the members equals the fold that is reasoned about, with errors 314, 315, 107, 108, 313 and those of `array_index` in the order the source meets them |
| `Flatten.UnflattenErrors` | serverApp/json-develop/include/nlohmann/detail/json_pointer.hpp:807-829 | 314 for what is no object, 315 for a member that is a container, and the pointer's or the store's error otherwise |
| `Flatten.FailurePersists` | serverApp/json-develop/include/nlohmann/detail/json_pointer.hpp:817-829 | the first failing member decides the error of the whole call |
| `Flatten.FlatMember` | serverApp/json-develop/include/nlohmann/detail/json_pointer.hpp:735-793 | each key of a flattened document parses back to the path of the leaf it holds, and each value is primitive |
| `Flatten.FlatEnumerates` | serverApp/json-develop/include/nlohmann/detail/json_pointer.hpp:735-793 | flattened paths never collide: visiting the members visits every leaf once |
| `Flatten.UnflattenIsBuild` | serverApp/json-develop/include/nlohmann/detail/json_pointer.hpp:817-829 | going through pointer texts changes nothing: unflattening is rebuilding over paths |
| `Flatten.UnflattenFlatten` | serverApp/json-develop/include/nlohmann/detail/json_pointer.hpp:735-832 | the round trip, for every document and every visiting order: it holds if and only if no container is empty, each array is first reached through index 0 and each object through a key other than "0" |
| `FlattenOrders.OrderSuffices` | serverApp/json-develop/include/nlohmann/detail/json_pointer.hpp:284-311 | in an order that enters arrays at 0 the condition is: no empty container, no object entered through "0" |
| `FlattenOrders.NoZeroKeySuffices` | serverApp/json-develop/include/nlohmann/detail/json_pointer.hpp:286-295 | without a key "0" no object is entered through one |
| `FlattenOrders.ZeroComesFirst` | serverApp/json-develop/include/nlohmann/detail/json_pointer.hpp:751-755 | in text order every path through another index comes after all paths through index 0 |
| `FlattenOrders.SortedEntersAtZero` | serverApp/json-develop/include/nlohmann/detail/json_pointer.hpp:817-829 | a sorted container is visited so that every nonempty array is entered at 0 |
| `FlattenOrders.FirstPastZero` | serverApp/json-develop/include/nlohmann/detail/json_pointer.hpp:817-829 | in text order an object is entered past "0" exactly when another key sorts before it, which can be read off the keys and off whether the value under "0" is a nonempty container |
| `FlattenOrders.PastZeroIffSorts` | serverApp/json-develop/include/nlohmann/detail/json_pointer.hpp:817-829 | the same for all objects of a document at once |
| `FlattenOrders.SortedRoundTrip` | serverApp/json-develop/include/nlohmann/json.hpp:4674-4686 | with the sorted container: the round trip holds if and only if no container is empty and, in every object with a key "0", the escaped text of another key sorts before the texts under "0"; no such object, no such condition |
| `FlattenOrders.ZeroKeyIsLost` | serverApp/json-develop/include/nlohmann/detail/json_pointer.hpp:286-290 | a document that never comes back: an object whose only key is "0" (the documentation promises the round trip for all documents without empty containers) |
| `Flattening.FlattenInto` | serverApp/json-develop/include/nlohmann/detail/json_pointer.hpp:735-793 | the recursive writer writes every leaf once under a fresh text, keeps what was there, and enters every container where a walk over it begins, whatever order each object hands its members out in |
| `Flattening.FlattenDocument` | serverApp/json-develop/include/nlohmann/json.hpp:4674-4686 | flattening: values and nulls for empty containers under the texts of their paths, nothing else; unflattened in the order written, the document comes back if and only if no container is empty and no object hands out the key "0" first, and with empty containers replaced by null if and only if the latter holds |
| `EmptyContainers.FlattenedHolds` | serverApp/json-develop/include/nlohmann/detail/json_pointer.hpp:735-793 | each value without parts stands under the text of its path, empty containers as null, and nothing else does |
| `EmptyContainers.LeafIsReached` | serverApp/json-develop/include/nlohmann/detail/json_pointer.hpp:735-793 | the leaves are what `get_checked` finds that has no parts, with null for an empty container |
| `EmptyContainers.EmptiedComesBack` | serverApp/json-develop/include/nlohmann/detail/json_pointer.hpp:807-832 | in an order that enters arrays at 0, unflattening gives the document with empty containers replaced by null if and only if no object is entered through "0" |
| `EmptyContainers.EmptiedSorted` | serverApp/json-develop/include/nlohmann/json.hpp:4674-4686 | the same for the sorted container, read off the document |
| `Flattening.EnteredPastZero` | serverApp/json-develop/include/nlohmann/detail/json_pointer.hpp:284-311 | the condition on the visit of a written document, read off the document and the order of its members |
| `Flattening.ChildIsFresh` | serverApp/json-develop/include/nlohmann/detail/json_pointer.hpp:751-773 | the texts below different children never coincide |
| `Flattening.ToStringInjective` | serverApp/json-develop/include/nlohmann/detail/json_pointer.hpp:68-76 | different token lists print differently |
| `OrderedMap.OrderedMap.Find` | serverApp/json-develop/include/nlohmann/ordered_map.hpp:286-322 | the position found holds the key and the map's value; the end exactly if the key is absent |
| `OrderedMap.OrderedMap.Count` | serverApp/json-develop/include/nlohmann/ordered_map.hpp:260-270 | 1 if the map has the key, otherwise 0 |
| `OrderedMap.OrderedMap.At` | serverApp/json-develop/include/nlohmann/ordered_map.hpp:106-145 | the map's value, or out of range exactly if the key is absent |
| `OrderedMap.OrderedMap.Emplace` | serverApp/json-develop/include/nlohmann/ordered_map.hpp:54-65 | appends a new key at the end and leaves an existing one alone; `inserted` tells which |
| `OrderedMap.OrderedMap.EraseKey` | serverApp/json-develop/include/nlohmann/ordered_map.hpp:162-179 | the shift-and-pop loop removes exactly the pair with the key |
| `OrderedMap.OrderedMap.CloseGap` | serverApp/json-develop/include/nlohmann/ordered_map.hpp:169-174 | the loop and the removal of the last pair move every later pair one place down |
| `OrderedMap.OrderedMap.EraseRange` | serverApp/json-develop/include/nlohmann/ordered_map.hpp:207-258 | the strided shift and the resize remove exactly the slice and return the position after it |
| `OrderedMap.OrderedMap.CloseSlice` | serverApp/json-develop/include/nlohmann/ordered_map.hpp:237-248 | the strided loop and the resize move every later pair down by the slice's length |
| `OrderedMap.Shifted` | serverApp/json-develop/include/nlohmann/ordered_map.hpp:237-248 | a vector shifted left over a slice and cut is the vector without the slice |
| `OrderedMap.RemovedRepresents` | serverApp/json-develop/include/nlohmann/ordered_map.hpp:207-258 | removing a slice removes exactly its keys from the map the vector stands for |
| `OrderedMap.RepresentsUnique` | serverApp/json-develop/include/nlohmann/ordered_map.hpp:286-296 | with distinct keys the vector stands for one map only |
| `OrderedMap.StepAsMap` | serverApp/json-develop/include/nlohmann/ordered_map.hpp:54-258 | every operation keeps the keys distinct and does to the abstract map what its name says |
| `OrderedMap.RunInOrder` | serverApp/json-develop/include/nlohmann/ordered_map.hpp:54-258 | over every run from empty: keys stay distinct and pairs stay in the order of their insertions |
| `IoBuf.IoBuf.constructor` | serverApp/source/mongoose.c:1761-1763 | an empty buffer |
| `IoBuf.IoBuf.Resize` | serverApp/source/mongoose.c:1734-1759 | keeps the bytes held, or on allocation failure everything; unused cells are zero afterwards; a nonzero size below the bytes held cuts them and leaves a length above the size, exactly then the buffer is broken |
| `IoBuf.IoBuf.Append` | serverApp/source/mongoose.c:1765-1777 | all of the data or, without memory, none of it; the new size is aligned to the chunk; unused cells stay zero |
| `IoBuf.IoBuf.AppendGap` | serverApp/source/mongoose.c:1765-1777 | appending without data opens a gap of zero bytes |
| `IoBuf.IoBuf.Receive` | serverApp/source/mongoose.c:3031-3065 | the buffer's side of a read: room of 2048 bytes is made, pending bytes are taken from the front until they or the room are used up, and nothing exactly when too much is held or memory is missing |
| `IoBuf.Limits` | serverApp/source/mongoose.h:83-88 | the sizes of a read and of the fullest buffer |
| `IoBuf.IoBuf.Delete` | serverApp/source/mongoose.c:1779-1785 | the overlapping move drops exactly the first n bytes (none if fewer are held) and zeroes the freed cells |
| `IoBuf.RemoveFront` | serverApp/source/mongoose.c:1781-1782 | move down and zero fill: what is left is the tail, and every cell past it is zero |
| `IoBuf.ZeroMem` | serverApp/source/mongoose.c:1728-1732 | zeroes the given cells and no other |
| `IoBuf.GrownSize` | serverApp/source/mongoose.c:1769-1770 | the new size is a multiple of the chunk and exceeds the need by at most one chunk |
| `IoBuf.AppendCases` | serverApp/source/mongoose.c:1765-1777 | data that fits is taken without memory, other data with memory and then whole, with the exact size bounds |
| `IoBuf.DeleteCases` | serverApp/source/mongoose.c:1779-1785 | as many bytes as asked for go from the front, or none |
| `IoBuf.StepLosesNothing` | serverApp/source/mongoose.c:1765-1785 | one append or delete keeps deleted + held = accepted, where accepted is the data passed in as far as it was taken, and held <= size |
| `IoBuf.NothingLost` | serverApp/source/mongoose.c:1765-1785 | over every run with any allocation failures: bytes deleted followed by bytes held are the accepted bytes of the data passed in, and held never exceeds size |
| `Stream.FeedsWhole` | serverApp/source/mongoose.c:2273-2311 | for any handler that treats a prefix and then its leftover with the rest as it treats the whole, cutting the stream differently cannot be observed |
| `Stream.ServedIsDrain` | serverApp/source/mongoose.c:3377-3404 | with the poll loop, which reads no more once a connection is to close: what is handled is what was read, as one stream, and reading stops early only to close |
| `Stream.CutUnobserved` | serverApp/source/mongoose.c:3377-3404 | under the poll loop a cut cannot be observed if and only if the bytes left unread would fire no event |
| `Stream.ServedWhole` | serverApp/source/mongoose.c:3377-3404 | a stream that does not close the connection is served whole, however it is cut |
| `Mqtt.ReadLength` | serverApp/source/mongoose.c:2194-2203 | the loop computes the remaining length of section 2.2.3 of MQTT 3.1.1, or says that bytes are missing or that it is too long |
| `Mqtt.ParseBuffer` | serverApp/source/mongoose.c:2183-2243 | the in-place parser gives the verdict and the message of the recursive definition, and reads within the buffer |
| `Mqtt.BodyOf` | serverApp/source/mongoose.c:2208-2242 | the command switch gives the fields of the whole packet |
| `Mqtt.ParseStable` | serverApp/source/mongoose.c:2183-2243 | a verdict other than incomplete does not change when bytes follow; an accepted packet has at least 2 and at most the buffered bytes |
| `Mqtt.ProperPrefixIncomplete` | serverApp/source/mongoose.c:2190-2205 | every proper prefix of an accepted packet is incomplete |
| `Mqtt.SpansFit` | serverApp/source/mongoose.c:2206-2242 | topic, data and datagram of an accepted packet lie within the buffer |
| `Mqtt.Connack` | serverApp/source/mongoose.c:2208-2211 | CONNACK with a body of two bytes or more fires the return code, its second byte, and closes exactly if it is not 0; a shorter one is malformed |
| `Mqtt.Acknowledgement` | serverApp/source/mongoose.c:2212-2226 | commands 4 to 9 fire one event with the identifier from the first two bytes of the body; shorter ones are malformed |
| `Mqtt.PublishPacket` | serverApp/source/mongoose.c:2227-2241 | any PUBLISH: topic, identifier above QoS 0 and data cut at the literal places, or malformed exactly without room for them |
| `Mqtt.OtherCommand` | serverApp/source/mongoose.c:2242-2243 | every other command is passed on as it is |
| `Mqtt.DrainSplit` | serverApp/source/mongoose.c:2273-2311 | handling a prefix and then its leftover with the rest appended equals handling the whole |
| `Mqtt.Fragmentation` | serverApp/source/mongoose.c:2273-2311 | however a byte stream is cut into reads, events, leftover and closing are those of the uncut stream |
| `Mqtt.Receiver.constructor` | serverApp/source/mongoose.c:2273-2311 | a new connection has handled the empty stream |
| `Mqtt.Receiver.MqttCb` | serverApp/source/mongoose.c:2273-2311 | the handler's loop over the real buffer fires the events, leaves the bytes and sets the flag that the stream function says |
| `Mqtt.Receiver.Fire` | serverApp/source/mongoose.c:2288-2305 | the callbacks of one packet, in order, and the refusal of a bad CONNACK |
| `Mqtt.Receiver.ReadConn` | serverApp/source/mongoose.c:3031-3066 | for a connection that is not to close: after every read, with growth, lack of memory, full buffers, closed sockets and errors, log, buffer and closing flag are functions of the bytes read so far and of how a read failed |
| `Mqtt.MakeHeader` | serverApp/source/mongoose.c:2088-2098 | the do-while loop writes the command byte and the length encoding, at most four length bytes |
| `Mqtt.LengthDecodes` | serverApp/source/mongoose.c:2088-2203 | the length decoder undoes the length encoder below 2^28, and says too long from there on |
| `Mqtt.LengthValues` | serverApp/source/mongoose.c:2194-2203 | the value of one to four length bytes, shortest or not, and the rejection of four that continue |
| `Mqtt.LengthWritten` | serverApp/source/mongoose.c:2088-2098 | the length is written in as few bytes as possible |
| `Mqtt.PublishFirstByte` | serverApp/source/mongoose.c:2152-2159 | command, QoS and retain flag in the first byte |
| `Mqtt.Sender.constructor` | serverApp/source/mongoose.c:2152-2168 | the packet counter starts at 0 |
| `Mqtt.Sender.NextId` | serverApp/source/mongoose.c:2163-2164 | the next 16-bit number, passing over 0 |
| `Mqtt.Sender.Publish` | serverApp/source/mongoose.c:2152-2168 | the sends append, in order, those parts of the packet for which there was memory, the whole packet if there always was; the identifier is fresh and nonzero when QoS > 0 |
| `Mqtt.Sender.Send` | serverApp/source/mongoose.c:2928-2931 | all of the bytes or none; false also for no bytes |
| `Mqtt.PartsFlatten` | serverApp/source/mongoose.c:2152-2168 | the parts sent make up the packet |
| `Mqtt.PublishParses` | serverApp/source/mongoose.c:2152-2243 | within the protocol limits the packet parses back to its fields, whatever follows |
| `Mqtt.PublishRoundTrip` | serverApp/source/mongoose.c:2152-2243 | parsing what was published returns the publication and its exact extent if and only if the topic is shorter than 2^16 and the remaining length below 2^28 |
| `Mqtt.DrainSent` | serverApp/source/mongoose.c:2152-2311 | the stream of any list of publications delivers exactly those messages |
| `Mqtt.PublishedIsDelivered` | serverApp/source/mongoose.c:2152-2311 | end to end, for the handler and for the poll loop: whatever is published and however the bytes are cut into reads, exactly those messages are delivered and nothing is left over |
| `WebSocket.XorInPlace` | serverApp/source/mongoose.c:4515-4518 | the in-place loop masks the payload with the four bytes before it and changes nothing else |
| `WebSocket.XoredTwice` | serverApp/source/mongoose.c:4515-4518 | masking twice with one key is the identity |
| `WebSocket.ReadHeader` | serverApp/source/mongoose.c:4494-4513 | the three length forms, with and without a mask |
| `WebSocket.HeaderForms` | serverApp/source/mongoose.c:4498-4513 | the three header forms with literal offsets and weights, and what is declared before a header is complete |
| `WebSocket.UnmaskFrame` | serverApp/source/mongoose.c:4515-4518 | exactly the first frame's payload is unmasked |
| `WebSocket.Process` | serverApp/source/mongoose.c:4494-4520 | returns the 64-bit sum of the lengths, or 0 if it exceeds the bytes held; a frame that is all there is unmasked and otherwise the buffer is untouched |
| `WebSocket.StaysWithin` | serverApp/source/mongoose.c:4514-4518 | the unmasking stays within the bytes held if and only if the 64-bit sum of the lengths does not wrap on a masked frame |
| `WebSocket.MaskedSumWraps` | serverApp/source/mongoose.c:4514-4518 | a masked frame whose sum wraps, on which the unmasking leaves the bytes held |
| `WebSocket.PassedOutside` | serverApp/source/mongoose.c:4508-4519 | an unmasked frame whose sum wraps to 9, whose declared payload leaves the bytes held |
| `WebSocket.AllInsideIff` | serverApp/source/mongoose.c:4595-4622 | on a whole stream, what the handler touches and passes on lies within the bytes held if and only if no sum wraps, except to 0 on a frame without a mask |
| `WebSocket.ReturnedIsFrameLen` | serverApp/source/mongoose.c:4514-4519 | without a wrap the value returned is the frame length |
| `WebSocket.HeaderStable` | serverApp/source/mongoose.c:4498-4513 | a complete header is not changed by more bytes |
| `WebSocket.FrameStable` | serverApp/source/mongoose.c:4494-4520 | a complete frame, its length and its payload are not changed by more bytes |
| `WebSocket.DrainSplit` | serverApp/source/mongoose.c:4595-4623 | handling a prefix and then its leftover with the rest appended equals handling the whole |
| `WebSocket.FitsSplit` | serverApp/source/mongoose.c:4514 | a stream without length overflow stays so however it is cut |
| `WebSocket.Fragmentation` | serverApp/source/mongoose.c:4595-4623 | however the bytes are split across reads, the same frames with the same unmasked payloads are delivered |
| `WebSocket.Receiver.constructor` | serverApp/source/mongoose.c:4569-4628 | a new connection has handled the empty stream |
| `WebSocket.Receiver.ProcessRecv` | serverApp/source/mongoose.c:4595 | `ws_process` on the receive buffer, which keeps its unused cells zero |
| `WebSocket.Receiver.HandleFrame` | serverApp/source/mongoose.c:4595-4622 | one round of the loop moves one frame from the leftover to the events |
| `WebSocket.Receiver.WsCb` | serverApp/source/mongoose.c:4595-4623 | the handler's loop over the real buffer does what the stream function says, unmasking each frame once |
| `WebSocket.Receiver.Dispatch` | serverApp/source/mongoose.c:4598-4621 | the opcode switch: message, control, pong reply before control, close, and error for every other opcode |
| `WebSocket.OpcodeFires` | serverApp/source/mongoose.c:4598-4621 | for any first frame: what each opcode fires, and that 8 and the unknown opcodes close |
| `WebSocket.FramesFire` | serverApp/source/mongoose.c:4558-4621 | the same for frames as they are sent, with literal flags |
| `WebSocket.Receiver.ReadConn` | serverApp/source/mongoose.c:3031-3066 | for a connection that is not to close: after every read, with growth, lack of memory, full buffers, closed sockets and errors, log, buffer and closing flag are functions of the bytes read so far and of how a read failed |
| `WebSocket.Mkhdr` | serverApp/source/mongoose.c:4522-4548 | the first byte, the length of the header for each length form and side, and the key at its end |
| `WebSocket.MkhdrDeclares` | serverApp/source/mongoose.c:4522-4548 | the framer reads back the opcode with the FIN bit, the length and the mask flag that `mkhdr` wrote, whatever follows |
| `WebSocket.ShortestForm` | serverApp/source/mongoose.c:4522-4548 | no header the framer accepts for the same length and masking is shorter than the one `mkhdr` makes |
| `WebSocket.MaskedFrame` | serverApp/source/mongoose.c:4550-4567 | masking the tail of a buffer that ends with header and payload stays inside and gives the frame |
| `WebSocket.Sender.Mask` | serverApp/source/mongoose.c:4550-4556 | masks the last len bytes with the four before them, on a client with a buffer only |
| `WebSocket.Sender.WsSend` | serverApp/source/mongoose.c:4558-4567 | whichever of the two sends are refused: the parts taken are appended and then as many last bytes as the payload has are masked; they must be held |
| `WebSocket.Sender.WsSendWhole` | serverApp/source/mongoose.c:4558-4567 | with memory available it asks nothing else, appends exactly one frame and returns its length |
| `WebSocket.Sender.WsWrap` | serverApp/source/mongoose.c:4687-4699 | gap taken or refused: the len bytes that stand a header's length before the end of the len last ones become a frame in place; with the gap these are the last bytes there were, without it the last ones are lost |
| `WebSocket.Sender.WsWrapWhole` | serverApp/source/mongoose.c:4687-4699 | with memory available it refines `mg_ws_send`: the buffer ends up as the prefix followed by the frame of its last len bytes, with the same key |
| `WebSocket.MoveUp` | serverApp/source/mongoose.c:4694 | the overlapping move, cell by cell |
| `WebSocket.ShiftAndPrepend` | serverApp/source/mongoose.c:4693-4695 | shift and prepend inside the gap, everything else unchanged |
| `WebSocket.FrameRoundTrip` | serverApp/source/mongoose.c:4494-4567 | for every opcode, payload, key, masked or not, and any bytes after it: the framer finds the exact frame length, flags and payload, and unmasking leaves the following bytes alone |
| `WebSocket.DrainSent` | serverApp/source/mongoose.c:4494-4623 | the stream of any list of frames delivers exactly those frames, and closes exactly if one of them closes |
| `WebSocket.SentIsDelivered` | serverApp/source/mongoose.c:4494-4623 | end to end, for the handler: whatever frames are sent and however the bytes are cut into reads, exactly those are delivered |
| `WebSocket.SentIsServed` | serverApp/source/mongoose.c:3377-4623 | under the poll loop: for every cut exactly the frames sent are delivered if and only if no frame but the last closes the connection |
| `WebSocket.ClosesAtEnd` | serverApp/source/mongoose.c:4494-4623 | if only the last frame closes, no proper prefix of the bytes does |
| `Glob.Soundness` | serverApp/source/mongoose.c:4202-4216 | for every text, true implies that the pattern matches with '?' as any one character and '*', '#' as any sequence |
| `Glob.Completeness` | serverApp/source/mongoose.c:4202-4216 | on a text without '/', '*', '#', the single remembered backtrack point never loses a match |
| `Glob.ForgetOlder` | serverApp/source/mongoose.c:4207-4208 | overwriting the backtrack point at a new wildcard is safe |
| `Glob.StepDecreases` | serverApp/source/mongoose.c:4204-4214 | the lexicographic measure: resume position, resuming, pattern position |
| `Glob.Termination` | serverApp/source/mongoose.c:4204-4214 | the loop ends on every pattern, '/' allowed, if the text's wildcard characters form one leading run of one character (none at all included) |
| `Glob.TerminationIff` | serverApp/source/mongoose.c:4204-4214 | on texts without '/', the loop ends on every pattern exactly for such texts |
| `Glob.Divergence` | serverApp/source/mongoose.c:4205-4210 | a pattern on which the loop never ends, for every other text: the literal test comes before the wildcard test |
| `Glob.LeadingWildcardMissed` | serverApp/source/mongoose.c:4205 | a wildcard that is equal to the text's first character is taken literally, and the match is missed |
| `Glob.WrongPattern` | serverApp/source/mongoose.c:4205-4210 | a text with '*' or '#' always has a pattern on which the matcher is wrong or does not return |
| `Glob.Correctness` | serverApp/source/mongoose.c:4202-4216 | on texts without '/': correct on every pattern if and only if the text holds neither '*' nor '#' |
| `Glob.OneWildcard` | serverApp/source/mongoose.c:4202-4216 | one wildcard and '/' anywhere: the exact answer, in terms of where following the rest of the pattern stops at a '/' |
| `Glob.LastWildcard` | serverApp/source/mongoose.c:4202-4216 | a last '#' takes any rest of the text, a last '*' any rest without '/' |
| `Glob.NoWildcard` | serverApp/source/mongoose.c:4202-4216 | a pattern without wildcards is compared character by character |
| `Glob.HashMissed` | serverApp/source/mongoose.c:4210 | a match that '#' misses: the test looks at the character where following stopped |
| `Glob.StarCrosses` | serverApp/source/mongoose.c:4210 | a '/' that '*' takes, for the same reason |
| `Glob.ReturnsOnce` | serverApp/source/mongoose.c:4202-4216 | the result is determined |
| `Glob.Globmatch` | serverApp/source/mongoose.c:4202-4216 | whenever the loop over four indices ends, it returns what the transition system returns; true is always a match, and on plain texts false is never one |
| `Sha1.PaddingIsFips` | serverApp/source/mongoose.c:2693-2709 | the padding of section 5.1.1 of FIPS 180-4: block-aligned, shortest, with the exact bit count below 2^61 bytes |
| `Sha1.PaddedLayout` | serverApp/source/mongoose.c:2693-2709 | message, 0x80, zeros, and the bit count modulo 2^64 in the last eight bytes |
| `Sha1.PadLenLeast` | serverApp/source/mongoose.c:2704-2708 | the number of zero bytes is the least that works |
| `Sha1.CompressSplit` | serverApp/source/mongoose.c:2682-2685 | folding the transform over whole blocks may be split at any block boundary |
| `Sha1.CompressMore` | serverApp/source/mongoose.c:2673-2690 | folding over a longer message is folding on from the partial block |
| `Sha1.CompressBlocks` | serverApp/source/mongoose.c:2681-2689 | one block is one transform, fewer bytes none |
| `Sha1.CountCarries` | serverApp/source/mongoose.c:2677-2679 | the two 32-bit words with their carry hold 8 times the bytes fed, modulo 2^64 |
| `Sha1.Context.constructor` | serverApp/source/mongoose.c:2664-2671 | the initial state has been fed nothing |
| `Sha1.Context.Count` | serverApp/source/mongoose.c:2677-2680 | updates both words and returns the place in the partial block |
| `Sha1.Context.Blocks` | serverApp/source/mongoose.c:2681-2689 | transforms exactly the complete blocks and says what is left |
| `Sha1.Context.Update` | serverApp/source/mongoose.c:2673-2691 | state, words and partial block are again a function of all bytes fed |
| `Sha1.Context.PadZeros` | serverApp/source/mongoose.c:2704-2708 | the padding loop ends and feeds exactly the zero bytes of the standard |
| `Sha1.Context.Final` | serverApp/source/mongoose.c:2693-2715 | any split into updates followed by final yields the fold of the transform over the padded message, and wipes the context |
| `Sha1.DigestWords` | serverApp/source/mongoose.c:2710-2713 | the digest is five words, most significant byte first |
| `Sha1.InitialHash` | serverApp/source/mongoose.c:2664-2671 | the initial words of section 5.3.1 of FIPS 180-4 |
| `Base64.RevIdx` | serverApp/source/mongoose.c:30-58 | the reverse table undoes the table; '=' gives 64 |
| `Base64.Alphabet` | serverApp/source/mongoose.c:30-58 | the alphabet of RFC 4648 by its codes, and no index for any other character |
| `Base64.SettledSnoc` | serverApp/source/mongoose.c:60-74 | one more byte: the characters settled and the bits left pending, in each of the three phases |
| `Base64.FinishedIsEncode` | serverApp/source/mongoose.c:60-85 | settled characters, pending bits and padding make up the encoding of section 4 of RFC 4648 |
| `Base64.EncodeThree` | serverApp/source/mongoose.c:60-74 | three bytes make four characters with literal shifts |
| `Base64.EncodeLast` | serverApp/source/mongoose.c:60-85 | one or two last bytes make two or three characters and the padding |
| `Base64.Update` | serverApp/source/mongoose.c:60-74 | with the pending bits kept in the output cell, one update takes the state of m to the state of m plus a byte and touches two cells only |
| `Base64.Flush` | serverApp/source/mongoose.c:79-80 | a zero byte turns the pending bits into their character |
| `Base64.PadOut` | serverApp/source/mongoose.c:82 | pads to the next multiple of 4 |
| `Base64.Final` | serverApp/source/mongoose.c:76-85 | completes the encoding and the terminating zero, and writes no cell beyond it |
| `Base64.UpdateAll` | serverApp/source/mongoose.c:89 | a run of updates, writing no index beyond the length of the encoding |
| `Base64.EncodeInto` | serverApp/source/mongoose.c:87-92 | the whole encoding with its zero, and no other cell |
| `Base64.DecodeInto` | serverApp/source/mongoose.c:94-110 | the decoder's loop equals the recursive decoder, 0 for a malformed text, in a destination that holds the cells it writes |
| `Base64.CellsBound` | serverApp/source/mongoose.c:94-110 | three cells for every four characters and one more always hold them |
| `Base64.PutGroup` | serverApp/source/mongoose.c:97-105 | one group of four characters gives one to three bytes or an error |
| `Base64.DecodeChars` | serverApp/source/mongoose.c:30-105 | the four characters of a full, two-byte or one-byte group decode to its bytes |
| `Base64.DecodeFour` | serverApp/source/mongoose.c:94-110 | what four characters decode to with literal shifts, and exactly which groups are rejected |
| `Base64.DecodeEncode` | serverApp/source/mongoose.c:60-110 | decoding inverts encoding for every byte string |
| `Base64.RoomSuffices` | serverApp/source/mongoose.c:838-840 | the room reserved takes the label, the credentials and the line end, for every user and password |
| `Base64.HeaderLine` | serverApp/source/mongoose.c:841-855 | the label, the credentials that decode to user, ':' and password, the line end |
| `Base64.WriteCredentials` | serverApp/source/mongoose.c:844-853 | the interleaved updates write the encoding of user, ':' and password, the colon only with a password |
| `Base64.WriteLine` | serverApp/source/mongoose.c:841-855 | label, credentials and line end, within the reserved room |
| `Base64.Bauth` | serverApp/source/mongoose.c:835-860 | the header line is appended to the send buffer, or nothing without memory for it; unused cells stay zero |
| `Forms.HexRoundTrip` | serverApp/source/mongoose.c:4280-4310 | two hexadecimal digits of a byte read back to the byte |
| `Forms.HexDigits` | serverApp/source/mongoose.c:4280-4290 | the lower-case digits written |
| `Forms.HexValues` | serverApp/source/mongoose.c:4292-4297 | the values of digits of either case |
| `Forms.EncodeBound` | serverApp/source/mongoose.c:1532-1546 | the encoding has between n and 3n bytes |
| `Forms.EncodedByte` | serverApp/source/mongoose.c:1527-1545 | which bytes stand for themselves, and '%' with two digits for every other |
| `Forms.EncodeAlwaysFits` | serverApp/source/mongoose.c:1536 | 3n + 2 cells always suffice, although the test asks for four spare cells before each byte |
| `Forms.FitsExactly` | serverApp/source/mongoose.c:1536 | the room test as a bound on every prefix of the encoding |
| `Forms.UrlEncode` | serverApp/source/mongoose.c:1532-1546 | the whole percent-encoding, or 0 exactly when the room test fails before some byte |
| `Forms.UrlDecode` | serverApp/source/mongoose.c:893-914 | the decoded bytes and a zero, or -1 exactly if an escape is malformed or the bytes and the zero do not fit |
| `Forms.DecodeEncode` | serverApp/source/mongoose.c:893-1546 | form-decoding inverts encoding for every byte string (section 2.1 of RFC 3986) |
| `Forms.DecodedEscape` | serverApp/source/mongoose.c:897-904 | an escape needs two digits after it |
| `Forms.DecodedPlain` | serverApp/source/mongoose.c:905-909 | a plus sign is a space in a form only; every other character stands for itself |
| `Forms.GetVar` | serverApp/source/mongoose.c:862-891 | -2, -1, -4, -3 or the decoded value of the first matching field, in the source's order of tests |
| `Forms.FieldStart` | serverApp/source/mongoose.c:879-880 | at the start of a field the test succeeds exactly when the names agree up to case |
| `Forms.FieldInside` | serverApp/source/mongoose.c:879-880 | no field starts inside another, whatever the value holds |
| `Forms.NamesAgree` | serverApp/source/mongoose.c:3516-3526 | when names agree, by the codes of letters |
| `Forms.ScanForm` | serverApp/source/mongoose.c:878-888 | the scan from any field boundary finds what the pair list says |
| `Forms.FormRoundTrip` | serverApp/source/mongoose.c:862-891 | looking up a name in a form built from pairs gives the value of the first pair with that name up to case, or not found, for arbitrary byte values |
| `Forms.RawField` | serverApp/source/mongoose.c:862-891 | a single field with any text as its value, and texts that are no field |
| `Forms.FormLayout` | serverApp/source/mongoose.c:879-883 | the '=' and '&' of a form |
| `Timers.ExpiryWithinPeriod` | serverApp/source/mongoose.c:3617-3638 | after each poll at t a listed timer has t <= expire <= t + period, even if time went back in between |
| `Timers.OneShot` | serverApp/source/mongoose.c:3636 | a timer that does not repeat fires at most once and is listed exactly until then |
| `Timers.RepeatingStays` | serverApp/source/mongoose.c:3636 | a repeating timer stays listed |
| `Timers.FiresWhenDue` | serverApp/source/mongoose.c:3628-3630 | a poll a period or more after the previous one fires the timer |
| `Timers.OnGrid` | serverApp/source/mongoose.c:3633-3635 | the expiry is never before its grid point; polled at least once a period it is exactly on it, so it does not drift |
| `Timers.FiringsTakeTime` | serverApp/source/mongoose.c:3628-3635 | k firings take at least k - 1 periods after the first expiry |
| `Timers.ExactCount` | serverApp/source/mongoose.c:3628-3635 | polled steadily, a repeating timer fires once for every grid point passed |
| `Timers.FirstPoll` | serverApp/source/mongoose.c:3627-3628 | the first poll fires a timer exactly if its period is zero or its expiry wraps around |
| `Timers.IsDue` | serverApp/source/mongoose.c:3628-3635 | a timer that is due fires and keeps its rhythm unless it is late by more than a period |
| `Timers.StartsOver` | serverApp/source/mongoose.c:3621-3627 | time that goes back starts a timer over |
| `Timers.FlagBits` | serverApp/source/mongoose.h:509-513 | the flag bits and the width of time |
| `Timers.TimerList.constructor` | serverApp/source/mongoose.c:3601 | the empty list, with no timer and no call recorded |
| `Timers.TimerList.Init` | serverApp/source/mongoose.c:3603-3609 | the timer is put at the head, unset, and called at once if asked; its history of polls starts empty |
| `Timers.TimerList.Free` | serverApp/source/mongoose.c:3611-3615 | the walk over links unlinks exactly this timer and keeps its own link; the other timers keep agreeing with their histories |
| `Timers.TimerList.PollOne` | serverApp/source/mongoose.c:3628-3636 | the loop body does to the timer what one tick of its state says |
| `Timers.TimerList.Reset` | serverApp/source/mongoose.c:3621-3623 | when time went back every expiry is cleared |
| `Timers.TimerList.Round` | serverApp/source/mongoose.c:3626-3637 | a round deals with one more timer although it may unlink it from the list being walked |
| `Timers.TimerList.Poll` | serverApp/source/mongoose.c:3617-3638 | the poll ticks every listed timer once, in list order: callbacks, expiries and the remaining list are the tick's; every timer's expiry and number of calls still are what its polls, folded one by one, make of it |
| `Timers.TimerList.ExpiresSoon` | serverApp/source/mongoose.c:3617-3638 | over every run of the list: after a poll at t a listed timer has t <= expire <= t + period |
| `Timers.TimerList.CallsTakeTime` | serverApp/source/mongoose.c:3617-3638 | over every run of the list: a timer that does not repeat is called at most once by polls, and k calls take at least k - 1 periods after its first expiry |

## Left out

- Json.PutThenGet: the walkers return references into the document; storing is modelled on values as "the document after a store through the reference", so aliasing is not modelled.
- Json.PutFrame: covers pointers that resolved before the store; those that it newly makes resolve are in `PutThenGetBelow`, `NullStores` and `ArrayStores`.
- Json.StoreLoop: the pointer that the source moves through the tree is a list of surroundings here, as an inductive document has no inner references; memory exhaustion by a huge index is not modelled.
- Const `get_unchecked` (undefined on absent members), `operator/`, `parent_pointer`, comparison and the texts of exceptions.
- Flatten.UnflattenFlatten: documents with an array longer than the largest size are excluded; none can exist.
- Flattening.FlattenInto: an object's order of members is a function of its path and its members, which covers every container.
- Numbers of documents are opaque primitive values; floating-point parsing and printing are not part of this model. Strings are sequences of characters, without an encoding.
- OrderedMap.OrderedMap.EraseRange: iterators are positions; their invalidation, the overloads for other key types, and constructors from ranges or lists (which keep duplicates) are not modelled. `m_compare` is key equality.
- IoBuf.GrownSize: sizes are unbounded, so sums of sizes do not wrap.
- WebSocket.Sender.WsSend: requires that the bytes to be masked are held, which a refused send can prevent; what the source does to memory outside the buffer then is not modelled.
- WebSocket.Sender.WsWrap: requires, when the gap is refused, that a header's length is held before the last bytes, for the same reason.
- Mqtt.Receiver.ReadConn: the text of the error event is not modelled. A malformed packet stays in the buffer, as in the source.
- The MQTT login, subscribe, ping and disconnect encoders and the topic iterators.
- WebSocket.Process: requires the condition of `StaysWithin`; what happens beyond the buffer is not modelled.
- WebSocket.Receiver.ReadConn: requires a stream in which no frame declares lengths whose sum wraps. The reply to a ping is an event in the log; its bytes are those of `WsSend`.
- WebSocket.Receiver.WsCb: requires such a stream, as the handler leaves the buffer on others.
- WebSocket.Receiver.HandleFrame: requires such a stream.
- WebSocket.Receiver.ProcessRecv: requires such a stream.
- The WebSocket handshake and the HTTP part of `mg_ws_cb`.
- Glob.Globmatch: requires that the loop ends, as a method here must; `Termination` and `TerminationIff` say when it does, `Divergence` when not. For patterns with several wildcards on texts with '/' only soundness and termination are stated; a segment meaning does not hold, as `HashMissed` and `StarCrosses` show. The character one past the text, which the source may read, is the parameter `past`.
- Sha1.Context.Final: the transform is a parameter; its 80 rounds are not modelled. Beyond 2^61 bytes the count is the bit length modulo 2^64.
- Base64.DecodeInto: the destination must hold the cells that are written; the source does not test it.
- Forms.GetVar: null pointers are not modelled; the name is a C string, so it holds no zero byte. The C locale is assumed for `tolower` and `isxdigit`.
- Timers.ExpiryWithinPeriod: periods are positive and time plus period stays below 2^32, the width of `unsigned long` on Windows; the poll itself is modelled with the wrap-around.
- Timers.TimerList.Free: takes ghost arguments that say where the timer stands; a callback that frees or adds timers is excluded, and so is listing a timer again while it is listed.
- Sockets, TLS, DNS, HTTP parsing and serving, logging, hashing for HMAC, and the application's own classes around MQTT and hardware, which only pass values on.
