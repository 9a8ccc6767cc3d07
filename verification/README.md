# Verified model of the QRTR user-space library and name server

A Dafny model of three parts of this repository, with proofs about them:

- the QMI message codec (`lib/qmi.c`): the table-driven encoder that writes payloads first and fills in TLV headers
  afterwards, and the decoder that finds fields by type at the top level and walks the table inside structs;
- the hash map, the hash function and the linked list under the name server (`src/map.c`, `src/hash.c`, `src/list.h`);
- the name server (`src/ns.c`) over those tables, as handlers of control packets, and the waiter (`src/waiter.c`).

`dafny verify dfyconfig.toml` checks everything.

## How it is organised

| files | contents |
|---|---|
| `Bytes`, `Hiding` | bytes, little-endian words, overwriting a stretch of a buffer; how properties are kept out of the verifier's sight |
| `QmiDescriptor`, `QmiValue` | descriptor tables and the fields they stand for; what a C struct means (`Load`) to the codec and to the program, and the reference wire format (`Wire`) |
| `QmiAccept`, `QmiWrites`, `QmiReach` | which encodings the room checks let through; what is written of a message, accepted or refused; how far that reaches |
| `QmiCopy`, `QmiEncode` | the encoder, proved to write exactly that, and the reference encoding of what is accepted |
| `QmiSent`, `QmiOneTlv` | what is sent and refused of each field, and what each TLV is decoded to, in terms of the bytes of the struct and of the input alone |
| `QmiTlvs` | the wire format read without a table, as types and payloads |
| `QmiRun`, `QmiDecode` | what the decoder does for any input whatever, as a function, and the decoder, proved to do that |
| `QmiScript`, `QmiFrame`, `QmiFramed`, `QmiNested`, `QmiTopRun` | well-framed input as a list of items, and what the run comes to on it: strings, fields at any depth, whole messages |
| `QmiRoundTrip`, `QmiMessage` | order and extension independence; headers, whole messages and the round trip |
| `QmiLimits` | inputs at which the codec does not do what it is for, run through these methods |
| `ProbeTable`, `HashMap`, `Hash` | the table of slots as a sequence and its lemmas; the map class over an array; `hash_u32` |
| `List` | the doubly linked list |
| `Waiter` | tickets, the array handed to poll, timer synchronisation, and the order of descriptors and callbacks (`WaiterOrder`) |
| `Control`, `NsSpec` | control packets; the name server as a state machine, and what holds over every run |
| `NsLaws` | what each packet does and sends, and what is registered after a run, in terms of the packets alone |
| `Observers`, `Replication` | what observers know; two name servers that inform each other |
| `ServerTables` | the tables of the name server as values, and what packets make of them |
| `NameServer` | the handlers over hash maps and the list, proved to do and to send what the state machine says |

Conventions. A C struct is a sequence (when read) or an array (when written) of bytes; a pointer into it is an index. A
table `ei` of rows comes with the ghost description `fs` it represents, so that every statement about a table is one
about arbitrary descriptions of any depth. The switch of `qmi_encode` is one method per group of cases, and its local
variables are one value (`Cursor`); the byte-copying loops of the two basic-element helpers are the same loop and are one
method. The order in which tables are iterated is a parameter (`order`, `rest`) of the state machine and is supplied by
the handlers. Sending appends to a list of messages; the clock and the answers of poll are parameters.

Assumptions: a little-endian host; sizes below 2^31, so that the codec's 32-bit counters and the map's `int` indices do
not wrap (clock arithmetic, hashes, the codec's differences of lengths, and the 8- and 16-bit fields of messages are
modelled with their widths); memory allocation and sends succeed; items put in a map are not NULL; and a string without a terminator ends with its memory.

## What the code does that one might not expect

- The room for a string inside a struct is checked without the three bytes of the enclosing header (`lib/qmi.c:303`,
  against 385, 410 and 438), and what precedes a refused element is written before it is refused. So writes can leave the
  room, for messages that are encoded and for messages that are refused. They do exactly when a string inside a struct is
  reached that ends within the room and less than three bytes before its end (`ReachBeyond`), and never without strings
  inside structs (`PlainWithin`). They leave it by at most three bytes (`ExcessAtMostThree`, `RefusedInFour`), unless a
  struct that has passed has left it: behind that `out_buf_len - encoded_bytes` wraps, and later strings, and structs
  without a count, are written whatever their size, also if a field after them is refused (`RefusedBeyond`).
- For the same reason messages are encoded that do not fit. `EncodesIff` says exactly which: those of which a struct
  overruns (`SomeOverruns`); `FiveBytesInFour` runs the encoder on one.
- A length member takes four bytes of the struct, and the encoder reads the low `elem_size` of them (`lib/qmi.c:382`): a
  member of 300 under a one-byte DATA_LEN is sent as 44 elements, without an error (`ThreeHundred`). What arrives is what
  the encoder read; it is what the program meant exactly when `AllCountsFit` holds.
- The decoder reads a count into the low bytes of a variable it does not clear (`lib/qmi.c:640, 686-687`). Counts are
  right exactly when the bytes left over are zero (`Clean`); `LongArrayBeforeCount` is a message that is refused, and
  decodes with its two fields in the other order; `ShortArraysClean` covers all messages without arrays of 256 or more.
- A nested string of 256 characters under a maximum of 256 gets a one-byte length of zero (`lib/qmi.c:571-572`). A nested
  string arrives exactly when its prefix can count it (`StringHolds`); `LongString` is one that does not.
- A body of 64 KiB or more is built, but its header does not count it; receivers that check the header refuse it.
- A packet shorter than its header is not refused as such: `qmi_decode_header` compares and `qmi_decode_message` reads
  header fields that lie behind the packet, and the latter goes on with a body length just below 2^32 (`lib/qmi.c:801,
  843`). The model does the same, given the memory.
- Putting a key again that lies behind a tombstone makes it live twice (`src/map.c:76-78`). `PutUnique` says exactly
  when that happens. The table of nodes never has tombstones. Over a run of packets no port is in a table twice exactly as
  long as none of them registers a port that lies behind a tombstone (`Serve`, `Smooth`); so it is when ports register
  again only while no server of their node has been removed since (`OrderlySmooth`). `ListedTwice` is a run of four
  packets that fails, on ports 1 and 257, and after a DEL_SERVER as fifth packet the port is still listed (`ListedStill`).
- `list_prepend` on a nonempty list leaves the old head without its prev pointer (`src/list.h:50-57`): the list is
  consistent afterwards if and only if it was empty.
- An observer with a filter is not told when a registered port changes to a service or instance it does not ask for
  (`src/ns.c:277-280`). `StepExact` says exactly when a view stops being exact, and `ReplacedUnnoticed` is a run.
- `waiter_wait_timeout` returns -1 when its time is up and 0 otherwise; 0 also when its time is up and poll fails.
- A waiter to which no ticket was ever added has no array for poll, and `waiter_wait` and `waiter_wait_timeout` on it
  write through a null pointer (`src/waiter.c:46-49, 186-195, 264-273`). The model's methods require the array, which is
  there from the first ticket on (`AddNull`).

## Model

| member | source | states |
|---|---|---|
| QmiEncode.RowAt | lib/qmi.c:351-380 | the row under the cursor is the flag, the count or the value row of the current field, exactly as the cursor's phase says, and the end marker is reached exactly after the last field |
| QmiEncode.SkipToNextElem | lib/qmi.c:119-135 | skipping lands on the first row of the next field: row by row at the top level, one step inside a struct |
| QmiCopy.CopyElems | lib/qmi.c:206-217 | copies count times size bytes, contiguously, and touches nothing else |
| QmiEncode.EncodeStringLen | lib/qmi.c:303-311 | a nested string's length takes its low one or two bytes |
| QmiEncode.EncodeStringElem | lib/qmi.c:276-318 | succeeds exactly for strings within the maximum that pass the room check of their level; then the buffer holds the framed string; otherwise it is unchanged |
| QmiEncode.EncodeDataLen | lib/qmi.c:381-396 | the count is what the low elem_size bytes of the member say; it is written in one or two bytes, or the method fails exactly when the count and the header reserve do not fit |
| QmiEncode.EncodeStructElem | lib/qmi.c:237-258 | encodes all elements of an array of structs exactly when all can be sent and pass their checks; the bytes written are their reference encodings in order, up to the check that refuses one |
| QmiEncode.TlvDone | lib/qmi.c:455-460 | filling the header in at the remembered place turns the hole and the payload into one complete TLV and leaves a hole for the next |
| QmiEncode.PassFlag | lib/qmi.c:368-379 | an absent field contributes nothing and the cursor moves to the next field |
| QmiEncode.PassLen | lib/qmi.c:381-404 | after the count the payload so far is the count, and is complete when there are no elements; or the count is refused, and the buffer is what the specification of a refused message says |
| QmiEncode.EncodeValue | lib/qmi.c:404-440 | succeeds exactly when the field's elements can be sent and pass their checks behind what is encoded; what is written is the reference body, or what precedes the refused element in it |
| QmiEncode.FinishField | lib/qmi.c:454-460 | the header of the field is filled in at the top level, and the output is again a sequence of complete fields |
| QmiEncode.EncodeRow | lib/qmi.c:351-461 | one iteration keeps the invariant: complete pieces, a pending header hole, and the pending payload; or it refuses the message |
| QmiEncode.Encode | lib/qmi.c:332-463 | succeeds if and only if the values can be sent and every room check passes, 32-bit subtraction included; the output is then exactly the reference encoding, and otherwise the buffer holds the pieces before the refused field and, behind a hole, what was written of it; memory is needed for these bytes only |
| QmiEncode.EncodesIff | lib/qmi.c:332-463 | that is, if and only if the values can be sent and either the whole encoding fits, or some struct overruns the room with its last strings and only strings and uncounted structs follow; the latter never without strings inside structs |
| QmiAccept.AcceptedBeyond | lib/qmi.c:425-440 | of the messages that do not fit, the checks let through exactly those with such a struct |
| QmiAccept.AcceptsRecsIff | lib/qmi.c:303-306 | inside a struct the checks ask for the bytes up to the end of the last string, and for three more behind the last count or basic element |
| QmiAccept.PlainAccepted | lib/qmi.c:385-416 | without strings inside structs they let through exactly what fits |
| QmiReach.BodyScan | lib/qmi.c:237-258 | inside a struct, at any depth, the encoder writes the bytes of a flat list of counts, elements and strings up to the first that does not fit, three bytes to spare for all but strings |
| QmiReach.ReachBeyond | lib/qmi.c:303-306 | bytes behind the room are written, in an accepted or a refused message, if and only if a string inside a struct is reached that ends within the room and less than three bytes before its end |
| QmiReach.WrittenUpTo | lib/qmi.c:332-463 | what is written of a message ends where its reach says: bytes behind it stay as they were, and the last one before it does not depend on what was there |
| QmiReach.ExcessAtMostThree | lib/qmi.c:303-306 | by at most three bytes, unless a struct that has passed has run over the room, which it does by at most three |
| QmiReach.PlainWithin | lib/qmi.c:385-416 | without strings inside structs no byte behind the room is written, whatever the outcome |
| QmiTlvs.WireParses | lib/qmi.c:454-460 | a table-free reader of types, 16-bit lengths and payloads finds in the encoding exactly one TLV for each present field, in order, with its payload, if and only if no payload exceeds 16 bits; so it does in every message below 64 KiB |
| QmiSent.LeftOut | lib/qmi.c:368-379 | an optional field is left out exactly when the byte of its flag is zero |
| QmiSent.TooMany | lib/qmi.c:356-366 | a count in the low bytes of the length member that exceeds the maximum of the table cannot be sent |
| QmiSent.BasicSent | lib/qmi.c:381-416 | elements of a basic type that are no more than the maximum can be sent: type and 16-bit length at the top level, the count in one or two bytes if it is sent, and the bytes of the struct; the check asks for three bytes more than count and elements |
| QmiSent.StringSent | lib/qmi.c:276-318 | a string, up to its first zero byte, cannot be sent exactly when it is longer than the maximum; it is sent without its terminator, inside a struct behind its length in one or two bytes; the check asks, of the room left taken as 32 bits, for three bytes more at the top level only |
| QmiSent.StructSent | lib/qmi.c:237-258 | structs lie elem_size bytes apart and are sent one after the other behind their count; they can be sent exactly when all their members can |
| QmiSent.StructRoom | lib/qmi.c:237-258 | their checks: the count with three bytes to spare, and each struct with the room behind the count and the structs before it, taken as 32 bits |
| QmiSent.FieldsRoom | lib/qmi.c:351-440 | the fields of a message or struct are checked one by one, each behind what the fields before it come to |
| QmiSent.FieldsSent | lib/qmi.c:351-461 | fields go out in the order of the table |
| QmiValue.AllCountsFitIff | lib/qmi.c:381-382 | the encoder and the program read the same values from a struct if and only if they read the same counts, at any depth |
| QmiDecode.DecodeStringElem | lib/qmi.c:558-594 | for any input, consumes, stores or refuses as the specification of a string says |
| QmiFramed.StringHolds | lib/qmi.c:558-594 | a framed string is stored if and only if its length prefix can count it, and then exactly its bytes are consumed; a longer one is cut to the remainder |
| QmiDecode.DecodeStructElem | lib/qmi.c:512-539 | for any input, the memory after the structs and the bytes consumed; the length must be used up exactly at the top and not exceeded inside |
| QmiDecode.DecodePrefix | lib/qmi.c:676-694 | the flag is set; a count is read over the low bytes of the length variable and stored in four bytes |
| QmiNested.CountReads | lib/qmi.c:683-694 | the count read is the one sent if and only if nothing was left over, and is too large for its width otherwise |
| QmiDecode.DecodeField | lib/qmi.c:676-740 | for any input, the memory after a field, the bytes consumed, and what the length variable is left with |
| QmiNested.FieldRuns | lib/qmi.c:676-740 | a framed field of any depth holds the sent value afterwards if and only if nothing is left over in any of its counts and all its nested strings fit their prefixes; then exactly its bytes are consumed; otherwise, in tables that cannot misread a count, it is refused |
| QmiNested.RecsRun | lib/qmi.c:512-539 | the same for an array of structs |
| QmiDecode.FindEi | lib/qmi.c:608-620 | finds the first row of the field with the type, and nothing when no field has it |
| QmiDecode.DecodeTlv | lib/qmi.c:653-668 | for any input, does with a TLV what the specification says, and the laws of `QmiOneTlv` say for its bytes |
| QmiDecode.Decode | lib/qmi.c:634-744 | for any input, the result and the memory of the run, of which the laws of `QmiOneTlv` hold; needs memory behind the input only as far as the run reads |
| QmiOneTlv.UnknownTlv | lib/qmi.c:658-667 | a TLV of a type that no field has is refused with -EINVAL if and only if the type is below 16; from there on it takes 3 bytes and its 16-bit length, and nothing is stored |
| QmiOneTlv.UnknownMessage | lib/qmi.c:649-667 | a message of one such TLV is refused if and only if the type is below 16, and used up otherwise |
| QmiOneTlv.FlagSet | lib/qmi.c:676-682 | whatever the input behind it, the byte at the flag's offset is 1 once a TLV of the field has been met |
| QmiOneTlv.BasicTlv | lib/qmi.c:708-724 | elements of a basic type without a count are taken from behind the header whatever its length says, and never refused |
| QmiOneTlv.CountedTlv | lib/qmi.c:683-724 | with a count, read as one byte or two over the low bytes of the length variable, they are refused if and only if it exceeds the maximum; otherwise they are stored and the length in the header does not matter |
| QmiOneTlv.CountStored | lib/qmi.c:683-694 | a count is stored in the four bytes of the length member, also if it is refused |
| QmiOneTlv.StringTlv | lib/qmi.c:568-594 | a string of a message is as long as its TLV, refused if and only if that exceeds the maximum, and otherwise stored with a zero byte behind it |
| QmiOneTlv.NestedString | lib/qmi.c:570-594 | inside a struct its length is in one or two bytes before it; it is refused if that exceeds the maximum or what is left of the input, and stored with a zero byte behind it otherwise |
| QmiOneTlv.StructTlv | lib/qmi.c:512-539 | structs of a message use up their TLV exactly or are refused, and so are more than the maximum |
| QmiOneTlv.NestedStructs | lib/qmi.c:530-536 | structs inside structs are all there, and within what is left of the input, or are refused |
| QmiOneTlv.ShortStructs | lib/qmi.c:520-536 | input that ends before the first struct or with it will do for structs of the message, however many there are to be; inside a struct it is refused, unless it held the only one |
| QmiOneTlv.NestedBasic | lib/qmi.c:649-724 | inside a struct a basic member is read whatever is left of the input, and members behind the end of the input are left as they are, without an error |
| QmiRun.TopWrites | lib/qmi.c:634-744 | whatever the input, only the struct is written |
| QmiRun.TopReach | lib/qmi.c:634-744 | whatever the input, reading ends within the largest extent of the fields and two bytes behind its end |
| QmiTopRun.MessageRuns | lib/qmi.c:634-744 | on a well-framed message whose counts find nothing left over, whose unknown types are optional and whose nested strings fit, all input is used and the struct holds the effect of the items; on any other the decoder fails when counts cannot be misread, and fails or leaves other values when no field is sent twice and no count runs over its TLV |
| QmiFrame.UpdateOne | lib/qmi.c:676-740 | when only bytes of one field change and it holds a new value, the struct's values are the old ones with that one replaced |
| QmiRoundTrip.LoadedOk | lib/qmi.c:404-440 | a value read from a struct and sent is one that the decoder takes back |
| QmiRoundTrip.ReplayGivesValues | lib/qmi.c:676-682 | decoding over a struct with clear flags gives the sender's values, absent fields included |
| QmiRoundTrip.OrderIndependent | lib/qmi.c:649-667 | the same TLVs in different orders have the same effect on the struct |
| QmiRoundTrip.OrderDecodable | lib/qmi.c:649-667 | in another order a message is as decodable, but for the lengths its arrays leave behind |
| QmiRoundTrip.DecodeBothOrders | lib/qmi.c:634-744 | two runs of the decoder, over two orders of the same TLVs, leave structs of the same values |
| QmiRoundTrip.UnknownIgnored | lib/qmi.c:658-667 | an unknown optional TLV inserted at any place changes the length by 3 and its payload, and nothing else: not the effect, nor any of the conditions for decoding |
| QmiRoundTrip.ExtensionIgnored | lib/qmi.c:658-667 | a message with such a TLV decodes if and only if the message without it does, to the same values |
| QmiRoundTrip.DecodeExtended | lib/qmi.c:634-744 | two runs of the decoder, with it and without it, leave structs of the same values |
| QmiRoundTrip.ShortArraysClean | lib/qmi.c:685-706 | messages without arrays of 256 or more elements meet the decoder's condition in any order |
| QmiMessage.CalcMinMsgLen | lib/qmi.c:144-189 | the computed minimum over tables of any depth |
| QmiMessage.MinLenZero | lib/qmi.c:144-189 | the minimum is zero exactly when every field is optional |
| QmiMessage.MinLenIs | lib/qmi.c:144-189 | the minimum is the length of a message of all mandatory fields, with strings and arrays of basic elements in full and one struct in each array of structs |
| QmiMessage.EncodeMessage | lib/qmi.c:757-795 | fails exactly when the packet is too small for the header, the encoder refuses, or there is no struct and a field is mandatory; the packet is then as before, but for what the encoder wrote; otherwise it is the header followed by the reference encoding |
| QmiMessage.PlainHolds | lib/qmi.c:757-795 | without strings inside structs the packet's own length is memory enough, for every struct |
| QmiMessage.DecodeHeader | lib/qmi.c:797-809 | accepts exactly the packets whose length field agrees, and yields the message id |
| QmiMessage.DecodeMessage | lib/qmi.c:821-843 | for any nonempty packet of the type and id, the run of the decoder over its body, and the transaction; otherwise an error and the struct as it was |
| QmiMessage.Receive | lib/qmi.c:797-843 | the header of a built message is accepted if and only if its body is below 64 KiB; the values the encoder read arrive when type and id fit, no stale length is picked up and nested strings fit, and, unless a count can run over its TLV, only then |
| QmiMessage.RoundTrip | lib/qmi.c:757-843 | the same from struct to struct, with length minus 7 and transaction modulo 2^16; what arrived is what the program meant if and only if its length members fit their widths |
| QmiLimits.FiveBytesInFour | lib/qmi.c:303-306 | the encoder writes a message of five bytes into a room of four |
| QmiLimits.RefusedInFour | lib/qmi.c:303-416 | a message is refused in a room of four after its fifth byte has been written |
| QmiLimits.RefusedBeyond | lib/qmi.c:303-440 | a message is refused in a room of four after any number of bytes, up to 64 KiB, has been written behind the room |
| QmiLimits.ThreeHundred | lib/qmi.c:382-382 | a length member of 300 makes the whole trip as 44, with no error |
| QmiLimits.LongString | lib/qmi.c:571-572 | a nested string of 256 characters is sent and does not arrive |
| QmiLimits.LongArrayBeforeCount | lib/qmi.c:640-706 | a well-formed message is refused in table order and decoded in the other order |
| QmiLimits.DecodeEmpty | lib/qmi.c:658-667 | the decoder on one empty TLV of any type but the table's: -22 below 16 and 3 from there on, and the struct as it was |
| QmiLimits.FifteenAndSixteen | lib/qmi.c:658-667 | type 0x0f is refused, and type 0x10 skipped |
| ProbeTable.FindFirst | src/map.c:149-171 | without gaps in probe chains the search finds the first entry of the key, and finds none only if there is none |
| ProbeTable.ClaimFirst | src/map.c:64-87 | the chosen slot is the first that is free or holds the key, and there is one unless all slots are live |
| ProbeTable.PutView | src/map.c:91-112 | putting updates the finite map at the key, tombstones or not |
| ProbeTable.PutUnique | src/map.c:64-112 | keys stay live once if and only if no tombstone lies ahead of the key, that is, if and only if the key is absent or its slot is the one found |
| ProbeTable.PutFree | src/map.c:64-112 | putting leaves no tombstone ahead of the key itself, and puts none ahead of another |
| ProbeTable.PutTwice | src/map.c:76-78 | after putting two keys of one home and removing the first, putting the second makes it live twice: removing it leaves the first of its items |
| ProbeTable.AbsentIsFree | src/map.c:64-87 | an absent key can always be put |
| ProbeTable.RemoveKey | src/map.c:188-198 | removing takes the key out of the map if and only if it was live nowhere else |
| ProbeTable.RemoveView | src/map.c:188-198 | with unique keys removal is removal from the finite map |
| ProbeTable.EntriesAreView | src/map.c:119-147 | with unique keys the live entries, put again in order, are the same map |
| ProbeTable.EnteredDone | src/map.c:91-147 | putting into a table, rebuilt first or not, updates the finite map at the key, keeps keys live once exactly when no tombstone lay ahead, and puts no tombstone ahead of another key |
| ProbeTable.CountIsSize | src/map.c:200-203 | with unique keys the number of live slots is the size of the map |
| ProbeTable.ItemsSkip | src/map.c:205-214 | slots without live entries do not appear in the iteration |
| HashMap.Map.Hash | src/map.c:64-87 | -1 exactly when the table is full, otherwise the first free or own slot; -2 never |
| HashMap.Map.ClaimSlot | src/map.c:96-99 | at most one rebuild, and only of a full table; the map is unchanged |
| HashMap.Map.Reput | src/map.c:91-112 | the map is updated at the key and the replaced item returned; one entry per key is kept exactly when no tombstone lay ahead; slot by slot, what the table comes to |
| HashMap.Map.Put | src/map.c:114-117 | the same without the old item |
| HashMap.Map.Rehash | src/map.c:119-147 | 256 slots more, no tombstones, the same map; the puts inside never rebuild again |
| HashMap.Map.FindEntry | src/map.c:149-171 | the slot of the search |
| HashMap.Map.Contains | src/map.c:173-176 | membership in the finite map |
| HashMap.Map.Get | src/map.c:178-186 | lookup in the finite map |
| HashMap.Map.Remove | src/map.c:188-198 | removal from the finite map; 0 exactly when the key was there |
| HashMap.Map.Length | src/map.c:200-203 | the size of the finite map |
| HashMap.Map.Clear | src/map.c:42-54 | the map is empty without tombstones, and each live item is released once, in slot order |
| HashMap.Map.IterFrom | src/map.c:205-214 | the first live slot from a place on |
| HashMap.Map.IterFirst | src/map.c:224-227 | nothing live comes before the first slot |
| HashMap.Map.IterNext | src/map.c:216-222 | exactly the current item is passed by a step |
| Hash.HashIsBijective | src/hash.c:22-25 | `hash_u32` has an inverse on 32-bit words |
| Hash.HashIsInjective | src/hash.c:22-25 | equal hashes mean equal words |
| LinkedList.List.Append | src/list.h:39-48 | one item more at the end, all pointers consistent |
| LinkedList.List.Prepend | src/list.h:50-57 | one item more at the front; the prev pointers are consistent if and only if the list was empty |
| LinkedList.List.Insert | src/list.h:59-72 | one item more behind the given one; consistent exactly when there is one or the list was empty |
| LinkedList.List.Remove | src/list.h:74-88 | the item is out and unlinked, the others keep their order and all pointers are consistent |
| LinkedList.List.Pop | src/list.h:90-98 | the first item, or none from an empty list |
| LinkedList.List.RemoveIf | src/list.h:124-125 | a safe iteration visits every item once and in order although the body removes items, and leaves the others in order |
| LinkedList.SweptStep | src/list.h:124-125 | each turn finds the next original item, still followed by its original successor |
| Waiter.Ticket.Clear | src/waiter.c:370-378 | tells whether the ticket has fired since it was cleared last, and clears it |
| Waiter.Pollset.AddFd | src/waiter.c:67-73 | stores the descriptor behind the others, given a free place |
| Waiter.Pollset.Wait | src/waiter.c:75-94 | the cause is the first ready descriptor |
| Waiter.RoomSuffices | src/waiter.c:301-323 | the capacity left by additions exceeds the number of tickets, and grows exactly at multiples of 32 |
| Waiter.Waiter.AddNull | src/waiter.c:301-323 | the array has room for every ticket and one more |
| Waiter.Waiter.AddTimeout | src/waiter.c:338-349 | a ticket more, a timeout of this interval that starts now |
| Waiter.Waiter.Delete | src/waiter.c:351-357 | the ticket is gone, the others keep their order, and the array keeps its room |
| Waiter.Waiter.HandOver | src/waiter.c:166-183 | a timeout gives its start to the next timeout of its interval and to no other ticket |
| Waiter.Waiter.Synchronize | src/waiter.c:160-184 | the start times are those of all such hand-overs in turn |
| Waiter.HandingOnShares | src/waiter.c:160-184 | which gives every timeout the original start of the first timeout of its interval, and leaves other tickets alone |
| Waiter.SharedAgree | src/waiter.c:160-184 | the first timeout of an interval keeps its start, timeouts of one interval agree afterwards, and synchronising again changes nothing |
| Waiter.PollInTime | src/waiter.c:197-226 | poll is skipped if and only if a timeout is due by now, and asked to wait for ever if and only if none is ever due; otherwise it waits until exactly the earliest is due, or 0x7fffffff milliseconds if that is further off |
| Waiter.Waiter.ValidCanPoll | src/waiter.c:301-323 | after any additions and deletions there is a place for every descriptor |
| Waiter.Waiter.Collect | src/waiter.c:195-211 | all descriptors are stored, in order and within the array, and the earliest due time is found |
| Waiter.Waiter.Fire | src/waiter.c:232-261 | exactly the due timeouts and the tickets of the ready descriptor fire, due timeouts restart now, and callbacks run for those that had not fired before |
| Waiter.Waiter.Wait | src/waiter.c:186-262 | one wait as a whole: poll is asked for the right time; unless it fails, exactly the timeouts that are due fire and start again; if it is asked and finds a descriptor ready, exactly the descriptor tickets of the first one fire; a failing poll changes no ticket |
| WaiterOrder.FdsRanked | src/waiter.c:205-208 | the descriptor of a ticket stands at the place that is the number of descriptor tickets before it, and there are no others |
| WaiterOrder.FreshRanked | src/waiter.c:232-261 | callbacks run once for each ticket that fires and had not fired before, in the order of the tickets |
| Waiter.Waiter.WaitTimeout | src/waiter.c:264-281 | although its ticket is added without resizing the array, the array suffices; afterwards the tickets are those before; -1 only when the time is up, and always then unless poll fails |
| Control.MatchIsWants | src/ns.c:118-127 | without a mask the filter of queries selects the same servers as the filter written out in the two loops over observers (310-313, 472-475) |
| NsSpec.NextKeeps | src/ns.c:380-571 | every packet keeps servers under their own address with nonzero service and port, and all observers local |
| NsSpec.RunKeeps | src/ns.c:573-654 | and so does every run |
| NsSpec.Rejected | src/ns.c:459-465 | a refused packet changes nothing and nothing is sent |
| NsSpec.StepOfNode | src/ns.c:444-508 | a packet acts only on the servers of the node it comes from, and there as if there were no others |
| NsSpec.RunOfNode | src/ns.c:573-654 | the servers of a node after a run are those after the run of its own packets alone |
| NsSpec.Provenance | src/ns.c:444-481 | every server was registered by a packet of its own node, a local one from its own port, and has been there unchanged since |
| NsSpec.NodeLeaves | src/ns.c:335-353 | BYE leaves the node without servers and other nodes as they were; each address gets one notice per removed server and observer of its own that wants it, and the broadcast address one per removed local server |
| NsSpec.ClientLeaves | src/ns.c:380-417 | a DEL_CLIENT acts if and only if it comes from the client's node, and from the client itself if that is local; then neither observers nor a server are at the address, each other observer is there as often as before and in order, and nothing is sent to the address; otherwise nothing changes and nothing is sent |
| NsLaws.NewServerLaw | src/ns.c:444-481 | a NEW_SERVER is obeyed if and only if service is nonzero and the sender is local with a nonzero port, whatever node and port it names, or names its own node and a nonzero port; then that server is at its address and all else as before, each address is told once for each of its observers that asks for it, and the broadcast address once for a local one |
| NsLaws.DelServerLaw | src/ns.c:483-508 | a DEL_SERVER is obeyed if and only if the sender is local or names its own node, and a server is at that address; then it is gone, and the same addresses are told as often |
| NsLaws.HelloLaw | src/ns.c:323-333 | a HELLO changes nothing; its sender, and no other, gets a HELLO first and one NEW_SERVER for each local server |
| NsLaws.ByeLaw | src/ns.c:335-378 | after a BYE the servers of the sender's node are gone, with the notices of each, and each local server left gets one BYE that names this node |
| NsLaws.DelClientLaw | src/ns.c:380-442 | a DEL_CLIENT that acts takes out observers and server as in `ClientLeaves`; each observer left that asks for that server is told once, each local server left gets the packet once, and nothing else is sent; any other one changes and sends nothing |
| NsLaws.NewLookupLaw | src/ns.c:510-546 | a NEW_LOOKUP of a local sender, and no other, adds one observer at the end, who gets one NEW_SERVER for each server it asks for and the record of zeros last |
| NsLaws.DelLookupLaw | src/ns.c:548-571 | a DEL_LOOKUP removes exactly the sender's observers of the service whose instance is zero or the packet's; each other one is there as often as before and in order, and nothing is sent |
| NsLaws.Registry | src/ns.c:573-654 | over every run a server is registered if and only if some packet registered it and none since has removed or replaced what is at its address |
| NsLaws.Audience | src/ns.c:573-654 | over every run a client observes if and only if some packet of its own asked for that and none since has withdrawn it or closed the client |
| Observers.SeeNotices | src/ns.c:307-316 | any number of observers at an address have the effect of one notice |
| Observers.SeeOutputs | src/ns.c:573-654 | what the messages sent for a packet do to the view at an address |
| Observers.StepCovers | src/ns.c:444-546 | a packet leaves no wanted server unknown or known with old data |
| Observers.AlwaysCovered | src/ns.c:444-546 | over every run the notices to an address include every server wanted there with its current data |
| Observers.StepExact | src/ns.c:277-321 | an exact view stays exact if and only if the packet is none of those listed in `Spoils` |
| Observers.ExactWhenUnspoilt | src/ns.c:444-546 | over every run without such packets the notices add up to exactly the wanted servers |
| Observers.WildcardExact | src/ns.c:470-478 | over every run, an address with an observer of everything from some packet on, its view unspoilt until then, knows exactly the registered servers |
| Observers.FilteredExact | src/ns.c:470-478 | over every run without HELLO from the address, without its observers going, and without ports that register again for another service or instance, it knows exactly the servers its observers want |
| Observers.ReplacedUnnoticed | src/ns.c:277-280 | a run after which a client knows a server that does not match its lookup |
| Observers.LookupAnswered | src/ns.c:510-546 | a lookup is answered by exactly the matching servers of all nodes, each once, and a reader that stops at the record of zeros gets exactly those |
| Replication.HeardKeepsUp | src/ns.c:224-244 | what another node hears of any packet takes its knowledge from the local servers before to those after |
| Replication.AbsorbSnapshot | src/ns.c:224-244 | the answer to a HELLO brings a node that knows nothing, or everything, to know exactly the local servers |
| Replication.HandlesAgreeing | src/ns.c:573-654 | one packet at one of two name servers keeps both in step |
| Replication.Replicated | src/ns.c:573-654 | in every run what is in flight makes up the difference between what one has and what the other knows of it, so the two agree whenever nothing is |
| ServerTables.ServesKey | src/ns.c:266-301 | an entry found under a key is the server whose port hashes to it |
| ServerTables.TableMinus | src/ns.c:289-301 | taking a port out of a table leaves the registered servers without it, or, if it was there twice, with the server that registered it before |
| ServerTables.TablePut | src/ns.c:246-287 | entering a server makes the table hold the registered servers and this one; each port stays there once exactly when no tombstone lay ahead of it |
| NameServer.NodeNext | src/ns.c:136-149 | the node at the iterator is stored under the hash of its id and has not been visited |
| ServerTables.ItemsList | src/ns.c:140-149 | iterating over a table visits exactly the servers of its node, each once |
| ServerTables.DrainStep | src/ns.c:349-353 | the server at the iterator is found in its own slot although all slots before have become tombstones |
| ServerTables.DrainEnd | src/ns.c:349-353 | after the loop the node has no servers |
| NameServer.NameServer.NodeGet | src/ns.c:88-116 | the node with the id, created once |
| NameServer.NameServer.ServerAdd | src/ns.c:246-287 | the server is registered at its address, unless service or port is zero; the tables are in order afterwards exactly when no tombstone lay ahead of it |
| NameServer.NameServer.ServerDel | src/ns.c:289-321 | the server is gone and its removal announced, or -ENOENT and nothing changes; if the port was in the table twice, the server that registered it before is registered now |
| NameServer.NameServer.Notify | src/ns.c:308-316 | one notice to every observer that wants the server, in order |
| NameServer.NameServer.AnnounceServers | src/ns.c:224-244 | every local server is announced, each once |
| NameServer.NameServer.Drain | src/ns.c:349-353 | emptying the table while iterating over it removes and announces every server of the node, each once |
| NameServer.NameServer.Propagate | src/ns.c:364-375 | every local server is told, each once |
| NameServer.NameServer.ServerQuery | src/ns.c:129-153 | exactly the matching servers of all nodes, each once |
| NameServer.NameServer.DropLookups | src/ns.c:403-412 | the chosen observers are gone and the others keep their order |
| NameServer.NameServer.CtrlHello | src/ns.c:323-333 | does and sends what the state machine says |
| NameServer.NameServer.CtrlBye | src/ns.c:335-378 | the same for BYE |
| NameServer.NameServer.CtrlDelClient | src/ns.c:380-442 | the same for DEL_CLIENT, and an error exactly unless it comes from the client's node, and from its port if that is local |
| NameServer.NameServer.CtrlNewServer | src/ns.c:444-481 | the same for NEW_SERVER, for every packet, and an error exactly unless service and port are nonzero, the port being the sender's if it is local, and a remote sender names its own node; no port is in a table twice afterwards if and only if no tombstone lay ahead of the server it replaces |
| NameServer.NameServer.CtrlDelServer | src/ns.c:483-508 | the same for DEL_SERVER, also when ports are in tables twice, up to the server that may come to light, and an error exactly when no server is at the address or a remote sender names another node |
| NameServer.NameServer.CtrlNewLookup | src/ns.c:510-546 | the same for NEW_LOOKUP, and an error exactly for remote senders |
| NameServer.NameServer.CtrlDelLookup | src/ns.c:548-571 | the same for DEL_LOOKUP |
| NameServer.NameServer.Receive | src/ns.c:573-654 | every control packet takes the tables, slot by slot, from one state of the machine to the next and sends its messages; no port is in a table twice afterwards if and only if the packet registers none behind a tombstone |
| NameServer.NameServer.Serve | src/ns.c:573-654 | a whole run from the start, up to the first packet that meets a tombstone: the tables hold the state after it, the messages are those of the machine, every address knows the servers wanted there, and no port is in a table twice if and only if the last packet meets no tombstone either |
| ServerTables.GoodRun | src/ns.c:573-654 | over every run that meets no tombstone the slots of each node hold its registered servers, each once, and no tombstone lies ahead of ports that registered after the last removal |
| ServerTables.OrderlySmooth | src/ns.c:573-654 | a run meets no tombstone if ports register again only while no server of their node has been removed since they registered last |
| NameServer.ListedTwice | src/ns.c:266-301 | four packets, from the start, that leave port 257 of a node in its table twice |
| NameServer.ListedStill | src/ns.c:483-508 | after a DEL_SERVER as fifth packet the port is listed with the data it registered first, although the state machine has it no more |

## Left out

- QmiEncode.EncodesIff: for rooms and encodings below 2^31 bytes.
- QmiDecode.Decode: requires memory behind the input as far as the run reads, by `TopReach` at most the largest extent of the fields
  and two bytes.
- QmiTopRun.MessageRuns: that wrong values are the outcome of every message that is not decodable is stated for fields sent once, and for
  tables whose top-level counted arrays of basic elements have no more room than their DATA_LEN can count; only in others can a count run over
  the end of its TLV, and the rest of the message be read from the wrong place.
- QmiMessage.RoundTrip: equality is of values: bytes of unused array tails, of absent fields and of padding are ignored, and a
  nonzero flag counts as set. The converse direction is for tables as above. When the message can be misread, memory behind the packet is
  required as for `Decode`.
- NameServer.NameServer.Receive: once a port is in a table twice, packets other than DEL_SERVER are not modelled.
- NameServer.NameServer.Serve: nor is what follows the first packet that meets a tombstone, for the same reason.
- Waiter.Waiter.Wait: requires the array for poll, see above.
- NameServer.NameServer.CtrlHello: that HELLO packets are echoed to each other without end is not modelled; only what they change and send.
- Waiter.Waiter.WaitTimeout: callbacks that add or delete tickets while the waiter runs are not modelled.
- Replication.Replicated: packets of one node reach the other's name server through the channel only; the kernel's own BYE and
  DEL_CLIENT broadcasts on broken links are not modelled.
- Null pointers for tables, structs and packet data.
- Sockets, netlink, poll, the clock, forking and options (`src/addr.c`, `src/cfg.c`, `lib/qrtr.c`, `src/util.c`).
- Logging and printing (`lib/logging.c`, `src/lookup.c`, `qrtr.py`): nothing to prove.
- Failing allocations and sends, freeing of memory, and `waiter_destroy`.
- `hash_mem`, `hash_string`, `hash_u64` and `hash_pointer`: not used by the modelled components.
- Hosts that are not little-endian: some packets are sent with unconverted fields.
- `qmi_calc_min_msg_len` as a lower bound: it counts full arrays and strings (`MinLenIs`); only its zero is used.
