# A model of the rpc-frmwrk base library and its bookkeeping

The project models and proves the parts of the framework that other parts rest on: the byte buffer and
the two wire formats written into it, the registry, the streaming SHA-1, smart pointers, and four pieces
of bookkeeping around connections, interfaces and events. Code that works step by step is imperative
here too: classes with the fields of the source, loops with invariants, in-place writes. Each method is
proved against a specification written with functions, and the specifications carry the main results.

- `Bytes`, `Buffer`: byte strings, network order, and the buffer with its 48-byte inline store, its heap
  store and its movable window. The heap blocks a buffer owns are tracked, so a double release does not verify.
- `Ridl`, `RidlBytes`, `RidlProofs`, `RidlFrame`, `RidlSerializer`, `RidlTransfer`: arrays and maps nested
  to any depth. `Encode` is the pure format, `Write` is what the in-place serializer does for any signature, right or wrong, with byte counts patched
  in later and inner errors lost in shadowed variables, and `Decode` is what the reader makes of any bytes.
  Signatures decide which: `WriteExact` gives the exact condition under which a writer's success means the
  right bytes. `DecodeExact` is the same for the reader: `Frame` goes over the bytes and the signature
  and says when the value read is the one that was sent. Maps keep their entries in the order of their
  keys, as `std::map` does, whatever the order in which they come in. `RidlBytes` spells the format out.
- `Objects`, `ObjectBytes`, `ObjectMemory`, `ObjectProofs`, `ObjectLayout`, `ObjectSerializer`: property
  maps, object vectors, integer vectors and typed buffers. `ObjectBytes` spells the format out. Encodings
  are a relation, since padding and the reserved bytes of a buffer header are whatever memory held. A map is listed in its iteration order, whatever that is, so a result
  for all lists holds for every order; a decoded map lists its properties as they were set. The serializers
  prove that every object without a null has an encoding, and the round trip holds of all of them. It
  is exact: `Friendly` is what a sender can check, and everything else the program can build is written
  without complaint and not read back as it was. Readers of vectors convert headers and tables where they
  stand, so the pure readers pass the memory on from one element to the next, and the methods work on arrays.
- `RegistryPath`, `RegistrySpec`, `Registry`: the tree of entries with parent pointers and a current
  directory, refined to a set of paths.
- `Sha1Spec`, `Sha1Answer`, `Sha1`: FIPS PUB 180-1, its first known answer, and the streaming object with
  its two length words.
- `ConnMgr`, `IfState`, `Subscription`: tasks in flight against disconnects, the state of an interface with
  recovery, and all-or-nothing subscription. Runs are sequences of events.
- `SmartPtr`: every pointer of a process and every object made so far; the invariant of `Process.Sound` is
  kept by every operation. A thrown exception is an out-parameter.
- `ConnOrder`: the comparison that keys the map from addresses to ports.

Where the source and its promises part, the source is followed and the difference proved: an inner failure
that is reported as success (`SwallowedError`), integer vectors that an object vector writes and cannot read
(`IntVectorInVector`), vectors over the container limit whose header stays in host order (`HostOrderHeader`),
the limit of 1024 properties that only the reader knows (`ConfigRoundTrip`), directories named with a dot
(`ResolveIsTarget`, `DotsDiffer`), a sliding window whose 32-bit sum wraps (`SlideExact`, `SlideWraps`), a
reader that fills in what is missing, takes keys in any order and drops refusals (`DecodeExact`,
`SwallowedOnReading`, `KeysOutOfOrder`, `BracketsMatter`), a vector that can be read only once
from the same memory (`DecodedOnce`), a task registered twice (`RunAgrees`, `StaleTask`), and a pointer
that is emptied by a failed move (`CAutoPtr.Move`). `UnfriendlySamples` has objects that are sent and do not come back.

A buffer refuses to grow over 16 MiB without a sign that its callers look at, so every member that
writes to one asks for that much room. For a property map the room is not a guess: `Cap` follows the
buffer through every growth, and `CapBounded` says how far that can be from the bytes written.

`dafny verify dfyconfig.toml` checks the project.

## Model

| member | source | states |
|---|---|---|
| Buffers.Buffer.constructor | combase/buffer.cpp:247-262 | A buffer starts with storage of the wanted size and the window over all of it; over 16 MiB it stays empty without a sign. |
| Buffers.Buffer.From | combase/buffer.cpp:264-274 | A buffer made from bytes shows a copy of them, or nothing when they are over 16 MiB. |
| Buffers.Buffer.SetBuffer | include/buffer.h:226-234 | The store, its size and the end of the window change together and the offset returns to 0. |
| Buffers.Buffer.ResizeWithOffset | combase/buffer.cpp:324-441 | A resize while the window hides bytes keeps the first visible bytes, unhides everything, keeps the null/inline/heap rule, and never reaches an ERROR_STATE branch; 0 and more than 16 MiB are refused and change nothing. |
| Buffers.Buffer.Resize | combase/buffer.cpp:443-559 | The first min(old, new) visible bytes are kept, the storage is null, inline or one heap block by size, a replaced heap block is released exactly once; more than 16 MiB is refused with E2BIG and nothing changes. |
| Buffers.Buffer.Append | combase/buffer.cpp:988-1004 | Within the size limit the visible bytes become the old ones followed by the block; an empty block is refused. |
| Buffers.Buffer.SetOffset | include/buffer.h:252-265 | The offset moves exactly when there is storage and the new place is not past the end of the window. |
| Buffers.Buffer.IncOffset | include/buffer.h:299-300 | The offset advances by the 32-bit sum, under the same condition. |
| Buffers.Buffer.SetTailOff | include/buffer.h:267-279 | The end of the window is the wanted one, cut to the storage and never before the offset. |
| Buffers.Buffer.SetWinSize | include/buffer.h:281-284 | The same for a wanted window size. |
| Buffers.Buffer.SlideWindow | include/buffer.h:281-294 | What a slide returns and where it leaves the window, for every size and state, also when a 32-bit sum wraps: an empty window then stays where it is and the call succeeds, any other loses bytes and the call fails. |
| Buffers.SlideExact | include/buffer.h:281-294 | A slide succeeds and moves the window to the next bytes, cut at the end of the storage, exactly when there is storage and the sum does not wrap or the window stands empty at the end. |
| Buffers.SlideWraps | include/buffer.h:281-294 | Two inputs that wrap: two visible bytes of which one is lost, and an empty window in a buffer of two bytes that stays where it is although the call succeeds. |
| Buffers.Buffer.SlideThrough | include/buffer.h:286-294 | A series of slides that cannot wrap, each followed by a read, returns the storage from the end of the first window on, nothing skipped and nothing twice. |
| Buffers.SlidesCover | include/buffer.h:286-294 | The windows of any series of such moves are consecutive slices up to the last byte of the storage. |
| RidlProofs.StripSig | include/seribase.h:160-170 | Stripping one layer of a container's signature leaves the element's signature, at every depth. |
| RidlProofs.KeyOrder | include/seribase.h:226-281 | The order in which a map keeps its keys (signed numbers by value, strings byte by byte) is strict, transitive and total on the keys of one kind. |
| RidlProofs.InsertAscending | include/seribase.h:567 | Inserting an entry keeps the entries in the order of their keys. |
| RidlProofs.InsertDrops | include/seribase.h:567 | An insertion changes nothing exactly when the key is there. |
| RidlProofs.ReadAtomOfEncode | combase/seribase.cpp:383-406 | A number, string or byte array followed by anything is read back, and exactly its bytes are consumed. |
| RidlProofs.RoundTrip | include/seribase.h:386-585 | For every typed value within the limits and any nesting, decoding its encoding followed by any bytes gives the value and leaves exactly those bytes. |
| RidlProofs.RoundTripArray | include/seribase.h:386-478 | The array case: the byte count is the exit for empty arrays only, because every element takes a byte. |
| RidlProofs.RoundTripMap | include/seribase.h:480-585 | The map case, with the extra bracket and the key in front of each element. |
| RidlProofs.RoundTripElems | include/seribase.h:454-461 | The loop over elements consumes the concatenated encodings one by one. |
| RidlProofs.RoundTripEntries | include/seribase.h:550-568 | The loop over entries puts each one behind the entries before it, whatever smaller keys there are already. |
| RidlProofs.OwnSigIsClean | include/seribase.h:146-222 | A value within the limits passes every check of the serializer under the signature of its own type. |
| RidlProofs.WriteExact | include/seribase.h:145-313 | Success together with the right bytes holds exactly when lengths and counts are under their limits and the signature has the right brackets at every container reached; otherwise the call fails or its output differs from the encoding. |
| RidlProofs.WriteIsEncode | include/seribase.h:145-313 | Under a value's own signature, writing in place with byte counts patched in afterwards gives the pure recursive encoding. |
| RidlProofs.SwallowedError | include/seribase.h:196-222 | A concrete value whose inner failure is lost in a shadowed variable: the call reports success and writes an array of zero bytes that claims one element. |
| RidlFrame.DecodeExact | include/seribase.h:386-585 | For all bytes, every type and any signature: reading reports success, takes exactly the encoding of the value it returns, and finds the brackets of the type wherever it opens a container, when the bytes are framed, and only then; if the encoding of such a value is there at all, they are framed. |
| RidlFrame.EncodingIsFramed | include/seribase.h:145-313 | What the writer produces within the limits, followed by anything, is framed, and the frame ends where the encoding does. |
| RidlFrame.CleanFits | include/seribase.h:145-313 | A value that can be written under a signature has its brackets in place there. |
| RidlFrame.SwallowedOnReading | include/seribase.h:454-478 | Nine concrete bytes that announce two elements and hold one: the reader fills in a default and reports success. |
| RidlFrame.AtomExact | combase/seribase.cpp:229-490 | The scalar case: a number, string or byte array that is framed is read to its last byte, and a value whose encoding is there is framed. |
| RidlFrame.ElemsExact | include/seribase.h:454-461 | The same for the loop over elements, from any point. |
| RidlFrame.EntriesExact | include/seribase.h:550-568 | The same for the loop over entries, after any entries read before: each key has to come after those. |
| RidlFrame.FirstInOrder | include/seribase.h:550-568 | When the bytes list the entries of the resulting map in its order, the entry read next is the one listed next, although it is inserted by its key. |
| RidlFrame.KeysOutOfOrder | include/seribase.h:550-568 | Twelve concrete bytes with two keys in the wrong order: the read succeeds, and the encoding of the map it returns is different. |
| RidlFrame.BracketsMatter | include/seribase.h:386-461 | Sixteen concrete bytes under the signature of another type: the right value is returned with success and half of its encoding is left unread. |
| RidlSerializer.AppendBlock | include/seribase.h:619-625 | The APPEND macro adds the block at the end and moves the offset past it. |
| RidlSerializer.SerializeAtom | combase/seribase.cpp:29-227 | Scalars in network order; strings and byte arrays behind a four-byte length. |
| RidlSerializer.WriteHeader | include/seribase.h:172-194 | The zero byte count and the element count, or nothing more for an empty container; a count over the limit is refused. |
| RidlSerializer.PatchByteCount | include/seribase.h:205-218 | The late write changes the four bytes of the byte count and no others, and the offset stays at the end. |
| RidlSerializer.SerialElem | include/seribase.h:88-142 | From any prefix, the buffer becomes that prefix followed by what the specification says, the offset at the end, for every nested value. |
| RidlSerializer.SerializeArray | include/seribase.h:145-222 | The same for an array. |
| RidlSerializer.SerializeMap | include/seribase.h:224-313 | The same for a map. |
| RidlSerializer.SerialElems | include/seribase.h:196-203 | The loop appends element after element and stops at the first error. |
| RidlSerializer.SerialEntries | include/seribase.h:280-294 | The same for keys and values. |
| RidlSerializer.DeserialAtom | combase/seribase.cpp:229-490 | Reading from the front of the window agrees with the pure reader on result, value and remaining bytes, errors included. |
| RidlSerializer.DeserialElem | include/seribase.h:339-383 | The same for every type. |
| RidlSerializer.DeserialArray | include/seribase.h:386-478 | The same for an array, including the swallowed inner error. |
| RidlSerializer.DeserialElems | include/seribase.h:454-461 | The elements are filled in one by one in a target of that many default elements. |
| RidlSerializer.DeserialMap | include/seribase.h:480-585 | The same for a map. |
| RidlSerializer.DeserialEntries | include/seribase.h:550-568 | The entries are inserted one by one, each at the place of its key; an existing key is kept. |
| RidlTransfer.SendAndReceive | include/seribase.h:145-585 | Written behind any bytes and followed by any bytes, a value within the limits is read back from where it starts, and what followed it is left. |
| RidlBytes.NumberBytes | combase/seribase.cpp:29-137 | The bytes of every number, written out: one for booleans and 8-bit numbers, two, four or eight for the others, the most significant first; and which numbers each kind has. |
| RidlBytes.BlobBytes | combase/seribase.cpp:149-227 | A string or byte array is its length in four bytes, most significant first, and then its bytes. |
| RidlBytes.ArrayBytes | include/seribase.h:172-218 | An array is eight bytes, the number of bytes behind them and the number of elements, and then the elements. |
| RidlBytes.ElemBytes | include/seribase.h:196-203 | The elements follow one another with nothing in between. |
| RidlBytes.MapBytes | include/seribase.h:251-311 | A map has the same two counts in front of its entries. |
| RidlBytes.EntryBytes | include/seribase.h:280-294 | Each entry is its key and then its value. |
| RidlBytes.WireSample | include/seribase.h:145-313 | A map from strings to arrays of 16-bit numbers with its signature and all its 36 bytes. |
| RidlBytes.SignedKeys | include/seribase.h:226-281 | Signed keys are listed in two's complement order, the negative ones first. |
| RidlBytes.StringKeys | include/seribase.h:226-281 | Of two strings the first byte that differs decides, and the beginning of a string comes before it. |
| RidlBytes.ShortNumber | combase/seribase.cpp:229-381 | A number that is cut off is ERANGE, or EINVAL when nothing is there, and consumes nothing. |
| RidlBytes.LongBlob | combase/seribase.cpp:383-490 | A string longer than the window is what is left of the window; a byte array over 512 MiB is refused. |
| RidlBytes.WrongBrackets | include/seribase.h:146-170 | Under a signature without the right brackets nothing is read and nothing is written. |
| RidlBytes.ArrayLimits | include/seribase.h:415-452 | For every header: which arrays are refused, which are read as empty, and how many elements the others get. |
| RidlBytes.MapLimits | include/seribase.h:511-583 | For every header: a map over a limit is refused, one that is read with success has consumed exactly the bytes its header counts, and one whose entries take another number of bytes is EBADMSG. |
| RidlBytes.WriterLimits | include/seribase.h:180-194 | A million elements are refused behind four zero bytes, and a string of 16 MiB before anything is written. |
| Objects.Offset | combase/serial.cpp:234-274 | Offsets in a vector are multiples of four, the first one 0. |
| Objects.SetProp | combase/config.cpp:141-160 | Setting a property keeps every key at its place, adds the key only when it is not there, and leaves the other properties alone. |
| Objects.SetThenLookup | combase/config.cpp:141-160 | Afterwards the key has the new value and every other key the value it had. |
| Objects.SetKeepsDistinct | combase/config.cpp:141-160 | Setting properties never gives a key two values. |
| ObjectProofs.NetOrderTwice | combase/buffer.cpp:680-786 | Converting memory to network order and back gives it back, except exactly for text that is not characters followed by zeros. |
| ObjectBytes.NumberInNetOrder | combase/buffer.cpp:693-719 | A number in memory goes out with its bytes reversed, so that what a peer reads from the most significant byte on is the number a little-endian host has there. |
| ObjectBytes.TextSent | combase/buffer.cpp:720-725 | Each byte of text that is sent: the character, as long as there was no zero before it, and zero from there on; the last byte is always zero. |
| ObjectBytes.TagFacts | combase/buffer.cpp:686-725 | How many bytes each tag goes with, the code of the tag in the type field, and that untyped memory is sent as it is. |
| ObjectBytes.PayloadValue | combase/buffer.cpp:561-732 | In every encoding of a number in a buffer, what follows the 20 bytes of the header is the number, most significant byte first. |
| ObjectBytes.BufSample | combase/buffer.cpp:561-732 | The number 0x12345678 in a buffer: all bytes of its encodings but the reserved ones. |
| ObjectBytes.RefSample | combase/buffer.cpp:618-654 | An empty property map in a buffer: type field, class and all bytes of the object. |
| ObjectBytes.ConfigSample | combase/config.cpp:207-311 | A property map with one number: header, key, size and value. |
| ObjectBytes.VectorSample | combase/serial.cpp:211-287 | A vector of two objects: header, the three offsets of its table and both objects, byte by byte. |
| ObjectBytes.IntsSample | combase/serial.cpp:36-62 | A vector of one integer, byte by byte. |
| ObjectBytes.BufRefused | combase/buffer.cpp:796-840 | Which headers of a buffer are refused, and with which error. |
| ObjectBytes.ConfigRefused | combase/config.cpp:313-336 | Which headers of a property map are refused. |
| ObjectBytes.EntryPastEnd | combase/config.cpp:337-363 | An entry that claims more bytes than there are is set all the same, and then the reading fails with E2BIG. |
| ObjectBytes.VectorRefused | combase/serial.cpp:298-336 | Which headers of a vector are refused, and with which error. |
| ObjectBytes.ElemPastEnd | combase/serial.cpp:345-361 | An offset past the end stops the reading of a vector with ENOMEM. |
| ObjectBytes.NumsRefused | combase/serial.cpp:64-118 | Which vectors of integers are refused, and with which error. |
| ObjectProofs.BufRoundTrip | combase/buffer.cpp:796-916 | A buffer is read back from any of its encodings, whatever follows it, exactly when it is friendly. |
| ObjectProofs.RoundTrip | combase/buffer.cpp:842-877 | For every tree of maps, vectors, integer vectors and buffers the program can build, in any iteration order of the maps, decoding any of its encodings gives the tree back exactly when: maps have at most 1024 properties, vectors at most 9999 elements, text ends in zeros, and no integer vector is directly in an object vector. |
| ObjectProofs.ElemRoundTrip | combase/serial.cpp:338-378 | The same for an element of a vector, decoded in place from memory that goes on after it; a vector is refused when told a size of 2^31 or more. What is behind its encoding is not touched. |
| ObjectProofs.ConfigRoundTrip | combase/config.cpp:313-366 | The same for a property map; the limit of 1024 is checked by the reader only. |
| ObjectProofs.PropsRoundTrip | combase/config.cpp:337-363 | The loop over the entries, from any point: a value that is not read back spoils the result for good, because no later key replaces it. |
| ObjectProofs.VectorRoundTrip | combase/serial.cpp:298-383 | The same for a vector, whose header and table are converted in place; with more than 9999 elements, or told a size that is negative as a signed number, it is never read back. |
| ObjectProofs.ElemsRoundTrip | combase/serial.cpp:345-378 | The loop over the elements, from any point, through the memory that the elements before it have changed. |
| ObjectProofs.HostOrderHeader | include/stlcont.h:316-331 | A vector over the container limit keeps its header in host order, and the reader does not recognize its class. |
| ObjectProofs.NumsRoundTrip | combase/serial.cpp:64-118 | Vectors of 4- and 8-byte integers are read back from their encodings. |
| ObjectProofs.OffsetTable | combase/serial.cpp:211-287 | The table of an encoded vector starts at 0, is aligned and strictly increasing, neighbours differ by the padded length of the element, the last offset is the payload length, and each offset is where an encoding of its element starts. |
| ObjectProofs.IntVectorInVector | combase/objbase.cpp:583-587 | A vector that holds an integer vector directly is written but reading it fails with ENOTSUP. |
| ObjectProofs.IntVectorSample | combase/objbase.cpp:583-587 | Forty concrete bytes: the encoding of an object vector with an empty integer vector in it, which cannot be read. |
| ObjectProofs.DecodedOnce | combase/serial.cpp:298-317 | The memory that a successful reading of a vector leaves behind is refused by a second reading, whatever size that is told. |
| ObjectMemory.PendingStart | include/stlcont.h:299-314 | Converting the header and the table of an encoded vector where they stand makes every offset readable in host order and touches none of the elements, nor what follows. |
| ObjectMemory.PendingStep | combase/serial.cpp:345-378 | Reading one element may convert that element's own bytes; the table and the elements after it are as they were sent. |
| ObjectMemory.NtohSlot | include/stlcont.h:299-314 | Each slot of the converted table holds its four bytes in reverse. |
| ObjectLayout.CapBounded | combase/config.cpp:193-308 | The output buffer of a property map is never larger than the header, a page and the larger of the estimate and what is written plus the longest value. |
| ObjectLayout.CapGrows | combase/config.cpp:193-308 | The output buffer never shrinks inside the loop, so the limit need only be looked at once. |
| ObjectLayout.EntryWritten | combase/config.cpp:244-288 | Key, value and the late size field in between make one entry and leave what is before the cursor. |
| ObjectLayout.EntryCounted | combase/config.cpp:242-296 | One more entry leaves all earlier entries readable at their places, and the buffer at the size predicted for it. |
| ObjectLayout.ConfigDone | combase/config.cpp:298-308 | The final size field, which is the length minus 12, and the final cut make an encoding out of the entries, also when the last padding reaches past the buffer. |
| ObjectLayout.ProgressStep | combase/serial.cpp:234-274 | One more element leaves all earlier offsets and elements where they are, although the buffer moves. |
| ObjectLayout.VectorDone | combase/serial.cpp:276-282 | The last offset, the size, the count and the conversion make an encoding out of what the loop wrote, below and above the container limit. |
| ObjectLayout.ManyProps | combase/config.cpp:207-311 | A map of any number of properties without a value can be sent, and is friendly exactly up to 1024 of them. |
| ObjectLayout.ManyElems | combase/serial.cpp:211-287 | A vector of any number of empty maps can be sent, and is friendly exactly below 10000 of them. |
| ObjectLayout.UnfriendlySamples | combase/config.cpp:327-334 | Three concrete objects that are sent without an error and do not come back: 1025 properties, 10000 elements, and a text of one character without a final zero. |
| ObjectSerializer.SerializePrimeType | combase/buffer.cpp:680-732 | The bytes of a typed value land at their place in network order and nowhere else. |
| ObjectSerializer.SerializeBuf | combase/buffer.cpp:561-678 | A buffer fails with EFAULT exactly when it reaches a null object; otherwise the output is an encoding of it. |
| ObjectSerializer.SerializeObj | combase/buffer.cpp:627-654 | The same for any object, through the virtual call. |
| ObjectSerializer.PutKey | combase/config.cpp:244-258 | Room is made when eight bytes or fewer are left, and the key written inside the buffer. |
| ObjectSerializer.PutValue | combase/config.cpp:265-286 | Room is made when the value does not fit; value and padded size are written inside the buffer. |
| ObjectSerializer.SerializeEntry | combase/config.cpp:242-296 | One round of the loop adds one entry; the cursor is never more than three bytes past the end of the buffer between rounds. |
| ObjectSerializer.EstimateSize | combase/config.cpp:219-224 | The first size is the sum of eight bytes and the size in memory for each property. |
| ObjectSerializer.ConfigDb.Serialize | combase/config.cpp:207-311 | A property map fails with EFAULT exactly when it reaches a null object; otherwise the output is an encoding of exactly its length. |
| ObjectSerializer.ConfigDb.SerializeEntries | combase/config.cpp:242-296 | The loop keeps every entry, the cursor bound and the predicted size; the ENOMEM exit is never taken. |
| ObjectSerializer.ConfigDb.SetProperty | combase/config.cpp:141-160 | A lookup of the key gives the new value, a lookup of any other key what it gave before, and no key is listed twice. |
| ObjectSerializer.ConfigDb.Deserialize | combase/config.cpp:313-366 | Reading a property map agrees with the pure reader on every memory, status and properties, also the properties that a failure leaves set. |
| ObjectSerializer.ConfigDb.DeserializeFrom | combase/config.cpp:368-376 | The same from a buffer, which is not changed; EINVAL for an empty one. |
| ObjectSerializer.ConfigDb.DeserializeEntries | combase/config.cpp:337-363 | The loop over the entries agrees too, and stops at the first error. |
| ObjectSerializer.SerializeNums | combase/serial.cpp:36-62 | A vector of integers becomes a header and its elements in network order. |
| ObjectSerializer.Hton | include/stlcont.h:316-331 | Header and table are converted in place, or left alone over the container limit; the payload is not touched. |
| ObjectSerializer.SerializeElem | combase/serial.cpp:234-274 | One round of the loop: the offset in its slot, and the element and its padding at the end of the buffer. |
| ObjectSerializer.Finish | combase/serial.cpp:276-282 | The fields written after the loop and the conversion give an encoding. |
| ObjectSerializer.ObjVector.Serialize | combase/serial.cpp:211-287 | A vector fails with EFAULT exactly when it reaches a null object; otherwise the output is an encoding of it. |
| ObjectSerializer.ObjVector.SerializeElems | combase/serial.cpp:234-274 | The loop keeps table and payload in step through every reallocation. |
| ObjectSerializer.ObjVector.Deserialize | combase/serial.cpp:298-383 | Reading a vector where it stands agrees with the pure reader on every memory: status, elements read by then, and every byte afterwards; nothing outside the memory it is given changes. |
| ObjectSerializer.ObjVector.DeserializeFrom | combase/serial.cpp:289-296 | The same from a buffer, whose bytes are converted too; EINVAL for an empty one. |
| ObjectSerializer.ObjVector.DeserializeElems | combase/serial.cpp:345-378 | The loop over the elements agrees too, on bytes that earlier rounds may have changed. |
| ObjectSerializer.NtohInPlace | include/stlcont.h:299-314 | The swaps, word by word, make of the memory what the pure conversion does, and leave the rest of the array alone. |
| ObjectSerializer.DeserializeBuf | combase/buffer.cpp:796-916 | Reading a buffer from a place in memory agrees with the pure reader on every memory and changes none of it. |
| ObjectSerializer.DeserializeMem | combase/buffer.cpp:734-786 | The typed memory of a buffer, converted in a buffer of its size, agrees with the pure reader. |
| ObjectSerializer.DeserializeRef | combase/buffer.cpp:862-868 | So does an object made by its class id and read from a buffer of its own. |
| ObjectSerializer.DeserializeElem | combase/serial.cpp:362-373 | So does an object read in place, with the bytes it leaves; classes without that form are refused. |
| ObjectSerializer.DeserializeNums | combase/serial.cpp:64-118 | So does a vector of integers; a wrong version is reported only after the elements are read. |
| ObjectSerializer.SendAndReceive | combase/buffer.cpp:618-877 | Serializing any object to a new buffer and making it again by its class fails with EFAULT when a null is reached, and otherwise gives the object exactly when it is friendly. |
| ObjectSerializer.DeserializeTwice | combase/serial.cpp:298-383 | Two readings of a vector from the same memory never both succeed. |
| RegistryPath.RFind | combase/registry.cpp:240-241 | The last occurrence of a character. |
| RegistryPath.Namei | combase/registry.cpp:225-283 | The parser works from the right end, terminates, and gives the left-to-right split that keeps one leading slash and drops empty parts; empty and overlong paths are refused. |
| RegistryPath.ComponentsAreComponents | combase/registry.cpp:225-283 | The parts of a path are never empty, and only the first can be the root slash. |
| RegistryPath.PartsAtSlash | combase/registry.cpp:225-283 | A slash anywhere separates: the parts of a path are those of what is left of it and then those of what is right of it, also when either is empty. |
| RegistryPath.JoinThenSplit | combase/registry.cpp:225-283 | Joining components and parsing the result gives the same components. |
| RegistrySpec.PlainResolve | combase/registry.cpp:309-361 | Without "." and "..", following a path succeeds exactly when its target exists, and leads there. |
| RegistrySpec.DotsLeadElsewhere | combase/registry.cpp:328-352 | In every tree, a path with a dot never leads to the directory that its components spell out. |
| RegistrySpec.ResolveIsTarget | combase/registry.cpp:309-452 | ChangeDir leads to the directory that ExistingDir looks up exactly when that directory exists and the path has no dots. |
| RegistrySpec.MakeThenChange | combase/registry.cpp:454-532 | After a successful MakeDir, ChangeDir of the same path leads to where MakeDir went exactly when the path has no dots. |
| RegistrySpec.DotsDiffer | combase/registry.cpp:328-352 | The input that shows it: at the root "." leads to the root, but ExistingDir finds no directory of that name. |
| RegistrySpec.StepUp | combase/registry.cpp:331-339 | ".." leads to the parent, and nowhere from the root. |
| RegistrySpec.EachComponent | combase/registry.cpp:309-361 | From any directory of any tree: "." stays there, ".." goes to the parent, "/" to the root and a name to the child of that name, and the rest of the path is followed from there. |
| RegistrySpec.ResolveConcat | combase/registry.cpp:321-356 | Following one path after another is following the two put together. |
| RegistrySpec.DotsDoNothing | combase/registry.cpp:328-330 | Dropping every "." from a path, wherever it stands, changes nothing of where the path leads or whether it leads anywhere. |
| RegistrySpec.IntoAndUp | combase/registry.cpp:331-339 | Going into a directory that is there and up again is staying. |
| RegistrySpec.AfterMake | combase/registry.cpp:454-532 | After a make, from the root or from the current directory, exactly the prefixes of the new directory are added, and it is the current one. |
| RegistrySpec.AfterRemove | combase/registry.cpp:602-638 | After a removal exactly the directory it led to and all below it are gone, and the parent is the current one; the root stays. |
| RegistrySpec.RunKeepsTree | combase/registry.cpp:309-638 | Over every run of changes, makes and removals the paths stay a tree and the current directory stays in it. |
| RegistrySpec.NothingFurther | combase/registry.cpp:485-506 | Once one component of a path is missing, all later ones are. |
| Registry.Registry.constructor | combase/registry.cpp:213-218 | A registry starts as its root, which is the current directory. |
| Registry.Registry.ChangeDir | combase/registry.cpp:309-361 | The current directory moves to where `Resolve` leads, or stays on any error; what `Resolve` does with each component is `EachComponent`. |
| Registry.Registry.AddChild | combase/registry.cpp:171-192 | A new entry, with its parent and name set, or the present one left alone; a name over 128 characters is refused. |
| Registry.Registry.RemoveAllChildren | combase/registry.cpp:154-169 | Everything below an entry goes and the rest of the tree keeps its entries, parents and names. |
| Registry.Registry.RemoveChild | combase/registry.cpp:194-211 | One entry goes with all below it. |
| Registry.Registry.ExistingDir | combase/registry.cpp:404-452 | It succeeds exactly when the path, read without dots, is an entry. |
| Registry.Registry.MakeMissing | combase/registry.cpp:484-506 | Up to the first name that is too long, the entries of the chain are made; where the making began is remembered. |
| Registry.Registry.RollBack | combase/registry.cpp:508-522 | The undo loop restores exactly the tree there was. |
| Registry.Registry.MakeDir | combase/registry.cpp:454-532 | It fails exactly when the path is invalid or a component is over 128 characters, and then tree and current directory are what they were; otherwise exactly the missing prefixes are added and the new directory is the current one. |
| Registry.Registry.RemoveDir | combase/registry.cpp:602-638 | It removes exactly the paths that extend the target and lands on its parent; the root is only emptied. |
| Registry.Registry.Perform | combase/registry.cpp:309-638 | Every operation on the linked entries does to their paths what the specification says and returns what it says, changes nothing when it fails, and keeps parents, names and the current directory in agreement. |
| Sha1.CircularShift | 3rd_party/sha1.cpp:587-590 | Two shifts and an or are the rotation of FIPS PUB 180-1 section 2, for every count from 1 to 31. |
| Sha1.SHA1.Reset | 3rd_party/sha1.cpp:100-114 | The registers are those of an empty message. |
| Sha1.SHA1.ProcessMessageBlock | 3rd_party/sha1.cpp:411-498 | The registers take in the block as FIPS PUB 180-1 section 7 says, and the block is empty again. |
| Sha1.SHA1.Schedule | 3rd_party/sha1.cpp:424-438 | The eighty words of section 7, steps a and b. |
| Sha1.SHA1.RunRounds | 3rd_party/sha1.cpp:440-489 | Four loops of twenty rounds are the eighty rounds of the standard, with its functions and constants. |
| Sha1.SHA1.Input | 3rd_party/sha1.cpp:175-212 | The octets join the message, or the object is spoiled: exactly when there was a result before or the message reaches 2^61 octets. |
| Sha1.SHA1.CountOctet | 3rd_party/sha1.cpp:193-203 | The two length words are the number of bits, and the overflow is seen exactly at the limit. |
| Sha1.SHA1.PadMessage | 3rd_party/sha1.cpp:521-566 | Padding in one or two blocks leaves the digest of the message in the registers. |
| Sha1.SHA1.Result | 3rd_party/sha1.cpp:134-155 | The digest of everything taken in, and the same again when asked again; no result from a spoiled object. |
| Sha1.DigestOfPieces | 3rd_party/sha1.cpp:134-212 | For every message under 2^61 octets and every way of cutting it into pieces the result is its FIPS PUB 180-1 digest, twice. |
| Sha1Spec.PadSplit | 3rd_party/sha1.cpp:523-551 | The padded message after its whole blocks is one more block up to index 55 and two beyond. |
| Sha1Spec.HashBlock | 3rd_party/sha1.cpp:411-498 | Hashing one block more is one more step of the chain. |
| Sha1Answer.KnownAnswer | 3rd_party/sha1.cpp:100-498 | The digest of "abc" is A9993E36 4706816A BA3E2571 7850C26C 9CD0D89D, proved through all eighty words and turns: initial values, functions, constants, rotations, schedule and padding are those of the standard. |
| ConnMgr.AgreeStep | ipc/connmgr.cpp:78-175 | One event keeps the three maps in one-to-one agreement exactly when it does not register a task that is in flight. |
| ConnMgr.RunAgrees | ipc/connmgr.cpp:78-175 | The maps agree after exactly those runs that register tasks only while they are not in flight: what one double registration does, no later event repairs. |
| ConnMgr.ExtraStep | ipc/connmgr.cpp:78-175 | No event lowers the number of times a task is listed beyond what the map of addresses accounts for. |
| ConnMgr.InFlightIsKnown | ipc/connmgr.cpp:78-175 | For a task the history has in flight, the maps know its client and whether that client has gone since. |
| ConnMgr.KnownIsInFlight | ipc/connmgr.cpp:78-175 | A task the maps know was invoked and has not completed since. |
| ConnMgr.ResponseTellsHistory | ipc/connmgr.cpp:179-205 | The answer for a valid handle is 0, ERROR_FALSE or ENOENT exactly when the history says in flight with its client there, in flight with its client gone, or not in flight. |
| ConnMgr.ListedInOrder | ipc/connmgr.cpp:93-137 | After an orderly run the tasks of a client are listed in the order in which they were invoked. |
| ConnMgr.ResponseToTellsHistory | ipc/connmgr.cpp:209-242 | The answer for a client is decided by the task it invoked first of those in flight: 0 or ERROR_FALSE as the client has not or has gone since, ENOENT exactly when none is in flight. |
| ConnMgr.StaleTask | ipc/connmgr.cpp:78-141 | A concrete run that registers a task twice leaves its first client with a task that is gone. |
| ConnMgr.IfSvrConnMgr.OnInvokeMethod | ipc/connmgr.cpp:78-98 | The maps after an invocation, and the errors. |
| ConnMgr.IfSvrConnMgr.OnInvokeComplete | ipc/connmgr.cpp:101-143 | The maps after a completion: the task is gone from all three, once from the tasks of its client. |
| ConnMgr.IfSvrConnMgr.EraseFirst | ipc/connmgr.cpp:125-138 | The loop over the tasks of a client takes out the first that is the one, and only that. |
| ConnMgr.IfSvrConnMgr.OnDisconn | ipc/connmgr.cpp:145-175 | The maps after a disconnection: the loop marks exactly the tasks of that client. |
| ConnMgr.IfSvrConnMgr.CanResponse | ipc/connmgr.cpp:179-205 | The answer is the one the specification gives, ERROR_FALSE without a server or handle. |
| ConnMgr.IfSvrConnMgr.CanResponseTo | ipc/connmgr.cpp:209-242 | Asked of a client, the answer is the one the specification gives, ERROR_FALSE without a server. |
| IfState.Reachable | ipc/ifstat.cpp:204-247 | After every run of events the state is not unknown, invalid, started or done, and in recovery the saved state is connected or paused. |
| IfState.AlwaysStoppable | ipc/ifstat.cpp:44-83 | From every reachable state some events lead to the stopped state. |
| IfState.EpisodeReturns | ipc/ifstat.cpp:216-238 | Going offline, anything that does not end the recovery, and coming online leads back to the state before. |
| IfState.EpisodesLeaveNoTrace | ipc/ifstat.cpp:204-247 | Deleting every completed offline-to-online episode from any run does not change where it ends. |
| IfState.NoEpisodeLeft | ipc/ifstat.cpp:204-247 | And the deletion leaves no completed episode anywhere in the run. |
| IfState.Commands | ipc/ifstat.cpp:44-83 | In which states a start, a pause, a resume, a shutdown and the other commands are accepted, and where each leads. |
| IfState.PortIncidents | ipc/ifstat.cpp:44-83 | The same for what happens to the port of an interface. |
| IfState.PeerIncidents | ipc/ifstat.cpp:44-83 | The same for what happens to the bus, the server and the modules. |
| IfState.StartAndStop | ipc/ifstat.cpp:44-83 | From every stopped state a start leads to connected; from connected and paused a shutdown and the closed port lead to stopped. The saved state stays. |
| IfState.PauseAndResume | ipc/ifstat.cpp:44-83 | A pause leads from connected to paused, and a resume back. |
| IfState.InterfaceState.TestSetState | ipc/ifstat.cpp:190-202 | It succeeds exactly for the events in the table at the current state. |
| IfState.InterfaceState.SetStateOnEvent | ipc/ifstat.cpp:204-247 | It succeeds for the same events, does one step of the table with the detour over the saved state, and changes nothing when it refuses. |
| Subscription.AddAllCounts | ipc/connhelp.h:46-84 | Subscribing to a list adds one for each occurrence of a point and touches no other sink. |
| Subscription.RemoveAllCounts | ipc/connhelp.h:86-126 | Unsubscribing takes one for each occurrence, and entries stay positive. |
| Subscription.DoConserves | ipc/ifstat.cpp:161-188 | Every operation keeps each count equal to the occurrences in the list of its interface, and changes nothing of the other interfaces. |
| Subscription.RunConserves | ipc/ifstat.cpp:161-188 | So does every run, with any number of interfaces. |
| Subscription.FailureLeavesNothing | ipc/ifstat.h:34-50 | When a point does not exist, the subscription leaves the interface with an empty list and nothing at any point. |
| Subscription.SuccessSubscribes | ipc/ifstat.cpp:161-188 | When all points exist, the list of the interface is the points asked for, and at every point it is counted as often as that point occurs among them, whatever it held before. |
| Subscription.UnsubscribedHoldsNothing | ipc/ifstat.cpp:652-682 | An interface that unsubscribes has an empty list and is counted at no point. |
| Subscription.EventMap.SubscribeEvent | include/stlcont.h:464-481 | The count of the sink goes up by one. |
| Subscription.EventMap.UnsubscribeEvent | include/stlcont.h:483-501 | The count goes down by one and an entry that reaches zero is removed; ENOENT for a sink that is not there. |
| Subscription.ConnPoints.SubscribeEvent | ipc/connhelp.h:46-84 | One point changes; or EINVAL for an empty sink, ENOENT for no point, EFAULT for an object that is no event map, and nothing does. |
| Subscription.ConnPoints.UnsubscribeEvent | ipc/connhelp.h:86-126 | The same for taking back. |
| Subscription.Interface.UnsubscribeEvents | ipc/ifstat.cpp:652-682 | The list is emptied and every entry of it taken back. |
| Subscription.Interface.SubscribeEventsInternal | ipc/ifstat.cpp:161-188 | It succeeds exactly when all points can be had, and then the list is the points asked for and each of them has the interface added; it fails with the error of the first that cannot be had, and then the list is empty and nothing is held. |
| SmartPtr.HoldersMove | include/autoptr.h:237-263 | Pointing one pointer elsewhere takes one from the holders of the old object and adds one to those of the new. |
| SmartPtr.CObjBase.Release | combase/objbase.cpp:538-555 | The count goes down, and the object is deleted when it reaches zero. |
| SmartPtr.ClassFactory.CreateInstance | combase/objfctry.cpp:54-77 | An object from a factory has one reference, the maker's having been given back; ENOENT without a maker, EFAULT when it makes nothing. |
| SmartPtr.Process.CreateObjFast | combase/autoptr.cpp:37-57 | Buffers without a configuration and property maps are made directly, with one reference. |
| SmartPtr.Process.CreateInstance | combase/objfctry.cpp:133-157 | The first factory with a maker that works makes the object; the error is that of the last one asked: EFAULT when its maker makes nothing, ENOENT when it has none, ENOTSUP without factories. |
| SmartPtr.CAutoPtr.FromHeld | include/autoptr.h:79-92 | A pointer from a raw one adds itself to the holders. |
| SmartPtr.CAutoPtr.FromNew | include/autoptr.h:79-92 | Without AddRef it takes over the reference of a new object. |
| SmartPtr.CAutoPtr.Copy | include/autoptr.h:95-121 | A copy holds the same object, or nothing when the cast fails. |
| SmartPtr.CAutoPtr.Move | include/autoptr.h:124-136 | The source is emptied even when the cast fails. |
| SmartPtr.CAutoPtr.Destroy | include/autoptr.h:138-141 | The holder goes, and with the last one the object. |
| SmartPtr.CAutoPtr.Clear | include/autoptr.h:357-364 | The pointer is empty; every count still is the number of its holders, and an object is deleted exactly once, when nothing holds it. |
| SmartPtr.CAutoPtr.AssignRaw | include/autoptr.h:184-196 | Assignment of a raw pointer keeps that invariant, also of the pointer it already holds. |
| SmartPtr.CAutoPtr.Assign | include/autoptr.h:198-263 | So does assignment; a failed cast throws after the old object was let go. |
| SmartPtr.CAutoPtr.MoveAssign | include/autoptr.h:265-306 | So does move assignment: the source is emptied, also when both held the same object, and kept when the cast fails. |
| SmartPtr.CAutoPtr.NewObj | include/autoptr.h:366-420 | By either route the new object has exactly this one holder and the class asked for, or the pointer's own when none is; an object of the wrong class is deleted again and the pointer is empty. |
| SmartPtr.CAutoPtr.Create | include/autoptr.h:388-418 | The part after the pointer is emptied: the fast classes first, then the factories; an object of the wrong class is deleted again. |
| ConnOrder.LessIsKeyLess | ipc/dbusport.h:1040-1186 | The comparison is the lexicographic order of keys: role, address, port, router path, websocket, URL for websockets only, SSL, authentication, mechanism, and for krb5 user, realm in lower case and signing. |
| ConnOrder.AuthKeyOrder | ipc/dbusport.h:910-1038 | The part for authentication: equal pointers are equal, a null object comes first, and a missing string stands for the one read before it. |
| ConnOrder.StrictWeakOrder | ipc/dbusport.h:1040-1186 | Irreflexive, transitive, with transitive incomparability; two parameter sets are not told apart exactly when they have the same key. |
| ConnOrder.EquivalentMeans | ipc/dbusport.h:910-1186 | Two parameter sets are one key exactly when they agree in every field looked at: the URL for websockets only, and for krb5 the user, signing and the realm, letter by letter in either case. |
| ConnOrder.FoldsCase | ipc/dbusport.h:995-1003 | Two texts are the same in lower case exactly when they differ at most in the case of letters. |
| ConnOrder.HeadDecides | ipc/dbusport.h:1040-1105 | Which field decides and which way: clients before servers, then the address, then the smaller port, then the rest. |
| ConnOrder.PathDecides | ipc/dbusport.h:1106-1186 | And in the rest: the router path, websockets last and by URL, SSL last, authentication last. |
| ConnOrder.TextOrder | ipc/dbusport.h:1040-1186 | Of two texts the first character that differs decides, and the beginning of a text comes before it. |

## Left out

- Buffers that hold an object or a message pointer as their own bytes (`DataTypeObjPtr`, `DataTypeMsgPtr`): in the object format an object inside a buffer is a value of the model; a message inside one is not modelled.
- Allocation failures (ENOMEM and exceptions from Resize, `new` returning null): allocation succeeds.
- Hosts that are not little-endian with 64-bit pointers.
- Reads past the end of the input, which the source does not check: the decoders stop there with EFAULT and prove nothing about what lies beyond.
- ConnMgr.IfSvrConnMgr.CanResponseTo: takes the task added first where the source takes the one that `multimap::find` returns, because the C++ standard leaves open which one of several that is.
- RidlSerializer.DeserialAtom: a byte array longer than the window gives EFAULT, because the source reads on past the window and what is there is not part of the model.
- ObjectSerializer.DeserializeBuf: refuses message pointers with ENOTSUP, because D-Bus messages are not modelled, and gives EFAULT for reads past the memory.
- ObjectSerializer.DeserializeMem: gives EFAULT for a number whose declared size is not its width, because the source then reads or leaves bytes that are not defined.
- ObjectSerializer.DeserializeRef: refuses the classes that are not modelled with ENOTSUP.
- ObjectSerializer.DeserializeElem: refuses the classes that are not modelled with ENOTSUP.
- A vector header that claims no offset at all, not even the last one: the source goes on with offsets that are not in the table; the model gives EFAULT.
- A buffer header that names the invalid class, for which the source uses a null object; the model refuses it.
- Objects of other classes inside the object format; CStlIntMap, whose reader checks the wrong class id.
- Objects, structures and streams (`ObjPtr`, `CStructBase`, `HSTREAM`) in the ridl format, `gint8`; maps with floating point keys, whose order is not that of their bits, and with byte arrays as keys, for which there is no order.
- The map signature "[]", for which the source reads past the end of a string.
- Values of `bool` in the ridl format other than 0 and 1.
- CRegistry::MakeEntry, the properties of directory entries, and the root's property map after RemoveDir("/").
- Locks, threads and atomicity: operations run one at a time.
- Connection points that come and go during a run, and the registry path that leads to them: the lookup of a point is a map from its key.
- An interface state is not tied to its ports: only the table and the saved state are modelled.
- Objects that hold pointers to other objects: deleting an object lets go of nothing else, so cycles and assignments that delete their own source are not covered.
- Smart pointers used after a raw `Detach`, and `operator==` on them.
- CConnParams::less, the base version, which is not an order; the setters and the other getters of connection parameters.
- D-Bus, sockets, ports, drivers, timers, task groups, configuration loading, compression and base64.
