# The MessagePack path of bimpc, verified

bimpc carries birpc messages as MessagePack over websockets, redis pub-sub and plain
connections, between Go programs and, in the chat example, between Go and a browser.
This project models that path from end to end and proves that what is put in at one end
comes out at the other: as the bytes of one value, as one message, and over whole runs of
concurrent writers and readers. Where the code does not deliver that, the project proves
exactly when it does.

    dafny verify dfyconfig.toml

## How it is organised

| file | what it is about |
|---|---|
| `Bytes.dfy` | bytes, big-endian numbers, writing into a buffer in place |
| `Formats.dfy` | the "Formats" section of the MessagePack specification, where an object ends, and what integers, strings and headers stand for |
| `Utf8.dfy`, `JsEncoder.dfy`, `JsDecoder.dfy` | `examples/chat/chat.js`: the UTF-8 functions, `encode` and `encodedSize`, the `Decoder` |
| `JsNumbers.dfy` | how numbers are read, by the layout of IEEE 754, and which values the round trip is about |
| `JsFormats.dfy` | what it reads and writes, held against the formats of the specification |
| `JsRoundTrip.dfy` | what survives `decode(encode(v))`, and which buffers are accepted |
| `Msgp.dfy` | the primitives of tinylib/msgp that the generated code calls, by what they do to bytes |
| `Wire.dfy`, `MpcGen.dfy` | `mpc/mpc_gen.go`: the five element tuple on values, and the generated methods on a struct that is used again and again |
| `Mpc.dfy`, `Pool.dfy` | `mpc/mpc.go`: conversion, ownership of the payload buffers, the pool of wire messages |
| `GenericRuns.dfy` | `generic/generic.go`: all interleavings of concurrent writers, as they are meant |
| `WriterRuns.dfy` | the same with the wire messages, their pool and the heap of their buffers, refining the former |
| `WriterProgress.dfy` | that these runs are there: every order of calls can be written, and nobody is ever stuck |
| `GenericCodec.dfy` | the codec's own methods |
| `Websocket.dfy` | `websocket/websocket.go`: one message to a frame |
| `Redis.dfy` | `redis/redis.go`: the subscription and everything that can go wrong with it, and one write |
| `RedisRuns.dfy` | runs of any number of endpoints on one redis, as they are meant |
| `RedisWriterRuns.dfy` | the same with the wire messages, their pool and the codecs' buffers, refining the former |
| `RedisProgress.dfy` | that these runs are there |
| `FieldMap.dfy`, `ChatGen.dfy` | `examples/chat/main_gen.go`: structs as maps with named fields |
| `Chat.dfy` | the way of a chat line, from one browser to the server and on to another browser |

Both codecs are held against one specification: `Formats.Skip` says what one well-formed
object is, the Go side skips and keeps raw payloads by it, and everything `chat.js`
produces or accepts is shown to be one such object.

Conventions: a byte is an integer below 256, and masks and shifts are written as ranges,
divisions and remainders. A Go string is the sequence of its bytes; a JavaScript string is
a sequence of 16-bit units. Readers of the Go side take what is left of the input and give
back what is left after them; positions in `chat.js` are absolute offsets, as they are
there. An exception or an error return is `None`, `Err` or `Fail`.

## What turned out not to hold

* A string does not always come back from `utf8Write` and `utf8Read`: the mask `0x0f` at
  `examples/chat/chat.js:93` turns every unit c in 0x400..0x7FF into c - 0x400
  (`Utf8.CyrillicIsLost`). It comes back exactly when it has no such unit
  (`Utf8.RoundTripExactly`). For a chat line the same condition decides whether others see what
  was typed (`Chat.ShownAsTyped`).
* An ArrayBuffer of 4 GiB or more matches none of the three bin formats and falls through to the
  objects: it is encoded as the empty map and comes back as an object without properties
  (`JsRoundTrip.HugeBufferIsLost`). -0 comes back as 0 (`JsRoundTrip.NegativeZeroIsLost`).
* A property named `__proto__`, which `JSON.parse` can make, is encoded like any other, but decode
  assigns it to a plain object at `examples/chat/chat.js:168` and so sets the prototype: it does not
  come back (`JsRoundTrip.ProtoIsLost`). With a buffer for a prototype, a property by the name of one
  of its getters even makes decode throw (`JsRoundTrip.BufferForProtoThrows`).
* So `decode(encode(v))` is v exactly when v contains no -0 and no such buffer, none of its strings
  and keys has a unit in 0x400..0x7FF, and no key is `__proto__` (`JsRoundTrip.ComesBackExactly`).
* `utf8Write` follows section 3 of RFC 3629 exactly on the strings without surrogates; each
  surrogate takes three bytes (`Utf8.PairTakesSixBytes`, `Utf8.FollowsRfc3629`).
* `parse` does not stay inside its buffer: it accepts an `undefined` whose last byte is missing and
  moves its cursor one past the end (`JsRoundTrip.UndefinedCutShort`). A parse that succeeds ends
  past the buffer exactly when the bytes are not one whole MessagePack object
  (`JsRoundTrip.PastTheEndExactly`); `decode` still rejects such a buffer.
* Two redis channels that are the same make an endpoint read its own messages, as the comment
  in the code warns, and only then (`RedisRuns.HearsItselfExactly`).

## Model

| member | source | states |
|---|---|---|
| `Utf8.SetBytes` | examples/chat/chat.js:62-64 | consecutive stores change just the bytes they are for, up to the first one that is out of range, which is reported |
| `Utf8.Write` | examples/chat/chat.js:42-78 | the buffer gets the encoding at the offset and is otherwise unchanged; it succeeds if and only if the encoding fits |
| `Utf8.ByteCount` | examples/chat/chat.js:123-146 | counts exactly the bytes that are written |
| `Utf8.Read` | examples/chat/chat.js:81-120 | the loop reads the characters from the offset on until the end is reached or passed, or throws with the first one that cannot be read |
| `Utf8.ReadBack` | examples/chat/chat.js:42-120 | reading what was written, at any place in any buffer, gives the string with every unit in 0x400..0x7FF lowered by 0x400 |
| `Utf8.RecodeIsClean` | examples/chat/chat.js:91-97 | a string is unchanged by that if and only if it has no such unit, and afterwards it has none |
| `Utf8.RoundTripExactly` | examples/chat/chat.js:42-120 | a string comes back as itself if and only if it has no unit in 0x400..0x7FF |
| `Utf8.CyrillicIsLost` | examples/chat/chat.js:93 | a concrete string that does not come back |
| `Utf8.ReadsRfc3629` | examples/chat/chat.js:81-120 | any text in the encoding of RFC 3629 is read as one unit to a character: below 0x400 and from 0x800 to 0xFFFF the character itself, otherwise the character without its highest bits, also for four byte characters |
| `Utf8.ReadThrowsExactly` | examples/chat/chat.js:81-120 | reading throws if and only if some byte where a character is to begin is 0x80 to 0xBF or 0xF8 and above, or the buffer ends within the character |
| `Utf8.FollowsRfc3629` | examples/chat/chat.js:42-78 | for all strings and byte sequences: these bytes are the string in the encoding of section 3 of RFC 3629 if and only if the string has no surrogates and utf8Write writes them |
| `Utf8.PairTakesSixBytes` | examples/chat/chat.js:60-66 | a concrete surrogate pair is written differently from what RFC 3629 asks for |
| `JsEncoder.EncodedSize` | examples/chat/chat.js:543-643 | the size computed in advance is the number of bytes encode writes, and it throws if and only if the length of some string or container in the value needs more than 32 bits; a buffer that long is counted as an empty object |
| `JsEncoder.Encode` | examples/chat/chat.js:355-541 | returns the size and writes just the encoding at the offset; every other byte of the buffer keeps its value, and nothing is written outside of it |
| `JsEncoder.EncodeStr` | examples/chat/chat.js:358-388 | the same for a string, in four header formats |
| `JsEncoder.EncodeInt` | examples/chat/chat.js:423-474 | the same for an integer, in one of eight formats |
| `JsRoundTrip.ShortestInteger` | examples/chat/chat.js:423-474 | no bytes that are read as an integer are fewer than those it is written to |
| `JsEncoder.EncodeItems` | examples/chat/chat.js:525-529 | the same for the elements of an array, one behind the other |
| `JsEncoder.EncodeEntries` | examples/chat/chat.js:530-536 | the same for the keys and values of an object |
| `JsEncoder.ExportsEncode` | examples/chat/chat.js:148-153 | the fresh buffer is filled by the encoding to the last byte; there is one unless encodedSize throws |
| `JsDecoder.HeadAt` | examples/chat/chat.js:190-346 | every tag moves the cursor on, and nothing is taken from behind the buffer except the last byte of undefined |
| `JsDecoder.ParseAt` | examples/chat/chat.js:190-346 | parse terminates on every buffer; a success moves on by at least one byte and never further than one past the end |
| `JsDecoder.Decoder.Parse` | examples/chat/chat.js:190-346 | the method with its mutable cursor computes ParseAt and leaves the cursor behind the value |
| `JsDecoder.Decoder.Map` | examples/chat/chat.js:164-171 | the loop assigns the pairs in turn, by the rules of the language for own and inherited properties and `__proto__`, and leaves the cursor behind the last; a key that cannot be made a property name throws, and so does an assignment to an inherited getter |
| `JsDecoder.Decoder.Array` | examples/chat/chat.js:183-189 | the loop collects the elements in order and leaves the cursor behind the last |
| `JsDecoder.Decoder.Str` | examples/chat/chat.js:178-182 | reads a string and moves on by its declared length, or throws and stays |
| `JsDecoder.Decoder.Bin` | examples/chat/chat.js:172-177 | copies bytes out and moves on, or throws and stays if there are not enough |
| `JsDecoder.DecodeStaysInside` | examples/chat/chat.js:81-120 | a string that can be read ends inside the buffer |
| `JsDecoder.DecodeBuffer` | examples/chat/chat.js:347-353 | decode gives a value only if parsing ends exactly at the end of the buffer |
| `JsRoundTrip.AssignUpdates` | examples/chat/chat.js:166-169 | setting an own property does to the object what an update does to a map |
| `JsRoundTrip.AssignKeepsDistinct` | examples/chat/chat.js:166-169 | and no key comes to appear twice |
| `JsRoundTrip.PlainProperty` | examples/chat/chat.js:165-169 | an object without a prototype of its own gets an own property for every key other than `__proto__` |
| `JsRoundTrip.PlainProto` | examples/chat/chat.js:165-169 | for that key it gets none; an object, array, buffer or null becomes its prototype |
| `JsRoundTrip.ChainDecides` | examples/chat/chat.js:164-169 | whether an assignment makes an own property is decided by any object on the prototype chain that has the property, and otherwise by what the chain ends in |
| `JsRoundTrip.AssignmentExactly` | examples/chat/chat.js:164-169 | for any object, chain and key: exactly when an assignment throws, when it sets the prototype and to what, and when the object has the property afterwards |
| `JsRoundTrip.AnyInteger` | examples/chat/chat.js:270-313 | each of the eight integer formats, of which encode writes six, is read as the double next to the number it stands for |
| `JsNumbers.RoundedIsNear` | examples/chat/chat.js:286-313 | what a 64-bit integer is read as is a double: at most 2^53 times a power of two, the least there is for its size, and a multiple of it; it is at most half that power away, even where two are as near, and exact up to 2^53 |
| `JsNumbers.IntegerOfExactly` | examples/chat/chat.js:340-343 | a double is taken for the 32-bit integer n if and only if its sign, exponent and fraction are those of n in the layout of IEEE 754, or it is one of the two zeros and n is 0 |
| `JsNumbers.NumberOfInjective` | examples/chat/chat.js:340-343 | no two doubles are read as the same number |
| `JsNumbers.NumberIs` | examples/chat/chat.js:340-343 | -0 stays apart, a double that is worth a 32-bit integer is that integer, and every other double is a value of its own |
| `JsNumbers.DoubleRead` | examples/chat/chat.js:340-343 | at the tag of a double, parse gives that number and moves on by nine bytes |
| `JsNumbers.HeadOfFloat` | examples/chat/chat.js:335-343 | at the tag of a float, it takes the four bytes behind the tag and no others |
| `JsNumbers.RepresentableExactly` | examples/chat/chat.js:355-541 | the values of the round trip are all those that JavaScript has: at any depth, numbers are 32-bit integers, -0 or doubles worth no such integer, and objects have distinct keys and the usual prototype |
| `JsNumbers.EncodableExactly` | examples/chat/chat.js:543-643 | the values that encode takes are all those in which, at any depth, no string, key, array or object has a length of 2^32 or more |
| `JsRoundTrip.RoundTrip` | examples/chat/chat.js:190-541 | for every value, parse at its encoding gives the value up to recoded strings, -0, buffers that are too long and `__proto__`, and moves on by the size of the encoding, whatever stands before and behind it; or it throws where an assignment does |
| `JsRoundTrip.DecodeOfEncode` | examples/chat/chat.js:148-155 | decode of encode gives that value, or throws, for everything encode accepts |
| `JsRoundTrip.ComesBackExactly` | examples/chat/chat.js:148-155 | decode of encode is the identity on a value if and only if its strings and keys have no unit in 0x400..0x7FF, no key is `__proto__`, and it contains no -0 and no buffer of 4 GiB or more |
| `JsRoundTrip.NegativeZeroIsLost` | examples/chat/chat.js:417-429 | -0 comes back as 0 |
| `JsRoundTrip.HugeBufferIsLost` | examples/chat/chat.js:390-413 | a buffer of 4 GiB or more is encoded as one byte and comes back as an object without properties |
| `JsRoundTrip.ProtoIsLost` | examples/chat/chat.js:164-171 | an object whose one property is `__proto__` comes back without it, and with its value for a prototype if that can be one |
| `JsRoundTrip.BufferForProtoThrows` | examples/chat/chat.js:164-171 | a buffer under `__proto__` followed by a property that ArrayBuffer.prototype has a getter for is encoded, and decode throws |
| `JsRoundTrip.ParseExtends` | examples/chat/chat.js:190-346 | bytes behind the buffer never change the result of a parse that succeeded |
| `JsRoundTrip.NoOtherLength` | examples/chat/chat.js:347-353 | decode rejects every proper prefix and every proper extension of every encoding |
| `JsRoundTrip.PastTheEnd` | examples/chat/chat.js:222-226 | where the cursor passes the end, the buffer ends in the first two bytes of an undefined |
| `JsRoundTrip.PastTheEndExactly` | examples/chat/chat.js:190-226 | a successful parse ends past the buffer if and only if the bytes from its start on are not one whole MessagePack object |
| `JsRoundTrip.UndefinedCutShort` | examples/chat/chat.js:222-226 | a concrete buffer where that happens, which only decode rejects |
| `JsFormats.IntegerRead` | examples/chat/chat.js:211-313 | an integer in any of the integer formats of the specification is read as the double next to its value |
| `JsFormats.HeaderRead` | examples/chat/chat.js:193-334 | a header in any of the str, bin, map and array formats is read as the kind and length that it stands for |
| `JsFormats.ConstantRead` | examples/chat/chat.js:259-269 | nil, false and true are read as what they are |
| `JsFormats.IntegerWritten` | examples/chat/chat.js:423-474 | every integer is written in one of the integer formats, with its value |
| `JsFormats.HeadersWritten` | examples/chat/chat.js:358-525 | the headers that are written stand for the length that they are written for |
| `JsFormats.ConstantsWritten` | examples/chat/chat.js:484-494 | null and the booleans are written as nil, false and true |
| `JsRoundTrip.HeadIsHeader` | examples/chat/chat.js:190-346 | what parse makes of a tag and its length bytes is what the MessagePack specification says |
| `JsRoundTrip.OnlyUndefinedExtends` | examples/chat/chat.js:222-226 | of all objects in the eight extension formats only fixext 1 of type 0 is parsed, as undefined; all others throw |
| `JsRoundTrip.NeverUsedIsRefused` | examples/chat/chat.js:344-345 | so does the tag that the specification never uses |
| `JsRoundTrip.ParsedIsObject` | examples/chat/chat.js:157-346 | a parsed value takes exactly the bytes of one well-formed MessagePack object |
| `JsRoundTrip.DecodedIsOneObject` | examples/chat/chat.js:347-353 | decode accepts only buffers that are one well-formed object |
| `JsRoundTrip.PackedIsOneObject` | examples/chat/chat.js:157-541 | every encoding is one well-formed object |
| `Formats.SkipSum` | examples/chat/chat.js:157-158 | skipping n objects and then m more skips n + m |
| `Formats.SkipExtends` | mpc/mpc_gen.go:238-243 | where an object ends does not depend on what follows it |
| `Formats.SkipExact` | mpc/mpc_gen.go:238-243 | a skipped object is well-formed by itself |
| `Formats.SkipShift` | mpc/mpc_gen.go:238-243 | where an object ends does not depend on what stands before it |
| `Formats.ExtIsOneObject` | mpc/mpc_gen.go:238-243 | each of the eight extension formats, with its length, type byte and data, is one object |
| `Formats.NeverUsed` | mpc/mpc_gen.go:238-243 | no object begins with 0xC1 |
| `Msgp.UintBack` | mpc/mpc_gen.go:194-228 | every 64-bit number comes back from its shortest format |
| `Msgp.StringBack` | mpc/mpc_gen.go:195-233 | every string below 4 GiB comes back from its shortest format |
| `Msgp.ShortestUint` | mpc/mpc_gen.go:194-228 | no bytes that are read as a number are fewer than those it is written to |
| `Msgp.ShortestString` | mpc/mpc_gen.go:195-233 | no bytes that are read as a string are fewer than those it is written to |
| `Msgp.RawBack` | mpc/mpc_gen.go:196-243 | a payload that is empty or one object other than nil comes back from Raw, and Raw never yields anything else |
| `Msgp.UintExactly` | mpc/mpc_gen.go:228-232 | a number n is read, and k bytes taken, if and only if these are an integer of value n in one of the integer formats of the specification |
| `Msgp.UintFails` | mpc/mpc_gen.go:228-232 | reading a number fails if and only if no such bytes stand there, so for negative numbers |
| `Msgp.StringExactly` | mpc/mpc_gen.go:233-237 | a string is read, and k bytes taken, if and only if these are a str header with its length and the string |
| `Msgp.MapKeyExactly` | examples/chat/main_gen.go:99-103 | a map key may also be a bin, and nothing else |
| `Msgp.HeadersExactly` | mpc/mpc_gen.go:218-223 | the array and map headers that are read are those of the specification, with their number of elements |
| `Wire.EncodeIs` | mpc/mpc_gen.go:143-214 | the writes one after the other make up the five element array |
| `Wire.SizeBound` | mpc/mpc_gen.go:279-287 | an encoding is never longer than Msgsize |
| `Wire.SizeIsReached` | mpc/mpc_gen.go:279-287 | and it is Msgsize for messages with a large ID and long strings |
| `Wire.RoundTrip` | mpc/mpc_gen.go:190-276 | decoding the encoding of a well-formed message gives all its fields and the bytes behind it; an empty error stays different from none |
| `Wire.ComesBackExactly` | mpc/mpc_gen.go:190-276 | a message comes back as itself if and only if each payload is empty or one object other than nil |
| `Wire.DecodedIsWellFormed` | mpc/mpc_gen.go:217-276 | whatever has been decoded survives being sent on |
| `Wire.Arrives` | mpc/mpc_gen.go:190-276 | with payloads that may also be an encoded nil, everything arrives, a nil as an empty payload |
| `Wire.DecodeExtends` | mpc/mpc_gen.go:81-140 | a decode that succeeded takes the same bytes when more of the stream has come in |
| `Wire.PrefixDoesNotDecode` | mpc/mpc_gen.go:81-140 | no proper prefix of an encoding decodes |
| `Wire.DecodeTakesOneObject` | mpc/mpc_gen.go:217-276 | a decode that succeeds takes exactly one well-formed object, so nothing of it is left on the stream |
| `Wire.EncodedIsOneObject` | mpc/mpc_gen.go:190-214 | every message that can be sent goes out as one well-formed object |
| `Wire.WrongArityExactly` | mpc/mpc_gen.go:83-91 | the error about the number of elements comes for every array header other than that of five, whatever follows, and only then; nothing but an array of five is decoded |
| `Wire.ErrorArityExactly` | mpc/mpc_gen.go:112-133 | in the same way the error field is nil or an array of one |
| `Wire.FaultNamesField` | mpc/mpc_gen.go:217-276 | where the first parts of an encoding are followed by what cannot be read, the error names the field that was to come next |
| `MpcGen.Message.EncodeMsg` | mpc/mpc_gen.go:143-187 | writes exactly the encoding of the struct; after a write error, at which it stops, no more than a part of it has got through; it fails only if a write does |
| `MpcGen.Writer.Append` | mpc/mpc_gen.go:145-180 | adds the bytes behind all that was written, buffered or not, or fails with the sink |
| `MpcGen.Writer.Flush` | generic/generic.go:56 | passes on all that was written, or fails with the sink |
| `MpcGen.Message.MarshalMsg` | mpc/mpc_gen.go:190-214 | appends the same bytes to a buffer |
| `MpcGen.Message.UnmarshalMsg` | mpc/mpc_gen.go:217-276 | decoding in place, over the buffers and the Error that the struct holds, gives the decoded fields and nothing of what was there; the two payloads never come to share storage, and all other storage is new |
| `MpcGen.Message.UnmarshalError` | mpc/mpc_gen.go:248-273 | nil clears the pointer, anything else goes into what it points to or into a new Error |
| `MpcGen.Message.DecodeMsg` | mpc/mpc_gen.go:81-140 | the stream decoder, by its own reads and in the same place, gives what UnmarshalMsg gives, and leaves the stream exactly behind the message |
| `MpcGen.Message.DecodeErrorFrom` | mpc/mpc_gen.go:112-138 | its Error field: nil clears the pointer, anything else goes into what it points to or into a new Error |
| `MpcGen.Fill` | mpc/mpc_gen.go:238-243 | the slice holds the bytes afterwards: in its own array if that is long enough, in a new one of their length if not |
| `Mpc.Keep` | mpc/mpc.go:48-53 | a buffer of up to 65536 bytes is kept, emptied, with all its storage, a larger one is let go |
| `Mpc.Marshal` | mpc/mpc.go:102-118 | the result holds the marshaled bytes, or none for an absent value, in the buffer's own storage or in new storage; it fails if and only if the value is no Marshaler or its MarshalMsg fails |
| `Mpc.ToWire` | mpc/mpc.go:81-99 | the message says what the call says, whatever it held before; it fails for the arguments if and only if they cannot be marshaled, and for the result if and only if only that cannot be; its buffers stay its own |
| `Mpc.RefusedExactly` | mpc/mpc.go:71-99 | a value that is no Marshaler is never dropped: the call is then an error, and otherwise each payload is the bytes of its value |
| `Mpc.HandOver` | mpc/mpc.go:157-165 | a payload is handed over as a copy in new storage, an empty one as nil |
| `Mpc.FromWire` | mpc/mpc.go:128-143 | the birpc message says what the wire message said, all it points to is new, and the wire message is left with its own buffers, emptied and within the cap |
| `Mpc.CallArrives` | mpc/mpc.go:71-165 | for every call that can be sent, what is delivered is its ID, Func and Error, and each payload as its marshaled bytes; absent, empty and encoded nil payloads all arrive as nil |
| `Mpc.WhatArrives` | mpc/mpc.go:71-189 | every payload arrives as the bytes it was marshaled to, or as a nil interface if there are none or just a nil, and Unmarshal passes exactly these bytes to the target once, or leaves it as it is |
| `Mpc.NotUnmarshaled` | mpc/mpc.go:172-190 | a value that is no payload and a target without UnmarshalMsg are errors; an empty payload leaves the target as it is |
| `Mpc.Send` | mpc/mpc.go:81-99 | ToWire and MarshalMsg through a message in any state give the encoding of the call |
| `Mpc.Receive` | mpc/mpc.go:120-143 | UnmarshalMsg and FromWire through a message in any state; a message that cannot be decoded leaves the target alone |
| `Mpc.ReceiveFrom` | generic/generic.go:32-37 | the same with DecodeMsg from a stream; what is handed out shares nothing with the wire message |
| `Mpc.SendAndReceive` | mpc/mpc.go:81-165 | all four in a row, through two messages in any states, deliver the call |
| `Pool.Writers.Get` | mpc/mpc.go:57-59 | the message that is handed out was in the pool or is new, is now held by one writer, and holds nothing |
| `Pool.Writers.Fill` | mpc/mpc.go:81-99 | a writer that fills its own message changes no byte of any other message |
| `Pool.Writers.Put` | mpc/mpc.go:63-69 | the message goes back clean, and each message still has storage of its own |
| `Pool.Writers.PutMessage` | mpc/mpc.go:63-69 | a pooled message has empty payloads and no error, and has kept its buffers, but none above 65536 bytes |
| `Pool.Writers.Forget` | mpc/mpc.go:35-39 | a message may vanish from the pool without harm to the rest |
| `GenericRuns.ConsistentStep` | generic/generic.go:41-57 | with writes taken from the calls: every step of every writer keeps the output consistent with the order in which the lock was taken |
| `GenericRuns.EveryRun` | generic/generic.go:41-57 | with writes taken from the calls: mutual exclusion, consistent output, and only convertible calls at the lock, after every run |
| `GenericRuns.OutputIsWholeMessages` | generic/generic.go:41-57 | with writes taken from the calls: what WriterRuns.OutputIsWholeMessages says of the code |
| `GenericRuns.DeliveriesOfAll` | generic/generic.go:26-38 | a reader of a stream of encodings hands out exactly these messages and goes on with what follows |
| `GenericRuns.ReaderFollowsLockOrder` | generic/generic.go:26-57 | with writes taken from the calls: what WriterRuns.ReaderFollowsLockOrder says of the code |
| `WriterRuns.MarshalIsLocal` | mpc/mpc.go:102-118 | marshaling into a buffer writes to its own array or a new one, and the buffer then holds the marshaled bytes |
| `WriterRuns.LocalKeepsSeparate` | mpc/mpc.go:81-99 | filling one message changes no other message and lets no two buffers share an array |
| `WriterRuns.KeptExactly` | mpc/mpc.go:46-53 | PutMessage empties a buffer of up to 65536 bytes and keeps its array, and lets a larger one go |
| `WriterRuns.InvStep` | mpc/mpc.go:55-118 | every step of every goroutine, from GetMessage through ToWire and the write to PutMessage, keeps what EveryRun states |
| `WriterRuns.EveryRun` | mpc/mpc.go:55-118 | after every run: each wire message is in the pool or held by exactly one goroutine, all payload buffers lie in different arrays, pooled messages are empty, without an error and within the cap, and a filled message says what its holder's call says |
| `WriterRuns.WrittenAsCalled` | generic/generic.go:41-57 | in every run, from the end of ToWire to the end of the write, the shared message still says what the call says |
| `WriterRuns.Refines` | generic/generic.go:41-57 | each step of the code, which writes what the message says by then, is a step of the specification, which writes what the call says, or changes nothing there |
| `WriterRuns.RunRefines` | generic/generic.go:41-57 | every run on pooled messages is a run of the specification with the same output |
| `WriterRuns.OutputIsWholeMessages` | generic/generic.go:41-57 | in every state of every run of get, fill, lock, write, flush and put steps, what has been flushed or buffered is the whole encodings of the calls in lock order, the last one cut where its writer is; calls that fail in ToWire add nothing |
| `WriterRuns.ReaderFollowsLockOrder` | generic/generic.go:26-57 | at every moment of every run the reader has been given the calls in lock order, all of them or all but the one being written |
| `WriterProgress.AllCanBeWritten` | generic/generic.go:41-57 | for every sequence of calls that can be converted there is a run in which all writers wait for the lock before the first gets it, they are served in this order, all messages are flushed whole, and all writers return |
| `WriterProgress.AllCanReturn` | generic/generic.go:41-57 | in every state of every run all goroutines can return; what is written on the way are just the calls that wait for the lock or are still to be converted, and can be, each once |
| `WriterProgress.NobodyIsStuck` | generic/generic.go:41-57 | so from every state on, every call under way that can be converted is written, the lock is free again, and the output is whole messages |
| `WriterProgress.LockedIsRecorded` | generic/generic.go:49-57 | a call whose writer is past the lock has been written in its turn |
| `WriterProgress.NothingRefusedIsWritten` | generic/generic.go:45-47 | in no run does the writer of a call that cannot be marshaled get the lock |
| `WriterProgress.OneMessageWillDo` | mpc/mpc.go:55-69 | one writer can write any calls with one message that it gets from the pool each time |
| `WriterProgress.AnyPrefixIsSeen` | generic/generic.go:53-56 | what the connection has been given can end at every byte of the output, also within a message |
| `WriterProgress.PoolCanBeEmptied` | mpc/mpc.go:35-39 | pooled messages can vanish at any time, and nothing else changes |
| `GenericCodec.Codec.ReadMessage` | generic/generic.go:28-38 | reads one message, and all messages handed out earlier keep saying what they said, also when the decode fails |
| `GenericCodec.ReadAll` | generic/generic.go:28-38 | after any number of reads through one wire message, every message handed out still has its own contents |
| `GenericCodec.WriteMessage` | generic/generic.go:41-57 | adds and flushes one whole encoding; if the arguments or the result cannot be marshaled, no byte; if a write fails, a part of the encoding at most; the wire message goes back to the pool in each case |
| `GenericCodec.WriteOut` | generic/generic.go:49-56 | EncodeMsg and Flush: all that was written before and this encoding are out, or the connection has failed within it |
| `Websocket.Codec.ReadMessage` | websocket/websocket.go:34-54 | the outcome depends on the next frame alone: a text frame is an invalid message, an error in place of a frame is that error, a binary frame that does not decode is a decode error, each leaves the message alone, and every other binary frame is delivered |
| `Websocket.Codec.WriteMessage` | websocket/websocket.go:58-89 | a success sends one binary frame with one encoding, a failure at any call sends none, and a call that cannot be marshaled does not even ask for a frame; the wire message goes back to the pool in each case |
| `Websocket.Conn.Close` | websocket/websocket.go:77-88 | closing a frame writer sends its frame unless a write to it has failed or the connection breaks |
| `Websocket.Codec.WriteFrame` | websocket/websocket.go:66-89 | closing the frame behind a failed EncodeMsg or Flush never sends it, whatever part of it had been written; no frame is left open; with a sound connection the write succeeds |
| `Websocket.ReadFrames` | websocket/websocket.go:34-54 | for any sequence of frames through one codec, each outcome is that of the frame on its own |
| `Websocket.FrameArrives` | websocket/websocket.go:58-89 | the frame written for a call means that call to its reader |
| `Redis.First` | redis/redis.go:58-74 | finds the first event that is not passed over |
| `Redis.ConfirmationsAreSkipped` | redis/redis.go:71-74 | confirmations are passed over and messages with a value are not |
| `Redis.SkippedExactly` | redis/redis.go:71-74 | an event is passed over if and only if its kind does not have the word message in it or its value is nil |
| `Redis.Codec.SetupSubscription` | redis/redis.go:35-50 | there is a subscription to the inbound channel afterwards, or an error and none; a subscription that was got but could not subscribe has been closed |
| `Redis.Codec.ReadMessage` | redis/redis.go:54-83 | hands out the decode of the first event of a message kind with a value; sub is nil or subscribed afterwards; a read without a subscription makes one, one that could not subscribe is closed, an error of Pop drops it, and a failed read leaves the message alone |
| `Redis.Codec.WriteMessage` | redis/redis.go:87-115 | publishes one encoding on the outbound channel at most, does so if it succeeds, and does not if the call cannot be marshaled; after another error it may be out or not; the borrowed connection and the wire message go back in each case |
| `Redis.Codec.PublishMessage` | redis/redis.go:95-114 | the same for the part under the lock; it succeeds if neither the connection nor the reply is lost or refused |
| `Redis.Codec.Close` | redis/redis.go:123-138 | unsubscribes and closes, reports the first error, and leaves no subscription behind |
| `RedisRuns.InvStep` | redis/redis.go:52-115 | with publications taken from the calls: every step of every endpoint keeps: read and queued messages are what came over the channel since the subscription, and publications follow the lock order |
| `RedisRuns.EveryRun` | redis/redis.go:52-115 | with publications taken from the calls: so does every run, for any number of endpoints on any channels |
| `RedisRuns.HeardOnChannel` | redis/redis.go:17-20 | all that is read was published on the channel that was subscribed to |
| `RedisRuns.OwnMessage` | redis/redis.go:17-20 | a run in which an endpoint with one channel for both directions reads its own message |
| `RedisRuns.HearsItselfExactly` | redis/redis.go:163-171 | an endpoint can come to read its own message if and only if its two channels are the same |
| `RedisRuns.MirroredPair` | redis/redis.go:163-171 | with publications taken from the calls: what RedisWriterRuns.MirroredPair says of the code |
| `RedisWriterRuns.StepRefines` | redis/redis.go:87-115 | every step, from GetMessage through ToWire, MarshalMsg into the codec's buffer and PUBLISH of what it holds by then to PutMessage, keeps who owns which message and is a step of the specification or changes nothing there |
| `RedisWriterRuns.RefinesPublish` | redis/redis.go:98-113 | what is published from the shared buffer is the encoding of the lock holder's call |
| `RedisWriterRuns.RunRefines` | redis/redis.go:52-115 | every run on pooled messages and shared buffers is, for redis and its readers, a run of the specification |
| `RedisWriterRuns.MirroredPair` | redis/redis.go:163-171 | with mirrored, different channels each side reads, in the order of the other's lock and without gaps, what the other published since the subscription took effect, as it was sent, and nothing of its own; when nothing is under way it has read all of it |
| `RedisWriterRuns.NothingRefusedIsPublished` | redis/redis.go:91-93 | no run publishes a call that cannot be marshaled, and what is published is the encoding of the bytes of its call |
| `RedisProgress.AllCanBeRead` | redis/redis.go:52-115 | for every sequence of calls that can be converted there is a run of a mirrored pair in which all writers of one side wait before the first gets the lock, they are served in this order, all return, and the other side reads exactly these calls in this order |
| `RedisProgress.AllCanReturn` | redis/redis.go:87-115 | in every state of every run, for any number of endpoints, all goroutines can return and all locks are free then; an endpoint can publish on the way all calls that wait or are still to be converted, each once |
| `RedisProgress.ReadAll` | redis/redis.go:54-83 | in every state of every run an endpoint can subscribe, unless it has, and read all that has been published on its channel since the subscription took effect, in that order and nothing else |
| `FieldMap.Step` | examples/chat/main_gen.go:99-126 | one turn of the generated loop is one step of the fold over the parsed entries |
| `FieldMap.LastWins` | examples/chat/main_gen.go:99-126 | assigning the entries succeeds if and only if all values of known fields have the right type; then unknown keys are skipped, the last entry for a field counts, and a field without one keeps its value |
| `FieldMap.FirstFaultCounts` | examples/chat/main_gen.go:99-126 | an error names the field of the first value of the wrong type |
| `FieldMap.OrderIsIrrelevant` | examples/chat/main_gen.go:99-126 | entries for different fields may come in any order, among any others |
| `FieldMap.DecodeTakesOneObject` | examples/chat/main_gen.go:90-129 | a decode that succeeds takes exactly one well-formed object |
| `FieldMap.RoundTrip` | examples/chat/main_gen.go:76-129 | the fields come back from any map that says them, with any other entries in between, into any target |
| `ChatGen.Incoming.EncodeMsg` | examples/chat/main_gen.go:51-74 | writes the map of the two fields, or stops at a write error with no more than a part of it through |
| `ChatGen.Incoming.MarshalMsg` | examples/chat/main_gen.go:77-87 | appends the same bytes to a buffer |
| `ChatGen.Incoming.UnmarshalMsg` | examples/chat/main_gen.go:90-129 | the loop, updating the struct in place, computes the fold over the parsed entries, or the field at fault |
| `ChatGen.Incoming.Msgsize` | examples/chat/main_gen.go:132-135 | no encoding is longer, and those of long strings are no shorter |
| `ChatGen.IncomingBack` | examples/chat/main_gen.go:77-129 | an Incoming comes back from its encoding into any target |
| `ChatGen.Outgoing.EncodeMsg` | examples/chat/main_gen.go:185-218 | writes the map of the three fields, or stops at a write error with no more than a part of it through |
| `ChatGen.Outgoing.MarshalMsg` | examples/chat/main_gen.go:221-234 | appends the same bytes to a buffer |
| `ChatGen.Outgoing.UnmarshalMsg` | examples/chat/main_gen.go:237-282 | the loop, updating the struct in place, computes the fold over the parsed entries, or the field at fault |
| `ChatGen.Outgoing.Msgsize` | examples/chat/main_gen.go:285-288 | no encoding is longer, and those of large numbers and long strings are no shorter |
| `ChatGen.OutgoingBack` | examples/chat/main_gen.go:221-282 | an Outgoing comes back from its encoding into any target |
| `Chat.NamesAreSpelled` | examples/chat/chat.js:794-817 | the names in the model are those of the function, the fields and the special key |
| `Chat.PackedIsWire` | examples/chat/chat.js:794-817 | the bytes that the browser sends are those that the Go encoder would produce for the same message |
| `Chat.BrowserToServer` | examples/chat/chat.js:794-817 | for all names and texts, the server gets call 0 of Chat.Message without an error, a result that is an encoded empty string, and arguments that unmarshal to the UTF-8 of name and text |
| `Chat.Deliver` | examples/chat/chat.js:794-817 | the same through exports.encode, the websocket codec and Incoming.UnmarshalMsg with a wire message, a target and a codec in any state |
| `Chat.ServerToBrowser` | examples/chat/chat.js:720-733 | what a browser decodes from the call by which the server passes the line on |
| `Chat.ShownAsTyped` | examples/chat/chat.js:720-771 | a line reaches other browsers as it was typed if and only if it has no unit in 0x400..0x7FF |

## Left out

- Doubles: set/getFloat64 are taken to convert eight bytes both ways, and a float that was read is its four bytes. A decoded integer outside 32 bits is not identified with the double of the same value.
- Object keys: how a key that is not a string becomes a property name, or throws, is a parameter, of which only that strings stay as they are is assumed; so is the set of names for which ArrayBuffer.prototype has a getter. The built-in prototypes are as the language has them. The rule that integer keys come first is not modelled; entries are in the order of assignment.
- Buffers: `new Array(n)` and `new ArrayBuffer(n)` are taken to succeed for every n below 2^32.
- tinylib/msgp: its primitives are modelled by what they do to bytes, not by their code; its limit on the nesting of objects and the growth of its buffers are not.
- MpcGen.Message.UnmarshalMsg: what the struct holds after an error is left open, except that it is still valid.
- ChatGen.Incoming.UnmarshalMsg: what the struct holds after an error is left open.
- ChatGen.Outgoing.UnmarshalMsg: what the struct holds after an error is left open.
- Incoming.DecodeMsg and Outgoing.DecodeMsg: the same branches as UnmarshalMsg over a stream.
- MpcGen.Message.MarshalMsg: the buffer that is appended to is a value here, so growing it in place is not captured.
- Mpc.Marshal: a Marshaler is taken to append in place or to return storage of its own, as msgp's contract says.
- WriterRuns: writes do not fail in these runs. After a failed write the stream holds part of a message, and the code makes no promise about what follows.
- GenericCodec.WriteMessage: one writer by itself; the lock and the other writers are in WriterRuns.
- Websocket.Codec.WriteMessage: one writer by itself; the lock is held from NextWriter to Close as it is around EncodeMsg and Flush in WriterRuns. A frame that Close could not send in full is not received as one.
- Redis.Codec.Close: a Close that races with a blocked reader, which the code deliberately leaves unlocked.
- RedisRuns: no Close, no lost connection and no refused publication; the same goes for RedisWriterRuns.
- Redis.Codec.WriteMessage: one writer by itself; the lock and the other writers are in RedisWriterRuns.
- FillArgs, Endpoint and the registry of birpc, HTTP serving, the broadcast of main.go, the DOM code, inspect and the reconnect timers of chat.js are not part of this model.
- internal/testmsg: its generated code has the shape of that of the chat example.
- The texts of errors, other than which case and which field they are for.
