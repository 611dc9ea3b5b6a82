# Alex message path: verification

A Dafny model of the code that carries every message between the web pages of the Alex/Theo/Sally
system and their server, and of four smaller pieces of bookkeeping beside it, with proofs of what that code
is for.

* **The wire codec** (`comm/protobuf.js`, `comm/util.js`). 64-bit numbers in sign and two words
  (`I64.dfy`), varints (`Varint.dfy`), the numeric types (`Integers.dfy`, `IntegerCodec.dfy`), UTF-16 to
  UTF-8 (`Utf8.dfy`), base64 text (`Base64.dfy`), the two stream objects (`Streams.dfy`), schemas and messages
  (`Schema.dfy`), the parser (`Merge.dfy`), both on streams (`MessageCodec.dfy`), what parsing and printing do
  to each other (`RoundTrip.dfy`), and the page's entry points (`Util.dfy`).
* **The Bayeux client** (`org/cometd.js`). The session (`Session.dfy`) and the request transport
  (`Transport.dfy`) are state machines over all events, with theorems about all runs, and `Joint.dfy` runs the one on
  the other; `Cometd.dfy` and `RequestTransport.dfy` are the objects whose methods keep the invariants. `Splitter.dfy` is the cutting of long
  callback-polling requests and `WebSocket.dfy` the envelopes waiting for answers on a socket.
* **Beside it**: Backbone's collection and its index (`Collection.dfy`), the process forest and its message
  routing (`KnowledgeBase.dfy`), micro-operations of the JSON editor (`Micros.dfy`), and the
  escaping of the BaseX client (`BaseX.dfy`).

Objects with fields and loops are classes and methods with loops; each method is proved against a function
of what was there before, and the theorems are about these functions. A stream is seen through its `View`:
the bytes it will still deliver, and whether it will then claim to be valid once more.

Where the code departs from what one expects of it, the model follows the code and the exact condition is proved:

* `fixed32` and `sfixed32` have each other's parser, so values in the other half of the range do not come back
  (`Integers.ParseInverts`, `Integers.Survives`).
* A singular sub-message without any initialised field is not sent (`Util.ArrivesUnchanged`).
* The text of a positive multiple of 57 bytes ends in a line break, on which the stream is still valid and
  the parser reads a field 0 (`Base64.OpenText`, `RoundTrip.PhantomField`).
* Negative zero is less than zero, and leaves the 64-bit range when converted (`Int64.I64.Less`, `Int64.NegativeZeroEscapes`).
* A handshake or connect reply whose advice names an action the handler does not know ends in an exception
  and nothing is armed any more (`Session.ThrowsExactlyIfUnhandled`, `Session.AliveExactlyIfHandled`). Advice `handshake` in a
  successful connect reply is one of these.
* A handshake reply without a client id, or with an empty one, is accepted, and what is published next leaves without
  an id (`Session.ClientIdSafety`, `Session.PublishedWithoutClientId`).
* A delayed handshake that is armed when `disconnect()` is called still runs and starts the session again
  (`Session.DisconnectEnds`).
* A message sent with the unchecked `send` while the session is off can overtake one that waits
  (`Session.LedgerStep`, `Session.SentOutOfOrder`).
* `set` with two inputs for the same model leaves length and sequence in disagreement, `add` does not
  (`Collection.Collection.Set`).

## Model

| member | source | states |
|---|---|---|
| Util.ArrivesUnchanged | sally_net/src/main/resources/sally/web/sally/comm/util.js:1-26 | main result: between two sides with the same schemas the received message equals the sent one if and only if the type name is letters and dots and no singular field holds an uninitialised sub-message; every schema, every sendable message, every size, so also where the trailing line break makes the parser read a phantom field |
| Util.ArrivesWithoutSubMessages | sally_net/src/main/resources/sally/web/sally/comm/util.js:1-26 | whatever field counts as present: every sendable message that holds no singular sub-message at any depth arrives as itself, so every set number, string, bytes and repeated field is sent |
| Util.FilledSubMessageArrives | sally_net/src/main/resources/sally/web/sally/comm/protobuf.js:1741-1758 | a singular sub-message with a set number, string or bytes field, or with elements in a repeated one, arrives, and that field in it |
| Util.ReceivedOtherwise | sally_net/src/main/resources/sally/web/sally/comm/util.js:10-26 | a class nobody knows raises an exception, whatever the text; without bytes a known one gives a fresh message |
| Util.ClassStrings | sally_net/src/main/resources/sally/web/sally/comm/util.js:12-14 | the class strings are those of letters and dots, each letter of the alphabet by name |
| Util.Delivered | sally_net/src/main/resources/sally/web/sally/comm/util.js:1-26 | with any two compatible schema sets (fields removed, added, moved) what arrives is exactly the sent message laid over an empty one of the reader's type; other class strings give `null` |
| Util.Serialize | sally_net/src/main/resources/sally/web/sally/comm/util.js:1-8 | the object sent is the type name and the base64 text of the message's encoding |
| Util.Unserialize | sally_net/src/main/resources/sally/web/sally/comm/util.js:10-26 | the stateful parse ends as the specification says: `null`, a message (also after a refused parse, whose result nobody looks at), or an exception, for any text that is padded as the format asks |
| RoundTrip.ParseSerialized | sally_net/src/main/resources/sally/web/sally/comm/protobuf.js:1604-1674 | parsing the encoding of any sendable message, from a byte array or from base64 with or without the phantom field, uses up the stream and gives the message with uninitialised singular sub-messages removed; hence it gives the message itself exactly if there are none |
| RoundTrip.MergeMessage | sally_net/src/main/resources/sally/web/sally/comm/protobuf.js:1357-1480 | whatever the reader's message already holds and whatever follows in the stream: merging an encoding lays its present fields over the message and leaves the parser at the following byte |
| RoundTrip.MergeTwo | sally_net/src/main/resources/sally/web/sally/comm/protobuf.js:1364-1480 | two encodings one after the other act like laying the first and then the second message over the reader's |
| RoundTrip.OverlayAt | sally_net/src/main/resources/sally/web/sally/comm/protobuf.js:1364-1480 | slot by slot: a present singular field of the writer replaces the reader's, a repeated one is appended to it, and fields the writer does not send stay; with MergeTwo this is last-present-wins and concatenation |
| RoundTrip.OverlaySame | sally_net/src/main/resources/sally/web/sally/comm/protobuf.js:1741-1758 | under the writer's own schema the overlay on an empty message is the normal form of the message |
| RoundTrip.NormalIffSlots | sally_net/src/main/resources/sally/web/sally/comm/protobuf.js:1741-1758 | the normal form of a message is the message exactly if no singular sub-message, at any depth, is present but uninitialised |
| RoundTrip.PhantomField | sally_net/src/main/resources/sally/web/sally/comm/protobuf.js:1364-1381 | the read of a field 0 at a trailing line break skips one `null` byte and changes nothing |
| RoundTrip.StreamEnds | sally_net/src/main/resources/sally/web/sally/comm/protobuf.js:1364-1381 | at the end of the bytes the loop stops with the message unchanged, phantom or not |
| RoundTrip.MergeValue | sally_net/src/main/resources/sally/web/sally/comm/protobuf.js:1364-1480 | one field value behind its tag is received and nothing else is touched |
| RoundTrip.MergePacked | sally_net/src/main/resources/sally/web/sally/comm/protobuf.js:1390-1422 | a packed run of numbers is received as the list of its numbers |
| RoundTrip.UnpackInverts | sally_net/src/main/resources/sally/web/sally/comm/protobuf.js:1390-1422 | the inner loop over a packed payload recovers every number of it |
| RoundTrip.NumberRead | sally_net/src/main/resources/sally/web/sally/comm/protobuf.js:1373-1389 | a numeric field is parsed if the reader knows its id and skipped by its wire type if not, consuming the same bytes |
| RoundTrip.PayloadDelivered | sally_net/src/main/resources/sally/web/sally/comm/protobuf.js:1390-1432 | a length-delimited payload reaches the handler of its field whole, or is skipped whole |
| Schema.EmptyHasNothing | sally_net/src/main/resources/sally/web/sally/comm/protobuf.js:1618-1660 | a fresh message is well typed, has none of its fields, and counts as initialised only if its type has no fields |
| RoundTrip.EmptyEncodesNothing | sally_net/src/main/resources/sally/web/sally/comm/protobuf.js:1618-1674 | a fresh message is written as no bytes |
| RoundTrip.FlatIsNormal | sally_net/src/main/resources/sally/web/sally/comm/protobuf.js:1741-1758 | a message without singular sub-messages, at any depth, is its own normal form: no other value can be missing from what is sent |
| RoundTrip.FilledIsWritten | sally_net/src/main/resources/sally/web/sally/comm/protobuf.js:1741-1758 | a singular sub-message with a set number, string or bytes field, or a repeated field that is not empty, is written with its tag and length |
| RoundTrip.FilledSurvives | sally_net/src/main/resources/sally/web/sally/comm/protobuf.js:1741-1758 | and it is part of the normal form, with that field in it |
| RoundTrip.KnownFields | sally_net/src/main/resources/sally/web/sally/comm/protobuf.js:1534-1568 | a number and a bytes field give exactly the bytes that the description of the Protocol Buffers encoding gives for them |
| RoundTrip.KnownRepeated | sally_net/src/main/resources/sally/web/sally/comm/protobuf.js:1534-1568 | so do a packed field and the same numbers in one that is not packed |
| RoundTrip.KnownNested | sally_net/src/main/resources/sally/web/sally/comm/protobuf.js:1668-1674 | and so does its sub-message example |
| RoundTrip.OtherWireType | sally_net/src/main/resources/sally/web/sally/comm/protobuf.js:1373-1389 | a number whose wire type is not the one of its field, or of a field the reader does not know, is passed over as a whole and changes nothing |
| RoundTrip.UnknownWireType | sally_net/src/main/resources/sally/web/sally/comm/protobuf.js:1433-1440 | a tag of any other wire type, group starts and ends among them, is passed over with nothing behind it |
| RoundTrip.CutOff | sally_net/src/main/resources/sally/web/sally/comm/protobuf.js:1390-1432 | a byte array that ends before an announced payload does: numbers and strings raise an exception, bytes refuse the message as it is so far, a sub-message is made of zeros |
| RoundTrip.CutOffSubMessage | sally_net/src/main/resources/sally/web/sally/comm/protobuf.js:1610-1616 | a sub-message whose payload is cut off is what parsing 4096 zero bytes gives |
| RoundTrip.ZerosMerged | sally_net/src/main/resources/sally/web/sally/comm/protobuf.js:1364-1381 | parsing zeros reads tag 0 over and over: it fills a field 0 of varint type with zeros and touches nothing else |
| MessageCodec.MergeProperties | sally_net/src/main/resources/sally/web/sally/comm/protobuf.js:1357-1480 | the parsing loop on a stream object, recursion into sub-messages included, ends as MergeAll says: result, message and what is left of the stream |
| MessageCodec.ParseField | sally_net/src/main/resources/sally/web/sally/comm/protobuf.js:1364-1480 | one turn of that loop |
| MessageCodec.ParseNumber | sally_net/src/main/resources/sally/web/sally/comm/protobuf.js:1373-1440 | reading and converting one number: the field gets it, or `Convert` throws |
| MessageCodec.HandlePayload | sally_net/src/main/resources/sally/web/sally/comm/protobuf.js:1390-1432 | what is done with the bytes of a length-delimited field |
| MessageCodec.UnpackAll | sally_net/src/main/resources/sally/web/sally/comm/protobuf.js:1390-1422 | the loop over a packed payload keeps what it parses as it goes; looked at after all elements are parsed, 64-bit objects among them, each still is the number that was read: the shared scratch object never is one of them |
| MessageCodec.FidToProp | sally_net/src/main/resources/sally/web/sally/comm/protobuf.js:1358-1361 | the index from field ids to properties finds, for each id, the last property declared with it |
| MessageCodec.SerializeProperty | sally_net/src/main/resources/sally/web/sally/comm/protobuf.js:1534-1568 | a present field is written with its tag: singular, repeated or packed |
| MessageCodec.SerializeSlots | sally_net/src/main/resources/sally/web/sally/comm/protobuf.js:1604-1609 | present fields are written in schema order, the others not at all |
| MessageCodec.SerializeValues | sally_net/src/main/resources/sally/web/sally/comm/protobuf.js:1534-1568 | the loop over the elements of a repeated field |
| MessageCodec.SerializeValue | sally_net/src/main/resources/sally/web/sally/comm/protobuf.js:1534-1568 | one value of any type; a sub-message is written to an array of its own first |
| MessageCodec.SerializeBytes | sally_net/src/main/resources/sally/web/sally/comm/protobuf.js:1144-1147 | a length and the bytes |
| Integers.ParseInverts | sally_net/src/main/resources/sally/web/sally/comm/protobuf.js:1189-1327 | all twelve numeric types, all values, whatever follows: the parser consumes exactly the encoding, and after Convert the value is back if and only if it survives the two crossed parsers of fixed32 and sfixed32 (fixed32 up to 2^31-1, sfixed32 from 0; always for the others), otherwise Convert throws |
| Integers.ParseVarInverts | sally_net/src/main/resources/sally/web/sally/comm/protobuf.js:356-388 | for every u below 2^64: parsing its varint gives u and leaves what followed |
| Integers.VarComplete | sally_net/src/main/resources/sally/web/sally/comm/protobuf.js:253-274 | the varint writer produces a group sequence that decodes to its number |
| Integers.Shortest | sally_net/src/main/resources/sally/web/sally/comm/protobuf.js:253-274 | no complete group sequence with the same value is shorter than the one written |
| Integers.WordLengths | sally_net/src/main/resources/sally/web/sally/comm/protobuf.js:253-274 | 1 to 10 bytes for 64-bit numbers, 1 to 5 for 32-bit ones |
| Integers.CollectVar | sally_net/src/main/resources/sally/web/sally/comm/protobuf.js:356-388 | the group loop stops exactly after the last group of a varint |
| Integers.ParseUInt32Inverts | sally_net/src/main/resources/sally/web/sally/comm/protobuf.js:1237-1255 | the 32-bit parser with its masked fifth group returns every number below 2^32 |
| Integers.Int32Read | sally_net/src/main/resources/sally/web/sally/comm/protobuf.js:1256-1265 | negative int32 values come back from their ten-byte form |
| Integers.SerializeToLEVar128 | sally_net/src/main/resources/sally/web/sally/comm/protobuf.js:253-274 | the three-stage writer over two 32-bit words, with its group of four low and three high bits, writes the varint of the whole number |
| Integers.SerializeHigh | sally_net/src/main/resources/sally/web/sally/comm/protobuf.js:266-273 | its last stage |
| Integers.WidthsAgree | sally_net/src/main/resources/sally/web/sally/comm/protobuf.js:1189-1327 | a 32-bit number is the same on the wire in the 64-bit type of its kind: int32, sint32, uint32, enum and sfixed32 |
| Integers.ZigzagCounts | sally_net/src/main/resources/sally/web/sally/comm/protobuf.js:1229-1236 | zigzag counts 0, -1, 1, -2, and so on, as 0, 1, 2, 3 |
| Integers.BytesOfWord | sally_net/src/main/resources/sally/web/sally/comm/protobuf.js:239-252 | four bytes of a word are its base-256 digits, the least significant first |
| Integers.BytesOfWords | sally_net/src/main/resources/sally/web/sally/comm/protobuf.js:239-252 | eight bytes are those of the low word followed by those of the high one |
| Integers.FixedLengths | sally_net/src/main/resources/sally/web/sally/comm/protobuf.js:1273-1327 | fixed types have wire types 5 and 1 and take four and eight bytes, all others are varints of wire type 0 |
| Integers.ConvertExactly | sally_net/src/main/resources/sally/web/sally/comm/protobuf.js:1189-1327 | `Convert` throws on exactly the numbers outside the range of the type |
| Integers.ParsedModulo | sally_net/src/main/resources/sally/web/sally/comm/protobuf.js:1237-1265 | numbers too large for their parser, in as many groups as it reads: what it makes of them modulo 2^32 or 2^64, and the signed one of the low word |
| IntegerCodec.Serialize | sally_net/src/main/resources/sally/web/sally/comm/protobuf.js:1189-1327 | every serializer writes the encoding of its type |
| IntegerCodec.SerializeInt32 | sally_net/src/main/resources/sally/web/sally/comm/protobuf.js:1214-1228 | negative numbers as ten bytes, others by the 32-bit loop |
| IntegerCodec.SerializeGroups | sally_net/src/main/resources/sally/web/sally/comm/protobuf.js:1218-1227 | the loop that runs once even for 0 |
| IntegerCodec.SerializeInt64 | sally_net/src/main/resources/sally/web/sally/comm/protobuf.js:1287-1295 | two's complement, then the varint |
| IntegerCodec.SerializeToLEBase256 | sally_net/src/main/resources/sally/web/sally/comm/protobuf.js:239-252 | eight bytes of the two words, least significant first |
| IntegerCodec.SerializeFixed32 | sally_net/src/main/resources/sally/web/sally/comm/protobuf.js:1189-1197 | four bytes, negative numbers modulo 2^32 |
| IntegerCodec.Bytes4 | sally_net/src/main/resources/sally/web/sally/comm/protobuf.js:239-252 | the byte loop for one word |
| IntegerCodec.ParseScalar | sally_net/src/main/resources/sally/web/sally/comm/protobuf.js:1198-1327 | every parser returns what the specification says and leaves the stream there; the shared scratch object is overwritten but never handed out: a result is a plain number or a new object, so no later parse changes it |
| IntegerCodec.ReadUInt32 | sally_net/src/main/resources/sally/web/sally/comm/protobuf.js:1237-1255 | the five-group loop, its early end at `undefined` included |
| IntegerCodec.ReadInt32 | sally_net/src/main/resources/sally/web/sally/comm/protobuf.js:1255-1265 | the low word of the shared scratch object as a signed number |
| IntegerCodec.ReadBytes | sally_net/src/main/resources/sally/web/sally/comm/protobuf.js:1198-1206 | a sum of bytes in which `null` counts 0 and `undefined` gives NaN |
| IntegerCodec.ParseLEBase256 | sally_net/src/main/resources/sally/web/sally/comm/protobuf.js:393-415 | each word added up on its own, into the object handed in or a new one |
| Varint.ParseLEVar128 | sally_net/src/main/resources/sally/web/sally/comm/protobuf.js:356-388 | the two loops together compute the sum of the groups modulo 2^64 into the object handed in, or into a new one, and return that object |
| Varint.ParseLow | sally_net/src/main/resources/sally/web/sally/comm/protobuf.js:356-371 | the loop over the low word |
| Varint.ParseHigh | sally_net/src/main/resources/sally/web/sally/comm/protobuf.js:372-384 | the loop over the high word |
| Varint.WordsOfSum | sally_net/src/main/resources/sally/web/sally/comm/protobuf.js:356-388 | the word sums, with the fifth group split between the words, are the two words of the total |
| Int64.I64.Add | sally_net/src/main/resources/sally/web/sally/comm/protobuf.js:332-338 | exact integer sum on normalised low words, the high word may overflow |
| Int64.I64.Sub | sally_net/src/main/resources/sally/web/sally/comm/protobuf.js:283-299 | exact integer difference; its self-call ends after one swap |
| Int64.I64.Less | sally_net/src/main/resources/sally/web/sally/comm/protobuf.js:303-323 | the strict integer order, and beyond it only that negative zero comes before zero |
| Int64.I64.ConvertToUnsigned | sally_net/src/main/resources/sally/web/sally/comm/protobuf.js:169-188 | the value modulo 2^64 |
| Int64.I64.ConvertFromUnsigned | sally_net/src/main/resources/sally/web/sally/comm/protobuf.js:189-200 | the signed representative of a two's-complement pattern |
| Int64.I64.ConvertToZigzag | sally_net/src/main/resources/sally/web/sally/comm/protobuf.js:201-218 | non-negative values to even, negative ones to odd numbers |
| Int64.I64.ConvertFromZigzag | sally_net/src/main/resources/sally/web/sally/comm/protobuf.js:219-238 | its inverse on numbers |
| Int64.TwosComplementRoundTrip | sally_net/src/main/resources/sally/web/sally/comm/protobuf.js:169-200 | back and forth is the identity on every signed 64-bit value |
| Int64.ZigzagRoundTrip | sally_net/src/main/resources/sally/web/sally/comm/protobuf.js:201-238 | likewise for zigzag |
| Int64.NegativeZeroEscapes | sally_net/src/main/resources/sally/web/sally/comm/protobuf.js:169-188 | negative zero, converted to unsigned, gets a high word of 2^32 and so leaves the 64-bit range |
| Int64.FromNumber | sally_net/src/main/resources/sally/web/sally/comm/protobuf.js:341-347 | a number below 2^64 in absolute value as sign and words |
| Int64.Num64.Fill | sally_net/src/main/resources/sally/web/sally/comm/protobuf.js:384-387 | a parser overwrites all three fields of the object it is handed |
| Int64.ValueDetermines | sally_net/src/main/resources/sally/web/sally/comm/protobuf.js:163-165 | equal values have equal words, but for negative zero |
| Utf8.DecodeEncode | sally_net/src/main/resources/sally/web/sally/comm/protobuf.js:580-689 | decoding an encoding gives the string back for every sequence of 16-bit units, lone surrogates included |
| Utf8.WellFormedness | sally_net/src/main/resources/sally/web/sally/comm/protobuf.js:580-622 | the bytes are well-formed UTF-8 (section 3 of RFC 3629) if and only if the units are well-formed UTF-16 |
| Utf8.SixBitFormSame | sally_net/src/main/resources/sally/web/sally/comm/protobuf.js:580-622 | the bytes of each code point are the one to four bytes of section 3 of RFC 3629 |
| Utf8.EncodePair | sally_net/src/main/resources/sally/web/sally/comm/protobuf.js:587-597 | a surrogate pair is written as its one code point from U+10000 on |
| Utf8.StrayBytes | sally_net/src/main/resources/sally/web/sally/comm/protobuf.js:628-689 | a byte that starts no character, or whose continuation is missing, is skipped alone |
| Utf8.OddNumbers | sally_net/src/main/resources/sally/web/sally/comm/protobuf.js:628-689 | a character in more bytes than it needs is read, a number past the last code point is dropped |
| Utf8.EncodeUTF8 | sally_net/src/main/resources/sally/web/sally/comm/protobuf.js:580-622 | the loop that looks ahead for a low surrogate |
| Utf8.DecodeUTF8 | sally_net/src/main/resources/sally/web/sally/comm/protobuf.js:628-689 | the loop with its lenient treatment of missing continuation bytes |
| Base64.OpenText | sally_net/src/main/resources/sally/web/sally/comm/protobuf.js:817-933 | main result of the stream: for all bytes and both alphabets a stream opened on the text delivers the bytes, and then claims to be valid once more if and only if their number is a positive multiple of 57 |
| Base64.AlphabetIs | sally_net/src/main/resources/sally/web/sally/comm/protobuf.js:817-841 | the writer's character for each value is the one at that place of the two 64-character strings of tables 1 and 2 of RFC 4648 |
| Base64.TextIsProper | sally_net/src/main/resources/sally/web/sally/comm/protobuf.js:900-929 | a text holds only characters of the alphabet it is written in, padding behind an incomplete last group, and line feeds exactly behind each 76 characters |
| Base64.LinesAtMost76 | sally_net/src/main/resources/sally/web/sally/comm/protobuf.js:900-928 | no line exceeds 76 characters |
| Base64.DecodeBody | sally_net/src/main/resources/sally/web/sally/comm/protobuf.js:872-899 | the decoder recovers the bytes from characters and partial sextet |
| Base64.StripText | sally_net/src/main/resources/sally/web/sally/comm/protobuf.js:856-871 | reopening restores string and partial bits exactly as the writer had them |
| Base64.BodyGrows | sally_net/src/main/resources/sally/web/sally/comm/protobuf.js:900-915 | one more byte appends its characters and line breaks and changes none before |
| Base64.BreakRule | sally_net/src/main/resources/sally/web/sally/comm/protobuf.js:911-914 | the length test of the writer puts a break exactly after each 76 characters |
| Base64.WriterSextets | sally_net/src/main/resources/sally/web/sally/comm/protobuf.js:900-910 | the writer's shifts give the sextets of section 4 of RFC 4648 for the longer byte sequence |
| Base64.FromAlphabetInverts | sally_net/src/main/resources/sally/web/sally/comm/protobuf.js:817-841 | both alphabets are inverted by the one reading table |
| Base64.TrailingBreak | sally_net/src/main/resources/sally/web/sally/comm/protobuf.js:930-933 | a last character that completes no byte exists exactly for a positive multiple of 57 bytes |
| Base64.CursorValid | sally_net/src/main/resources/sally/web/sally/comm/protobuf.js:930-933 | `valid` means: a byte is left, or one idle character |
| Streams.Base64Stream.constructor | sally_net/src/main/resources/sally/web/sally/comm/protobuf.js:842-851 | any text is stripped of its padding; text padded as the format asks makes a stream that delivers its contents, and a writer's text restores the writer's state |
| Streams.Base64Stream.FixString | sally_net/src/main/resources/sally/web/sally/comm/protobuf.js:856-871 | padding and partial sextet of any text are cut off and kept, lookups outside the table included |
| Streams.Base64Stream.ReadByte | sally_net/src/main/resources/sally/web/sally/comm/protobuf.js:872-899 | delivers the next byte of the contents, or `null` at the end, and skips line breaks |
| Streams.Base64Stream.NextSextet | sally_net/src/main/resources/sally/web/sally/comm/protobuf.js:872-888 | the loop inside it: the next character with a sextet, or the partial sextet once |
| Streams.Base64Stream.ReadBlock | sally_net/src/main/resources/sally/web/sally/comm/protobuf.js:700-710 | the inherited block read stops at the first `null` |
| Streams.Base64Stream.WriteByte | sally_net/src/main/resources/sally/web/sally/comm/protobuf.js:900-915 | the stream's text becomes that of the bytes so far and this one, whatever the partial bits were: so writing goes on after reopening as if uninterrupted |
| Streams.Base64Stream.GetString | sally_net/src/main/resources/sally/web/sally/comm/protobuf.js:916-929 | the text of all bytes written; the stream is not changed |
| Streams.Base64Stream.IsValid | sally_net/src/main/resources/sally/web/sally/comm/protobuf.js:930-933 | true on remaining bytes and on a trailing line break |
| Streams.ByteArrayStream.ReadByte | sally_net/src/main/resources/sally/web/sally/comm/protobuf.js:752-754 | the next byte, or `undefined` past the end |
| Streams.ByteArrayStream.ReadBlock | sally_net/src/main/resources/sally/web/sally/comm/protobuf.js:737-747 | all or nothing |
| Streams.ByteArrayStream.Write | sally_net/src/main/resources/sally/web/sally/comm/protobuf.js:748-751 | appends, whatever was read |
| Session.NeverForks | sally_net/src/main/resources/sally/web/sally/org/cometd.js:1658-1673 | every run started by one handshake with one reply or failure per message, disconnect() included: at most one of {armed delayed send, handshake in flight, connect in flight}; so no connect is sent while one is outstanding, the condition of "Concurrent metaConnect" |
| Session.AliveExactlyIfHandled | sally_net/src/main/resources/sally/web/sally/org/cometd.js:1998-2157 | without disconnect(): exactly one of them until the session is over, if and only if every handshake and connect of the run was answered with something its handler has an action for, judged by reply, advice and status at that point; otherwise the client stalls for good |
| Session.ThrowsExactlyIfUnhandled | sally_net/src/main/resources/sally/web/sally/org/cometd.js:2017-2143 | which replies those are, as a condition on the reply, the advice in force and the status |
| Session.StalledUnlessHandled | sally_net/src/main/resources/sally/web/sally/org/cometd.js:1998-2157 | an exception of such a handler in the run is an unhandled answer in the run, and conversely |
| Session.DisconnectEnds | sally_net/src/main/resources/sally/web/sally/org/cometd.js:1916-1981 | after disconnect() the session stays off whatever happens, short of another handshake() of the application, if and only if no delayed handshake was armed at the call |
| Session.NextIsSteady | sally_net/src/main/resources/sally/web/sally/org/cometd.js:2017-2157 | the step of that theorem |
| Session.NextIsOrderly | sally_net/src/main/resources/sally/web/sally/org/cometd.js:1848-2190 | the step of NeverForks |
| Session.AlwaysSound | sally_net/src/main/resources/sally/web/sally/org/cometd.js:1684-1847 | every run of any events, stale replies included: ids on the wire count up from 1, and a non-empty queue implies an open batch, the internal one, or disconnection |
| Session.ClientIdSafety | sally_net/src/main/resources/sally/web/sally/org/cometd.js:1684-1698 | in all states of a run, nothing that publish, subscribe, unsubscribe and batches can go on to do puts a message without the session's client id on the wire, if and only if no handshake reply of the run was a successful one without an id (or with an empty one) after which messages may leave freely |
| Session.SafeExactlyIfIdentified | sally_net/src/main/resources/sally/web/sally/org/cometd.js:1684-1698 | the same for one state: it is safe exactly if it has an id, is disconnected, or is in the internal batch; otherwise closing the open batches and publishing does leak |
| Session.IdentifiedExactlyIf | sally_net/src/main/resources/sally/web/sally/org/cometd.js:2017-2040 | the id is known in all such states of a run exactly if no reply of it was anonymous |
| Session.ApplyIdentifies | sally_net/src/main/resources/sally/web/sally/org/cometd.js:1684-2395 | the step of that: which reply, in which state, loses the id |
| Session.PublishedWithoutClientId | sally_net/src/main/resources/sally/web/sally/org/cometd.js:1695-1698 | the failing input: after a successful handshake reply without an id, the next publish leaves without one |
| Session.ReplyReleases | sally_net/src/main/resources/sally/web/sally/org/cometd.js:2037-2040 | the queue leaves under the id the handshake reply brings, if it brings one |
| Session.NothingLost | sally_net/src/main/resources/sally/web/sally/org/cometd.js:1772-1843 | every run from any sound state: until an answer ends the session, the application's messages on the wire followed by those that wait are exactly those accepted, each once, and in order unless one is sent unchecked while the session is off; when it ends only what still waits is dropped, and nothing is ever doubled or made up |
| Session.LedgerStep | sally_net/src/main/resources/sally/web/sally/org/cometd.js:1684-2395 | the step of that, for every event: nothing is lost, and the order is kept exactly if it is not an unchecked message with no batch open while a different one waits |
| Session.SentOutOfOrder | sally_net/src/main/resources/sally/web/sally/org/cometd.js:1772-1843 | how the order is lost: a message waits in a batch, the session is ended, the batch closed, and another message sent unchecked: it leaves, the first one still waits |
| Session.HeldInBatch | sally_net/src/main/resources/sally/web/sally/org/cometd.js:1772-1843 | while a batch is open, the internal one included, the application's calls put nothing on the wire; once none is open and the session is on, nothing waits; batches are counted |
| Session.AnswerArms | sally_net/src/main/resources/sally/web/sally/org/cometd.js:2017-2157 | which operation every handled answer arms, which status and backoff it leaves: advice `none` nothing, success a connect, a failed handshake or the advice `handshake` a handshake, otherwise a connect |
| Session.EndForgets | sally_net/src/main/resources/sally/web/sally/org/cometd.js:1891-1912 | the answer to a disconnect forgets the client id, the armed operation, the batches and the queue |
| Session.AdviceTaken | sally_net/src/main/resources/sally/web/sally/org/cometd.js:1882-1889 | each part of an advice wins over the configuration, which fills in the missing ones; without an advice the old one stays |
| Session.RehandshakeConnects | sally_net/src/main/resources/sally/web/sally/org/cometd.js:1928-1936 | a handshake tried again while the session is on connects on success even though the advice said `handshake` |
| Session.HandshakeStartsOver | sally_net/src/main/resources/sally/web/sally/org/cometd.js:1916-1981 | a handshake clears client id and batches, opens the internal one, keeps the queue, and sends one message without an id |
| Session.ReestablishTells | sally_net/src/main/resources/sally/web/sally/org/cometd.js:2040-2047 | the flag tells whether a handshake succeeded since the application called handshake() |
| Session.AlwaysPolls | sally_net/src/main/resources/sally/web/sally/org/cometd.js:1848-1880 | in every run only connects go out as long polls |
| Session.ConnectedIsLastAnswer | sally_net/src/main/resources/sally/web/sally/org/cometd.js:2113-2157 | `connected` is whether the last answer to a connect was a success |
| Session.ApplyKeepsSound | sally_net/src/main/resources/sally/web/sally/org/cometd.js:1684-2395 | the step of that invariant |
| Session.NothingWithoutClientId | sally_net/src/main/resources/sally/web/sally/org/cometd.js:1684-1698 | in a run without anonymous replies whatever publish, subscribe, unsubscribe or the end of a batch puts on the wire carries the session's non-empty client id |
| Session.MetaSends | sally_net/src/main/resources/sally/web/sally/org/cometd.js:1848-1880 | each event puts at most one handshake, connect or disconnect on the wire: a handshake only by the application or the timer, a connect only by the timer, a disconnect exactly when the application ends a session that is on |
| Session.AnswerEffect | sally_net/src/main/resources/sally/web/sally/org/cometd.js:1998-2157 | what an answer to a handshake or connect does to timer and status |
| Session.OtherEffect | sally_net/src/main/resources/sally/web/sally/org/cometd.js:1772-1990 | what every other event does to them |
| Session.ResponseIsRun | sally_net/src/main/resources/sally/web/sally/org/cometd.js:2312-2395 | a response with several replies is a run of single ones up to the first that throws |
| Session.FailureIsRun | sally_net/src/main/resources/sally/web/sally/org/cometd.js:1731-1765 | so is the failure of a request with several messages |
| Session.RunAppend | sally_net/src/main/resources/sally/web/sally/org/cometd.js:2312-2395 | runs one after the other are one run, so the theorems cover responses |
| Session.FollowIsRun | sally_net/src/main/resources/sally/web/sally/org/cometd.js:2593-2598 | the runs of the one-handshake theorems are among those of the others |
| Cometd.Client.AppPosts | sally_net/src/main/resources/sally/web/sally/org/cometd.js:2735-2860 | refused exactly while disconnected; otherwise the message is behind all others, sent or waiting, held back exactly if a batch is open; keeps the object valid, and once the client id is known whatever leaves carries it |
| Cometd.Client.EndBatch | sally_net/src/main/resources/sally/web/sally/org/cometd.js:1831-1843 | throws exactly if no batch is open; sent and waiting messages stay the same in order, and with the last batch all are sent; keeps the object valid, and what it flushes carries the client id |
| Cometd.Client.Receive | sally_net/src/main/resources/sally/web/sally/org/cometd.js:2312-2361 | keeps the object valid, and the client id known unless the reply is an anonymous one |
| Cometd.Client.Fail | sally_net/src/main/resources/sally/web/sally/org/cometd.js:2069-2190 | a failed message never costs the client id |
| Cometd.Client.HandleMessages | sally_net/src/main/resources/sally/web/sally/org/cometd.js:2312-2395 | the loop over the replies of one response, up to the first that throws: valid throughout, and the id stays known if every successful reply brings one |
| Cometd.Client.HandleFailure | sally_net/src/main/resources/sally/web/sally/org/cometd.js:1731-1765 | the loop over the messages of a failed request, likewise |
| Cometd.Client.AppHandshakes | sally_net/src/main/resources/sally/web/sally/org/cometd.js:2593-2598 | keeps the object valid; nothing can leave freely until the reply comes |
| Cometd.Client.AppDisconnects | sally_net/src/main/resources/sally/web/sally/org/cometd.js:2608-2630 | sends one disconnect, once, and leaves the client disconnected |
| Cometd.Client.TimerFires | sally_net/src/main/resources/sally/web/sally/org/cometd.js:1658-1673 | the armed operation disarms itself and runs; the object stays valid |
| Cometd.Client.HandshakeResponse | sally_net/src/main/resources/sally/web/sally/org/cometd.js:2017-2067 | the id is taken as it comes, the internal batch is flushed, and the advice decides, or an exception is raised |
| Cometd.Client.FailConnect | sally_net/src/main/resources/sally/web/sally/org/cometd.js:2082-2111 | what the advice decides after a failed connect |
| Cometd.Client.SendAll | sally_net/src/main/resources/sally/web/sally/org/cometd.js:1684-1770 | the loop gives consecutive ids and attaches the client id if it is one |
| Joint.NeverConcurrent | sally_net/src/main/resources/sally/web/sally/org/cometd.js:547-562 | a session on its transport, every run, disconnect(), resets and aborts included: no step ends in an exception of the transport, so neither "Concurrent metaConnect requests not allowed" nor "Longpoll request mismatch" is ever thrown, and a metaConnect request implies a connect in flight |
| Joint.StepKeeps | sally_net/src/main/resources/sally/web/sally/org/cometd.js:438-562 | the step of that: a long poll is on the wire for each connect in flight, and the transport knows of no other |
| Joint.PollEnds | sally_net/src/main/resources/sally/web/sally/org/cometd.js:438-449 | the end of a long poll finds its own request |
| Joint.OrdinaryKeeps | sally_net/src/main/resources/sally/web/sally/org/cometd.js:451-545 | ordinary exchanges, timers and late answers leave the long poll alone |
| Joint.StartsAfresh | sally_net/src/main/resources/sally/web/sally/org/cometd.js:1928-1940 | a handshake of a session that was off starts on a transport that knows of no long poll and of no request but this one |
| Joint.ForgetsInFlight | sally_net/src/main/resources/sally/web/sally/org/cometd.js:576-605 | a failed connect advised to handshake, or a failed disconnect, makes the transport forget requests and queue; the exchanges stay |
| Transport.Conserved | sally_net/src/main/resources/sally/web/sally/org/cometd.js:361-545 | every run without reset or abort: the books agree (tracked requests are the ordinary exchanges on the wire, never more than maxConnections-1, and a queue stands only behind full slots or a pending failure timer), and the envelopes taken on are exactly those on the wire, queued, failing, merged or called back |
| Transport.ExactlyOnePlace | sally_net/src/main/resources/sally/web/sally/org/cometd.js:361-545 | an envelope accepted once is in one of these places and was called back at most once |
| Transport.EachCompletionResolves | sally_net/src/main/resources/sally/web/sally/org/cometd.js:451-545 | each answer, failure, timeout and failure timer leaves strictly fewer envelopes unresolved, except an answer after expiry, which leaves as many |
| Transport.NeverStuck | sally_net/src/main/resources/sally/web/sally/org/cometd.js:417-511 | unresolved envelopes always have an exchange or a timer to wait for |
| Transport.LateAnswerChangesNothing | sally_net/src/main/resources/sally/web/sally/org/cometd.js:518-545 | in every run, a success or failure of an exchange that has expired changes no field of the transport and calls nothing back; its envelope was called back when it expired |
| Transport.NotifiedKeeps | sally_net/src/main/resources/sally/web/sally/org/cometd.js:397-413 | whatever expires is called back in the same step |
| Transport.LiveWithout | sally_net/src/main/resources/sally/web/sally/org/cometd.js:518-545 | ending or expiring takes exactly that exchange out of the live ones, ending late none |
| Transport.WireOrder | sally_net/src/main/resources/sally/web/sally/org/cometd.js:361-474 | runs without failures, autoBatch on or off: messages on the wire followed by those still queued are exactly those accepted, in order, each to the URL and of the kind it was accepted for |
| Transport.ApplyKeeps | sally_net/src/main/resources/sally/web/sally/org/cometd.js:361-574 | every event keeps the books and does not throw unless a second metaConnect is sent |
| Transport.ApplyConserves | sally_net/src/main/resources/sally/web/sally/org/cometd.js:361-574 | no step loses or doubles an envelope |
| Transport.TrackedRemove | sally_net/src/main/resources/sally/web/sally/org/cometd.js:451-457 | removing by identity takes exactly the settled exchange out of the books |
| Transport.CompleteInOrder | sally_net/src/main/resources/sally/web/sally/org/cometd.js:451-474 | moving up after a success keeps the order, coalescing included |
| Transport.CoalesceTakes | sally_net/src/main/resources/sally/web/sally/org/cometd.js:361-378 | for every queue: what is merged is the longest part of its head that goes to the same URL and is of the same kind, in order, and the result goes there too |
| Transport.SuccessMovesUp | sally_net/src/main/resources/sally/web/sally/org/cometd.js:417-474 | an ordinary success sends exactly the head of the queue, and with autoBatch what was merged into it; without autoBatch nothing is ever merged |
| Transport.FailureSendsNothing | sally_net/src/main/resources/sally/web/sally/org/cometd.js:475-511 | a failure, timeout or failure timer sends nothing: it hands the head of the queue to a timer that fails it |
| RequestTransport.LongPolling.Send | sally_net/src/main/resources/sally/web/sally/org/cometd.js:547-574 | throws exactly if a second metaConnect is sent, and then changes nothing; otherwise the envelope is taken on, and the books agree |
| RequestTransport.LongPolling.TransportSuccess | sally_net/src/main/resources/sally/web/sally/org/cometd.js:518-535 | never throws; of an expired exchange it changes nothing, otherwise fewer envelopes are unresolved, none is lost, and this one is called back |
| RequestTransport.LongPolling.TransportFailure | sally_net/src/main/resources/sally/web/sally/org/cometd.js:537-545 | likewise for a failure |
| RequestTransport.LongPolling.Expires | sally_net/src/main/resources/sally/web/sally/org/cometd.js:397-413 | the timeout flags the request, completes it and fails its envelope: never throws, fewer envelopes are unresolved, none is lost |
| RequestTransport.LongPolling.Cascades | sally_net/src/main/resources/sally/web/sally/org/cometd.js:475-492 | the failure timer likewise |
| RequestTransport.LongPolling.CoalesceEnvelopes | sally_net/src/main/resources/sally/web/sally/org/cometd.js:361-378 | the loop takes off the head of the queue exactly the envelopes before the first one to another URL or of another kind, and its result goes to the place of the envelope it started from |
| RequestTransport.LongPolling.RemoveRequest | sally_net/src/main/resources/sally/web/sally/org/cometd.js:453-458 | the request is taken out of the list if it is there |
| Splitter.Split | sally_net/src/main/resources/sally/web/sally/org/cometd.js:745-786 | the loop ends; its chunks are not empty, within the URL limit, longest-fitting and cover all messages; it gives up only at a message that is too big, and for a size that grows with its messages exactly if there is one |
| Splitter.Divide | sally_net/src/main/resources/sally/web/sally/org/cometd.js:788-811 | the envelopes made from the lengths hold the messages of the chunks: the first is sent, the others go behind the queue |
| Splitter.ChunksConcatenate | sally_net/src/main/resources/sally/web/sally/org/cometd.js:788-811 | the chunks in order are the original messages |
| Splitter.ChunkAt | sally_net/src/main/resources/sally/web/sally/org/cometd.js:788-811 | there is a chunk for each length, it has that length and starts where those before it end |
| Splitter.ChunksFit | sally_net/src/main/resources/sally/web/sally/org/cometd.js:745-811 | after a successful split every chunk sent has a message in it and is within the URL limit |
| Splitter.GreedyUnique | sally_net/src/main/resources/sally/web/sally/org/cometd.js:745-786 | there is only one longest-fitting split |
| Splitter.SplitMeansAllFit | sally_net/src/main/resources/sally/web/sally/org/cometd.js:756-770 | where a split exists no single message is too big |
| WebSocket.Transport.Send | sally_net/src/main/resources/sally/web/sally/org/cometd.js:1202-1220 | the envelope is stored under its ids, and its timeouts are set if the socket is open; pending keys stay pairwise disjoint and cover the unanswered ids |
| WebSocket.Transport.OnOpen | sally_net/src/main/resources/sally/web/sally/org/cometd.js:1057-1074 | all stored envelopes are sent: afterwards the timeouts are exactly those of the unanswered ids; pending keys stay pairwise disjoint and cover the unanswered ids |
| WebSocket.Transport.OnMessage | sally_net/src/main/resources/sally/web/sally/org/cometd.js:1076-1151 | the envelopes are those of before under the ids still unanswered, gone with the last; timeouts and unanswered ids shrink alike; replies to meta messages answer their ids, publish replies only without data, messages of others nothing; the transport closes exactly if a disconnect reply comes with no connect held; pending keys stay pairwise disjoint and cover the unanswered ids |
| WebSocket.Transport.AnswerOne | sally_net/src/main/resources/sally/web/sally/org/cometd.js:1117-1139 | at most one envelope is affected by an id: it moves to its remaining ids or leaves |
| WebSocket.Transport.OnClose | sally_net/src/main/resources/sally/web/sally/org/cometd.js:1153-1188 | each remaining envelope is failed exactly once, and both maps are empty; pending keys stay pairwise disjoint and cover the unanswered ids |
| WebSocket.AnsweredByKind | sally_net/src/main/resources/sally/web/sally/org/cometd.js:1084-1127 | for any frame: an id is answered by a meta reply with data or without, by a publish reply without data, and not by a message with data |
| WebSocket.WhatCloses | sally_net/src/main/resources/sally/web/sally/org/cometd.js:1084-1127 | a disconnect reply closes unless a connect is held; a connect reply releases it only for what comes before it in the frame |
| WebSocket.PrunedKeeps | sally_net/src/main/resources/sally/web/sally/org/cometd.js:1117-1139 | taking out answered ids keeps the keys without duplicates and disjoint, and their union the unanswered ids |
| WebSocket.PrunedTwice | sally_net/src/main/resources/sally/web/sally/org/cometd.js:1117-1139 | answering ids in several frames is answering them together |
| WebSocket.LeavesWithLastId | sally_net/src/main/resources/sally/web/sally/org/cometd.js:1117-1139 | an envelope is still pending exactly if one of its ids is unanswered, and then under exactly those; one without ids stays until the socket closes |
| WebSocket.LeftIsSplice | sally_net/src/main/resources/sally/web/sally/org/cometd.js:1123-1138 | the splice at the found index leaves the other ids in order |
| Collection.Collection.Set | sally_net/src/main/resources/sally/web/sally/backbone/backbone.js:662-751 | models already in the collection are kept by identity, others are the ones given or newly made; the sequence afterwards is stated for every combination of add, remove and at; and the books (sequence, length, index by id and by client id) agree afterwards if and only if it is not the case that an unsorted add-and-remove without `at` got two inputs that are the same model or carry the same id |
| Collection.SetTakesInputOrder | sally_net/src/main/resources/sally/web/sally/backbone/backbone.js:662-751 | with valid, pairwise different inputs the sequence has the order of the inputs |
| Collection.DistinctUnlessClash | sally_net/src/main/resources/sally/web/sally/backbone/backbone.js:678-711 | a model stands twice in the new order exactly if two inputs clash |
| Collection.SetMembers | sally_net/src/main/resources/sally/web/sally/backbone/backbone.js:662-751 | for all options: a model is a member afterwards exactly if it was one and is not removed, or an input led to it and adding is on |
| Collection.NewsInOrder | sally_net/src/main/resources/sally/web/sally/backbone/backbone.js:678-711 | new models come in the order of their first inputs |
| Collection.InsertedAt | sally_net/src/main/resources/sally/web/sally/backbone/backbone.js:721-736 | place by place: what is added stands together from `at` on, the rest keeps its order |
| Collection.OrderedAgrees | sally_net/src/main/resources/sally/web/sally/backbone/backbone.js:721-736 | for the ordered form: length and index fit the new sequence exactly if no inputs clash |
| Collection.TrackedGrows | sally_net/src/main/resources/sally/web/sally/backbone/backbone.js:678-711 | one more input keeps the relation between inputs and models: the same model exactly for the same input |
| Collection.Collection.GetMeans | sally_net/src/main/resources/sally/web/sally/backbone/backbone.js:799-802 | a lookup finds a model exactly if it is a member and is meant by the argument |
| Collection.Collection.Add | sally_net/src/main/resources/sally/web/sally/backbone/backbone.js:631-633 | the books agree whatever the inputs, duplicates included |
| Collection.AddKeepsMembers | sally_net/src/main/resources/sally/web/sally/backbone/backbone.js:631-633 | adding keeps all members in order, and puts the new ones behind them or together at `at` |
| Collection.Collection.Remove | sally_net/src/main/resources/sally/web/sally/backbone/backbone.js:636-656 | exactly the members meant by the inputs go, the rest keeps its order, and the books agree |
| Collection.Collection.Reset | sally_net/src/main/resources/sally/web/sally/backbone/backbone.js:757-767 | the collection holds the models of the inputs, each once, in order of first occurrence, whatever it held before, and the books agree |
| Collection.Collection.ChangeId | sally_net/src/main/resources/sally/web/sally/backbone/backbone.js:929-937 | after a member's id changed the books agree if and only if no other member has the new id |
| Collection.RekeyedAgrees | sally_net/src/main/resources/sally/web/sally/backbone/backbone.js:932-935 | moving the entry of the changed id keeps the index right exactly if the new id was free |
| Collection.Collection.Resolve | sally_net/src/main/resources/sally/web/sally/backbone/backbone.js:678-711 | one input of `set`: a member it means, else a new model, indexed at once |
| Collection.Collection.ResolveAll | sally_net/src/main/resources/sally/web/sally/backbone/backbone.js:678-711 | the first loop of `set` |
| Collection.Collection.RemoveOthers | sally_net/src/main/resources/sally/web/sally/backbone/backbone.js:713-719 | the members no input meant are removed |
| Collection.Collection.RemoveOne | sally_net/src/main/resources/sally/web/sally/backbone/backbone.js:642-653 | one member leaves sequence, length and index |
| Collection.WithoutIsSplice | sally_net/src/main/resources/sally/web/sally/backbone/backbone.js:646-648 | the splice at its index removes exactly one element |
| KnowledgeBase.Base.PropagateParentMessage | sally_jbpm/src/main/java/info/kwarc/sissi/bpm/AbstractKnowledgeBase.java:85-98 | ends, and signals exactly the nearest proper ancestor that accepts the message, if there is one, never the sender: the signal has that process as target, carries the message, and names the sender if the catch-all takes it |
| KnowledgeBase.Base.PropagateChildMessage | sally_jbpm/src/main/java/info/kwarc/sissi/bpm/AbstractKnowledgeBase.java:62-83 | signals the topmost child that accepts, with that child as target and the message in the signal, returns true exactly if there is one, and leaves the relations a forest |
| KnowledgeBase.Base.OfferDown | sally_jbpm/src/main/java/info/kwarc/sissi/bpm/AbstractKnowledgeBase.java:72-82 | the loop that pops, tries and puts back; the signal goes to the child that accepts |
| KnowledgeBase.OfferKeepsChildren | sally_jbpm/src/main/java/info/kwarc/sissi/bpm/AbstractKnowledgeBase.java:62-83 | no child is lost or doubled, and the one that took the message ends on top |
| KnowledgeBase.Base.AddRelation | sally_jbpm/src/main/java/info/kwarc/sissi/bpm/AbstractKnowledgeBase.java:100-113 | for any parent and child: the two maps are still inverse to each other and acyclic if and only if the child had no parent yet and is not the parent or above it, as for new processes; otherwise no ranking makes them a forest |
| KnowledgeBase.ForestGrows | sally_jbpm/src/main/java/info/kwarc/sissi/bpm/AbstractKnowledgeBase.java:105-112 | a root with everything below it can be moved beneath a process that is not below it |
| KnowledgeBase.ForestBreaks | sally_jbpm/src/main/java/info/kwarc/sissi/bpm/AbstractKnowledgeBase.java:105-112 | a second parent, or a parent from below, always breaks the forest |
| KnowledgeBase.Base.TrySendMessage | sally_jbpm/src/main/java/info/kwarc/sissi/bpm/AbstractKnowledgeBase.java:47-60 | a signal goes out exactly if the message or the catch-all event is callable: to the target, with the message, and with the sender exactly if the catch-all comes first |
| KnowledgeBase.ReactionReaches | sally_jbpm/src/main/java/info/kwarc/sissi/bpm/AbstractKnowledgeBase.java:47-60 | target, message, form and sender of the signal, from the order of the callable events alone |
| KnowledgeBase.OfferOrder | sally_jbpm/src/main/java/info/kwarc/sissi/bpm/AbstractKnowledgeBase.java:62-83 | place by place: the children below the acceptor stay, those above it follow in the order they were tried, the acceptor is on top |
| KnowledgeBase.NewChildFirst | sally_jbpm/src/main/java/info/kwarc/sissi/bpm/AbstractKnowledgeBase.java:100-113 | the child added last is offered a message first, the others in their order |
| KnowledgeBase.ForestReordered | sally_jbpm/src/main/java/info/kwarc/sissi/bpm/AbstractKnowledgeBase.java:62-83 | reordering the children of one process keeps the forest |
| KnowledgeBase.Ancestors | sally_jbpm/src/main/java/info/kwarc/sissi/bpm/AbstractKnowledgeBase.java:86-97 | no process is its own ancestor, and ranks fall along the way up |
| KnowledgeBase.AncestorsChain | sally_jbpm/src/main/java/info/kwarc/sissi/bpm/AbstractKnowledgeBase.java:86-97 | the ancestors are the parent, its parent, and so on up to a process without one, each once |
| Micros.MicrosRoundTrip | sally_net/src/main/resources/sally/web/sally/asmeditorlib/json3.js:52-123 | toMicros after fromMicros is the identity on exactly the lists in which every 'in' is directly followed by a skip |
| Micros.NormalRoundTrip | sally_net/src/main/resources/sally/web/sally/asmeditorlib/json3.js:52-123 | fromMicros after toMicros is the identity on exactly the operations in normal form |
| Micros.AppendContinues | sally_net/src/main/resources/sally/web/sally/asmeditorlib/json3.js:77-123 | appending b to what a gives is what a and b together give |
| Micros.AppendAdds | sally_net/src/main/resources/sally/web/sally/asmeditorlib/json3.js:81-123 | appending to a normal operation gives a normal operation with exactly the added micros |
| Micros.AppendMicros | sally_net/src/main/resources/sally/web/sally/asmeditorlib/json3.js:81-123 | the loop, its run collection included, appends pair by pair; a list that ends after 'in' raises an exception |
| Micros.CollectRun | sally_net/src/main/resources/sally/web/sally/asmeditorlib/json3.js:86-98 | the inner loop collects the maximal run of in-skip pairs |
| Micros.PushRunAtOnce | sally_net/src/main/resources/sally/web/sally/asmeditorlib/json3.js:86-103 | pushing a run at once is pushing it pair by pair |
| Micros.ToMicros | sally_net/src/main/resources/sally/web/sally/asmeditorlib/json3.js:52-75 | the loop over components writes the micros of each in turn |
| BaseX.UnescapeEscape | sally_projects/src/main/java/info/kwarc/sally/projects/BaseXClient.java:242-247 | for all bytes and whatever follows: what was sent is received, and reading stops right after the terminator |
| BaseX.EscapeAdds | sally_projects/src/main/java/info/kwarc/sally/projects/BaseXClient.java:294-303 | every zero byte and every escape byte takes one byte more on the wire, all others none |
| BaseX.UnescapeCutOff | sally_projects/src/main/java/info/kwarc/sally/projects/BaseXClient.java:242-247 | data that ends without its terminator is received whole, an escape cut off there as 0xFF |
| BaseX.ItemsRecovered | sally_projects/src/main/java/info/kwarc/sally/projects/BaseXClient.java:398-415 | any list of items with non-zero type bytes is recovered |
| BaseX.SendData | sally_projects/src/main/java/info/kwarc/sally/projects/BaseXClient.java:294-303 | the loop sends the escaped bytes and a terminator |
| BaseX.Receive | sally_projects/src/main/java/info/kwarc/sally/projects/BaseXClient.java:242-247 | the loop reads up to the terminator or the end; an escape at the end yields 0xFF |
| BaseX.ReadItems | sally_projects/src/main/java/info/kwarc/sally/projects/BaseXClient.java:398-415 | the loop of `more` |

## Left out

- Streams.Base64Stream.constructor: what a stream delivers is stated for text padded as the format asks, broken or foreign characters in it included; behind misplaced padding the source computes with lookups that are not bytes.
- Util.Unserialize: such text ends in an outcome that is not followed. JSON text, and the evaluation of the class name beyond finding the schema of that name, are not modelled.
- Util.Delivered: a message counts as sendable if every payload is shorter than 2^31 bytes, every field id is between 1 and 2^28-1, and every fixed32 and sfixed32 value is one that survives the crossed parsers.
- MessageCodec.ParseField: the two things named for MergeProperties end it alike.
- MessageCodec.MergeProperties: two things are not followed past the point where they happen: a number cut off by the end of a byte array, which becomes NaN, and a negative length, which moves the read position of a byte array back; both end in one outcome of their own.
- Message objects are trees of values, so that aliasing between a message and its sub-messages is not captured; assigning and reading single fields (`SetField`, `GetField`) is not modelled, nor are tuple fields (cardinality above 1), which no schema in `comm/common.js` uses.
- Integers.ParseInverts: the float and double types are left out: rounding and host typed arrays are what they are about.
- Varint.ParseLEVar128: when bytes run out the source leaves NaN in the object it fills; here it says so and what the object then holds is not stated.
- Streams: the streams on typed array buffers are left out; writing to one of them loses earlier contents when it grows.
- Bit operations are written as arithmetic on the ranges in which they agree.
- Session.NeverForks: assumes what the transports provide, one answer for each message, and one `handshake()` of the application; a second one does not cancel what is armed.
- Session: listeners and extensions are the identity and do not call back; subscriptions, publish callbacks and the content of messages are left out, and delays are kept as data without time.
- Session: what `reset` and `abort` do to the transport is part of Joint only, and the first transport is taken to be available.
- Cometd.Client.HandshakeResponse: the choice of another transport is the one bit whether there is any.
- Cometd.Client.FailConnect: the transports' reset before a new handshake is part of Joint only.
- Cometd.Client.AppPosts: covers `publish`, `subscribe` and `unsubscribe` from the point where they decide to send.
- Transport: `reset` and `abort` are left out of its own runs; a success without replies, which both users of the transport report as a failure, is too; closures held by the browser (exchanges, timers) are explicit parts of the state.
- Transport.WireOrder: says nothing about callback polling, where later chunks go behind other queued envelopes, or about a WebSocket, whose stored envelopes are sent in the order of object keys.
- Splitter.Split: the length of a URL is a parameter, a function of the messages it carries.
- WebSocket.Transport.Send: message ids are fresh; exceptions while sending, opening the socket, `reset` and `abort` are not modelled, and the keys are lists of ids, not their comma-joined text.
- WebSocket.Transport.OnOpen: keys are visited in any order, each once.
- Collection.Collection.Set: collections with a comparator, events to listeners, merging and parsing of attributes other than the id, and the `collection` back reference are left out; ids and client ids are taken to be different strings; a negative `at` is not modelled.
- Collection.Collection.ChangeId: silent changes of an id fire no event and are not modelled.
- KnowledgeBase: sessions, process instances and the engine itself are not modelled, and a stack is a sequence with its top at the end.
- Micros.ToMicros: the payload of an edit is opaque; `apply`, `transform` and `compose` of the JSON type are unfinished in the source and left out.
- BaseX.ReadItems: the status byte and the error text after a result are left out, and so are login and commands.
- Underscore, user interface scripts, XHR, JSONP and socket input and output, the Java services and their wiring are left out.
