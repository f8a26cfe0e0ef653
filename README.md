# osc-js: a Dafny model of its OSC codec and subscription registries

osc-js is a JavaScript library for Open Sound Control (OSC 1.0). This project models its codec and its two subscription registries, and proves properties of them.

The codec covers the "OSC Packets", "Atomic Data Types", "OSC Messages" and "OSC Bundles" sections of the OSC 1.0 specification. Time tags use the 64-bit NTP format of section 6 of RFC 5905.

The model follows the source file by file, and in the source's own form:
- Pure helpers become functions with lemmas.
- Classes whose methods change their fields become Dafny classes. Each method is proved against a function that states its result or its new state.

Modules:
- `Utils`: the JavaScript values the library inspects, `isInt`/`isFloat`/… and `pad`, from src/common/utils.js and src/utils.js.
- `Bytes`: the big-endian DataView reads and writes.
- `AtomicBase`, `Int32Atomic`, `Int64Atomic`, `UInt64Atomic`, `StringAtomic`, `BlobAtomic`, `TimetagAtomic`: the atomics of src/atomic and their copies in lib/osc.browser.js, dist/osc.js and lib/osc.js.
  - The builds differ in one respect here: which values `pack` refuses as empty.
  - src, dist and lib/osc.js refuse every falsy value; lib/osc.browser.js refuses only `undefined`.
  - The model carries this as a parameter, `Guard`.
- `Helpers`: `typeTag`, `typeChar`, `prepareAddress`, `prepareRegExPattern` and `EncodeHelper`/`Helper`.
- `Messages`: `Message`, from src/message.js and lib/osc.browser.js. Which `typeTag` a build uses is the parameter `Helpers.Tagger`.
- `Packets`: `Bundle` and `Packet`, after lib/osc.browser.js, the self-consistent build.
- `LibMessage`: the `OSCMessage` of lib/osc.js. It packs and reads through `Messages`.
- `EventSpec`, `Events`: the flat `EventHandler` registry of src/events.js and of the browser build, stated on values and then implemented as a class.
  - This includes the browser build's `call`, `dispatch` and timed `notify`.
- `DistPacket`, `DistOption`: the time-tag ordering check of dist/osc.js `Packet.unpack`, and dist `option()`.
- `LegacyTree`, `LegacyRegistry`, `LegacyDecode`: the first implementation in src/osc.js.
  - `_addressToArray` and the tree-keyed `OSCEventHandler`.
  - The `OSCString`/`OSCInt`/`OSCFloat`/`OSCMessage` reader.

The atomics' `pack`/`unpack` follow lib/osc.browser.js, the build in which every atomic has them. src/ names the base methods `encode`/`decode`, and its atomics call the wrong names; "## Left out" says where. The atomics, `pad`, `typeChar`, `prepareAddress` and `EncodeHelper` of lib/osc.js (lines 7-472) call them `encode`/`decode` consistently. There they compute the same bytes and values as the browser build's methods. They are modelled once, with the falsy guard, and the rows below cite the src/ copy of each method's body.

Throwing becomes `Result` with the thrown message as its error. A value that is "falsy", "a string" or "a Uint8Array" is decided on the `Value` datatype exactly as the source's predicates decide it.

## Model

| member | source | states |
|---|---|---|
| Utils.IntFloatPartition | src/common/utils.js:6-17 | on a finite number exactly one of `isInt` and `isFloat` holds, and `isInt` holds exactly when the number is whole |
| Utils.IntFloatExclusive | src/utils.js:1-7 | no value is both an integer and a float, and a number that is not NaN is one of the two |
| Utils.ToInt32 | src/common/utils.js:96 | the operand of `&` is reduced to the int32 range, congruent to the input modulo 2^32 |
| Utils.Pad | src/common/utils.js:95-97 | `pad(n)` is a multiple of four in the int32 range, and for 0 <= n <= 2^31-4 it lies in n..n+3 |
| Utils.PadLeast | src/utils.js:21-23 | `pad(n)` is at most every multiple of four that is at least n: the least such multiple |
| Utils.PadSlack | src/utils.js:21-23 | `pad(n) - n` lies in 0..3 |
| Utils.PadIdentityOnMultiples | src/utils.js:21-23 | `pad` leaves multiples of four unchanged |
| Utils.PadIdempotent | src/common/utils.js:95-97 | `pad(pad(n)) == pad(n)` for every integer n, the wrapped ones included |
| Utils.PadExamples | test/common/utils.spec.js:7-12 | pad(0) = 0, pad(2) = 4, pad(8) = 8, pad(31) = 32 |
| Utils.PadWraps | src/common/utils.js:96 | past 2^31-4 the 32-bit `&` wraps: pad(2^31-3) = -2^31 |
| Bytes.ReadUnsigned | lib/osc.browser.js:242 | a DataView getter succeeds exactly when the whole word lies in the view, and the value is below 256^k |
| Bytes.ReadSigned | lib/osc.browser.js:242 | a signed getter succeeds exactly when the word lies in the view, with a value in the signed k-byte range |
| Bytes.ReadWritten | lib/osc.browser.js:229 | the bytes a setter writes read back as the value modulo 256^k |
| Bytes.WriteRead | lib/osc.browser.js:242 | writing back a value read from bytes yields the same bytes |
| Bytes.SignedRoundTrip | src/atomic/int32.js:25-37 | the signed reading recovers every value of the signed k-byte range |
| Bytes.UnsignedRoundTrip | src/atomic/uint64.js:34-46 | the unsigned reading recovers every value of the unsigned k-byte range |
| Bytes.WordExamples | test/atomic/int32.spec.js:7-9 | 42 is written as [0, 0, 0, 42], and -1 as four 255s |
| AtomicBase.WriteWord | src/atomic.js:8-15 | a setter on a fresh buffer of the word's width fails with a RangeError at a negative or nonzero offset and passes a conversion error through; otherwise it yields exactly the big-endian bytes |
| AtomicBase.WordPacked | src/atomic.js:7-17 | a value the emptiness guard refuses throws; packing succeeds exactly when the guard admits the value, the offset is 0 and the conversion succeeds, and then yields `width` bytes that read back as the value modulo 256^width |
| AtomicBase.PackWord | lib/osc.browser.js:219-231 | the method (fresh zeroed buffer, guard, setter) returns what `WordPacked` specifies |
| AtomicBase.SetWord | lib/osc.browser.js:229 | the k big-endian bytes land at the offset and no other byte of the buffer changes |
| AtomicBase.WordRead | src/atomic.js:20-24 | reading succeeds exactly when the word lies inside the view, returns the offset plus the width, and the value is in the signed or unsigned range of the width |
| AtomicBase.WordReadBytes | lib/osc.browser.js:234-245 | the value read is the one whose big-endian bytes are those of the view |
| AtomicBase.WordRoundTrip | src/atomic.js:7-24 | a word written at any offset of a view is read back as the same value, with the offset moved by the width |
| Int32Atomic.Bits | src/atomic/int32.js:25-27 | `setInt32` uses an integer as itself, converts the other falsy values to 0, and throws a TypeError for a BigInt |
| Int32Atomic.AtomicInt32.constructor | src/atomic/int32.js:13-19 | a new atomic holds the value at offset 0 |
| Int32Atomic.AtomicInt32.Create | src/atomic/int32.js:13-19 | a truthy value that is not an integer throws the constructor error; any other value gives a fresh atomic holding it at offset 0 |
| Int32Atomic.AtomicInt32.Pack | src/atomic/int32.js:25-27 | `pack` returns the bytes the word packing specifies for the held value, its offset and the build's guard |
| Int32Atomic.AtomicInt32.Unpack | src/atomic/int32.js:35-37 | `unpack` stores the signed word read and `initialOffset + 4`, returns that same offset, and leaves both fields unchanged when the read throws |
| Int32Atomic.RoundTrip | src/atomic/int32.js:25-37 | unpack(pack(v)) = v with offset 4 for every v in [-2^31, 2^31) that the guard admits |
| Int32Atomic.Wraps | src/atomic/int32.js:25-37 | an integer outside the int32 range is read back as its ToInt32 |
| Int32Atomic.ZeroGuard | src/atomic.js:11-13 | 0 cannot be packed where every falsy value is refused, and packs to four zeros where only `undefined` is |
| Int32Atomic.PackExample | test/atomic/int32.spec.js:7-27 | 42 packs to [0, 0, 0, 42] |
| Int32Atomic.PackOffsetOutOfRange | src/atomic.js:8-15 | a nonzero offset does not fit the 4-byte buffer and throws a RangeError |
| Int64Atomic.Construct | src/atomic/int64.js:14-29 | a truthy non-BigInt throws the type error; a BigInt outside [-2^63, 2^63-1] throws the bounds error; a falsy value is kept as `undefined`; any other value is kept |
| Int64Atomic.Bits | src/atomic/int64.js:35-37 | `setBigInt64` takes a BigInt as itself and throws a TypeError for anything else |
| Int64Atomic.AtomicInt64.constructor | src/atomic/int64.js:28 | a new atomic holds the kept value at offset 0 |
| Int64Atomic.AtomicInt64.Create | src/atomic/int64.js:14-29 | the constructor throws exactly what `Construct` throws and otherwise holds what it keeps, at offset 0 |
| Int64Atomic.AtomicInt64.Pack | src/atomic/int64.js:35-37 | `pack` returns the 8-byte word packing of the held value |
| Int64Atomic.AtomicInt64.Unpack | src/atomic/int64.js:45-47 | `unpack` stores the signed 8-byte word as a BigInt and the offset plus 8, returns that offset, and changes nothing when the read throws |
| Int64Atomic.RoundTrip | test/atomic/int64.spec.js:42-67 | every int64 the guard admits is packed to eight bytes and read back unchanged with offset 8; the constructor keeps every nonzero one and turns `0n` into `undefined` |
| Int64Atomic.Bounds | test/atomic/int64.spec.js:20-27 | MAX_INT64+1 and MIN_INT64-1 throw the bounds error, a number throws the type error, and `0n` is kept as `undefined` |
| Int64Atomic.PackMax | test/atomic/int64.spec.js:10-40 | MAX_INT64 packs to [127, 255, 255, 255, 255, 255, 255, 255] |
| UInt64Atomic.Construct | src/atomic/uint64.js:13-28 | a truthy non-BigInt throws the type error; a BigInt outside [0, 2^64-1] throws the bounds error; a falsy value is kept as `undefined`; any other value is kept |
| UInt64Atomic.Bits | src/atomic/uint64.js:34-36 | `setBigUint64` takes a BigInt as itself and throws a TypeError for anything else |
| UInt64Atomic.AtomicUInt64.constructor | src/atomic/uint64.js:27 | a new atomic holds the kept value at offset 0 |
| UInt64Atomic.AtomicUInt64.Create | src/atomic/uint64.js:13-28 | the constructor throws exactly what `Construct` throws and otherwise holds what it keeps, at offset 0 |
| UInt64Atomic.AtomicUInt64.Pack | src/atomic/uint64.js:34-36 | `pack` returns the 8-byte word packing of the held value |
| UInt64Atomic.AtomicUInt64.Unpack | src/atomic/uint64.js:44-46 | `unpack` stores the unsigned 8-byte word as a BigInt and the offset plus 8, returns that offset, and changes nothing when the read throws |
| UInt64Atomic.RoundTrip | src/atomic/uint64.js:34-46 | every uint64 the guard admits is packed to eight bytes and read back unchanged with offset 8; the constructor keeps every nonzero one and turns `0n` into `undefined` |
| UInt64Atomic.Bounds | test/atomic/uint64.spec.js:19-26 | MAX_UINT64+1 and -1 throw the bounds error, and a number throws the type error |
| UInt64Atomic.UnpackMax | test/atomic/uint64.spec.js:41-66 | eight 0xFF bytes read back as MAX_UINT64 with offset 8 |
| UInt64Atomic.PackMax | test/atomic/uint64.spec.js:9-39 | MAX_UINT64 packs to eight 255s |
| StringAtomic.Text | lib/osc.browser.js:328 | the text packed for a string value is that string |
| StringAtomic.Encoded | src/atomic/string.js:19-27 | the buffer exists exactly when pad(length+1) does not wrap negative; it has pad(length+1) bytes, a multiple of four and (below the wrap bound) strictly longer than the text and at most four bytes longer |
| StringAtomic.EncodedContents | src/atomic/string.js:21-25 | the buffer holds the character codes, then zeros: the NUL and the padding |
| StringAtomic.Packed | src/atomic/string.js:14-28 | a value the guard refuses throws the empty-value error; otherwise `pack` yields the encoding of the value's text |
| StringAtomic.NulFrom | src/atomic/string.js:35-44 | the scan stops at the first NUL at or after the start, or at the end of the view |
| StringAtomic.NulFromFirst | src/atomic/string.js:35-44 | no byte before the stopping index is a NUL |
| StringAtomic.Chars | src/atomic/string.js:51 | `String.fromCharCode` gives one character per byte |
| StringAtomic.Decoded | src/atomic/string.js:30-54 | `unpack` throws exactly when the offset is negative; the malformed-string check compares with `dataView.length`, which a DataView lacks, so it never fires |
| StringAtomic.AtomicString.constructor | src/atomic/string.js:6-12 | a new atomic holds the value at offset 0 |
| StringAtomic.AtomicString.Create | src/atomic/string.js:6-12 | a truthy value that is not a string throws the constructor error; any other value gives a fresh atomic at offset 0 |
| StringAtomic.AtomicString.Pack | src/atomic/string.js:14-28 | the loop writes the codes of the terminated text into a fresh zeroed buffer of pad(length) bytes, which is exactly `Packed` |
| StringAtomic.AtomicString.Unpack | src/atomic/string.js:30-54 | the scan loop stores the characters before the first NUL and pad of the index past it, returns that offset, and changes nothing when it throws |
| StringAtomic.RoundTripAt | src/atomic/string.js:14-54 | a string of codes 1..255 packed at any 4-aligned offset of a view is read back unchanged, with the offset just past its padding |
| StringAtomic.DecodesEverywhere | src/atomic/string.js:30-54 | the packing of such a string is read back at every aligned offset where a view holds it |
| StringAtomic.RoundTrip | src/atomic/string.js:14-54 | unpack(pack(s)) = s, with the offset equal to the packed length |
| StringAtomic.PackExample | test/atomic/string.spec.js:38-45 | 'hallo' packs to [104, 97, 108, 108, 111, 0, 0, 0] |
| StringAtomic.EmptyGuard | lib/osc.browser.js:325-327 | '' is refused where falsy values are, packs to four zeros where only `undefined` is, and 0 packs as the text "0" |
| StringAtomic.UnterminatedAccepted | src/atomic/string.js:46-48 | a view without a NUL is read to its end without an error |
| BlobAtomic.Payload | src/atomic/blob.js:19-24 | a Uint8Array supplies its bytes; reading `byteLength` of `null` throws; the other falsy values copy nothing |
| BlobAtomic.Encoded | src/atomic/blob.js:19-26 | the buffer exists exactly when pad(n) does not wrap below n, and has 4 + pad(n) bytes, a multiple of four |
| BlobAtomic.EncodedIs | src/atomic/blob.js:19-26 | the buffer is the size word, the payload, then zeros |
| BlobAtomic.EncodedSize | src/atomic/blob.js:23 | the first four bytes hold n as a big-endian int32 |
| BlobAtomic.EncodedPayload | src/atomic/blob.js:24 | the payload is copied from byte 4 on |
| BlobAtomic.EncodedPadding | src/atomic/blob.js:20-24 | every byte after the payload is zero |
| BlobAtomic.EncodedOfParts | src/atomic/blob.js:19-26 | a buffer of 4 + pad(n) bytes with the size word, the payload and zeros after it is the encoding |
| BlobAtomic.Packed | src/atomic/blob.js:14-27 | a value the guard refuses throws the empty-value error; a Uint8Array admitted by the guard yields its encoding |
| BlobAtomic.Decoded | src/atomic/blob.js:29-36 | `decode` reads the size n at the offset, takes the next n bytes of the view as the value and returns pad(offset + 4 + n); a size word outside the view is a RangeError |
| BlobAtomic.AtomicBlob.constructor | src/atomic/blob.js:6-12 | a new atomic holds the value at offset 0 |
| BlobAtomic.AtomicBlob.Create | src/atomic/blob.js:6-12 | a truthy value that is not a Uint8Array throws the constructor error; any other value gives a fresh atomic at offset 0 |
| BlobAtomic.AtomicBlob.Pack | lib/osc.browser.js:376-387 | the size written with `setInt32` at 0 and the payload copied at 4 into a fresh zeroed buffer give exactly `Packed` |
| BlobAtomic.AtomicBlob.Unpack | lib/osc.browser.js:389-399 | `unpack` stores the payload read and the padded offset, returns that offset, and changes nothing when it throws |
| BlobAtomic.DecodedSize | src/atomic/blob.js:30 | the size word of a decoded blob holds the payload's length |
| BlobAtomic.RoundTripAt | src/atomic/blob.js:14-36 | an encoding at any 4-aligned offset of a view is decoded to the same payload, with offset + 4 + pad(n) |
| BlobAtomic.DecodesEverywhere | src/atomic/blob.js:29-36 | the encoding of a payload is decoded back at every aligned offset where a view holds it |
| BlobAtomic.RoundTrip | src/atomic/blob.js:14-36 | decode(encode(b)) = b with offset 4 + pad(|b|) |
| BlobAtomic.PackExample | test/atomic/blob.spec.js:7-32 | [54, 42, 11, 33, 66] packs to 12 bytes: size 5, the payload, three zeros |
| BlobAtomic.FalsyValues | lib/osc.browser.js:378-386 | where only `undefined` is refused, `null` throws on its `byteLength` and 0 encodes as an empty blob; where falsy values are refused, 0 throws |
| TimetagAtomic.FromMilliseconds | src/atomic/timetag.js:21-28 | the setter stores floor(ms / 1000) + 2208988800 seconds and a fraction word in [0, 2^32) |
| TimetagAtomic.RoundedAfterSetter | lib/osc.browser.js:524-534 | the browser getter after the setter returns ms rounded to the nearest whole second, halves up |
| TimetagAtomic.WholeSeconds | src/atomic/timetag.js:31-32 | for a zero fraction both getters return (seconds - 2208988800) * 1000 |
| TimetagAtomic.GetterExample | lib/osc.browser.js:533-534 | the browser getter of (3718482449, 131799040) is 1509493649000 |
| TimetagAtomic.Timetag.Tag | src/atomic/timetag.js:14-15 | the time tag value is the pair of fields |
| TimetagAtomic.Timetag.constructor | src/atomic/timetag.js:9-16 | a new Timetag holds the given seconds and fractions |
| TimetagAtomic.Timetag.Create | src/atomic/timetag.js:9-16 | missing words default to 0; the constructor throws exactly when either word is not an integer, and otherwise stores both |
| TimetagAtomic.Timetag.SetTimestamp | src/atomic/timetag.js:18-29 | the setter overwrites both words with the time tag of ms and returns ms |
| TimetagAtomic.Encoded | src/atomic/timetag.js:50-57 | eight bytes: the seconds word, then the fractions word, each big-endian |
| TimetagAtomic.Decoded | src/atomic/timetag.js:60-64 | the read succeeds exactly when eight bytes lie in the view at the offset, yields two unsigned 32-bit words, and ends 8 bytes on |
| TimetagAtomic.DecodedBytes | src/atomic/timetag.js:60-64 | the eight bytes decoded are the encoding of the time tag read |
| TimetagAtomic.RoundTripAt | src/atomic/timetag.js:45-68 | a time tag with both words in [0, 2^32) is decoded back unchanged from wherever its encoding sits |
| TimetagAtomic.EncodeExample | test/atomic/timetag.spec.js:41-66 | (129123, 283711) encodes to [0, 1, 248, 99, 0, 4, 84, 63] |
| TimetagAtomic.BrowserDefault | lib/osc.browser.js:541-552 | no argument gives the time tag of now, an integer or a Date that of its milliseconds, and any other value (0, 0) |
| TimetagAtomic.AtomicTimetag.constructor | src/atomic/timetag.js:37-43 | a new atomic holds the given Timetag at offset 0 |
| TimetagAtomic.AtomicTimetag.Create | src/atomic/timetag.js:37-43 | a truthy value that is not a Timetag throws; a falsy one leaves the atomic empty |
| TimetagAtomic.AtomicTimetag.CreateBrowser | lib/osc.browser.js:541-553 | a given Timetag is kept; otherwise a fresh Timetag holds `BrowserDefault` of the argument |
| TimetagAtomic.AtomicTimetag.Pack | src/atomic/timetag.js:45-58 | an empty atomic throws; otherwise the eight bytes of its time tag |
| TimetagAtomic.AtomicTimetag.DecodeAsWritten | src/atomic/timetag.js:60-68 | the time tag read is stored, but the offset becomes the atomic's previous offset plus 8, not the read offset plus 8 |
| TimetagAtomic.AtomicTimetag.Unpack | lib/osc.browser.js:570-581 | the time tag read is stored and the offset becomes the read offset plus 8 |
| TimetagAtomic.DecodeOffsetExample | src/atomic/timetag.js:65 | decoding the second of two time tags with a fresh atomic reports offset 8 as written and 16 once corrected |
| Helpers.TypeTagAsWritten | src/common/helpers.js:18-36 | every tag `typeTag` returns is one of i, f, s, b, T, F and N |
| Helpers.InfinityTaggedFloat | src/common/helpers.js:19-33 | `isFloat(Infinity)` holds, so Infinity is tagged 'f' and no value is ever tagged 'I' |
| Helpers.TypeTag | src/common/helpers.js:18-36 | with the Infinity test first, each tag is returned exactly for its kind of value (integer 'i', other number 'f', string 's', Uint8Array 'b', true 'T', false 'F', null 'N', Infinity 'I'), and anything else throws |
| Helpers.TypeTagAgrees | src/common/helpers.js:18-36 | the corrected and the as-written `typeTag` agree on every value other than Infinity |
| Helpers.TypeChar | src/helpers.js:3-15 | `typeChar` returns 'i', 'f', 's' or 'b' exactly for integers, other numbers, strings and Uint8Arrays, and throws on anything else |
| Helpers.TypeCharRefinesTypeTag | src/helpers.js:3-15 | where the older `typeChar` succeeds, `typeTag` gives the same tag |
| Helpers.TagOf | lib/osc.browser.js:139-150 | under every tagger integers get 'i', strings 's' and Uint8Arrays 'b'; other numbers get 'f', except Infinity under the corrected common tagger, which gets 'I'; only the two common taggers tag true 'T', false 'F' and null 'N', and the i/f/s/b tagger of the browser build, dist/osc.js:148-160 and `typeChar` throws for them; every other value throws |
| Helpers.PrepareAddress | src/common/helpers.js:49-71 | arrays and strings are accepted and anything else throws; an array becomes '/' + join('/'); a string of length at most one is returned unchanged; a string grows by at most one character |
| Helpers.PrepareAddressString | src/common/helpers.js:57-67 | for a string longer than one character, exactly one trailing '/' goes, and a '/' is put in front exactly when the rest is longer than one character and lacks it |
| Helpers.PrepareAddressNormal | src/helpers.js:22-31 | an address that starts with '/' and does not end with '/' is returned unchanged |
| Helpers.PrepareAddressExamples | src/common/helpers.js:43-47 | 'test/path', '/test/path/' and ['test', 'path'] all give '/test/path', and '/' stays '/' |
| Helpers.PrepareAddressNotIdempotent | src/common/helpers.js:58-60 | only one trailing '/' goes: 'a//' gives '/a/', which normalises again to '/a' |
| Helpers.PrepareRegExPattern | src/common/helpers.js:78-99 | the translation succeeds exactly for strings and throws otherwise |
| Helpers.Translate | src/common/helpers.js:85-96 | the single-pass reading of a pattern leaves no '{', '}', ',' or '?' in its output |
| Helpers.ChainIsTranslate | src/common/helpers.js:85-96 | the nine chained global replacements compute the single-pass translation |
| Helpers.PrepareRegExPatternTranslates | src/common/helpers.js:81-98 | `prepareRegExPattern` escapes '.', '(' and ')', maps '{' to '(', '}' to ')', ',' to '\|', '[!' to '[^', '?' to '.' and '*' to '.*', copies every other character, and its output holds no '{', '}', ',' or '?' |
| Helpers.TranslatePlain | src/common/helpers.js:85-96 | a pattern without any of . ( ) { } , ? * [ is returned unchanged |
| Helpers.EncodeHelper.constructor | src/common/helpers.js:109-114 | a new helper holds no buffers and a byte length of 0 |
| Helpers.EncodeHelper.Add | src/common/helpers.js:121-132 | booleans, Infinity and null are skipped and change nothing; an atomic's packed buffer is appended and `byteLength` grows by its length; a failing `pack` or a value without one throws and changes nothing |
| Helpers.EncodeHelper.AddPacked | src/helpers.js:42-47 | the encoded buffer is appended and `byteLength` grows by its length, and a failing encode changes nothing |
| Helpers.EncodeHelper.Merge | src/common/helpers.js:138-148 | the copy loop returns the stored buffers concatenated in insertion order, exactly `byteLength` bytes long |
| Helpers.EncodeHelperExample | src/common/helpers.js:121-148 | two four-byte buffers merge to eight bytes in order, and a boolean and a null added between them contribute nothing |
| Messages.Tags | src/message.js:52 | the type string has one character per argument, each the tag the build's tagger gives it (src/message.js: the common `typeTag`; lib/osc.browser.js:420 and dist/osc.js:635: their i/f/s/b `typeTag`), and it exists exactly when every argument has a tag |
| Messages.ArgumentPacked | src/message.js:89-100 | an argument packs to whole words, and only a number, string or Uint8Array packs; anything else throws the unknown-argument error |
| Messages.JoinedAligned | src/message.js:89-103 | arguments that each pack to whole words join to whole words |
| Messages.PackerAligned | src/message.js:89-103 | the packed arguments of a message fill whole 4-byte words |
| Messages.Packed | src/message.js:74-107 | an address that is empty or lacks its leading '/' throws; a packed message is the packed address, then the packed ','+types, then the packed arguments |
| Messages.PackedAligned | test/message.spec.js:69-71 | every packed message is a multiple of 32 bits long |
| Messages.ArgumentDecoded | src/message.js:143-159 | only 'i', 'f', 's' and 'b' are read, any other tag throws the non-standard-type error; 'i' gives an integer four bytes on, 's' a string, 'b' a blob |
| Messages.ReadAll | src/message.js:143-160 | reading gives one value per tag |
| Messages.MessageUnpacked | src/message.js:115-168 | an accepted message starts inside the view, has an address starting with '/', a type string the check lets through, and one argument per tag after the first character |
| Messages.Message.constructor | src/message.js:33-45 | a new message has offset 0, empty address and types, and no arguments |
| Messages.Message.Create | src/message.js:33-55 | with no arguments the message is empty; otherwise the address must be a string or array (else the constructor error), the address is `prepareAddress` of it, the arguments are the rest and the types the tags the build's tagger gives them, and an argument without a tag throws |
| Messages.Message.Add | src/message.js:61-68 | `undefined` throws and changes nothing; otherwise the item is pushed, and the tag the build's tagger gives it appended, or that tagger's error is thrown with the item already pushed |
| Messages.Message.Pack | src/message.js:74-107 | the bytes `pack` returns are those of the packing specification `Packed` |
| Messages.Message.Unpack | src/message.js:115-168 | on success the four fields are those `MessageUnpacked` reads and the offset is returned; on any error the message is left unchanged |
| Messages.ReadArgument | src/message.js:144-159 | one pass of the argument loop reads exactly what `ArgumentDecoded` specifies |
| Messages.PackArgument | src/message.js:89-100 | the atomic chosen for one argument packs it as `ArgumentPacked` specifies |
| Messages.AddArgument | src/message.js:102 | the encoder gains the argument's packed bytes when it packs and is unchanged when it throws |
| Messages.AddArguments | src/message.js:86-104 | the forEach loop succeeds exactly when all arguments pack, and then appends their joined bytes to the encoder; the first failure's error is returned |
| Messages.ReadArguments | src/message.js:143-160 | the argument loop returns exactly what reading one argument per tag gives, or its first error |
| Messages.RestorableTag | src/common/helpers.js:18-36 | under every tagger an int32-range integer, a plain string or a blob is tagged 'i', 's' or 'b' |
| Messages.TagsAgreeOnRestorable | lib/osc.browser.js:420 | int32, string and blob arguments get a type string from every build's tagger, the same one |
| Messages.CommonTagsAsWritten | src/message.js:52 | src/message.js tags Infinity, true, false and null "fTFN" |
| Messages.CommonTagsCorrected | src/common/helpers.js:31-33 | with the Infinity test reachable, Infinity is tagged "I" |
| Messages.BasicTags | lib/osc.browser.js:139-150 | the browser and dist builds tag Infinity "f" and throw for true and for null |
| Messages.ArgumentsPackedOk | src/message.js:86-104 | int32, string and blob arguments always pack, to at least four bytes each, and have tags under every tagger |
| Messages.ReadAllJoined | src/message.js:143-160 | parts that each read back under their tag are read back in order from their concatenation, ending just past it |
| Messages.ArgumentReadsBack | src/message.js:89-100 | an int32, string or blob argument is read back from wherever its packed bytes sit at an aligned offset |
| Messages.ArgumentsRoundTripAt | src/message.js:143-160 | the packed arguments are read back in order by the tags any build's tagger gave them |
| Messages.MessageRoundTripAt | test/message.spec.js:61-67 | unpacking a packed message restores its address, ','+types and int32/string/blob arguments, whichever build's tagger made the types, from any aligned offset, and stops just past it |
| Messages.MessageAdvances | src/message.js:115-168 | an accepted message ends past its starting offset and at most three bytes past the view's end |
| Messages.MessageHead | src/packet.js:65-77 | the head string a Packet reads first is the unpacked message's address |
| Messages.UnpackExample | test/message.spec.js:79-92 | the test bytes unpack to '/test/path' with the one int32 argument 653, ending at offset 20 |
| Messages.TypesWithoutCommaAccepted | src/message.js:132 | as written, a type string "xi" without its ',' is accepted and its 'x' silently dropped |
| Messages.TypesWithoutCommaRejected | src/message.js:132 | with `||` in the check the same bytes are refused as a malformed type string |
| Packets.BundleHeadBytes | lib/osc.browser.js:632-634 | the head a bundle packs is the OSC-string "#bundle", eight bytes ending in NUL |
| Packets.ElementPacked | lib/osc.browser.js:632-644 | a packed element is whole words; a message packs exactly as `Message.pack` does |
| Packets.Framed | lib/osc.browser.js:639-642 | each element is framed as its int32 byte length then its bytes, and the framing is whole words |
| Packets.PacketUnpacked | lib/osc.browser.js:694-714 | a view whose length is not a multiple of four is refused; an accepted packet ends past its start and at most three bytes past the view; a bundle read against the whole view reads to the view's end and holds messages before its last element |
| Packets.BundleUnpacked | lib/osc.browser.js:647-670 | an accepted bundle has the "#bundle" head, ends at or past the view's end, and, read against the whole view, only its last element can be a bundle |
| Packets.ElementsFrom | lib/osc.browser.js:660-666 | the element loop runs until the offset reaches the view's end and never moves backwards |
| Packets.ElementsPushed | lib/osc.browser.js:660-666 | when the loop ends the elements pushed are those it read; when an element throws, fewer elements were pushed than bytes remained |
| Packets.ElementsAfterUnpack | lib/osc.browser.js:646-670 | the list is replaced only once the head and time tag are read: a failed head read or a head other than "#bundle" keeps the old list, and a successful `unpack` leaves the elements it read |
| Packets.BundleAfterHead | lib/osc.browser.js:652-666 | once the "#bundle" head and the time tag are read, `unpack` gives what the element loop gives from there, and so does the list it leaves |
| Packets.ElementAt | lib/osc.browser.js:661-665 | one pass reads the size word and then a packet past it, ending past where it started |
| Packets.SizedElement | lib/osc.browser.js:663-664 | the corrected reading takes exactly the `size` bytes after the size word, refusing a size that is negative or runs past the view |
| Packets.Added | lib/osc.browser.js:623-629 | adding items succeeds exactly when every item is a Message or Bundle, keeps them in order, and otherwise throws the only-Messages-and-Bundles error |
| Packets.Constructed | lib/osc.browser.js:588-613 | construction fails only with the add error, and when the first argument is not an Array the elements are the added arguments (or none) |
| Packets.ConstructedEmpty | lib/osc.browser.js:591-593 | a bundle built with no arguments is empty and stamped with the current time |
| Packets.ConstructedFromElements | lib/osc.browser.js:607-611 | messages and bundles passed directly are added in order, with the current time |
| Packets.ConstructedFromTime | lib/osc.browser.js:598-599 | a Date or integer first argument sets the time tag and every other argument is ignored |
| Packets.ConstructedWithDate | lib/osc.browser.js:600-606 | an Array followed by a Date adds the Array's items and stamps the Date |
| Packets.SecondIntegerIgnored | lib/osc.browser.js:604 | as written, an integer after an Array is ignored and the bundle keeps the current time |
| Packets.SecondIntegerSetsTime | lib/osc.browser.js:604 | testing `args[1]`, an integer after an Array sets the time tag |
| Packets.ConstructedRejects | lib/osc.browser.js:624-627 | any argument (or Array item) that is neither a Message nor a Bundle makes construction throw |
| Packets.PackElement | lib/osc.browser.js:632-644 | packing an element object gives what `ElementPacked` specifies |
| Packets.AddElements | lib/osc.browser.js:639-642 | the element loop succeeds exactly when every element packs, and appends their framing to the encoder |
| Packets.Bundle.constructor | lib/osc.browser.js:591-593 | a bundle object holds the given time tag and elements at offset 0 |
| Packets.Bundle.Create | lib/osc.browser.js:588-613 | `new Bundle(...args)` gives a fresh bundle with the time tag and elements `Constructed` specifies, or its error |
| Packets.Bundle.Add | lib/osc.browser.js:623-629 | a Message or Bundle is appended; anything else throws and leaves the elements unchanged |
| Packets.Bundle.AddAll | lib/osc.browser.js:608-610 | items are appended in order up to the first one refused |
| Packets.Bundle.Timestamp | lib/osc.browser.js:614-621 | an integer sets the time tag from milliseconds since 1970; anything else throws and changes nothing |
| Packets.Bundle.Pack | lib/osc.browser.js:631-644 | the bytes returned are those `ElementPacked` gives the bundle's time tag and elements |
| Packets.Bundle.Unpack | lib/osc.browser.js:646-670 | on success the offset, time tag and elements are those `BundleUnpacked` reads; on failure the offset and time tag are unchanged, and the elements are those `ElementsAfterUnpack` gives: the old list when the head or time tag throws, the elements pushed so far when an element throws |
| Packets.Bundle.PushElements | lib/osc.browser.js:659-666 | the loop empties the list, then pushes what `ElementsFrom` reads and returns its end; when an element throws, the list holds the elements read before it |
| Packets.ReadElement | lib/osc.browser.js:661-665 | one loop pass reads what `ElementAt` specifies |
| Packets.ReadWhole | lib/osc.browser.js:664 | the element is the packet read from the whole view after its size word |
| Packets.ReadSized | lib/osc.browser.js:663-664 | the element is the packet read from the view cut `size` bytes after its size word |
| Packets.Packet.constructor | lib/osc.browser.js:676-683 | a new packet has no value and offset 0 |
| Packets.Packet.Create | lib/osc.browser.js:676-683 | a Message or Bundle becomes the value, a falsy value leaves it empty, and any other truthy value throws |
| Packets.Packet.Pack | lib/osc.browser.js:685-691 | an empty packet throws the empty-body error; otherwise its value's bytes are returned |
| Packets.Packet.Unpack | lib/osc.browser.js:693-714 | on success the value and offset are those `PacketUnpacked` reads; on failure both are unchanged |
| Packets.SizeRead | lib/osc.browser.js:640 | the size word in front of an element reads back as the element's byte length |
| Packets.FramedRoundTrip | lib/osc.browser.js:639-642 | the framed elements are read back in order to the end of the view: always by size, and against the whole view when no nested bundle is followed by another element |
| Packets.PacketRoundTrip | lib/osc.browser.js:632-714 | unpacking a packed element from an aligned offset gives it back, each message's types gaining their ',' |
| Packets.PackUnpack | lib/osc.browser.js:632-714 | `unpack(pack(e))` from offset 0 restores `e` and ends at the packed length |
| Packets.NestedBundleNotRestored | lib/osc.browser.js:660-666 | read against the whole view, a bundle with a nested bundle before its last element never comes back, from any bytes |
| Packets.MessageReadAt | lib/osc.browser.js:702-710 | a packed message's head is its address, which is not "#bundle", and it unpacks back |
| Packets.BundleHeadRead | lib/osc.browser.js:652-658 | the "#bundle" head and the time tag of a packed bundle read back, the elements starting 16 bytes in |
| EventSpec.EmptyConsistent | src/events.js:18-29 | a new EventHandler's tables are consistent: no address lists, exactly the open/error/close event lists, all empty |
| EventSpec.Unslashed | src/events.js:148 | `split('/').join('')` keeps exactly the characters other than '/' |
| EventSpec.ReservedExamples | src/events.js:146-150 | a space, '*' or '{' in an address makes `on` refuse it |
| EventSpec.PlainAddressAccepted | src/events.js:146-150 | an address of ASCII letters, digits and '/' passes `on`'s test |
| EventSpec.Subscribed | src/events.js:120-159 | `on` succeeds exactly when the name is a string or array, the callback a function, and the name is an event or an address without reserved characters; the id is advanced whenever both type checks pass, even if the address test then throws; a throw leaves the lists unchanged; the id returned is the new `uuid` |
| EventSpec.SubscribedAppends | src/events.js:139-158 | a successful `on` appends the new handler to its target's list and changes no other list |
| EventSpec.SubscribedEvent | src/events.js:139-142 | an event name appends to that event's list and returns the next id |
| EventSpec.SubscribedAddress | src/events.js:145-158 | an address with a reserved character throws the invalid-characters error after taking an id; any other is appended, its key created last in key order when new |
| EventSpec.SubscribedConsistent | src/events.js:120-159 | `on` keeps the tables consistent: each address key listed once, the three events, ids in each list ascending and at most `uuid` |
| EventSpec.Without | src/events.js:190-197 | splicing out the first handler with the id shortens the list by one when there is one, and changes nothing otherwise |
| EventSpec.WithoutAt | src/events.js:190-197 | the handler spliced out is the one at the first index holding the id |
| EventSpec.WithoutAscending | src/events.js:190-197 | removal keeps a list ascending and leaves no handler with that id |
| EventSpec.WithoutAppended | src/events.js:190-197 | removing the id just appended gives back the list before it |
| EventSpec.Unsubscribed | src/events.js:167-201 | a name that is not a string or array, or an id that is not an integer, throws; `off` returns true exactly when the target's list holds the id, and otherwise changes nothing |
| EventSpec.UnsubscribedRemoves | src/events.js:189-198 | a successful `off` removes exactly one handler from the target's list and changes no other list |
| EventSpec.UnsubscribedConsistent | src/events.js:167-201 | `off` keeps the tables consistent |
| EventSpec.SubscribeThenUnsubscribe | src/events.js:120-201 | `off` with the id `on` just returned succeeds and restores every list to what it was before `on` |
| EventSpec.UnsubscribeTwice | src/events.js:167-201 | a second `off` with the same id returns false and changes nothing |
| EventSpec.SubscribedFresh | src/events.js:129-136 | the id `on` returns is held by no handler in any list |
| EventSpec.CallsOf | src/events.js:88-90 | each handler of a list is called with the data, in subscription order |
| EventSpec.SelectedStep | src/events.js:99-109 | each further key of the address loop adds its handlers' calls when the pattern selects it |
| EventSpec.CallsOfCallbacks | src/events.js:105-107 | a callback is called by a list exactly when one of its handlers has it |
| EventSpec.SelectedData | src/events.js:99-109 | every call of the address loop carries the notified data |
| EventSpec.SelectedCallbacks | src/events.js:99-109 | the address loop calls a callback exactly when it subscribed under a key the pattern selects |
| EventSpec.ImmediateCallbacks | src/events.js:86-111 | an immediate notification calls exactly the event's handlers, or exactly the handlers under selected address keys, all with the data |
| EventSpec.NoticeOf | src/events.js:39-65 | the arguments are accepted exactly when they are a lone Message or start with a string; the data is truthy or `undefined`; a string name comes with a timestamp exactly when the third argument is an integer |
| EventSpec.Notified | src/events.js:39-112 | `notify` returns true whenever it does not throw, and schedules at most one notification, with a non-negative delay and nothing run now |
| EventSpec.NotifiedTimed | src/events.js:67-84 | a future timestamp schedules the notification after the remaining delay; a past one runs nothing when late messages are discarded and otherwise runs what an immediate notification runs |
| EventSpec.Called | lib/osc.browser.js:765-787 | `call` schedules nothing, fails only when the pattern does not compile, and returns whether any handler ran |
| EventSpec.Timed | lib/osc.browser.js:821-834 | without a (non-zero) timestamp `notify` is `call`; a scheduled notification runs nothing now and returns true |
| EventSpec.LateMessageScheduled | lib/osc.browser.js:823-832 | as written, a late message with `discardLateMessages` set is still scheduled, with a negative delay |
| EventSpec.LateMessageDiscarded | lib/osc.browser.js:823-832 | as intended, the late message runs nothing and schedules nothing |
| EventSpec.StampOf | lib/osc.browser.js:811-820 | a third argument that is neither an integer nor a Date throws; otherwise it gives the timestamp |
| EventSpec.BrowserNotified | lib/osc.browser.js:790-835 | no argument throws; a string name is notified with the second argument (null when absent) and the timestamp `StampOf` gives; a Uint8Array is unpacked and its element dispatched, or the unpacking error is thrown; any other value throws as `dataView` does, a RangeError for a number no typed-array length can be and a TypeError otherwise |
| EventSpec.ViewOf | lib/osc.browser.js:41-48 | only a Uint8Array gives bytes, its own; null and undefined throw a TypeError at `.buffer`; a number that `ToIndex` refuses throws a RangeError in `new Uint8Array`; every other value throws a TypeError in the `DataView` constructor |
| EventSpec.BrowserEffects | lib/osc.browser.js:790-835 | what the browser `notify` has done: its outcome when it returns, a dispatched packet's effects when the dispatch throws, and nothing when it throws before dispatching |
| EventSpec.Dispatched | lib/osc.browser.js:735-762 | an empty packet throws; a dispatched bundle returns `undefined` |
| EventSpec.ElementsDispatched | lib/osc.browser.js:745-756 | a bundle's elements are dispatched in order and the dispatch returns `undefined` |
| EventSpec.DispatchStops | lib/osc.browser.js:745-756 | once an element throws, the elements after it change nothing |
| EventSpec.ItemEffects | lib/osc.browser.js:746-753 | what one element has done when it returns or throws: its whole outcome when it returns, nothing when a message's `call` throws, and what a nested bundle's elements did before one of them threw |
| EventSpec.ElementsEffects | lib/osc.browser.js:745-756 | what the `forEach` over a bundle has done: the whole outcome when it returns, and otherwise the effects of the elements before the throwing one followed by what that one did |
| EventSpec.EffectsStop | lib/osc.browser.js:745-756 | elements after the one that throws add no calls and schedule nothing |
| EventSpec.EffectsBeforeThrow | lib/osc.browser.js:745-756 | when element i is the first to throw, the bundle throws its error, and the calls and scheduled notifications of elements[..i] stay made, followed by what element i did |
| EventSpec.MessageBeforeNestedBundleKept | lib/osc.browser.js:746-753 | as written, a message followed by a nested bundle throws at the bundle after the message's handlers have run or its notification was scheduled |
| EventSpec.DispatchEffects | lib/osc.browser.js:735-762 | what `dispatch` has done: its outcome when it returns, the bundle's element effects when a bundle throws, and nothing otherwise |
| EventSpec.NestedBundleRefused | lib/osc.browser.js:746-750 | as written, a bundle whose first element is a bundle always throws |
| EventSpec.NestedOrderAsWritten | lib/osc.browser.js:747 | as written, the order test throws exactly when the enclosed bundle is later than the enclosing one |
| EventSpec.NestedBundleDispatched | lib/osc.browser.js:746-750 | as intended, an earlier enclosed bundle is refused and a not-earlier one is dispatched as if it stood alone |
| EventSpec.FutureBundleScheduled | lib/osc.browser.js:751-753 | each message of a bundle timed in the future is scheduled in order with the bundle's delay, and nothing runs now |
| Events.CallEach | src/events.js:88-90 | the handlers of a list are called in order with the data, and the success flag is set exactly when the list is not empty |
| Events.CallMatching | lib/osc.browser.js:774-786 | the key loop throws when the pattern does not compile and there is a key, and otherwise makes exactly the calls `Selected` specifies, reporting whether any ran |
| Events.EventHandler.constructor | lib/osc.browser.js:723-732 | a new handler has empty tables, the three event lists, `uuid` 0 and the given `discardLateMessages` option, and is consistent |
| Events.EventHandler.On | src/events.js:120-159 | `on` changes the tables and `uuid` as `Subscribed` specifies, returns its result, and keeps the tables consistent |
| Events.EventHandler.AddHandler | src/events.js:120-159 | the body of `on` leaves the tables, `uuid` and result `Subscribed` specifies |
| Events.EventHandler.Push | src/events.js:152-156 | the handler is appended to the address's list, created (and its key listed last) when missing; nothing else changes |
| Events.EventHandler.Off | src/events.js:167-201 | `off` changes the tables and returns as `Unsubscribed` specifies, keeps them consistent and leaves `uuid` alone |
| Events.EventHandler.RemoveHandler | src/events.js:188-200 | the `some`/`splice` loop leaves the tables and result `Unsubscribed` specifies |
| Events.EventHandler.Immediately | src/events.js:86-111 | the immediate phase makes exactly the calls `Immediate` specifies and reports whether any ran |
| Events.EventHandler.Notify | src/events.js:39-112 | `notify` gives exactly the outcome `Notified` specifies for the current tables and option |
| Events.EventHandler.Call | lib/osc.browser.js:765-787 | `call` gives exactly the outcome `Called` specifies |
| Events.EventHandler.NotifyAt | lib/osc.browser.js:821-834 | the timestamp branch of the browser `notify` gives exactly the outcome `Timed` specifies |
| Events.EventHandler.Dispatch | lib/osc.browser.js:735-762 | `dispatch` gives exactly the outcome `Dispatched` specifies, and what it has done when it returns or throws is `DispatchEffects` |
| Events.EventHandler.DispatchElements | lib/osc.browser.js:745-756 | the bundle loop of `dispatch` gives exactly the outcome `ElementsDispatched` specifies, and keeps the calls and scheduled notifications made before a throw, as `ElementsEffects` states |
| Events.EventHandler.BrowserNotify | lib/osc.browser.js:790-835 | the browser `notify` gives exactly the outcome `BrowserNotified` specifies, and what it has done when it returns or throws is `BrowserEffects` |
| DistOption.OptionOf | dist/osc.js:880-893 | a key that is a string present in the instance's options (or the defaults without an instance) gives its value; any other throws the key error |
| DistOption.DefaultsRead | dist/osc.js:880-893 | without an instance the defaults are no plugin, single-precision floats and late messages kept |
| DistPacket.EnclosingOf | dist/osc.js:813 | as written an enclosed packet receives the constructor's `AtomicTimetag`; corrected it receives the time tag read |
| DistPacket.TimestampOf | dist/osc.js:857-860 | `timestamp()` on an `AtomicTimetag` throws a TypeError; on a `Timetag` it is its millisecond value |
| DistPacket.EnclosedChecked | dist/osc.js:857-860 | without an enclosing time tag a bundle is accepted; with an `AtomicTimetag` it is a TypeError; only a TypeError or the order error can be thrown |
| DistPacket.MillisecondsOrder | dist/osc.js:857-860 | for time tags as read, comparing milliseconds orders them as seconds-then-fractions does |
| DistPacket.NestedBundleThrows | dist/osc.js:813 | as written every bundle nested in a bundle makes `unpack` throw a TypeError |
| DistPacket.NestedBundleOrdered | dist/osc.js:857-860 | corrected, a nested bundle is accepted exactly when its time tag is not before the enclosing one, and otherwise refused with the order error |
| LibMessage.FalsyArgumentNotEncoded | lib/osc.js:297-299 | a message holding a falsy argument (0, "", false, null, undefined, NaN) cannot be encoded, wherever the argument stands |
| LibMessage.EncodedReadAt | lib/osc.js:511-595 | the bytes `encode` gives, held at a word-aligned offset, read back as the address, ','+types and the int32, string and blob arguments, ending right after them |
| LibMessage.EncodeDecode | lib/osc.js:549-595 | `decode(encode(m))` from byte 0 restores the address, the type string with its ',' and the int32, string and blob arguments |
| LibMessage.OSCMessage.constructor | lib/osc.js:475-482 | a new message is empty with time tag 0 |
| LibMessage.OSCMessage.Create | lib/osc.js:475-498 | succeeds exactly when the first item is a string or an array and every other item has a type character; otherwise the address-type error; the address is `prepareAddress` of the first item, the arguments the rest, the types their characters |
| LibMessage.OSCMessage.Add | lib/osc.js:501-509 | a falsy value is refused and nothing changes; otherwise the value is appended, then its type character, or the `typeChar` error with the value already pushed |
| LibMessage.OSCMessage.Encode | lib/osc.js:511-547 | the bytes are the packed address, ','+types and arguments with every atomic refusing a falsy value |
| LibMessage.OSCMessage.Decode | lib/osc.js:549-595 | reads from byte 0; on success stores the address, the type string with its ',' and the arguments; on a throw leaves the message unchanged |
| LegacyTree.Decimal | src/osc.js:60 | a token is a non-empty string of decimal digits, of two or more digits from 10 on |
| LegacyTree.DecimalInjective | src/osc.js:60 | distinct counter values give distinct tokens |
| LegacyTree.Split | src/osc.js:18 | `split('/')` gives at least one piece and no piece holds a '/' |
| LegacyTree.SplitJoined | src/osc.js:18 | joining the pieces of `split('/')` with '/' gives the string back |
| LegacyTree.NonEmpty | src/osc.js:19 | the filter keeps only non-empty pieces, each taken from the input, and never lengthens it |
| LegacyTree.NonEmptyAppend | src/osc.js:19 | filtering a concatenation is concatenating the filtered parts |
| LegacyTree.Segments | src/osc.js:17-21 | `_addressToArray` gives non-empty segments without '/' |
| LegacyTree.TrailingSlashIgnored | test/osc.eventHandler.spec.js:203-208 | an address with a trailing slash has the same segments as without it |
| LegacyTree.SegmentsOfPath | src/osc.js:17-21 | the segments of '/s1/s2/...' are s1, s2, ... back |
| LegacyTree.ChildOr | src/osc.js:85-90 | the walk of `on` moves into an existing child, or into a new empty node |
| LegacyTree.AtSnoc | src/osc.js:84-91 | one more segment on `on`'s walk moves one more child down |
| LegacyTree.Placed | src/osc.js:84-97 | writing a node back at a non-empty path keeps the root's callbacks and adds the first segment to the root's children |
| LegacyTree.Find | src/osc.js:136-142 | `off`'s walk of the empty path stops at the root |
| LegacyTree.FindSnoc | src/osc.js:136-142 | one more segment on `off`'s walk moves into that child if it exists, and otherwise gives `null` |
| LegacyTree.ReachedWithin | src/osc.js:189-196 | every handler `notify` collects below the root sits no deeper than the address has segments |
| LegacyTree.CollectedWithin | src/osc.js:182-196 | every handler `notify` collects sits at most as deep as the address has segments |
| LegacyTree.InsertedHolds | src/osc.js:82-97 | `on`'s insertion adds only its entry, at the depth of its path |
| LegacyTree.FindInserted | src/osc.js:82-97 | after `on`, `off`'s walk of the same path finds the node with the new entry last |
| LegacyTree.ReachedInserted | test/osc.eventHandler.spec.js:195-201 | a subscription at a path is called by a notification of that path |
| LegacyTree.DeeperNotCalled | test/osc.eventHandler.spec.js:181-193 | a subscription at a longer path than the notified one is not called |
| LegacyTree.FindElsewhere | test/osc.eventHandler.spec.js:60-69 | after `on`, the node `off` finds at any other path has its old callbacks, or is a node `on` created and has none |
| LegacyTree.FindInEmptyTree | src/osc.js:84-91 | inside a subtree `on` created, every node other than the target has no callbacks |
| LegacyRegistry.PathOf | src/osc.js:72-74 | a name that is not a string is walked as its items; a Uint8Array by one decimal key per byte; null and undefined throw a TypeError; any other object walks nothing |
| LegacyRegistry.Decimals | src/osc.js:136-138 | one property name per byte of a Uint8Array |
| LegacyRegistry.AddressOf | src/osc.js:17-21 | a string names the path of its segments |
| LegacyRegistry.RemovedFirst | src/osc.js:148-156 | `some` with `splice` removes one entry when one carries the token and otherwise changes nothing |
| LegacyRegistry.SplicedUnique | src/osc.js:116-121 | with at most one entry carrying the token, the list loop of `off` removes exactly what `some` removes |
| LegacyRegistry.Subscribed | src/osc.js:52-100 | the type check fails exactly when the name is neither a string nor an object or the callback is not a function, and then nothing changes; otherwise the counter moves on and the token is its decimal; a path string not starting with '/' is refused; a refusal leaves the lists and the tree as they were |
| LegacyRegistry.Unsubscribed | src/osc.js:104-159 | the type check fails exactly when the name is neither a string nor an object or the token is falsy; the counter and the callback names stay; anything but success leaves the state unchanged |
| LegacyRegistry.Detached | src/osc.js:130-158 | an unsuccessful removal leaves the tree unchanged |
| LegacyRegistry.CallsOf | src/osc.js:198-200 | every collected handler is called once, in order, with the event data |
| LegacyRegistry.Notified | src/osc.js:163-203 | a connection callback name calls its list; only a null or undefined name throws |
| LegacyRegistry.SuccessiveTokensDiffer | src/osc.js:60 | two subscriptions in a row get different tokens |
| LegacyRegistry.FirstTokens | test/osc.eventHandler.spec.js:20-22 | the first token is "0" and the next "1" |
| LegacyRegistry.NotifyAfterOn | test/osc.eventHandler.spec.js:176-179 | a subscription to a path string is called by a notification of that string |
| LegacyRegistry.NotifyNotDeeper | test/osc.eventHandler.spec.js:181-186 | a notification does not call a subscription made at a longer path |
| LegacyRegistry.OffAfterOn | test/osc.eventHandler.spec.js:60-66 | unsubscribing with the token `on` returned, at the same address, succeeds |
| LegacyRegistry.OffOnlyAtExactNode | test/osc.eventHandler.spec.js:60-69 | `off` at any other path than the subscription's does not find its token and changes nothing |
| LegacyRegistry.RootSubscription | test/osc.eventHandler.spec.js:99-109 | '/' subscribes at the root, and every address notification calls it |
| LegacyRegistry.OperationsKeepNamesAndCounter | src/osc.js:28-48 | `on` and `off` keep the three connection callback names and the counter from -1 on |
| LegacyRegistry.RemovedFirstAt | src/osc.js:148-156 | `splice(k, 1)` at the first entry carrying the token is what `some` removes |
| LegacyRegistry.Rebuild | src/osc.js:82-97 | writing the changed last node back through the nodes of the walk gives the tree with that node replaced |
| LegacyRegistry.SpliceStep | src/osc.js:117-119 | a step that splices shortens the list by one |
| LegacyRegistry.PendingStep | src/osc.js:116-121 | one step of the removal loop keeps the list it will end with |
| LegacyRegistry.SpliceAll | src/osc.js:113-122 | the loop succeeds exactly when an entry carries the token, and then leaves the list with every such entry spliced as the loop skips |
| LegacyRegistry.WalkCreating | src/osc.js:84-91 | the nodes met by `on`'s walk, each the child of the one before or a new empty node |
| LegacyRegistry.WalkExisting | src/osc.js:136-142 | `off`'s walk ends at the node at exactly the path, or `null` once a segment is missing |
| LegacyRegistry.FirstMatch | src/osc.js:148-156 | the index of the first entry carrying the token, or the length when none does |
| LegacyRegistry.Collect | src/osc.js:182-196 | `notify`'s walk collects the root's handlers, then those of each node it moves into; a missing segment is skipped |
| LegacyRegistry.Attach | src/osc.js:80-97 | the walk and the push put the entry last at the node of the path |
| LegacyRegistry.Detach | src/osc.js:130-158 | the walk and `some` remove the first entry carrying the token at exactly the path, and report whether one was found |
| LegacyRegistry.OSCEventHandler.constructor | src/osc.js:28-48 | three empty connection callback lists, an empty tree and the counter at -1 |
| LegacyRegistry.OSCEventHandler.On | src/osc.js:52-100 | the new state and result are those `Subscribed` states, and the callback names and counter range are kept |
| LegacyRegistry.OSCEventHandler.Off | src/osc.js:104-159 | the new state and result are those `Unsubscribed` states |
| LegacyRegistry.OSCEventHandler.Notify | src/osc.js:163-203 | the calls are those `Notified` states |
| LegacyDecode.Ceil4 | src/osc.js:277 | `Math.ceil(n / 4) * 4` is the least multiple of four at least n |
| LegacyDecode.Ceil4IsPad | src/osc.js:277 | in the int32 range it agrees with the later `pad` |
| LegacyDecode.CharOf | src/osc.js:268 | the Int8Array read of a byte keeps the byte, and a byte from 128 up becomes a non-ASCII character |
| LegacyDecode.Text | src/osc.js:276 | one character per byte, each keeping its byte |
| LegacyDecode.StringRead | src/osc.js:267-280 | from an offset inside the data, a string without a zero from the offset on throws; from the offset just past the end it throws too, and from one further past the end the read gives "" without throwing; a read ends on a multiple of four past the text and its NUL |
| LegacyDecode.StringStopsAtFirstZero | src/osc.js:270-277 | the text is the bytes before the first zero, and the offset is `ceil4` past that zero |
| LegacyDecode.StringThrowsWithoutZero | src/osc.js:270-274 | the read throws exactly when no zero follows the offset |
| LegacyDecode.TextOfCodes | src/osc.js:276 | ASCII codes read back as the text |
| LegacyDecode.StringReadsEncoded | src/osc.js:267-280 | an ASCII string as the `AtomicString` encoder writes it is read back with the offset just past it |
| LegacyDecode.HighByteWidened | src/osc.js:268-276 | the byte 0xE9 is read as U+FFE9 |
| LegacyDecode.OSCString.constructor | src/osc.js:262-265 | empty value at offset 0 |
| LegacyDecode.OSCString.Decode | src/osc.js:267-280 | stores and returns what `StringRead` gives, and a throw changes nothing |
| LegacyDecode.IntRead | src/osc.js:289-294 | fails with a RangeError exactly when four bytes do not fit; reads an int32 and moves four bytes on |
| LegacyDecode.IntReadBytes | src/osc.js:291 | the value read is the big-endian two's-complement number of the four bytes |
| LegacyDecode.IntReadsEncoded | src/osc.js:289-294 | an int32 in big-endian two's complement is read back |
| LegacyDecode.FloatRead | src/osc.js:303-308 | fails with a RangeError exactly when four bytes do not fit; otherwise the float of the four bytes and four bytes on |
| LegacyDecode.OSCInt.constructor | src/osc.js:284-287 | value 0 at offset 0 |
| LegacyDecode.OSCInt.Decode | src/osc.js:289-294 | stores and returns what `IntRead` gives, and a throw changes nothing |
| LegacyDecode.OSCFloat.constructor | src/osc.js:298-301 | value 0.0 at offset 0 |
| LegacyDecode.OSCFloat.Decode | src/osc.js:303-308 | stores and returns what `FloatRead` gives, and a throw changes nothing |
| LegacyDecode.ArgumentRead | src/osc.js:370-385 | a tag outside 'ifsb' throws; 'i' reads an integer, 's' a string, 'f' and 'b' a float, and the offset moves on |
| LegacyDecode.ArgumentsFit | src/osc.js:366-386 | a successful reading has one argument per tag, each of its tag's kind |
| LegacyDecode.ArgumentsReadPrefix | src/osc.js:366-386 | later tags do not change the reading of the earlier ones |
| LegacyDecode.ArgumentsReadNext | src/osc.js:366-386 | one more tag reads one more argument where the last one ended, or throws its error |
| LegacyDecode.ArgumentsFailureStays | src/osc.js:366-386 | the first failure ends the reading |
| LegacyDecode.NonstandardTagThrows | src/osc.js:378-380 | a tag outside 'ifsb' throws the nonstandard-type error when the loop reaches it |
| LegacyDecode.ArgumentsErrors | src/osc.js:366-386 | the argument loop throws only an unterminated string, a nonstandard tag or a RangeError |
| LegacyDecode.MessageRead | src/osc.js:345-396 | on success the address segments are `_addressToArray` of the address string and there is one argument of its tag's kind per tag; only the four known errors are thrown |
| LegacyDecode.TypeStringNeedsComma | src/osc.js:359-361 | a type string that is empty or does not start with ',' throws |
| LegacyDecode.ReadArgument | src/osc.js:368-385 | the loop body reads what `ArgumentRead` states |
| LegacyDecode.ReadArguments | src/osc.js:363-386 | the loop reads what `ArgumentsRead` states for all the tags |
| LegacyDecode.OSCMessage.constructor | src/osc.js:253-258 | an empty address, address string, type string and argument list |
| LegacyDecode.OSCMessage.Decode | src/osc.js:345-396 | succeeds exactly when `MessageRead` does, and then `toJSON` gives its result; a throw leaves the message unchanged |
| LegacyDecode.NoArgumentsRead | src/osc.js:359-393 | a type string of ',' alone gives no arguments |
| LegacyDecode.EmptyMessageRead | src/osc.js:345-396 | the header the encoder writes for an ASCII address and no arguments is read back |
| LegacyDecode.ExampleRead | src/osc.js:345-396 | the view holding "/test/path", ",i" and 653 decodes to segments ["test", "path"], tags "i" and 653 |

## Left out

- Transport: sockets, plugins, the `OSC` wrapper classes, `OSCSocket` and every other kind of I/O.
- Floating point: the IEEE 754 conversions of src/atomic/float32.js and float64.js and the `doublePrecisionFloats` option. A float argument is a 4-byte word, converted by the function parameters `float32`/`fromFloat32`.
- Clocks: `Date.now()` and `setTimeout` are not modelled. The current time is a parameter `now`, and a deferred notification is returned as a `Later` record instead of being scheduled.
- Time-tag fractions: the conversion between milliseconds and 2^-32 s fractions is done in exact rational arithmetic. `Math.round` of a binary double is not modelled.
- Regular expressions: the RegExp engine is not part of this model. `EventSpec.Matcher` stands for it: whether a source compiles, and whether a compiled pattern selects a key.
- Callbacks: a callback is known by an identity number. Calling it is recorded as a `Call`. Callbacks that re-enter the handler, or that throw, are not modelled.
- Object keys: JavaScript orders integer-like keys of an object before the other keys. The model keeps the order in which keys are added.
- Strings: UTF-8 decoding through TextDecoder/Buffer is not modelled. A string is read one byte per character, as `String.fromCharCode` does.
- StringAtomic.Code, StringAtomic.Encoded, StringAtomic.Packed, StringAtomic.AtomicString.Pack: a Dafny `char` is a Unicode scalar value, while a JavaScript string is a sequence of UTF-16 code units. For a character above U+FFFF the source counts two units and writes the low byte of each surrogate; the model counts one character and writes the low byte of its code point. Lone surrogates cannot be represented. For characters up to U+FFFF other than surrogates, which include every character of the round-trip lemmas, the two agree.
- Prototype property names: `"_cb"` and inherited properties such as `"constructor"` are not treated as path segments of the src/osc.js tree.
- Inherited names: a plain object also answers `in` and property reads for the names it inherits from `Object.prototype` ("constructor", "toString", "valueOf", "hasOwnProperty", "__proto__" and the rest). The handler tables and the options object are plain objects. The model keys them by their own names only and takes an inherited name for an address. The lines below say what the source does instead.
- EventSpec.Subscribed: for an inherited name, src/events.js:139-140 and lib/osc.browser.js:849-850 take the event branch after the id is taken. `push` is not a method of the inherited value, so `on` throws a TypeError.
- EventSpec.Unsubscribed: for an inherited name, src/events.js:180 and lib/osc.browser.js:875 take the event branch, and `.some` throws a TypeError.
- EventSpec.ImmediateCallbacks: for an inherited name, src/events.js:87-88 and lib/osc.browser.js:767-768 call `forEach` on the inherited value, which throws a TypeError.
- LegacyRegistry.Subscribed: for an inherited name, src/osc.js:66-67 finds a truthy entry after `++this._uuid`, and `push` throws a TypeError.
- LegacyRegistry.Unsubscribed: for an inherited name, src/osc.js:114-122 never walks the tree. It returns false when the inherited value has no positive `length`: "toString", "valueOf", "toLocaleString" and "__proto__". For the others, `[0].token` throws a TypeError.
- LegacyRegistry.Notified: for an inherited name, src/osc.js:167-169 calls `forEach` on the inherited value, which throws a TypeError.
- DistOption.OptionOf: dist/osc.js:889 accepts an inherited key and returns the inherited member, a function or, for "__proto__", `Object.prototype`. Neither is a value of this model, and the model throws the key error.
- MaxPadInput: `pad` computes `(n + 3) & ~0x03` in 32 bits and wraps for lengths beyond 2^31-4 (`Utils.PadWraps`). The readers below demand `|view| + 3 <= MaxPadInput` of the view, which the source does not. For a longer Uint8Array they promise nothing, although there a string's or blob's end offset can wrap to a negative number and the reading move backwards. The round-trip lemmas also keep their strings, blobs and views below that bound.
- Packets.PacketUnpacked: requires the view-size bound above.
- Packets.BundleUnpacked: requires the view-size bound above.
- Packets.ElementsFrom: requires the view-size bound above.
- Packets.ElementsPushed: requires the view-size bound above.
- Packets.ElementsAfterUnpack: requires the view-size bound above.
- Packets.ElementAt: requires the view-size bound above.
- Packets.SizedElement: requires the view-size bound above.
- Packets.Bundle.Unpack: requires the view-size bound above.
- Packets.Bundle.PushElements: requires the view-size bound above.
- Packets.ReadElement: requires the view-size bound above.
- Packets.ReadWhole: requires the view-size bound above.
- Packets.ReadSized: requires the view-size bound above.
- Packets.Packet.Unpack: requires the view-size bound above.
- Messages.StringForward, Messages.ArgumentForward, Messages.ReaderForward, Messages.UnpackedWithForward, Messages.MessageAdvances: the progress lemmas require the view-size bound above.
- EventSpec.BrowserNotified: a Uint8Array longer than 2^31-7 bytes is not read as a packet. The model refuses it with `UnreadView`, a text of its own that no build throws.
- EventSpec.ViewOf: ArrayBuffers, DataViews, typed arrays other than Uint8Array and objects with a `buffer` property are not values of this model. `dataView` reads those through their buffer. A number that `ToIndex` accepts but that is too large to allocate makes `new Uint8Array` throw a RangeError, not the TypeError the model gives.
- Error texts: where builds word the same error differently, one wording is kept. The atomics use the lib/osc.browser.js texts, misspelt `EmptyValue` ("cant't") included, because they follow that build's `pack`/`unpack`. Where that build has no such error (`AtomicInt64`, `AtomicUInt64` and the `AtomicTimetag` constructor check) they use the src/atomic text, final '.' included. src/atomic words the other errors with a final '.'. `Helpers.TypeChar` and `Helpers.PrepareAddress` those of src/helpers.js and src/common/helpers.js, and `LibMessage.OSCMessage.Encode`/`Decode` those of src/message.js; lib/osc.js words them with an "OSCAtomic…"/"OSCMessage…" prefix.
- Int32Atomic.AtomicInt32.Pack, Int32Atomic.AtomicInt32.Unpack, Int64Atomic.AtomicInt64.Pack, Int64Atomic.AtomicInt64.Unpack, UInt64Atomic.AtomicUInt64.Pack, UInt64Atomic.AtomicUInt64.Unpack: src/atomic.js defines only `encode` and `decode`. So as written, the `super.pack`/`super.unpack` calls of src/atomic/int32.js:26,36, int64.js:36,46 and uint64.js:35,45 throw a TypeError, and so do those of float32.js:15,19. The model gives these methods the base `pack`/`unpack` of lib/osc.browser.js, whose bodies are those of src's `encode`/`decode`.
- Messages.Packed, Messages.MessageUnpacked, Messages.Message.Pack, Messages.Message.Unpack: in src/ as written, `EncodeHelper.add` (src/common/helpers.js:127) calls `item.pack()`, and src/message.js:158 calls `next.unpack`. src/atomic/blob.js has only `encode`/`decode`, and the int and float atomics fail as in the line above. So an int, float or blob argument throws a TypeError there. The model follows lib/osc.browser.js, where these calls succeed.
- src/bundle.js and src/packet.js: `encode`/`decode` there call methods their collaborators do not define. `Bundle` and `Packet` follow lib/osc.browser.js.
- EventSpec.Notified, Events.EventHandler.Notify: src/events.js:4 imports `option` from './osc', but src/osc.js exports nothing. It is a script that ends by setting `window.OSC` (line 451). So as written, the late-message test at src/events.js:67-70 either fails to link or throws a TypeError when it calls `option`. The model gives these members the flag `discardLate` in place of `option('discardLateMessages')`.
- src/common/helpers.js imports `isBoolean`, `isNull` and `isInfinity`, which src/common/utils.js does not define. They are given their evident meaning.
- dist/osc.js `Packet.unpack` also notifies the running instance's `EventHandler`. That side effect, and the module-level `instance`, are not modelled; `DistOption.OptionOf` takes the instance's options as a parameter.
- DistPacket: the time-tag check is stated for one enclosed bundle and its enclosing time tag. It is not wired into the recursive `Packets` reader.
- The `OSCBlob` of src/osc.js is a stub that reads a float. It is read by `LegacyDecode.ArgumentRead` as that float; no blob semantics are given.
- LibMessage.OSCMessage: the `timetag` field is set to 0 and never read.
- Aliasing: the src/osc.js tree is written back along the walked path (`LegacyRegistry.Rebuild`). This stands for the in-place change of a node shared by its parents.
- BlobAtomic.AtomicBlob.Unpack: the source's `new Uint8Array(dataView.buffer, offset + 4, size)` (lib/osc.browser.js:396) shares the received buffer, and counts `offset` from the start of that buffer, not of the view. The model copies the bytes out of the view, so later writes to the buffer do not show in the blob, and a view that starts inside its buffer is not modelled.
- Views: the browser build's `dataView(obj)` (lib/osc.browser.js:41-48) wraps `obj.buffer`, the whole underlying ArrayBuffer, even when `obj` is a subarray of it. The model's view is the sequence of bytes it is given, so reading a subarray as if it were its whole buffer is not captured.

## Findings

| source | as written | input that shows it | evidently intended | confidence | as-written member | corrected member |
|---|---|---|---|---|---|---|
| src/message.js:132 | the type-string check joins its two tests with `&&`, so it throws only for a string that is empty and, at once, does not start with ',' | the 12 bytes "/a" NUL NUL, "xi" NUL NUL, int32 7: read as address "/a", types "xi" and the argument 7, the 'x' dropped | `\|\|`: refuse a type string that is empty or lacks its ',' (also lib/osc.js:561) | not executed | Messages.TypesWithoutCommaAccepted | Messages.TypesWithoutCommaRejected |
| lib/osc.browser.js:660-666 | each element of a bundle is read from the whole view; its size prefix is skipped, not used as a bound | a bundle whose first element is a bundle and whose second is a message: the nested bundle reads to the end of the view and takes the message as its own | read each element within the bytes its size gives, so `unpack(pack(b))` restores every bundle | not executed | Packets.NestedBundleNotRestored | Packets.PacketRoundTrip |
| lib/osc.browser.js:604 | the time argument after an Array is checked with `isInt(args[0])`, which is false for that Array | `new Bundle([message], 1234)`: the time tag stays the current time | `isInt(args[1])`: the integer sets the time tag | not executed | Packets.SecondIntegerIgnored | Packets.SecondIntegerSetsTime |
| src/atomic/timetag.js:65 | `decode` adds 8 to the atomic's previous offset, not to the offset it read at | a fresh `AtomicTimetag` decoding at offset 8 reports offset 8 | the read offset plus 8, as the browser build's `unpack` does | not executed | TimetagAtomic.AtomicTimetag.DecodeAsWritten | TimetagAtomic.AtomicTimetag.Unpack |
| lib/osc.browser.js:823-832 | with `discardLateMessages` set, a late message falls through to `setTimeout` | a message stamped 1000 ms with `now` 2000 and late messages discarded: scheduled with delay -1000, so its handlers still run | a late message is dropped when late messages are discarded | not executed | EventSpec.LateMessageScheduled | EventSpec.LateMessageDiscarded |
| lib/osc.browser.js:750 | a nested Bundle is passed to `dispatch`, whose `instanceof Packet` test (line 737) throws 'accepts only arguments of type Packet' for a Bundle | any bundle whose first element is a bundle: `dispatch` throws | dispatch the nested bundle as a Packet | not executed | EventSpec.NestedBundleRefused | EventSpec.NestedBundleDispatched |
| lib/osc.browser.js:747 | the order test throws when the enclosed bundle is later than the enclosing one | an enclosing bundle at 1000 ms holding one at 2000 ms, which OSC 1.0 allows, is refused | throw when the enclosed bundle is earlier than the enclosing one | not executed | EventSpec.NestedOrderAsWritten | EventSpec.NestedBundleDispatched |
| dist/osc.js:813 | `packet.unpack(dataView, offset, this.timetag)` hands on the `AtomicTimetag`, whose `timestamp` is not a function; line 858 calls it | any bundle nested in a bundle: `unpack` throws a TypeError | hand on the `Timetag` value, so that line 858 compares the two times | not executed | DistPacket.NestedBundleThrows | DistPacket.NestedBundleOrdered |
| src/common/helpers.js:19-33 | `isFloat` is checked before `isInfinity`, and `isFloat(Infinity)` holds | `typeTag(Infinity)` returns 'f', and no value is ever tagged 'I' | test for Infinity before the float test, so that Infinity gets the OSC 1.0 tag 'I' | not executed | Helpers.InfinityTaggedFloat | Helpers.TypeTag |
