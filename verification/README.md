# A model of the feature server and its companions

Four parts of the repository, written in Dafny and proved for all inputs.

- **The message codec** (`Wire`, `Codec`, `Messages`, `Layout`, `Utf8Text`, `Input`, `Output`, `ServMsg`, `TestPb`). `Wire` defines the
  Protocol Buffers wire format after the Protocol Buffers Encoding specification (sections "Base 128 Varints",
  "Message Structure", "Length-Delimited Records", "Packed Repeated Fields", "Last One Wins", "Groups"): a byte string is
  read as a run of fields that ends at the end of the input, at a tag that stops it, or in an error. `Codec` says once,
  for any message type, what parsing, printing and merging mean, and what a parse that fails may leave in the message.
  `Messages` gives the seven types of `serv-msg.proto`, `Layout` their bytes tag by tag without the schemas, and
  `Utf8Text` valid UTF-8 by its own definition. `ServMsg` holds the message classes with the loops of the generated
  code; each method is tied to the meaning in `Codec`. `TestPb` does the same for the message of the older generated
  code.
- **The feature store** (`Store`, `RedisDB`, `Cache`, `InOut`, `PushBatch`, `Service`, `EndToEnd`, `Interleaving`,
  `WholeRequests`). Whole requests are methods on classes, compared with a service that has no cache. `Interleaving` is a
  step relation in which any number of handlers take turns at every single cache and store call; `WholeRequests` ties
  the two together.
- **The in-place quicksort** (`QuickSort`), with its number of element comparisons.
- **The header parser** (`Headers`) and **the chunked upload** (`Upload`).

Four facts the proofs brought out:

- A Push writes at the version it has just read, so a key that has data is never changed by it, and each new key is
  written once. The invalidation a Push runs on into is therefore not what keeps the cache right
  (`Service.PushKeepsCoherent`): a key whose data changes was empty before, and an empty cached value is a miss.
- The version of a new key is carried over from the entry before it in the batch (`PushBatch.PushVersion`). Over a store
  with any version other than 0 this lets two handlers write two versions of one new key. Then two Pulls can read
  different data for it (`Interleaving.RacingReads`), and the cache can answer with data the store no longer shows
  (`Interleaving.StaleHit`). Reads of a key agree, are current, and find the cache right in every interleaving exactly
  when the key has data from the start or all versions in the initial store are 0 (`Interleaving.ReadsAgreeExactly`,
  `ReadsAreCurrentExactly`, `CachedRightExactly`).
- The generated parsers store a field before they check it, and the service ignores the parse result. So a Pull that
  breaks off behind the tag of a key is answered with one datum too many (`InOut.PullCutOff`), and a Push that breaks
  off inside its last entry still pushes what was read of that entry (`InOut.PushCutOff`). A request acts on exactly the
  fields read whole if and only if its parse did not fail at a field its entries come from (`InOut.AsksExactlyWhenIntact`).
- A Push is answered with two bodies, since its case runs on into the next one; both are the printed empty `PushRsp`.

Assumptions. Replies of Redis are successes and no one else writes the store; versions are non-negative; all connections
reach the same store. One cache call and one store call is one atomic step. A parser's cursor is the sequence of bytes not
yet read, and an output target is the sequence of bytes written. An eviction may drop any entries but the one just
written. A size is an unbounded number until the code converts it to 32 bits; that conversion is modelled. The library's
ParseFromString and SerializeToString are the same few lines in every class, so only those of PushReq have a row below.
The four message types without lists, and the test message, merge by the same laws (`Messages.OneInfoMergeLaws` and its like).

## Model

| member | source | states |
|---|---|---|
| Wire.ReadVarintInverts | feature-server/util/pbdata/serv-msg.pb.cc:324 | a written varint reads back as the same number whatever bytes follow |
| Wire.ReadVarintValue | feature-server/util/pbdata/serv-msg.pb.cc:324 | what is read is the base-128 number in the bytes up to the first one below 128, least significant first, and reading fails exactly when that byte does not come in time |
| Wire.VarintValue | feature-server/util/pbdata/serv-msg.pb.cc:368 | a number is written as its base-128 digits, least significant first, in as few bytes as possible |
| Wire.NumbersRead | feature-server/util/pbdata/serv-msg.pb.cc:316-324 | a tag keeps the low 32 bits of at most five bytes, a number the low 64 bits of at most ten |
| Wire.LengthsRead | feature-server/util/pbdata/serv-msg.pb.cc:331 | a length-delimited payload is exactly a length below 2^31 in at most five bytes and that many bytes |
| Wire.CutTagReadsOn | feature-server/util/pbdata/serv-msg.pb.cc:316-319 | reading on past the end of a cut-off tag can only give a tag its bytes begin |
| Wire.ReadFieldsInverts | feature-server/util/pbdata/serv-msg.pb.cc:575-595 | printed fields, nested groups included, read back as exactly those fields in front of whatever follows |
| Wire.ReadFieldsExtends | feature-server/util/pbdata/serv-msg.pb.cc:316-349 | bytes added behind a completely read run of fields, or behind a stop, do not change what was read before them |
| Codec.ParseFields | feature-server/util/pbdata/serv-msg.pb.cc:553-562 | for any message type, fields that are absorbed one after the other give what parsing their bytes gives, and the parse carries on behind them |
| Codec.ParseSplit | feature-server/util/pbdata/serv-msg.pb.cc:534-573 | for any completely parsed bytes, canonical or not, parsing them followed by more bytes parses the second part into the first part's message |
| Codec.AbsorbKeepsUnknown | feature-server/util/pbdata/serv-msg.pb.cc:559-563 | fields kept as unknown by a parse are ones the message type does not know, so a reprint keeps them apart |
| Messages.OneInfoCodecLaws | feature-server/util/pbdata/serv-msg.pb.cc:314-382 | round trip; the concatenation of two prints parses to their merge; a print followed by a zero byte and anything still fills the message and stops |
| Messages.PushReqCodecLaws | feature-server/util/pbdata/serv-msg.pb.cc:534-595 | round trip; the concatenation of two prints parses to their merge; a print followed by a zero byte and anything still fills the message and stops (nested messages with their own unknown fields) |
| Messages.PushRspCodecLaws | feature-server/util/pbdata/serv-msg.pb.cc:742-815 | round trip; the concatenation of two prints parses to their merge; a print followed by a zero byte and anything still fills the message and stops (negative codes as sign-extended 64-bit varints, UTF-8 text) |
| Messages.PushRspSurvivesExactly | feature-server/util/pbdata/serv-msg.pb.cc:757-765 | a reply survives printing and parsing if and only if its text is UTF-8; otherwise its parse fails |
| Messages.PullReqCodecLaws | feature-server/util/pbdata/serv-msg.pb.cc:969-1048 | round trip; the concatenation of two prints parses to their merge; a print followed by a zero byte and anything still fills the message and stops (packed runs) |
| Messages.PullRspCodecLaws | feature-server/util/pbdata/serv-msg.pb.cc:1223-1315 | round trip; the concatenation of two prints parses to their merge; a print followed by a zero byte and anything still fills the message and stops (empty list elements kept) |
| Messages.PullRspSurvivesExactly | feature-server/util/pbdata/serv-msg.pb.cc:1238-1246 | a reply survives printing and parsing if and only if its text is UTF-8; otherwise its parse fails |
| Messages.DelCacheReqCodecLaws | feature-server/util/pbdata/serv-msg.pb.cc:1476-1530 | round trip; the concatenation of two prints parses to their merge; a print followed by a zero byte and anything still fills the message and stops |
| Messages.DelCacheRspCodecLaws | feature-server/util/pbdata/serv-msg.pb.cc:1670-1724 | round trip; the concatenation of two prints parses to their merge; a print followed by a zero byte and anything still fills the message and stops |
| Messages.PushReqMergeLaws | feature-server/util/pbdata/serv-msg.pb.cc:636-644 | merging is associative and the cleared message is its unit on both sides |
| Messages.PullReqMergeLaws | feature-server/util/pbdata/serv-msg.pb.cc:1112-1121 | merging is associative and the cleared message is its unit on both sides |
| Messages.PullRspMergeLaws | feature-server/util/pbdata/serv-msg.pb.cc:1371-1385 | merging is associative and the cleared message is its unit on both sides |
| Messages.UnpackInverts | feature-server/util/pbdata/serv-msg.pb.cc:979 | the elements of a packed run are recovered in order and the run is used up |
| Layout.OneInfoBytes | feature-server/util/pbdata/serv-msg.pb.cc:358-382 | the printed bytes: 8 and the key if not 0, 18, length and data if not empty, the unknown fields |
| Layout.PushReqBytes | feature-server/util/pbdata/serv-msg.pb.cc:575-595 | the printed bytes: for each entry 10, its length and its own bytes, then the unknown fields |
| Layout.PushRspBytes | feature-server/util/pbdata/serv-msg.pb.cc:787-815 | the printed bytes: 8 and the code if not 0, a negative one plus 2^64, 18, length and text if not empty, the unknown fields |
| Layout.PullReqBytes | feature-server/util/pbdata/serv-msg.pb.cc:1018-1048 | the printed bytes: 10, length and the keys as varints if any, 18, length and the fields as varints if any, the unknown fields |
| Layout.PullRspBytes | feature-server/util/pbdata/serv-msg.pb.cc:1281-1315 | the printed bytes: as PushRsp, and before the unknown fields for each datum 26, its length and its bytes |
| Layout.DelCacheReqBytes | feature-server/util/pbdata/serv-msg.pb.cc:1512-1530 | the printed bytes: 8 and the key if not 0, the unknown fields |
| Layout.DelCacheRspBytes | feature-server/util/pbdata/serv-msg.pb.cc:1706-1724 | the printed bytes: 8 and 1 if the flag is set, the unknown fields |
| Layout.TestPbBytes | test-debug/pb-test/pbdata/test.pb.cc:263-299 | the printed bytes: 10, 16 and the three-byte tag 202 239 4, each with its payload if that is not the default, then the unknown fields |
| Layout.KnownFields | feature-server/util/pbdata/serv-msg.pb.cc:976-1004 | the number and wire type of every field each message type knows; all others are kept as unknown |
| Layout.OneInfoReads | feature-server/util/pbdata/serv-msg.pb.cc:320-333 | tag 8 sets the key, tag 18 the data, whatever they were |
| Layout.PushReqReads | feature-server/util/pbdata/serv-msg.pb.cc:541-552 | tag 10 adds one entry, parsed from its bytes |
| Layout.PushRspReads | feature-server/util/pbdata/serv-msg.pb.cc:748-765 | tag 8 sets the code to the number with the same low 32 bits, tag 18 the text, which is kept but fails the parse when it is not UTF-8 |
| Layout.PullReqReads | feature-server/util/pbdata/serv-msg.pb.cc:976-1002 | tags 8 and 10 add keys, one or a run, tags 16 and 18 fields, each cut to its low 32 bits |
| Layout.PullRspReads | feature-server/util/pbdata/serv-msg.pb.cc:1229-1258 | as PushRsp, and tag 26 adds one datum, empty or not |
| Layout.DelCacheReads | feature-server/util/pbdata/serv-msg.pb.cc:1482-1488 | tag 8 sets the key of the request, and the flag of the reply exactly when the number is not 0 |
| Layout.TestPbReads | test-debug/pb-test/pbdata/test.pb.cc:196-243 | tags 10, 16 and 79818 set the two strings and the page, a string that is not UTF-8 failing the parse |
| Layout.OneInfoCutOff | feature-server/util/pbdata/serv-msg.pb.cc:322-332 | a known tag with nothing behind it leaves any key, or any data, and nothing else changed |
| Layout.PullReqCutOff | feature-server/util/pbdata/serv-msg.pb.cc:976-1002 | a known tag with nothing behind it adds one element, any at all, or for a run any elements, and changes nothing else |
| Layout.PullRspCutOff | feature-server/util/pbdata/serv-msg.pb.cc:1229-1258 | a known tag with nothing behind it leaves any code, any text, or one more datum, and nothing else changed |
| Layout.NoField | feature-server/util/pbdata/serv-msg.pb.cc:559-562 | field number 0 and wire types 6 and 7 are unreadable, and a group that ends with another number's end tag is too |
| Layout.StopTags | feature-server/util/pbdata/serv-msg.pb.cc:555-558 | tag 0 and every end-group tag end the parse with the message as it stands; nothing behind them is read |
| Utf8Text.Utf8Exactly | feature-server/util/pbdata/serv-msg.pb.cc:761 | the texts accepted are exactly the UTF-8 encodings of sequences of Unicode scalar values |
| Messages.PullReqEncodingFreedom | feature-server/util/pbdata/serv-msg.pb.cc:976-1007 | any interleaving of packed runs, single elements and unknown fields parses to the concatenation in order |
| Messages.CutOffInfo | feature-server/util/pbdata/serv-msg.pb.cc:541-552 | a nested message whose length reaches past the end makes the parse fail and is in the batch with exactly the fields there are |
| Messages.PushReqReprint | feature-server/util/pbdata/serv-msg.pb.cc:534-595 | printing what any bytes parsed to, unknown fields at both levels included, and parsing again changes nothing |
| Messages.PullRspReprint | feature-server/util/pbdata/serv-msg.pb.cc:1223-1315 | the same for replies, whose text must be UTF-8 for the parse to be complete |
| Output.NestedFieldLength | feature-server/util/pbdata/serv-msg.pb.cc:606-610 | a nested message whose computed size is right contributes exactly its printed length, tag and prefix included |
| Output.PackedFieldLength | feature-server/util/pbdata/serv-msg.pb.cc:1059-1071 | tag, int32-sized prefix and elements of a packed field add up to its printed length; sizes of 2 GiB and more, where the casts wrap, are told apart |
| ServMsg.OneInfo.InternalParse | feature-server/util/pbdata/serv-msg.pb.cc:314-356 | on every input the tag dispatch by low byte ends as reading all fields and absorbing them in order does and leaves that message; a field the parse fails at, or that a cut-off tag begins, was stored before the check and leaves any number or any data in the field that failed |
| ServMsg.OneInfo.ByteSizeLong | feature-server/util/pbdata/serv-msg.pb.cc:384-413 | below 2 GiB the returned and the cached size are the length the serializer writes |
| ServMsg.OneInfo.InternalSerialize | feature-server/util/pbdata/serv-msg.pb.cc:358-382 | appends exactly the print of the message |
| ServMsg.OneInfo.MergeFrom | feature-server/util/pbdata/serv-msg.pb.cc:430-443 | the message becomes the merge of both; the other is unchanged |
| ServMsg.PushReq.InternalParse | feature-server/util/pbdata/serv-msg.pb.cc:534-573 | on every input the tag dispatch by low byte, with the tight loop over repeated nested messages, ends as reading all fields and absorbing them in order does and leaves that message; a field the parse fails at, or that a cut-off tag begins, was stored before the check and leaves a nested message holding what its own parse left, from the bytes there are when its length reaches past the end |
| ServMsg.PushReq.ByteSizeLong | feature-server/util/pbdata/serv-msg.pb.cc:597-619 | below 2 GiB the returned size, the cached one and each nested message's cached one are the lengths the serializer writes |
| ServMsg.PushReq.InternalSerialize | feature-server/util/pbdata/serv-msg.pb.cc:575-595 | appends exactly the print of the message, every length prefix taken from the cached sizes |
| ServMsg.PushReq.MergeFrom | feature-server/util/pbdata/serv-msg.pb.cc:636-644 | the message becomes the merge of both; the other is unchanged |
| ServMsg.PushRsp.InternalParse | feature-server/util/pbdata/serv-msg.pb.cc:742-785 | on every input the tag dispatch by low byte ends as reading all fields and absorbing them in order does and leaves that message; a field the parse fails at, or that a cut-off tag begins, was stored before the check and leaves any code or text in the field that failed, a text that is not UTF-8 as it came |
| ServMsg.PushRsp.ByteSizeLong | feature-server/util/pbdata/serv-msg.pb.cc:817-846 | below 2 GiB the returned and the cached size are the length the serializer writes |
| ServMsg.PushRsp.InternalSerialize | feature-server/util/pbdata/serv-msg.pb.cc:787-815 | appends exactly the print of the message |
| ServMsg.PushRsp.MergeFrom | feature-server/util/pbdata/serv-msg.pb.cc:863-876 | the message becomes the merge of both; the other is unchanged |
| ServMsg.PullReq.InternalParse | feature-server/util/pbdata/serv-msg.pb.cc:969-1016 | on every input the tag dispatch by low byte, accepting packed and single elements, ends as reading all fields and absorbing them in order does and leaves that message; a field the parse fails at, or that a cut-off tag begins, was stored before the check and leaves one more element for a single one that cannot be read, at least the well-formed elements of a packed run |
| ServMsg.PullReq.ByteSizeLong | feature-server/util/pbdata/serv-msg.pb.cc:1050-1095 | below 2 GiB the returned size, the cached one and each packed run's cached one are the lengths the serializer writes |
| ServMsg.PullReq.InternalSerialize | feature-server/util/pbdata/serv-msg.pb.cc:1018-1048 | appends exactly the print of the message, every length prefix taken from the cached sizes |
| ServMsg.PullReq.MergeFrom | feature-server/util/pbdata/serv-msg.pb.cc:1112-1121 | the message becomes the merge of both; the other is unchanged |
| ServMsg.PullRsp.InternalParse | feature-server/util/pbdata/serv-msg.pb.cc:1223-1279 | on every input the tag dispatch by low byte, with the tight loop over repeated bytes, ends as reading all fields and absorbing them in order does and leaves that message; a field the parse fails at, or that a cut-off tag begins, was stored before the check and leaves any code or text in the field that failed, one more element for a list entry |
| ServMsg.PullRsp.ByteSizeLong | feature-server/util/pbdata/serv-msg.pb.cc:1317-1354 | below 2 GiB the returned and the cached size are the length the serializer writes |
| ServMsg.PullRsp.InternalSerialize | feature-server/util/pbdata/serv-msg.pb.cc:1281-1315 | appends exactly the print of the message |
| ServMsg.PullRsp.MergeFrom | feature-server/util/pbdata/serv-msg.pb.cc:1371-1385 | the message becomes the merge of both; the other is unchanged |
| ServMsg.DelCacheReq.InternalParse | feature-server/util/pbdata/serv-msg.pb.cc:1476-1510 | on every input the tag dispatch by low byte ends as reading all fields and absorbing them in order does and leaves that message; a field the parse fails at, or that a cut-off tag begins, was stored before the check and leaves any key |
| ServMsg.DelCacheReq.ByteSizeLong | feature-server/util/pbdata/serv-msg.pb.cc:1532-1554 | below 2 GiB the returned and the cached size are the length the serializer writes |
| ServMsg.DelCacheReq.InternalSerialize | feature-server/util/pbdata/serv-msg.pb.cc:1512-1530 | appends exactly the print of the message |
| ServMsg.DelCacheReq.MergeFrom | feature-server/util/pbdata/serv-msg.pb.cc:1571-1581 | the message becomes the merge of both; the other is unchanged |
| ServMsg.DelCacheRsp.InternalParse | feature-server/util/pbdata/serv-msg.pb.cc:1670-1704 | on every input the tag dispatch by low byte ends as reading all fields and absorbing them in order does and leaves that message; a field the parse fails at, or that a cut-off tag begins, was stored before the check and leaves either flag |
| ServMsg.DelCacheRsp.ByteSizeLong | feature-server/util/pbdata/serv-msg.pb.cc:1726-1746 | below 2 GiB the returned and the cached size are the length the serializer writes |
| ServMsg.DelCacheRsp.InternalSerialize | feature-server/util/pbdata/serv-msg.pb.cc:1706-1724 | appends exactly the print of the message |
| ServMsg.DelCacheRsp.MergeFrom | feature-server/util/pbdata/serv-msg.pb.cc:1763-1773 | the message becomes the merge of both; the other is unchanged |
| ServMsg.PushReq.ParseInfo | feature-server/util/pbdata/serv-msg.pb.cc:546-548 | the nested message is added before its length is read, is parsed from the bytes there are when that length reaches past the end, and counts only if its parse ends at its own limit |
| ServMsg.PushReq.SerializeToString | feature-server/util/pbdata/serv-msg.pb.cc:575-619 | size pass and print pass together give exactly the print, refused from 2 GiB on |
| ServMsg.PushReq.ParseFromString | feature-server/service/Msg.cpp:47-48 | the message afterwards is what parsing from empty leaves, also when the result is failure |
| TestPb.TestPbMessage.MergePartialFromCodedStream | test-debug/pb-test/pbdata/test.pb.cc:187-261 | the older parser's tag cutoff and low-byte dispatch end as reading and absorbing all fields does; success at the end of the input, at a zero tag and at an unreadable tag, failure at an end-group tag and at a bad field, after which only that field is open |
| TestPb.PrintAndParse | test-debug/pb-test/pbdata/test.pb.cc:187-299 | a message printed and parsed into a new one: success with the same message at the end of the input, before a zero byte and before half a tag; failure before an end-group tag and before a field cut off |
| TestPb.TestPbMessage.SerializeWithCachedSizes | test-debug/pb-test/pbdata/test.pb.cc:263-299 | the stream receives exactly the print |
| TestPb.TestPbMessage.InternalSerializeWithCachedSizesToArray | test-debug/pb-test/pbdata/test.pb.cc:301-341 | the array receives the same bytes as the stream |
| TestPb.TestPbMessage.ByteSizeLong | test-debug/pb-test/pbdata/test.pb.cc:343-376 | the size is the printed length, with three bytes of tag for field 9977 |
| TestPb.TestPbMessage.MergeFrom | test-debug/pb-test/pbdata/test.pb.cc:393-411 | the message becomes the merge of both |
| TestPb.TestPbCodecLaws | test-debug/pb-test/pbdata/test.pb.cc:187-341 | the parser inverts the serializers, also in front of a zero byte and anything, and parses a concatenation to the merge |
| TestPb.TestPbSurvivesExactly | test-debug/pb-test/pbdata/test.pb.cc:199-246 | a message survives printing and parsing if and only if both its strings are UTF-8 |
| RedisDB.DBInst.Get | feature-server/db/RedisDB.cpp:14-46 | for every order of the reply, the data of the largest version and that version in currv; an absent key leaves currv alone |
| RedisDB.DBInst.Set | feature-server/db/RedisDB.cpp:47-64 | writes the version only if it is absent and says whether it wrote |
| PushBatch.PushEffect | feature-server/service/Service.cpp:79-90 | a batch leaves every key that has data unchanged and gives each other key it names exactly one version, holding its first data |
| PushBatch.PushVersion | feature-server/service/Service.cpp:79-88 | the version a new key gets: 0 for the first entry, else the newest version of the entry before it, because _currv carries over |
| PushBatch.PushNewest | feature-server/service/Service.cpp:79-90 | what a reader sees of any key after a batch |
| PushBatch.PushZeroExactly | feature-server/service/Service.cpp:79-88 | version 0 is the only one in use after a batch if and only if it was before |
| Cache.CacheSpace.Set | feature-server/cache/Cache.cpp:12-16 | the new entry is present; while at most 100 entries result nothing else changes, and otherwise at most 10 old entries are gone, whichever were evicted, and at most 100 remain |
| Cache.CacheSpace.Get | feature-server/cache/Cache.cpp:17-25 | the cached value, or the empty string |
| Cache.CacheSpace.Del | feature-server/cache/Cache.cpp:26 | exactly the key is gone |
| InOut.InOutMsg.constructor | feature-server/service/Msg.cpp:43-84 | for each of the four request types the entries and the fields of one message, namely whatever the message object holds after the parse, whose result is ignored |
| InOut.InOutMsg.FillPush | feature-server/service/Msg.cpp:46-60 | one entry for each nested message the object holds, in order, one broken off included |
| InOut.InOutMsg.FillPull | feature-server/service/Msg.cpp:61-74 | one empty entry for each key the object holds, in order, and the set of fields of the same object |
| InOut.AsksExactlyWhenIntact | feature-server/service/Msg.cpp:43-84 | a request asks for exactly the entries of the fields read whole if and only if the parse of its body did not fail at a field entries come from: a nested message or a cut-off tag that may be one (Push), a key, packed or single, or a cut-off tag that may be one (Pull), the key (DelCache); a failure anywhere else, such as in the field list of a Pull, does no harm |
| InOut.PullBeforeDamage | feature-server/service/Msg.cpp:61-73 | whatever bytes follow an encoded Pull request, it asks for every requested key first |
| InOut.PushBeforeDamage | feature-server/service/Msg.cpp:46-60 | whatever bytes follow an encoded Push request, it pushes every encoded entry first |
| InOut.PullCutOff | feature-server/util/pbdata/serv-msg.pb.cc:983-985 | an encoded Pull request that goes on with nothing but the tag of one more key asks for exactly one key more, and that may be any |
| InOut.PushCutOff | feature-server/util/pbdata/serv-msg.pb.cc:541-552 | a Push cut off inside its last entry, behind fields of it, pushes that entry with exactly those fields |
| InOut.InOutMsg.GetPullIds | feature-server/service/Msg.cpp:100-112 | the ids of all entries in order |
| InOut.InOutMsg.SetPullData | feature-server/service/Msg.cpp:113-115 | one entry's data replaced |
| InOut.InOutMsg.EncodeRsp | feature-server/service/Msg.cpp:116-151 | the reply as bytes: nothing for a Push with code 0, for DelCache and for unknown types; 8 and the code for another code; for a Pull with code 0 each entry's datum behind 26 and its length, or nothing from 2 GiB on |
| Service.FsService.OnBody | feature-server/service/Service.cpp:42-107 | for every body and every coherent cache, the replies and the store are those of the service without a cache for entries the body may decode to (cut-off tags and fields left as open as the parse leaves them); a Push answers two empty bodies, DelCache and unknown types one; exactly the pushed or deleted keys leave the cache, a Pull adds only newest data of keys it was asked for and always leaves that of the last one, and the cache stays coherent |
| Service.FsService.Handle | feature-server/service/Service.cpp:15-26 | "/pull", "/push" and "/delcache" are handled as Pull, Push and DelCache, with the replies, the store and the cache written out for each; any other URL answers one empty body and changes nothing |
| Service.FsService.DoPull | feature-server/service/Service.cpp:54-76 | reads through the cache and answers each key's newest data, restoring coherence after every fill and eviction; the last key's data is cached afterwards |
| Service.FsService.DoPush | feature-server/service/Service.cpp:77-91 | reads, appends and writes at the version just read, for every entry |
| Service.FsService.DoDelCache | feature-server/service/Service.cpp:93-99 | exactly the named keys leave the cache |
| Service.FsService.Serve | feature-server/service/Service.cpp:15-26 | any sequence of whole requests, dispatched by URL and with arbitrary bodies and evictions, is answered byte for byte as by the service without a cache on the same decoded entries, and leaves the same store |
| Service.PushKeepsCoherent | feature-server/service/Service.cpp:78-90 | a batch alone cannot make a non-empty cached value wrong, since only keys that read as empty change |
| EndToEnd.PullEndToEnd | feature-server/service/Service.cpp:53-76 | the reply to an encoded PullReq, also with a zero byte and anything behind it, parses to one datum for each key in order, equal to the newest stored value or empty; a reply of 2 GiB or more is empty |
| EndToEnd.AskPull | feature-server/service/Service.cpp:53-76 | the whole chain run once over "/pull": a client prints a PullReq, the handler answers it, the client parses the reply and holds the newest stored value of each key in order; the store is unchanged, the cache gains only newest data of those keys, and the last one is cached |
| EndToEnd.AskPush | feature-server/service/Service.cpp:77-99 | the whole chain run once over "/push": two empty bodies come back, each key without data that is pushed gets one version with its first pushed data, all else in the store is as before, and exactly the pushed keys leave the cache |
| EndToEnd.AskDelCache | feature-server/service/Service.cpp:93-99 | the whole chain run once over "/delcache": one empty body comes back, exactly the key leaves the cache, and the store is unchanged |
| EndToEnd.PushThenPull | feature-server/service/Service.cpp:77-99 | after an encoded PushReq, a Pull shows the first pushed data for keys that had none and the old data for the others |
| Interleaving.DataIsKept | feature-server/db/RedisDB.cpp:47-64 | over any interleaving, data under a version stays as it is |
| Interleaving.WrittenOnce | feature-server/db/RedisDB.cpp:47-64 | over any interleaving, at most one write of a key and version succeeds |
| Interleaving.WriteOnceRegisters | feature-server/service/Service.cpp:79-88 | from an empty store only version 0 is ever written, so each key is written at most once |
| Interleaving.StepKeepsInv | feature-server/service/Service.cpp:61-99 | over a store whose versions are all 0, every cache and store call of every handler keeps the versions 0 and all non-empty cached and held values equal to the store's |
| Interleaving.AlwaysCoherent | feature-server/service/Service.cpp:61-99 | over a store whose versions are all 0, in every state of every interleaving no non-empty cached or held value differs from the store's |
| Interleaving.ReadsAreCurrent | feature-server/service/Service.cpp:61-71 | over a store whose versions are all 0, every datum a Pull obtains is what the store holds at that moment |
| Interleaving.ReadsAgree | feature-server/service/Service.cpp:61-71 | over a store whose versions are all 0, once a Pull reads non-empty data for a key, every later read of the key gives the same |
| Interleaving.SettledReads | feature-server/service/Service.cpp:61-90 | over any initial store and in every interleaving, each read of a key that had data at the start gives that data: every write to it hits a version already there |
| Interleaving.RacingReads | feature-server/service/Service.cpp:78-90 | over a store with a version other than 0, for any key without data a run in which two Pulls read different non-empty data for it |
| Interleaving.StaleHit | feature-server/service/Service.cpp:61-71 | over such a store, a run in which the cache answers a Pull with data the store no longer shows |
| Interleaving.ReadsAreCurrentExactly | feature-server/service/Service.cpp:53-99 | every read of a key in every interleaving gives what the store holds at that moment if and only if the key has data from the start or every version in the initial store is 0 |
| Interleaving.CachedRightExactly | feature-server/service/Service.cpp:61-99 | the cache is right about a key in every state of every interleaving under exactly the same condition |
| Interleaving.ReadsAgreeExactly | feature-server/service/Service.cpp:53-99 | the reads of a key agree in every interleaving if and only if the key has data from the start or every version in the initial store is 0 |
| Interleaving.AllReadsAgreeExactly | feature-server/service/Service.cpp:53-99 | the reads of all keys agree in every interleaving if and only if every version in the initial store is 0 or every key has data |
| WholeRequests.PullAlone | feature-server/service/Service.cpp:54-76 | a Pull handler whose steps nobody interrupts ends with the newest data of every key, the store unchanged, the cache coherent and with only asked-for keys added, as the whole-request method does |
| WholeRequests.PullFinishes | feature-server/service/Service.cpp:54-76 | from any state a waiting Pull has such a run to its end |
| WholeRequests.PushAlone | feature-server/service/Service.cpp:77-99 | a Push handler whose steps nobody interrupts makes of the store what the whole-request method makes of it and takes exactly the pushed keys out of the cache |
| WholeRequests.PushFinishes | feature-server/service/Service.cpp:77-99 | from any state a waiting Push has such a run through its batch and its invalidations to the end |
| QuickSort.Sort | test-debug/file-test/file-test.cpp:21-48 | terminates, stays in bounds, sorts the range, permutes it, leaves the rest untouched, and compares elements at most n(n+5)/2 times |
| QuickSort.SortMeans | test-debug/file-test/file-test.cpp:21-48 | sorted means ascending over the range with the same elements, everything outside in place, and the limit is n(n+5)/2 |
| QuickSort.Partition | test-debug/file-test/file-test.cpp:23-43 | smaller or equal before the pivot, larger or equal behind it, at most m+2 comparisons |
| Headers.ParseHeaders | feature-server/back-code/client/HttpClient.cpp:146-168 | every pair with a name has its header, at its place among such pairs, with everything behind its first '=' as the value, and there are no other headers |
| Headers.SurvivesExactly | feature-server/back-code/client/HttpClient.cpp:146-168 | parsing inverts joining name=value pairs with commas if and only if no name is empty or holds ',' or '=' and no value holds ',' |
| Headers.ParsePrintParse | feature-server/back-code/client/HttpClient.cpp:146-168 | for any string, what was parsed prints, and parsing that print gives the same headers |
| Headers.PairRebuilt | feature-server/back-code/client/HttpClient.cpp:157-163 | a pair is its name, without '=', then '=' and its value; a pair without '=' is all name |
| Headers.PairSplit | feature-server/back-code/client/HttpClient.cpp:151-163 | splitting at every '=' and joining all but the first piece gives the value |
| Upload.CurlClient.SendBodyFromFile | test-debug/curl/CurlClient.cpp:206-224 | sends the next chunks up to the first send that pauses or to the end of the input; the end mark only when not paused and the input is used up |
| Upload.CurlClient.OnEgressResumed | test-debug/curl/CurlClient.cpp:290-296 | clears the pause and carries on if the input is open |
| Upload.CurlClient.Run | test-debug/curl/CurlClient.cpp:192-224 | over any schedule of pauses and resumes, with pauses striking inside sends, bytes sent plus bytes unread are the file, an end mark is sent only behind the last chunk, and the number of end marks is the number of times sending started or went on less the number of chunk sends that pause, or none if that is not positive; so it is one exactly when these differ by one; an undisturbed upload is its chunks and one end mark |
| Upload.CompletedUpload | test-debug/curl/CurlClient.cpp:206-224 | a completed upload of n bytes takes n/4096 sends of 4096 bytes and one of the remaining n mod 4096, all before the first end mark |
| Upload.ChunksShape | test-debug/curl/CurlClient.cpp:215-220 | the chunks of a file: their number, their sizes, and that they make up the file |

## Left out

- HTTP plumbing: handlers, response building and header echo are I/O over libraries; a reply is a sequence of bodies.
- Redis connections, authentication, the random choice of a connection, printf formatting and truncation of data at a
  zero byte: foreign calls. HGETALL and HSETNX work on byte strings.
- Redis error replies and other writers of the store, which the coherence properties exclude.
- Data races inside the cache map: each cache call is one atomic step.
- The least-recently-used order of the evicting map, which is not in the repository; only its size bound is kept.
- Codec.Parse: what a library routine hands over for a payload it cannot read is left open: any number, string or list,
  any kept unknown fields. Where the input, or a nested message, ends inside a tag, the library may read on past that end
  and take the bytes for any tag they begin; one such field is then allowed for.
- Wire.ReadLen: the library refuses the lengths from 2^31 - 16 to 2^31 - 1, which are accepted here, so the round trips cover those few sizes too many.
- TestPb.TestPbMessage.MergePartialFromCodedStream: tags and lengths of six to ten bytes, which the older library accepts, count as unreadable.
- RedisDB.DBInst.Get: versions are non-negative, as all versions this service writes are; decimal printing and reading of versions is left to the store's type.
- The library's limit of 100 on the nesting of groups, and the size limits of the older library used by the test message.
- Unknown fields of the test message are always kept, as with the library's default for preserving them.
- Arenas, swapping, reflection, descriptors and gRPC code: boilerplate around the codec.
- A parse of DelCacheRsp by a client: the reply to DelCache is never serialized, so it is the empty string.
- A file that cannot be opened for upload, and methods other than POST.
- The sessions and sending of the HTTP clients, and the Kafka, MySQL, HDFS and REST samples: event loops and sample code.
