# mtik: the RouterOS API client core, in Dafny

This project models the protocol core of `mtik`, a Ruby client for the
MikroTik RouterOS API, and proves properties of that model. The RouterOS
API exchanges *sentences*: lists of *words*, each a byte string behind a
length header of one to five bytes, ended by a zero-length word. The client
tags every request it sends (`.tag=N`). It then reads reply sentences
(`!re`, `!done`, `!trap`, `!fatal`) and routes each one by its tag to the
request's reply and callbacks.

The modules follow the Ruby files:

- `Bytes`, `Wrappers`, `Errors`: bytes (the Ruby code works on binary
  strings), `Option`/`Result`, and one error value per exception the code
  raises.
- `Codec`: `MTik::Request.bytepack`, `to_tikword` and `request`
  (lib/mtik/request.rb), and `MTik::Connection#get_tikword`
  (lib/mtik/connection.rb).
- `Sentences`: a received sentence as an insertion-ordered Hash, and the
  word pattern `get_sentence` uses to split `key=value`.
- `Replies`: `MTik::Reply#find_sentence` and `find_sentences`
  (lib/mtik/reply.rb).
- `Requests`: `MTik::Request` as a class (words, reply, completion flag,
  callbacks, and the tag) and `TagSpace`, the class-wide tag counter.
- `Reader`: the word-parsing and data-reading loops of `get_sentence`,
  with socket reads replaced by a list of chunks.
- `Dispatch`: the reply loop of `MTik::Connection` (`get_sentence`,
  `wait_for_reply`, `wait_all`, `wait_for_request`) as functions of a
  snapshot of the connection. These functions are the specification that
  the connection's methods are proved against.
- `Logins`: `hex2bin` and the reply checks of `login`.
- `Versions`: the version-comparison lambda in `fetch`, which picks the
  download parameters for RouterOS 4.9 and older.
- `Connections`: `MTik::Connection` as a class.
  - Its fields are the request table, the receive buffer, the `@parsing`
    flag, the socket state, the bytes written and the RouterOS version.
  - Each method is proved equal to a `Dispatch` function or to a session
    function (`GetReplyOf`, `LoginOf`).
- `MTik`: the rules of `MTik.command` and `MTik.interactive_client`
  (lib/mtik.rb): normalising `:command`, the auto-cancel conditions, the
  storing of replies, the parsing of a typed line, and the message printed
  after `/quit`.

The model has no network or clock.
- The bytes the socket would deliver are a parameter (`incoming`, a list
  of chunks). Running out of chunks is the timeout error.
- The bytes written are a trace (`output`).
- `Digest::MD5.hexdigest` is a function parameter (`md5hex`).
- A callback is an identifier. The connection records every call it makes
  in a log as `Call(callback, tag, sentence)`.

## Model

| member | source | states |
|---|---|---|
| Bytes.DecimalString | lib/mtik/request.rb:87 | the tag text `@@tagspace.to_s` is a non-empty run of decimal digits |
| Bytes.DecimalStringValue | lib/mtik/request.rb:87 | the digits of a tag read back as the counter value they were made from |
| Bytes.DecimalStringInjective | lib/mtik/request.rb:87-88 | two counter values give the same tag text exactly when they are equal |
| Codec.LittleEndianRoundTrip | lib/mtik/request.rb:164-168 | the bytes `bytepack` emits, least significant first, read back as the number, and the last byte is never zero |
| Codec.LittleEndianWidth | lib/mtik/request.rb:164-168 | `bytepack` emits at most k bytes exactly when the number is below 256^k |
| Codec.BytePack | lib/mtik/request.rb:159-170 | the loop packs the absolute value of its argument into its little-endian bytes |
| Codec.TypoBreaksLongWords | lib/mtik/request.rb:161-188 | as written, every word of 0x80 bytes or more raises on the undefined `RUBY_VERSIION`, although the intended encoder accepts it |
| Codec.ToTikwordLayout | lib/mtik/request.rb:174-195 | encoding succeeds exactly below 2^32 bytes; the result is the header, then the word unchanged; the header is the canonical protocol header with its bytes reversed, after a 0xF0 byte for five-byte headers |
| Codec.BigEndianRoundTrip | lib/mtik/connection.rb:542-563 | bytes taken most significant first read back as the number they were made from |
| Codec.LittleIsReversedBig | lib/mtik/request.rb:164-168 | `bytepack` of a number of k bytes is its k-byte big-endian form reversed |
| Codec.EncodeSentenceFails | lib/mtik/request.rb:174-202 | encoding a sentence fails exactly when some word is 2^32 bytes or longer, and then with the encoder's too-long error |
| Codec.CanonicalHeader | lib/mtik/connection.rb:539-563 | the header the decoder expects for a length has the width of the protocol's length table |
| Codec.AnnouncedWidth | lib/mtik/connection.rb:539-566 | the width a first byte announces is at most 5, and a non-zero width means the byte carries that width's marker bits |
| Codec.MaskTests | lib/mtik/connection.rb:539-563 | each bit test of the decoder selects exactly the first bytes that announce that header width, and each mask removes exactly that width's marker bits |
| Codec.GetTikwordOutcome | lib/mtik/connection.rb:532-570 | an empty buffer is "not enough data"; decoding fails exactly on a reserved first byte (above 0xF0), with the bad-length error; a complete word is the bytes after the header, and the count consumed covers header and word |
| Codec.GetTikwordLength | lib/mtik/connection.rb:539-570 | for a first byte that announces a width, decoding never fails; it waits exactly when the branch's length guard fails or fewer bytes than the header's length follow the header; otherwise the word is exactly that many bytes after the header and the count consumed is header width plus length |
| Codec.NonMinimalHeader | lib/mtik/connection.rb:542-547 | a two-byte header 0x80 0x05, longer than needed, still announces a five-byte word once the two-byte branch's guard is passed |
| Codec.CanonicalHeaderReads | lib/mtik/connection.rb:539-563 | a canonical header is read back as its width and its length |
| Codec.DecodeCanonical | lib/mtik/connection.rb:522-571 | a word behind its canonical header is decoded as exactly that word, whatever follows it |
| Codec.CanonicalPrefixPartial | lib/mtik/connection.rb:532-568 | every proper prefix of a canonically encoded word is "not enough data", so a word split across reads is never misread |
| Codec.ShortF0HeaderRaises | lib/mtik/connection.rb:560-562 | as written, a buffer holding only part of a five-byte header raises, where the guarded decoder waits for more data |
| Codec.HeaderLengthPrefix | lib/mtik/connection.rb:539-563 | the length read from a header does not depend on the bytes after it |
| Codec.GetTikwordExtend | lib/mtik/connection.rb:522-571 | once the buffer decides a word (or an error), more data after it changes nothing |
| Codec.EncodeDecodeShort | lib/mtik/request.rb:179-180 | a word below 0x80 bytes encodes, and decodes back to itself from the front of any buffer |
| Codec.LsbFirstHeaderMisread | lib/mtik/request.rb:181-182 | a word of 0x81 bytes gets the header bytes 0x81 0x80; the decoder reads them as a length of 0x180 and waits for data that never comes |
| Sentences.KeysLength | lib/mtik/connection.rb:194 | a sentence has one key per entry, in insertion order |
| Sentences.PutSpec | lib/mtik/connection.rb:232-234 | `sentence[k] = v` makes k map to v and leaves every other key; a new key goes last and an existing key keeps its place |
| Sentences.PutUnique | lib/mtik/connection.rb:232-234 | assigning a key keeps the keys unique, and the sentence grows by one entry exactly when the key is new |
| Sentences.EqualsFrom | lib/mtik/connection.rb:230 | the position of the first `=` at or after a given position, or the word's end when there is none |
| Sentences.LineEnd | lib/mtik/connection.rb:230 | the position of the first newline at or after a given position, or the word's end: where `$` matches |
| Sentences.SplitWordNoEquals | lib/mtik/connection.rb:230-235 | a word without `=` does not match and is stored as a key with a nil value |
| Sentences.SplitFromSingleLine | lib/mtik/connection.rb:230 | in a word without newlines the pattern can only match at the word's start |
| Sentences.SplitWordSingleLine | lib/mtik/connection.rb:230 | a word without newlines matches with key k and value v exactly when it is `=k=v` or `k=v`, with k non-empty and free of `=` |
| Sentences.SingleLineMatchShape | lib/mtik/connection.rb:230 | a match at the start of a single-line word is one of those two shapes |
| Sentences.BareAttributeMatch | lib/mtik/connection.rb:230 | `k=v` matches with key k and value v |
| Sentences.SplitWordAttribute | lib/mtik/connection.rb:230 | `=k=v` with v free of newlines splits into key k and value v |
| Replies.FindSentenceFirst | lib/mtik/reply.rb:43-48 | nil exactly when no sentence has the key; otherwise the first sentence that has it |
| Replies.FindSentencesSelects | lib/mtik/reply.rb:51-55 | the result holds only sentences with the key, and each such sentence as often as the reply does |
| Replies.FindSentencesAppend | lib/mtik/reply.rb:51-55 | selecting from two replies joined is joining the two selections, so order is kept |
| Replies.FindSentenceIsFirstOfFindSentences | lib/mtik/reply.rb:43-55 | `find_sentence` is the first element of `find_sentences`, or nil when that is empty |
| Requests.Flatten | lib/mtik/request.rb:70 | `args.flatten!` leaves no nested array |
| Requests.LinePrefixedSingleLine | lib/mtik/request.rb:116 | on a key without newlines the `^` test is a test of the key's start |
| Requests.AddArgSpec | lib/mtik/request.rb:126-130 | `addarg` appends its argument unless it is a `.tag=` argument, and changes no earlier word |
| Requests.PairWordPrefix | lib/mtik/request.rb:115-118 | a hash pair becomes `key=value` when the key starts with `?`, `=` or `.`, and `=key=value` otherwise |
| Requests.PairWordReadsBack | lib/mtik/request.rb:115-118 | an attribute written from a hash pair is split by the receiving side's word pattern back into the same key and value |
| Requests.AddPairsAppends | lib/mtik/request.rb:114-119 | a hash argument appends its pairs' words after the existing words, and none of them is dropped as a tag |
| Requests.AddArgsAppends | lib/mtik/request.rb:107-123 | `addargs` appends after the existing words and depends on nothing before; no appended word is a tag argument; it fails exactly when some argument is neither a String nor a Hash of String keys and values (that is, a Proc or an Array reaches `addarg`) |
| Requests.PairWords | lib/mtik/request.rb:114-119 | a hash argument offers one word per entry, in entry order |
| Requests.Untagged | lib/mtik/request.rb:126-130 | the words kept are exactly those that are not tag arguments |
| Requests.AddPairsWords | lib/mtik/request.rb:114-119 | a hash argument appends the words of its entries, in order, less those that are tag arguments |
| Requests.AddArgsWords | lib/mtik/request.rb:107-130 | `addargs` appends exactly the words the arguments offer, in argument order and up to the first argument it cannot take, less the tag arguments |
| Requests.TagsDistinct | lib/mtik/request.rb:87-89 | two tag words are equal exactly when they come from the same counter value |
| Requests.TagSpace.constructor | lib/mtik/request.rb:42 | the tag counter starts at 0 |
| Requests.Request.Init | lib/mtik/request.rb:66-81 | a new request holds only its command, is not done, has an empty reply and keeps its command, mode, tag and callbacks |
| Requests.Request.DoneBang | lib/mtik/request.rb:206-208 | `done!` marks the request done and changes nothing else |
| Requests.Request.PushReply | lib/mtik/connection.rb:349 | a sentence is appended to the reply; nothing else changes |
| Requests.Request.AddArg | lib/mtik/request.rb:126-130 | the words become those `addarg` specifies; reply, flag and callbacks stay |
| Requests.Request.AddArgs | lib/mtik/request.rb:107-123 | the words and the failure are those `addargs` specifies; reply, flag and callbacks stay |
| Requests.Request.AppendCallback | lib/mtik/request.rb:96-104 | the given callbacks, then the block, are appended in order; nothing else changes |
| Requests.Request.Callback | lib/mtik/request.rb:142-155 | no result without callbacks, a single result for one callback, otherwise one call per callback in registration order, each with this request's tag and the sentence |
| Requests.NewRequest | lib/mtik/request.rb:65-90 | succeeds exactly when every argument is a String or a Hash of String keys and values; then the words are the command, the words the arguments offer less the tag arguments, and the tag word; the tag is the counter's value, and the counter advances by one only on success |
| Reader.ParseWordsConsumes | lib/mtik/connection.rb:200-237 | the word loop removes a prefix of the buffer, and a finished sentence removes at least one byte |
| Reader.ReadSentenceConsumes | lib/mtik/connection.rb:196-257 | reading a sentence consumes a prefix of the bytes still to come, and a sentence read consumes at least one byte |
| Reader.ReadSentenceSuffix | lib/mtik/connection.rb:196-257 | what remains after reading is a suffix of what was pending |
| Reader.ParseWordsNonEmpty | lib/mtik/connection.rb:206-210 | a sentence is returned only when it has at least one entry |
| Reader.ReadSentenceNonEmpty | lib/mtik/connection.rb:206-210 | `get_sentence` never returns an empty sentence |
| Reader.ParseWordsExtend | lib/mtik/connection.rb:200-237 | once the buffer decides a sentence or an error, more data after it only extends what is left |
| Reader.ParseWordsResume | lib/mtik/connection.rb:200-237 | when the loop stops for more data, resuming on the rest plus new data gives the same result as parsing all of it at once |
| Reader.SameParseSameRead | lib/mtik/connection.rb:196-257 | the read loop depends only on the word loop's result |
| Reader.ReadSentenceChunking | lib/mtik/connection.rb:196-257 | how the incoming bytes are cut into reads does not change the sentence or what is left |
| Reader.SentenceRoundTrip | lib/mtik/connection.rb:200-237 | a sentence of short words, encoded, is read back as those words added in order, with any following bytes left |
| Reader.SentenceRoundTripChunked | lib/mtik/connection.rb:196-257 | the same round trip, with the bytes arriving in any chunks |
| Dispatch.CallsFor | lib/mtik/request.rb:142-155 | one call per callback, in order, with the request's tag and the sentence |
| Dispatch.Without | lib/mtik/connection.rb:306 | `@requests.delete(tag)` leaves exactly the other tags |
| Dispatch.WithoutDistinct | lib/mtik/connection.rb:306 | deleting keeps the tags distinct, and deleting the first tag removes just it |
| Dispatch.WithoutAbsent | lib/mtik/connection.rb:357 | deleting an absent tag changes nothing |
| Dispatch.Register | lib/mtik/connection.rb:405 | registering files the request under its tag and adds the tag to the table |
| Dispatch.RegisterKeepsInvariant | lib/mtik/connection.rb:405 | registering a request that is not done keeps the table invariant: every request under its own tag, every outstanding one not done, no tag twice |
| Dispatch.Close | lib/mtik/connection.rb:486-492 | `close` leaves both sockets closed and changes nothing else |
| Dispatch.GetSentence | lib/mtik/connection.rb:189-258 | reading leaves the table, flag and log alone; without a socket it fails; it consumes a prefix of the pending bytes, at least one when a sentence is read; a sentence is never empty; a `!fatal` sentence closes the connection |
| Dispatch.Sweep | lib/mtik/connection.rb:300-318 | the fatal sweep keeps the set of known requests |
| Dispatch.OnSentence | lib/mtik/connection.rb:288-363 | handling one sentence keeps the invariant and only lets the table progress; unless it raises it consumes input |
| Dispatch.ReplyLoop | lib/mtik/connection.rb:288-365 | the loop keeps the invariant and progress; a normal end leaves the buffer empty |
| Dispatch.WaitForReply | lib/mtik/connection.rb:276-367 | keeps the invariant and progress; a normal return has consumed input and restored `@parsing`; a raise either leaves `@parsing` set or, from the guards, changes nothing |
| Dispatch.WaitAll | lib/mtik/connection.rb:261-265 | a normal return leaves no request outstanding, and every request outstanding before is done |
| Dispatch.WaitForRequest | lib/mtik/connection.rb:268-272 | a normal return leaves the awaited request done |
| Dispatch.SweepQuit | lib/mtik/connection.rb:313-314 | the sweep reports `/quit` exactly when one of the swept requests is the `/quit` command |
| Dispatch.SweepStates | lib/mtik/connection.rb:302-317 | every swept request becomes done, and only the `/quit` request gets the `!fatal` sentence in its reply; the other requests are unchanged |
| Dispatch.SweepLog | lib/mtik/connection.rb:308-311 | the sweep calls the callbacks of exactly the requests awaiting completion, in table order |
| Dispatch.AwaitingCallsUpdate | lib/mtik/connection.rb:308-311 | updating a request's reply or flag does not change which calls the sweep makes |
| Dispatch.FatalKeepsInvariant | lib/mtik/connection.rb:294-326 | a `!fatal` sentence keeps the invariant and only lets the table progress, without reading |
| Dispatch.TaggedKeepsInvariant | lib/mtik/connection.rb:328-363 | a tagged sentence keeps the invariant and only lets the table progress, without reading |
| Dispatch.DoneKeepsInvariant | lib/mtik/connection.rb:352-357 | completing and removing an outstanding request keeps the invariant |
| Dispatch.UpdateKeepsInvariant | lib/mtik/connection.rb:358-361 | updating an outstanding request that stays open keeps the invariant |
| Dispatch.FatalOutcome | lib/mtik/connection.rb:294-326 | a `!fatal` with bytes left raises the sanity error and changes nothing; otherwise every outstanding request is done and removed, and the result is a quit exactly when `/quit` was outstanding, else the fatal error with the message |
| Dispatch.TaggedRouting | lib/mtik/connection.rb:349-362 | a sentence tagged for an outstanding request joins that request's reply alone; `!done` completes and removes it; callbacks run on `!done` or when not awaiting completion |
| Dispatch.TaggedTable | lib/mtik/connection.rb:349-356 | the table part of that routing: only the tagged request changes, its reply grows by the sentence, and it is done exactly on `!done` |
| Dispatch.TaggedOrderLog | lib/mtik/connection.rb:351-362 | the order and log part: the request leaves exactly on `!done`, other tags stay, and the calls made are its callbacks' |
| Dispatch.TaggedErrors | lib/mtik/connection.rb:330-340 | an untagged sentence raises the untagged error; a sentence raises exactly when it has no tag or an unknown one, and then nothing changes |
| Dispatch.WaitForReplyGuards | lib/mtik/connection.rb:278-283 | leftover bytes outside a nested call raise first; an empty table raises next; both change nothing |
| Dispatch.WaitForReplyDrains | lib/mtik/connection.rb:288-365 | a normal return has emptied the buffer or the table |
| Dispatch.QuitEmptiesTable | lib/mtik/connection.rb:300-326 | the loop ends in a quit only with no request outstanding |
| Logins.Nibble | lib/mtik/connection.rb:91-95 | a hex digit gives a value below 16 |
| Logins.PackHex | lib/mtik/connection.rb:93 | `pack('H*')` of an even-length string gives half as many bytes |
| Logins.Hex2Bin | lib/mtik/connection.rb:91-95 | `hex2bin` gives one byte per two digits, rounding up for an odd count |
| Logins.PackHexToHex | lib/mtik/connection.rb:93 | packing the hex text of any bytes gives back those bytes |
| Logins.Hex2BinToHex | lib/mtik/connection.rb:91-95 | `hex2bin` inverts hex text |
| Logins.NibbleIgnoresCase | lib/mtik/connection.rb:93 | upper- and lower-case hex letters have the same value |
| Logins.Hex2BinOdd | lib/mtik/connection.rb:94 | an odd-length string is read with a leading `0`: its first digit alone makes the first byte |
| Logins.DirectLoginArgs | lib/mtik/connection.rb:108 | the direct login sends exactly `=name=user` and `=password=pass` |
| Logins.ChallengeOf | lib/mtik/connection.rb:119-124 | the challenge is taken exactly from a one-sentence reply with three entries including `ret`, decoded by `hex2bin`; the error depends on what is missing |
| Logins.ResponseArgs | lib/mtik/connection.rb:126-130 | the response login sends the name and `=response=00` followed by the MD5 hex of a zero byte, the password and the challenge |
| Logins.ResponseVerdict | lib/mtik/connection.rb:131-138 | accepted exactly on the logged-in shape without `!trap`; dropped exactly on a non-trap reply of another shape; a trap gives its message or "Unknown error" |
| Logins.OsVersionOf | lib/mtik/connection.rb:143-146 | fails exactly on an empty reply; the version changes only to the `version` of a first `!re` sentence, and always when that is present |
| Versions.SeparatorLength | lib/mtik/connection.rb:610 | a separator `.`, `rc`, `beta` or `alpha` is matched only at a non-digit |
| Versions.Pieces | lib/mtik/connection.rb:611 | splitting always yields a field |
| Versions.DropTrailingEmpty | lib/mtik/connection.rb:611 | `split` drops exactly the trailing empty fields |
| Versions.SkipSpace | lib/mtik/connection.rb:611 | `to_i` skips leading whitespace only |
| Versions.ToIAll | lib/mtik/connection.rb:611-612 | `map(&:to_i)` converts each field in place |
| Versions.Compare | lib/mtik/connection.rb:613-619 | the comparison is -1, 0 or 1 |
| Versions.CompareLoop | lib/mtik/connection.rb:613-619 | the loop returns the comparison of the two field lists |
| Versions.CompareBefore | lib/mtik/connection.rb:613-619 | the result is -1 exactly when the first version is lexicographically smaller (a proper prefix counts as smaller) |
| Versions.CompareAntisymmetric | lib/mtik/connection.rb:613-619 | swapping the versions negates the result |
| Versions.CompareZero | lib/mtik/connection.rb:613-619 | the result is 0 exactly when the field lists are equal |
| Versions.PiecesDotted | lib/mtik/connection.rb:611 | a dotted version splits into its decimal fields |
| Versions.ToIDecimal | lib/mtik/connection.rb:611 | `to_i` reads a decimal field back as its number |
| Versions.ToIAllDecimals | lib/mtik/connection.rb:611-612 | the fields of a dotted version convert back to its numbers |
| Versions.VersionPartsDotted | lib/mtik/connection.rb:610-612 | a dotted version `a.b.c` is read as the numbers a, b, c |
| Versions.LegacyFetchDotted | lib/mtik/connection.rb:609-620 | for a dotted version, the legacy fetch parameters are used exactly when the version is 4.9 or older |
| Connections.GetReplyOf | lib/mtik/connection.rb:470-483 | fails without effect exactly when the request cannot be built; on success the request with the next tag is done, and the result is its reply; the version stays and the output only grows |
| Connections.VersionQueryOf | lib/mtik/connection.rb:143-146 | keeps the invariant; a failure leaves the version; the output only grows |
| Connections.LoginOf | lib/mtik/connection.rb:98-147 | without a socket it fails at once and changes nothing; a failure leaves the version; the output only grows |
| Connections.ChallengeResponseOf | lib/mtik/connection.rb:117-139 | keeps the invariant; a failure leaves the version; the output only grows |
| Connections.UntaggedWord | lib/mtik/request.rb:126-130 | a login argument is never dropped as a tag argument |
| Connections.FirstLoginWords | lib/mtik/connection.rb:106-115 | the first `/login` is sent with name and password over TLS or in plaintext mode, and with the tag alone otherwise |
| Connections.ResponseLoginWords | lib/mtik/connection.rb:127-130 | the second `/login` carries the name, the response and the tag, in that order |
| Connections.Connection.constructor | lib/mtik/connection.rb:60-75 | a new connection has no requests, an empty buffer, `@parsing` off, no version and nothing written |
| Connections.ParseBuffered | lib/mtik/connection.rb:200-237 | the word loop yields exactly the parse `Reader.ParseWords` specifies, and a pause for more data leaves a buffer that parses to the same pause |
| Connections.Connection.Outstanding | lib/mtik/connection.rb:81-83 | the number of keys of the request table: the number of distinct outstanding tags |
| Connections.Connection.Close | lib/mtik/connection.rb:486-492 | the connection is closed as `Dispatch.Close` says, and is no longer connected |
| Connections.Connection.GetSentence | lib/mtik/connection.rb:189-258 | the method's new state and result are `Dispatch.GetSentence` of the old state |
| Connections.Connection.FatalSweep | lib/mtik/connection.rb:300-318 | the loop over the table gives the state and quit flag of `Dispatch.Sweep`, and empties the table |
| Connections.Connection.Route | lib/mtik/connection.rb:326-363 | routing a sentence gives the state and step `Dispatch.OnTagged` specifies |
| Connections.Connection.HandleSentence | lib/mtik/connection.rb:288-363 | one pass of the loop gives the state and step `Dispatch.OnSentence` specifies |
| Connections.Connection.ReadReplies | lib/mtik/connection.rb:288-365 | the loop reaches the state and step `Dispatch.ReplyLoop` specifies, keeping the invariant |
| Connections.Connection.WaitForReply | lib/mtik/connection.rb:276-367 | the new state and error are `Dispatch.WaitForReply` of the old state |
| Connections.Connection.WaitAll | lib/mtik/connection.rb:261-265 | the new state and error are `Dispatch.WaitAll` of the old state |
| Connections.Connection.WaitForRequest | lib/mtik/connection.rb:268-272 | the new state and error are `Dispatch.WaitForRequest` of the old state |
| Connections.Connection.SendRequest | lib/mtik/connection.rb:393-416 | a new request is built and registered, and its encoding written, or nothing changes when it cannot be built; a request sent again fails if done, otherwise gets the command and arguments appended and is registered and written again; the counter advances only for a successfully built request |
| Connections.Connection.Transmit | lib/mtik/connection.rb:404-427 | registering a request and writing its encoding to the output, or the too-long error with nothing written |
| Connections.Connection.GetReply | lib/mtik/connection.rb:470-483 | the new session and result are `GetReplyOf` of the old session |
| Connections.Connection.QueryVersion | lib/mtik/connection.rb:143-146 | the new session and error are `VersionQueryOf` of the old session |
| Connections.Connection.DropSocket | lib/mtik/connection.rb:135-136 | the plain socket is closed and nothing else changes |
| Connections.Connection.ChallengeResponse | lib/mtik/connection.rb:117-139 | the new session and error are `ChallengeResponseOf` of the old session |
| Connections.Connection.Login | lib/mtik/connection.rb:98-147 | the new session and error are `LoginOf` of the old session |
| MTik.NormaliseCommand | lib/mtik.rb:259-265 | a String becomes one command without arguments, an Array not starting with an Array becomes one command with arguments, and anything else is kept |
| MTik.NormaliseIdempotent | lib/mtik.rb:259-265 | normalising twice is normalising once |
| MTik.CancelThreshold | lib/mtik.rb:277-282 | a request that is not `:sent` is never cancelled; without a limit, one is cancelled from the 1000th reply; with a positive limit, from that reply on; a limit of 0 or less never cancels |
| MTik.FetchCancel | lib/mtik.rb:272-276 | `/tool/fetch` is cancelled exactly when it is `:sent` and the status is `finished` |
| MTik.Stored | lib/mtik.rb:283-285 | `replies[i] = reply` stores at i, pads the array with nil up to i, and keeps the other entries |
| MTik.ReplyTable.constructor | lib/mtik.rb:258 | the reply array starts empty |
| MTik.CommandWatch.constructor | lib/mtik.rb:268-270 | the reply counter of a command starts at 0 |
| MTik.CommandWatch.OnSentence | lib/mtik.rb:270-286 | each sentence counts one more reply; the cancel decision is the command's rule; the reply is stored at the command's index exactly on `!done` |
| MTik.TrimEnd | lib/mtik.rb:102 | strips exactly the trailing whitespace |
| MTik.DigitCount | lib/mtik.rb:104 | the length of the leading digit run |
| MTik.Fields | lib/mtik.rb:109 | splitting always yields a field |
| MTik.FieldsShape | lib/mtik.rb:109 | fields contain no whitespace, and only the first and the last can be empty |
| MTik.FieldsNoSpace | lib/mtik.rb:109 | no field contains whitespace |
| MTik.FieldsInnerNonEmpty | lib/mtik.rb:109 | every field except the first and the last is non-empty |
| MTik.FieldsUnwords | lib/mtik.rb:109 | words joined by single spaces split back into those words |
| MTik.SplitUnwords | lib/mtik.rb:109 | `split(/\s+/)` of words joined by spaces gives back the words |
| MTik.SplitLeadingSpace | lib/mtik.rb:109 | a leading space gives an empty first token |
| MTik.TakeLimitText | lib/mtik.rb:104-108 | a typed `N:` prefix gives the limit N and the rest of the line; no prefix gives 0 |
| MTik.TrimAround | lib/mtik.rb:102 | stripping removes exactly the surrounding whitespace |
| MTik.CommandWords | lib/mtik.rb:109-110 | a command path followed by words is a list of words |
| MTik.ParseTypedLine | lib/mtik.rb:102-116 | a typed line of optional padding, an optional `N:`, a command path with words and trailing padding leaves on `/quit` and otherwise runs that command with those arguments and limit N |
| MTik.TakeLimitLine | lib/mtik.rb:102-108 | stripping a padded line and taking its limit gives the typed limit and the command text |
| MTik.BlankLineLeaves | lib/mtik.rb:102-116 | an empty or blank line yields no token, fails the command-path test and leaves the loop |
| MTik.BlankTrimmed | lib/mtik.rb:102-108 | a blank line strips to nothing with no limit |
| MTik.SpaceAfterLimitSkips | lib/mtik.rb:104-111 | whitespace right after `N:` gives an empty first token, and the line is skipped |
| MTik.ParseLineRuns | lib/mtik.rb:109-116 | a command that runs is a valid command path other than `/quit`, and its arguments are words |
| MTik.DecideRuns | lib/mtik.rb:111-116 | a command the decision runs passes the path test, and its arguments are words |
| MTik.SplitTailWords | lib/mtik.rb:109 | every token after the first is a word |
| MTik.InteractivePrecedence | lib/mtik.rb:131-133 | by Ruby precedence, reaching a positive limit cancels even a request that is not `:sent`; otherwise only a finished, sent `/tool/fetch` cancels |
| MTik.InteractiveWatch.constructor | lib/mtik.rb:118-120 | no trap, no replies counted, and the state waiting |
| MTik.InteractiveWatch.OnSentence | lib/mtik.rb:122-145 | a sentence of no known type raises and changes nothing; a `!trap` is kept, and raises after that when its `message` is nil; a `!re` is counted and cancels on the interactive rule; a done request ends the wait unless it is being cancelled |
| MTik.MessagePart | lib/mtik.rb:173-177 | only the `!fatal` key contributes nothing to the message |
| MTik.QuitMessageEmpty | lib/mtik.rb:171-179 | the message is empty exactly when the sentence holds nothing but `!fatal` |
| MTik.BuildQuitMessage | lib/mtik.rb:171-178 | the loop builds the message from every key other than `!fatal`, with `=> 'value'` for non-nil values |
| MTik.QuitReport | lib/mtik.rb:163-184 | the report fails on an empty reply or a first sentence without `!fatal`; otherwise it is the banner with the message, or with ` ===` when the message is empty |
| MTik.QuitWithMessage | lib/mtik.rb:170-184 | a `!fatal` carrying a message reports `'message' => 'text'` |

## Left out

- Sockets, TLS and `connect`/`connect_ssl` are not modelled. The bytes a read delivers are a parameter, a list of chunks. The `IO.select` timeout and the select error are both the error raised when the chunks run out. `sleep` is not modelled.
- `Digest::MD5.hexdigest` is a function parameter.
- Printing to the terminal and STDERR, `warn`, and the debug and verbose switches are not modelled, except the text printed after `/quit`.
- `cbyte`, `recv` and `recv_openssl` are not modelled. They only read bytes, which the model has as bytes.
- `fetch` is modelled only for its version comparison. `update_values`, `request`, `request_each` and the rest of the connection's helper commands are not part of this model.
- `MTik::Request#conn`, `#send`, `#cancel` and `#state` are not defined in lib/mtik/request.rb.
  - `send_request` is modelled as registering the request and writing its encoding, which is what `xmit` does.
  - Whether a request is `:sent` is a boolean parameter. A cancel is the boolean a callback returns.
- Arguments are Strings, Hashes of String keys and values, Procs and Arrays. These Ruby values and what happens to them are not modelled:
  - `nil` and a Symbol: the `.tag=` test at request.rb:127 does not match, so they are pushed, and encoding the request later raises NoMethodError (request.rb:175-177).
  - a number: the same test raises TypeError, as a Proc does.
  - a Hash entry whose key is a Symbol or whose value is not a String: building `key + '=' + value` raises (request.rb:117-118).
- Callbacks are identifiers whose calls are only recorded. A callback cannot call back into the connection (a nested `wait_for_reply`, the reason for the `@parsing` flag, or `req.cancel`), and cannot raise. Dispatch.WaitForReply and the connection's methods are proved only for callbacks that do neither. The callback bodies of lib/mtik.rb are modelled separately, in MTik.CommandWatch and MTik.InteractiveWatch.
- Requests are values identified by their tag, not shared objects. Aliasing a request between the caller and the table is not modelled.
- Connections.Connection.SendRequest: for a request sent again, it requires that a request already in the table under that tag is the same request, because the tag counter is shared.
- Connections.Connection.WaitForRequest: the `initially` parameter records whether the awaited request was already done before the loop. A request object read from outside the table has no other way to be represented.
- Connections.Connection.GetSentence: the reading loop works on the connection's fields through local copies. The contract describes the fields and the result, not the individual assignments.
- Connections.Connection.Close and Connections.Connection.DropSocket track whether each socket is open. They do not track the `closed?` state of the socket objects.
- Connections.Connection.constructor: `:unecrypted_plaintext`, the option name as spelled in the code, is taken as the boolean `plaintext`. The constructor does not log in; `Login` is a separate method.
- Connections.FirstLoginWords and Connections.ResponseLoginWords require the user name and the password to hold no newline. Otherwise the `^` test on an argument could match after an embedded newline and drop the argument as a tag.
- Connections.VersionQueryOf, Connections.LoginOf, Connections.ChallengeResponseOf: these contracts state only the invariant, the version on failure and that the output only grows. The outcome of each step is stated by Logins.ChallengeOf, Logins.ResponseVerdict, Logins.OsVersionOf and Connections.GetReplyOf, which their bodies apply.
- The outer `while true` loop of `interactive_client` is not modelled. The same goes for `STDIN.gets`, including its nil at end of input, the reconnect through `tk.login`, and the final `/quit` and `close`.
- The `each_index` driver of `MTik.command`, its `wait_all` and its final `get_reply('/quit')` are not modelled as one procedure. The parts are modelled one by one.
- MTik.ParseLine: the regular-expression anchors are taken at the ends of the line. `STDIN.gets` yields a line with a newline only at its end, and there they agree.
- Reader.SentenceRoundTrip: the round trip is proved only for words shorter than 0x80 bytes. The encoder's little-endian header is kept as written, and Codec.LsbFirstHeaderMisread shows that longer words are misread.
- Connections.Connection.ReadReplies: the `begin … end while` loop of `wait_for_reply` is its own method, which WaitForReply calls between the guards and the restoring of `@parsing`.

## Findings

| source | as written | input that shows it | evidently intended | confidence | as-written member | corrected member |
|---|---|---|---|---|---|---|
| lib/mtik/request.rb:161 | `bytepack` tests the undefined constant `RUBY_VERSIION`, which raises NameError | any word of 0x80 bytes or more, e.g. a value of 200 bytes | the version test `RUBY_VERSION`, as in `to_tikword` | high, not executed | Codec.ToTikwordAsWritten, Codec.TypoBreaksLongWords | Codec.ToTikword, Codec.ToTikwordLayout |
| lib/mtik/connection.rb:560-562 | the 0xF0 branch reads four more bytes without checking that they have arrived; `cbyte` of a missing byte calls `ord` on nil | a buffer holding only 0xF0 and one more byte of a five-byte header | "not enough data", like the four other widths | high, not executed | Codec.GetTikwordAsWritten, Codec.ShortF0HeaderRaises | Codec.GetTikword, Codec.CanonicalPrefixPartial |
