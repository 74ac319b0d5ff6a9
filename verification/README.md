# Verification of the shingetsu-gou node

The node keeps bulletin-board threads as sets of signed, time-stamped records and copies them
between peers. This project models the parts of it that carry state, arithmetic or a wire format, and
proves what they promise. Objects that change in place (`Record`, the record bucket, the recent
list, the lookup tables, the key library, the tags, the broadcast gate, the download manager) are
classes whose methods are proved against functions and relations on values; the laws are lemmas about
those.

- `NumberTheory`, `PrimeGap`, `Apollo`, `Codec`, `Signature`: prime search, RSA keys, the little-endian base-64
  codec, signing and verifying (sections 5.2.1 and 5.2.2 of RFC 8017 for the primitives).
- `Text`, `Markup`, `JsonText`: strings, `Escape` and the normalisation inside `Parse`, and what JSON does
  to a string that is not UTF-8.
- `Keys`, `Bucket`, `SetBucket`: database keys in byte order, cursor scans, buckets of sets.
- `Records`, `RecordObject`: the record line `stamp<>id<>key:value<>...`, its parser, printer and builder.
- `Store`: the insert-only record bucket with tombstones and the merge of received lines.
- `Recent`, `NodeManager`, `UserTag`, `Keylib`, `UpdateQue`: the recent list, the two-way indexes, the
  stamps of threads, the broadcast gate.
- `Server`, `Download`, `Sync`: the server's ranges and answers, the download scheduler, and the two
  put together: what a round with a peer leaves in the local store.

The hash, the spam list and the size limit are parameters (`Env`); clocks, random choices and peers'
answers are inputs or arbitrary picks. A byte is written as a char. Map iteration order is always
arbitrary.

Conventions of the state machines: a run is a sequence of states linked by steps, and a law about runs
holds at every state of every run.

## Promises that hold on part of the inputs

Where a promise holds only on part of the inputs the exact condition is proved.

- The codec loses a number exactly when its computed padding does not decode to 0 (`RoundTripExactly`).
  82 to 86 digits are safe and 81 digits never are. Every key of a pass phrase is safe: its modulus is at
  least 2^494 and below 2^516 (`PassPhraseKeyIsCarried`).
- `Verify` rejects what `Sign` made when the codec does not carry the signature, and only then for a key
  that it carries and a message in range (`SignThenVerify`, `PassPhraseSignThenVerify`); every such key of
  82 digits or more has messages of this kind (`SomeSignatureIsRejected`).
- What `ModInverse` leaves in its receiver without an inverse is undefined before Go 1.11, and the
  repository builds with 1.9 (`.travis.yml`) and 1.7 (`.travis.yml.cgo`). It is a parameter: that there is
  no key when the exponent is not coprime to phi is stated for a `ModInverse` that keeps its receiver.
- The comment at `primize` says that the result is bigger than its argument; it is the least odd prime
  that is at least the argument, and equal to it when that is an odd prime.
- A parsed record is printed and parsed back unchanged exactly when its last value does not end in a
  carriage return (`ReparseExactly`): the end of a line is trimmed. The line `1<>a<>k:v` CR `<>x` is not
  (`CarriageReturnIsLost`).
- Rows and sets are stored as JSON, which writes every byte outside well-formed UTF-8 as U+FFFD. The line
  of a record with the field `body:` and the single byte FF as its value is accepted and stored with
  another body (`ByteFFIsChanged`), whose hash is not its id unless md5 collides on the two bodies
  (`ByteFFLosesHash`), and it is not loaded back (`ByteFFIsNotLoaded`). The exact conditions are in
  `CheckHashedExactly` and `SyncThenLoad`.
- A tag that is not UTF-8 leaves `usertag` and `usertagTag` no longer inverse (`SetEffect`). After a `Set`
  every further `Set` of the thread fails exactly when one of its tags is an orphan: its stored form is
  neither given nor carried by another thread (`SetAgainFailsExactly`). The tag of the byte FF on a fresh
  database is one (`ByteFFBlocks`).
- The database refuses empty keys and `AppendToTableTX` only logs that, so an empty name ends up in
  one lookup table only, and one that is not UTF-8 as itself in one and changed in the other
  (`AppendInverseExactly`, `ByteFFBreaks`).
- Negative stamps come after all others in byte order, so `Cache.Stamp` and `Newest` are right exactly when
  the stamps of the thread are of one sign (`StampExactly`, `NewestExactly`); the stamp -1 hides the stamp 1
  (`NegativeStampHides`).
- `Newest` also looks up by a prefix without a separator, so it finds the thread's own newest head only
  when no listed datfile extends the name (`NewestExactly`); a head of `ab` hides those of `a`
  (`ExtensionHides`). `RecentStampExactly` says when `RecentStamp` is right all the same.
- `Set` looks targets up by `stamp_id` but inserts them under the full head, so a head that is announced again
  replaces its target (`SetReplaces`), and downloads in progress survive exactly under the condition of
  `SetLeavesDownloadsExactly`.
- `getWithRange` leaves its loop before `Finished` when the range starts at a stamp that is not
  positive, and the targets just handed out stay marked (`StuckExactly`), as with a target of stamp 0
  (`StampZeroSticks`).
- `getWithRange` is to return whether it got records. It looks at its last answer only, and there it counts known
  records as well (`GotExactly`, `KnownCounts`).
- The broadcast gate agrees with the full history exactly when what is over an hour old at one reading of
  the clock is so at every later one (`GateAgreesWithHistory`). A clock that never goes back is such a
  clock (`ForwardIsSteady`). From Go 1.9 on `time.Now` carries a monotonic reading that `Add` and `After`
  use, so readings of one process do not go back; with Go 1.7 a change of the system clock can.
- The stamp of a thread is searched from the first name in string order of its alive records, which is the
  one of least stamp exactly when that comes first as text (`StartIsLeastExactly`): always with equally many
  digits (`StartIsLeast`), not of 9 and 10 (`TenBeforeNine`).
- With an empty prefix the cursor loops of `Count` and `GetStrings` do not end, as the empty prefix also
  matches the end of the bucket; their models require another one.

## Model

| member | source | states |
|---|---|---|
| NumberTheory.Fermat | util/apollo.go:94-123 | Fermat's little theorem, on which key generation rests |
| NumberTheory.PrimePairDivides | util/apollo.go:94-123 | what two distinct primes divide, their product divides |
| NumberTheory.PrimeAbove | util/apollo.go:70-81 | there is a prime above every number, so the prime search ends |
| NumberTheory.CoprimeInvertible | util/apollo.go:107-110 | a number coprime to the modulus has a non-zero inverse below it |
| PrimeGap.TriangleDivides | util/apollo.go:190-208 | k times C(n, k) divides every common multiple of 1..n |
| PrimeGap.MultipleIsBig | util/apollo.go:190-208 | so a common multiple of 1..2h is at least 3^h |
| PrimeGap.PrimeProductSmall | util/apollo.go:190-208 | the product of the primes up to n is at most 4^n |
| PrimeGap.PrimeAvoiding | util/apollo.go:190-208 | so there is a prime between n and 4n that does not divide r, when r and a power of k! with k^2 at least 4n are small |
| Apollo.NextOddPrimeIsDefined | util/apollo.go:68-81 | every number has a next odd prime |
| Apollo.NextOddPrimeIs | util/apollo.go:68-81 | and just one |
| Apollo.Primize | util/apollo.go:68-81 | terminates with the least odd prime that is at least x |
| Apollo.NothingMissed | util/apollo.go:101-119 | a search that goes on two above each prime misses no odd prime |
| Apollo.SearchBound | util/apollo.go:101-119 | the primes of the 300 turns of a search from at most 2^2t stay below 2^(2t + 2), for t large enough |
| Apollo.Rsa | util/apollo.go:101-115 | e then d, or d then e, gives back every message reduced modulo p*q, for distinct primes and any message |
| Apollo.TestAlwaysPasses | util/apollo.go:113-117 | a candidate of two distinct primes with an inverse never fails the one-message test |
| Apollo.InverseExactly | util/apollo.go:107-110 | ModInverse finds an inverse if and only if the exponent is coprime to phi |
| Apollo.NewPrivateKey | util/apollo.go:94-123 | whatever ModInverse leaves without an inverse: a returned key passed the test and is made of prime i of either search, i below 300; two different first primes to whose phi the exponent is coprime give the key; if it is not coprime and ModInverse keeps its receiver there is no key |
| Apollo.KeyInverts | util/apollo.go:33-117 | in the program's own numbers: 65537 and the private exponent undo each other modulo p*q on every message |
| Apollo.CandidateDecrypts | util/apollo.go:94-120 | every key returned comes from one of the first 300 pairs of primes and decrypts 0x7743, encrypted with 65537 |
| Codec.TablesAgree | util/apollo.go:46-65 | the decode table inverts the alphabet and sends every other byte to 0 |
| Codec.ValueOfDigits | util/apollo.go:126-149 | the printed digits, read back, are the number |
| Codec.DigitCount | util/apollo.go:137-147 | n has at most k digits exactly when it is below 64^k |
| Codec.PadByteExactly | util/apollo.go:148 | the padding is the one byte that makes up for 65 times the digits printed, 65 * 86 modulo 256 |
| Codec.IntToBase64 | util/apollo.go:137-149 | the loop prints the digits, least first, and the padding computed modulo 256 as a rune |
| Codec.Base64ToInt | util/apollo.go:126-134 | the loop reads the positional value of a text |
| Codec.DecodeEncode | util/apollo.go:126-149 | decoding adds the padding digit above the number's own digits |
| Codec.RoundTripExactly | util/apollo.go:126-149 | the codec gives a number back if and only if its padding decodes to 0 |
| Codec.RoundTripInRange | util/apollo.go:126-149 | every number of 82 to 86 digits survives the codec and no number of 81 digits does |
| Signature.BigEndianOfReversed | util/apollo.go:181-187 | reversing the bytes turns the little-endian value into the big-endian one |
| Signature.SetBytesReverse | util/apollo.go:181-187 | the value read is the little-endian value of the bytes |
| Signature.Sign | util/apollo.go:152-157 | prints the private-key power of the message |
| Signature.Verify | util/apollo.go:160-171 | accepts if and only if the length guard passes and the public-key power of the signature is the message |
| Signature.VerifiesExactly | util/apollo.go:160-171 | for any signature and key: the 65537th power of the signature is congruent to the message modulo the key, which exceeds the message, or equal to it for a key of value 0 |
| Signature.SignThenVerify | util/apollo.go:151-171 | for a key of two distinct primes that the codec carries, Verify accepts what Sign made if and only if the length guard passes, the message is below the modulus and the codec carries the signature |
| Signature.DivisorOfPad | util/apollo.go:126-171 | the modulus divides no padding digit but 0, so no lost signature is accepted by chance |
| Signature.SomeSignatureIsRejected | util/apollo.go:151-171 | every key of 82 digits or more that the codec carries has a message in range whose signature Verify rejects |
| Signature.SignThenVerifyInRange | util/apollo.go:151-171 | so it does for a modulus and a signature from 2^486 on, below 2^516 |
| Signature.MakePrivateKey | util/apollo.go:190-208 | every pass phrase has the key of the first two primes of its seeds if the exponent is coprime to their phi, and if ModInverse keeps its receiver only if; every key returned is at least 2^494 and below 2^516, and the codec carries it |
| Signature.SeedsHoldDigests | util/apollo.go:190-206 | the 64 bytes of the four digests are read back from the seeds, 28 from the first and 36 from the second; only the high bits of bytes 26 and 34 are set as well |
| Signature.SetBitExactly | util/apollo.go:205-206 | SetBit sets the bit it is given and leaves the bits below and above it alone |
| Signature.SetBitByte | util/apollo.go:205-206 | setting the high bit of a byte adds 128 to that byte if it was below 128, and changes no other |
| Signature.ByteOfText | util/apollo.go:181-187 | the bytes of a text are those of the value read from it, the least significant first |
| Signature.SeedsAreFar | util/apollo.go:190-208 | the first two primes of a pass phrase always differ, and the test message lies below their product |
| Signature.SeedPrimes | util/apollo.go:190-208 | so do the primes of every turn, and their product has 495 to 516 bits |
| Signature.PassPhraseKeyIsCarried | util/apollo.go:126-208 | every key of a pass phrase survives the codec |
| Signature.PassPhraseSignThenVerify | util/apollo.go:151-208 | Verify accepts what such a key signs if and only if the length guard passes, the message is below the modulus and the codec carries the signature |
| Text.JoinSplit | record/record.go:228-229 | joining the pieces of a split gives the text back |
| Text.SplitJoin | record/record.go:195-201 | splitting a join of pieces without the separator, whose chars cannot run over it, gives the pieces back |
| Text.ParseIntItoa | record/record.go:222-236 | a printed stamp is parsed back, over all of int64 |
| Text.ParseIntExactly | record/record.go:232-236 | digits, leading zeros included, parse to their value, after either sign too, if and only if an int64 can hold it |
| Text.ParseIntRefuses | record/record.go:232-236 | nothing else parses |
| Text.TrimRightExactly | record/record.go:229 | what is trimmed is a longest end of CR and LF |
| Markup.NormaliseIsScan | record/record.go:261-267 | the four replacements in Parse equal one left-to-right scan |
| Markup.NormaliseFixed | record/record.go:261-267 | a value is left alone if and only if it is canonical: angle brackets only in `<br>`, no line feed |
| Markup.NormaliseCanonical | record/record.go:261-267 | what Parse stores is canonical, so normalising again changes nothing |
| Markup.EscapeIsScan | util/util.go:72-81 | the replace-then-undo passes equal one scan that keeps an `&` only when it opens a well-formed entity |
| Markup.EscapeOutput | util/util.go:72-81 | escaped text has angle brackets only in `<br>`, no CR or LF, and `&` only where it opens an entity |
| Markup.EscapeIdempotentExactly | util/util.go:72-81 | Escape is idempotent on a text if and only if the text has no line feed |
| Markup.EntityBodyExactly | util/util.go:74-75 | an entity is a decimal number, a hexadecimal one or a name of letters and digits, none of them empty |
| JsonText.ViaJsonExactly | db/db.go:103-105 | JSON leaves a string alone if and only if it is well-formed UTF-8 |
| JsonText.Utf8Exactly | db/db.go:103-105 | a string is well-formed UTF-8 if and only if it is the encoding of a list of code points |
| JsonText.ViaJsonKeepsRune | db/db.go:103-105 | JSON keeps every code point in front of any string |
| JsonText.ViaJsonReplaces | db/db.go:103-105 | and writes a byte at which no code point starts as U+FFFD |
| JsonText.NormaliseUtf8 | record/record.go:261-267 | the normalisation in Parse keeps UTF-8 |
| Records.ParseUtf8 | record/record.go:227-277 | a line in UTF-8 is parsed into an id and a body in UTF-8 |
| Records.ParseBodyUtf8 | record/record.go:280-299 | so is a stored body in UTF-8, behind any stamp and id |
| Keys.Int64RoundTrip | db/db.go:85-148 | b2v undoes Tob on every int64 |
| Keys.KeyInjective | record/head.go:51-53 | two heads have one key if and only if they are equal, for datfiles without NUL and any id |
| Keys.KeyOrder | db/db.go:118-128 | byte order of keys is (datfile, stamp, id) order, with negative stamps after all others, for all int64 stamps |
| Keys.ThreadPrefix | record/record.go:78-88 | `datfile NUL` is a prefix of exactly the keys of that thread |
| Keys.WholeKeyPrefix | recentlist/recentlist.go:127-140 | a whole key is a prefix of itself and of exactly the keys whose id extends its id by a NUL |
| Bucket.ListingUnique | db/db.go:188-217 | there is one byte-ordered listing of a set of keys |
| Bucket.Count | db/db.go:188-199 | counts the keys with a prefix that is not empty |
| Bucket.GetPrefixed | db/db.go:202-217 | the values under a prefix that is not empty, every key once in byte order |
| Bucket.ForEachKey | db/db.go:220-235 | every key of the bucket once in byte order |
| Bucket.GetPrefixs | db/db.go:302-325 | every distinct string part once in byte order; an error exactly when a key has no NUL |
| Records.ParseGood | record/record.go:227-277 | an accepted record has as many entries as ordered keys, each key once and printable, so bodystr stays in bounds |
| Records.ParseExactly | record/record.go:227-277 | a line is accepted if and only if it has an int64 stamp and an id, which agree with the record's own if it has any, and no two fields name one key; the record then has them and exactly the normalised values of its fields, each cut at its first colon |
| Records.InRangeExactly | record/record.go:471-473 | in range are the stamps between the bounds, both included, whose `stamp_id` ends in the id asked for |
| Records.ParsePrinted | record/record.go:195-277 | a printable record is parsed back unchanged when its last value does not end in a newline char |
| Records.Reparse | record/record.go:195-277 | parse, print, parse again gives the same record but for newline chars at the end of its last value, for every accepted line |
| Records.ReparseExactly | record/record.go:195-277 | and the very same one if and only if the last value does not end in a carriage return |
| Records.CarriageReturnIsLost | record/record.go:195-277 | the line with a CR at the end of its last value is an instance of the failing side |
| RecordObject.Record.constructor | record/record.go:148-156 | a new record has the given head and no fields |
| RecordObject.Record.PrintBody | record/record.go:195-201 | the loop over the key order writes the body |
| RecordObject.Record.Parse | record/record.go:227-277 | leaves the state and the verdict of the parse function, also when it fails half way |
| RecordObject.Record.Build | record/record.go:311-339 | for any iteration order of the body map: the non-empty values, signed if there is a key, and the hash of the body as id; an index error if and only if the record had keys before or a signed body has a key that signing adds |
| RecordObject.BuiltExactly | record/record.go:311-339 | it holds every value given that is not empty, and of other keys just the three of a signature; the key order lists each once |
| RecordObject.SignedTarget | record/record.go:325-334 | a signed record carries the modulus, and a list from which the signed keys are read off in their order if none has a comma |
| RecordObject.ReceivedExactly | record/record.go:222-277 | a receiver reads a record back unchanged if and only if its keys have no `:` and no `<>`, its values are canonical and the last one does not end in a newline char |
| RecordObject.EscapedIsTransportable | util/util.go:72-81 | an escaped value is such a value |
| RecordObject.EncodeExactly | util/apollo.go:137-149 | a printed number is canonical if and only if its padding is none of the three chars that Parse rewrites |
| RecordObject.PadIsUtf8 | util/apollo.go:148 | the padding is the UTF-8 of its byte as a code point |
| RecordObject.InRangeIsGoodValue | util/apollo.go:137-149 | a printed modulus or signature of 82 to 86 digits, padding included, is such a value |
| RecordObject.BuiltIsTransportable | record/record.go:311-339 | what Build makes is transportable if and only if keys and values are good, the last value printed does not end in a newline char and, if signed, the key names and both paddings are canonical |
| RecordObject.PostedVerifies | record/record.go:311-344 | a posted record is parsed with the same head, contents and key order if and only if that holds, and its hash check is true in any case |
| RecordObject.EscapedIsPostable | record/record.go:311-339 | it holds for escaped values in any iteration order |
| RecordObject.PostedSignatureVerifies | record/record.go:325-334 | the signature in a signed post is accepted for the hash of the fields before signing if and only if the codec carries it, for keys of 82 to 86 digits |
| Store.RecordBucket.SyncTX | record/record.go:363-377 | inserts the JSON of the record when the key is free and never overwrites |
| Store.RecordBucket.Remove | record/head.go:71-86 | turns the row under the key of the head into a tombstone under the key of its own head, an error when there is none |
| Store.RemoveEffect | record/head.go:71-86 | the record is no longer alive, its head and body stay, and so does every other row |
| Store.RemovedStays | record/head.go:71-86 | in every later run it stays a tombstone |
| Store.RecordBucket.Load | record/record.go:280-299 | parses the stored body behind the record's own stamp and id |
| Store.Cache.CheckData | thread/cache.go:171-200 | new store and error are those of the merge function: known key, out of range, wrong hash, spam |
| Store.CheckExactly | thread/cache.go:171-200 | case by case: a line that does not parse, is out of range or has another hash changes nothing; a known key changes nothing; else its row is inserted, a tombstone answered with the spam error if and only if its text is over the limit in kilobytes or in the spam list |
| Store.Cache.Stamp | thread/cache.go:60-82 | the stamp, last in byte order, of the thread's records that are not deleted, 0 if there are none |
| Store.StampExactly | thread/cache.go:60-82 | that is the greatest of these stamps if and only if they are of one sign |
| Store.NegativeStampHides | thread/cache.go:60-82 | of the stamps 1 and -1 the last one in byte order is -1 |
| Store.ThreadRows | record/record.go:78-97 | the scan lists exactly the thread's rows, in byte order of their stamps |
| Store.FeedEffect | thread/cache.go:171-200 | what a batch of lines leaves: old rows stay, and each free key that is offered gets an offered entry |
| Store.Converge | thread/cache.go:171-200 | lines that agree give one store in every order, with any repetition, from any store |
| Store.ConvergeExactly | thread/cache.go:171-200 | the result for an empty store is independent of order and repetition if and only if the accepted lines agree |
| Store.CollisionFreeAgree | thread/cache.go:171-200 | they agree when no two accepted bodies have one hash |
| Store.RunGrows | record/head.go:71-86 | in every run of CheckData, SyncTX and Remove no key or body changes or goes, and a tombstone stays one, for heads in UTF-8 |
| Store.SyncWellKeyedExactly | record/record.go:363-377 | SyncTX keeps every row under the key of its own head if and only if it inserts nothing or its head is UTF-8 |
| Store.CheckHashedExactly | thread/cache.go:171-200 | CheckData keeps ids the hashes of stored bodies if and only if it inserts nothing or the body has the hash of what JSON makes of it |
| Store.ByteFFIsChanged | thread/cache.go:171-200 | the line with the body `body:` and the byte FF is accepted and stored with another body |
| Store.ByteFFLosesHash | thread/cache.go:171-200 | whose hash is not its id unless md5 collides on the two bodies |
| Store.TextLineKeepsHashes | thread/cache.go:171-200 | a line in UTF-8 has a body in UTF-8, which JSON leaves alone |
| Store.RunHashed | record/record.go:342-377 | runs that insert only bodies in UTF-8 that pass the hash check keep every row's id the hash of its body |
| Store.SyncThenLoad | record/record.go:280-377 | a record stored in a free place is loaded back unchanged if and only if it is transportable and its body is UTF-8 |
| Store.ByteFFIsNotLoaded | record/record.go:280-377 | that record is not loaded back |
| Recent.RecentList.Find | recentlist/recentlist.go:127-140 | true if and only if the head, or one whose id extends its id by a NUL, is in the list |
| Recent.RecentList.AppendHead | recentlist/recentlist.go:104-113 | a head that find does not know enters the list and every other entry is as before |
| Recent.RecentList.Datfiles | recentlist/recentlist.go:65-76 | every listed datfile once, in byte order |
| Recent.RecentList.Newest | recentlist/recentlist.go:80-101 | the last head, in key order, whose datfile starts with the name, as it is read back from JSON |
| Recent.ReadBack | recentlist/recentlist.go:80-101 | for a list in UTF-8 that is the very head |
| Recent.NewestExactly | recentlist/recentlist.go:80-101 | that is the thread's head of greatest stamp if and only if no listed datfile extends the name and the thread's stamps are of one sign |
| Recent.ExtensionHides | recentlist/recentlist.go:80-101 | with heads of the threads a and ab in the list it is the head of ab |
| Recent.RecentList.RecentStamp | thread/cache.go:301-308 | the larger of the stamp of that head and the last stored stamp |
| Recent.RecentStampIs | thread/cache.go:301-308 | the larger of the thread's newest announced and newest stored stamp, under these conditions |
| Recent.RecentStampExactly | thread/cache.go:301-308 | it is that for all stored rows of one sign if and only if the last head under the name has the thread's greatest stamp, or the least int64 for a thread that is not listed |
| SetBucket.PutMap | db/db.go:254-261 | adds the pair of the key and what JSON makes of the value, and no other; an error for an empty key |
| SetBucket.DelMap | db/db.go:264-274 | takes one pair from the relation, stores no empty set, an error for a missing key |
| SetBucket.SameRelation | db/db.go:247-299 | a bucket without empty sets is determined by its relation |
| SetBucket.PutInverseExactly | db/db.go:254-261 | a pair put into both of two inverse buckets leaves them inverse if and only if both parts are UTF-8 and not empty, or both are empty |
| SetBucket.WithoutStep | db/db.go:264-274 | a loop of DelMap takes a value from every key visited so far |
| NodeManager.AppendAllEffect | node/manager/manager.go:96-108 | a transaction of appends adds its node, as JSON writes it, to the threads named that are not empty and, before it, did not have the node and had less than 100, if the node is allowed; nothing else |
| NodeManager.TxBound | node/manager/manager.go:96-108 | a transaction that adds one node keeps every thread at 100 nodes although its checks read the committed tables |
| NodeManager.AppendInverseExactly | node/manager/manager.go:205-217 | an append leaves the tables inverse if and only if it adds nothing or both its strings are UTF-8 and not empty, or both are empty |
| NodeManager.ByteFFBreaks | node/manager/manager.go:205-217 | a node named by the byte FF is an instance of the failing side |
| NodeManager.RemoveEffect | node/manager/manager.go:267-281 | a removal takes one pair from both tables and fails exactly when it is missing |
| NodeManager.RemoveAllEffect | node/manager/manager.go:304-327 | takes the node from every thread and changes nothing else |
| NodeManager.RunBounded | node/manager/manager.go:185-327 | in every reachable state no thread has more than 100 nodes, whatever strings nodes and threads are |
| NodeManager.RunInv | node/manager/manager.go:185-327 | in every run whose appends are of names in UTF-8 the tables are exact inverses without empty sets |
| NodeManager.Manager.AppendToTableTX | node/manager/manager.go:205-217 | the open transaction gets the pair in both tables if the committed ones allow it, an error of either insertion being skipped |
| NodeManager.Manager.AppendToTable | node/manager/manager.go:194-202 | one append in its own transaction |
| NodeManager.Manager.AppendFromRecent | recentlist/recentlist.go:204-218 | the appends of one node for many threads in one transaction |
| NodeManager.Manager.RemoveFromTable | node/manager/manager.go:285-294 | removes the pair from both tables, or nothing on an error |
| NodeManager.Manager.RemoveFromAllTable | node/manager/manager.go:304-327 | the loop over the node's threads, dropped on an error; from inverse tables it has the effect stated above |
| NodeManager.Manager.ReplaceNodeInList | node/manager/manager.go:231-250 | from any state: one node of a full list is removed, if that succeeds, and the new one appended |
| NodeManager.ReplaceEffect | node/manager/manager.go:231-250 | from inverse tables a full list swaps one of its nodes for the new one, any other list just gains it, and no other thread changes |
| UserTag.SetEffect | tag/user/user.go:135-155 | Set leaves its thread with what is stored of the given tags, others alone, and the two buckets inverse if and only if it adds nothing or all its strings are UTF-8 |
| UserTag.SetTags | tag/user/user.go:135-155 | for tags in UTF-8: exactly the given tags, and the buckets stay inverse |
| UserTag.AddInvExactly | tag/user/user.go:122-132 | AddTX keeps the buckets inverse under the same condition |
| UserTag.KeysAfterSet | tag/user/user.go:135-155 | a tag is a key of usertagTag after Set if and only if it was given or another thread carries it |
| UserTag.SetFailsExactly | tag/user/user.go:135-155 | Set fails, from any state, if and only if its thread carries a tag that is not such a key |
| UserTag.SetAgainFailsExactly | tag/user/user.go:135-155 | after a Set every further Set of the thread fails if and only if the stored form of one of the tags is neither given nor carried by another thread |
| UserTag.BadTagBlocks | tag/user/user.go:135-155 | so does a tag that is not UTF-8 and has no such stored form |
| UserTag.ByteFFBlocks | tag/user/user.go:135-155 | the tag of the byte FF on a fresh database is one, and leaves the buckets not inverse |
| UserTag.SetTwice | tag/user/user.go:135-155 | only the last Set of a thread counts, in both buckets, if and only if no tag of the first is an orphan and the pairs it left are taken off, given again or were there; so for all tags in UTF-8 |
| UserTag.UserTags.AddTX | tag/user/user.go:122-132 | adds every tag both ways, or fails on an empty key |
| UserTag.UserTags.Add | tag/user/user.go:112-119 | all of the tags or, on an error, none |
| UserTag.UserTags.Set | tag/user/user.go:135-155 | the loops compute that from any state, or roll back |
| UserTag.UserTags.Get | tag/user/user.go:78-89 | the keys of usertagTag in byte order; from inverse buckets, exactly the tags that some thread carries |
| Keylib.FirstFreeIsLeast | mch/keylib/keylib.go:111-116 | the stamp found is the least free one from the start on, when one is left before the end of int64 |
| Keylib.StartIsListed | mch/keylib/keylib.go:101-110 | the start is the recent stamp of a thread without records, a day ago for one without alive records, else the stamp of an alive record |
| Keylib.StartIsLeastExactly | mch/keylib/keylib.go:101-109 | which is the least of them if and only if no other is before it as text, an underscore behind either |
| Keylib.StartIsLeast | mch/keylib/keylib.go:101-109 | as it is when the stamps have equally many digits |
| Keylib.TenBeforeNine | mch/keylib/keylib.go:101-109 | of the stamps 9 and 10 the start is 10 |
| Keylib.AllocateInv | mch/keylib/keylib.go:81-118 | an allocation keeps the buckets inverse and every stamp given before |
| Keylib.RunInv | mch/keylib/keylib.go:81-136 | over every run the buckets are inverse partial bijections and a stamp once given never changes |
| Keylib.KeyLibrary.SetEntry | mch/keylib/keylib.go:81-92 | writes the pair both ways |
| Keylib.KeyLibrary.SetFromCache | mch/keylib/keylib.go:95-118 | the probing loop ends at the first free stamp, with wrap-around |
| Keylib.KeyLibrary.GetDatkey | mch/keylib/keylib.go:122-136 | the stamp returned is mapped back to the thread asked for |
| Keylib.KeyLibrary.GetFilekey | mch/keylib/keylib.go:139-150 | the thread whose stamp this is, or the empty string |
| Keylib.KeyLibrary.Load | mch/keylib/keylib.go:62-78 | afterwards every thread of the list has a stamp and old stamps are unchanged |
| UpdateQue.UpdateQue.DeleteOldUpdated | updateque/updateque.go:66-74 | the loop drops exactly the entries over an hour old |
| UpdateQue.UpdateQue.Gate | updateque/updateque.go:121-130 | a request passes when its hash is not in the pruned map, and then its time is noted |
| UpdateQue.GateAgreesWithHistory | updateque/updateque.go:66-130 | every run with given clock readings passes a request exactly when every earlier request of its hash that passed is over an hour old, if and only if what is over an hour old at one reading is so at every later one |
| UpdateQue.HourApart | updateque/updateque.go:66-130 | with a clock that does not go back a request passes if and only if every earlier request of its hash that passed is more than 3600 seconds back |
| UpdateQue.ForwardIsSteady | updateque/updateque.go:66-74 | a clock that never goes back is so |
| UpdateQue.ClockBackward | updateque/updateque.go:66-74 | readings that are not so have a run in which one hash passes twice within the hour |
| Server.ParseRange | cgi/server/server_cgi.go:391-422 | all the branches of parseStamp, with its loop over the numbers |
| Server.FromTo | cgi/server/server_cgi.go:391-422 | the request `from-to` parses back to its bounds, for any two non-negative stamps |
| Server.UpTo | cgi/server/server_cgi.go:391-422 | the request `-to` means everything up to that stamp |
| Server.WholeThread | cgi/server/server_cgi.go:391-422 | `-` and the empty request mean everything up to the given end, and what does not parse as a number 0 to 0 |
| Server.FromOn | thread/download/download.go:194 | the request `begin-` means everything from begin to the given end |
| Sync.FromOnSelects | cgi/server/server_cgi.go:270-287 | it selects exactly the alive rows from begin to the last stamp of 32 bits |
| Server.OneRecord | cgi/server/server_cgi.go:392-399 | the request `stamp/id` means that stamp and that id |
| Server.OneRecordSelects | cgi/server/server_cgi.go:270-287 | it selects the alive rows of that stamp whose `stamp_id` ends in the id |
| Server.OneHeadSelects | record/record.go:434-449 | among ids of one length, as hashes are, just the row of that head |
| Server.DoGet | cgi/server/server_cgi.go:270-287 | the answer has a printed line for each selected record that loads, by the key of its head, and no other line |
| Server.DoHead | cgi/server/server_cgi.go:270-287 | the answer to /head or /removed has a head line for each selected record, tombstones for /removed, and no other line |
| Server.ParseHeadResponse | record/head.go:104-126 | the loop collects the heads by `stamp_id`; one bad line discards the answer |
| Server.IdReadBackExactly | record/head.go:104-126 | the id of a head is read back from its line if and only if it has no `_`, no `<>` and no line end |
| Server.HeadsReadBack | record/head.go:104-126 | the heads behind any list of head lines with such ids are read back, each under its `stamp_id` |
| Server.AnswerReadBack | record/head.go:104-126 | the client reads back from a `/head` answer exactly the heads of the rows the server selected |
| Server.IdstrInjective | record/head.go:99-101 | `stamp_id` determines the head within a thread |
| Download.StepInv | thread/download/download.go:123-183 | each step keeps counts at 5 at most, hands out only targets with failures left, and but for Set undoes nothing finished |
| Download.RunInv | thread/download/download.go:123-183 | so does every run, and without Set it never loses a target |
| Download.StepLocalFinished | thread/download/download.go:104-183 | each step keeps every unfinished target one that Set inserted under its full head |
| Download.RunExclusion | thread/download/download.go:123-146 | in every run a target in download, finished or exhausted is never handed out, and the range covers what is |
| Download.RunDownload | thread/download/download.go:104-183 | in every run, with Set or without, a target being downloaded is handed to nobody until its node's Finished or a Set that brings its head again |
| Download.CreditsShrink | thread/download/download.go:123-183 | the set of failures left, 5 minus the count for each unfinished target, grows at no step but Set |
| Download.CreditsSize | thread/download/download.go:123-183 | its size is the sum over the unfinished targets of 5 minus the count |
| Download.FinishedFalls | thread/download/download.go:169-183 | the set and its size fall at every Finished that ends a hand-out |
| Download.AtMostFive | thread/download/download.go:123-183 | so in every run a target that no Set brings anew is handed out at most 5 times, less the failures it came with |
| Download.RetriedFiveTimes | thread/download/download.go:123-183 | and a lone target that keeps failing exactly 5 times, less the failures it came with; then, and not before, it is finished and its manager deregistered |
| Download.GetExactly | thread/download/download.go:123-146 | Get in full: what can be handed out are the node's targets that are not finished, not in download and have failed less than 5 times; how many and which are, the range returned, and all the rest unchanged |
| Download.EmptyGetExactly | thread/download/download.go:134-166 | an empty-handed Get finishes the targets that have failed 5 times, changes no other, and deregisters the manager if all are finished |
| Download.FinishedExactly | thread/download/download.go:148-183 | Finished in full, target by target: what ends, what fails once more, what the fifth failure finishes, and when the manager is deregistered |
| Download.SoleRun | thread/download/download.go:123-183 | in every run, with Set or without, a manager that is the only one for its datfile has an unfinished target as long as it is registered |
| Download.RecstrInjective | thread/download/download.go:104-120 | the key that Set gives to a head tells the head, for ids without `<>` |
| Download.SetReplaces | thread/download/download.go:104-120 | a head that is not a local record always gets a fresh target, replacing an older one |
| Download.SetKeeps | thread/download/download.go:104-120 | Set keeps the bounds and what a sole manager keeps |
| Download.SetLeavesDownloadsExactly | thread/download/download.go:104-120 | Set leaves the downloads in progress alone if and only if it brings no head of one |
| Download.NewManagerInv | thread/download/download.go:85-101 | a new manager satisfies the invariants of the runs; it has a finished target for every local record, removed or not, and no other |
| Download.Registry.NewManager | thread/download/download.go:85-101 | the registered manager, else a new one with the local records finished |
| Download.Manager.Set | thread/download/download.go:104-120 | for any order of the heads: fresh targets for those that are not local, every other target unchanged |
| Download.Manager.Get | thread/download/download.go:123-146 | hands out the newest of the eligible targets, all up to 5 and one more than half above, and returns their least and greatest stamp |
| Download.Manager.CheckFinished | thread/download/download.go:148-166 | exhausted targets become finished and a finished manager is deregistered |
| Download.Manager.Finished | thread/download/download.go:169-183 | ends exactly the hand-outs of the node, with success or one more failure |
| Sync.GetWithRange | thread/download/download.go:215-245 | the loop ends, and is a session: turns of Get, merge and Finished, then an empty-handed Get or a failed request |
| Sync.GotExactly | thread/download/download.go:213-245 | it returns true if and only if it ends empty-handed after an answer with a line whose record is known, or in range with its hash, under the limit and not in the spam list |
| Sync.KnownCounts | thread/download/download.go:229-243 | an answer with just the line of a known record is one, though it stores nothing |
| Sync.StuckExactly | thread/download/download.go:217-221 | a session with a peer that answers leaves no target marked if and only if every target the peer could serve has a positive stamp |
| Sync.StampZeroSticks | thread/download/download.go:217-221 | a session with one target of stamp 0 ends at once and leaves it marked |
| Sync.LineOffersExactly | thread/cache.go:171-200 | the client accepts the line a server prints for a row in range if and only if the row is alive and its body less the line end has its hash |
| Sync.AnswerOffersExactly | cgi/server/server_cgi.go:265-287 | the answer to `from-to` offers exactly the rows in range that the peer holds |
| Sync.TurnStores | thread/download/download.go:217-243 | one turn adds exactly those rows to the store |
| Sync.SessionComplete | thread/download/download.go:215-245 | every target the peer could serve ends up finished, its record is in the store exactly when it was before or the peer holds it, and no row changes |
| Sync.StoredIsHeld | thread/cache.go:171-200 | a peer holds what its own CheckData stored from a body in UTF-8, unless removed, if and only if the body less the line end has its hash |
| Sync.TombstoneNotGot | cgi/server/server_cgi.go:265-287 | no line of a `/get` answer is parsed into a record under the key of a tombstone |
| Sync.TombstoneNotHeaded | cgi/server/server_cgi.go:265-287 | no line of a `/head` answer is that of a tombstone |
| Sync.RemovedIsNotAnswered | cgi/server/server_cgi.go:265-287 | so in every run after a removal no answer to `/get` or `/head` has the record |
| Sync.RoundComplete | thread/download/download.go:186-245 | a whole round of `/head`, Set and a session copies the thread: of the peer's alive rows from begin on the store has exactly those it had and those the peer holds; the new rows have the peer's heads and bodies, and are alive unless they are over the limit or in the spam list |

## Left out

- HTTP serving, URL matching, line framing of answers, templates, feeds, message files, configuration and logging.
- `ProbablyPrime` is exact primality, and `Exp` and `ModInverse` of `math/big` are their mathematical contracts.
- md5, the spam list and the size limit are parameters; of md5 only the form of its result is assumed, 32 hexadecimal digits or 16 bytes.
- JSON beyond its effect on strings: the encoding itself, and fields in another order or of another case.
- The bolt library: a transaction is a working copy that replaces the committed state or is dropped. Loops that delete under a cursor (`RemoveOlds`, `CleanRecords`, `RemoveRemoved`) are not modelled.
- `log.Fatal` ends the program: a failed key generation returns no key here, and an index error in `Build` no id.
- `Record.GetData`, which stores before it checks the hash, is not an operation of the runs; `Store.RunHashed` is not claimed across it.
- The 2ch posting path, which escapes with another function that keeps newlines.
- Apollo.NewPrivateKey: for seeds whose first two primes coincide, and for an exponent that is not coprime to phi with a ModInverse that changes its receiver, it is only stated which primes a key is made of and that it passed the test. `Signature.SeedPrimes` shows that the primes of a pass phrase never coincide.
- Signature.SignThenVerify: the key is required to survive the codec, whose exact condition is `Codec.RoundTripExactly`; keys of a pass phrase always do.
- Store.Cache.CheckData: its parameters stamp and id, which the code does not use, are dropped, and a failing database is not modelled.
- NodeManager.RunInv: interleaved write transactions cannot happen in the database, so a run is a sequence of whole transactions. The picks of `Random` and `getFromList` are arbitrary.
- Keylib.KeyLibrary.SetFromCache: what it reads of the thread (has it records, the alive ones, its recent stamp, the time a day ago) is an input, and the bucket does not hold all 2^64 stamps.
- UserTag.UserTags.Set: the database's refusal of an empty key is modelled, other database errors are not.
- UpdateQue.UpdateQue.Gate: the clock is read once for a request; the code reads it again for every entry and for the note.
- Download.SoleRun: other managers of the datfile only appear as events that register or deregister one; the unlocked access to the global table and the goroutines of `GetCache` and `bg` are not modelled.
- Download.Manager.Get: the library's sort is written as an insertion sort; which of the targets of equal stamp come first is left open by the contract.
- Sync.RoundComplete: one node and one peer, with no other Set or download in between; the choice of begin from the recent list and the updates of the node tables in `headWithRange` are not part of it. The rows announced have positive stamps and ids that a head line can carry, as every hash is.
- Pagination, tag filtering, attachments, thumbnails, emoji, oEmbed, character sets and the rendering of threads: easy members or library wrappers.
