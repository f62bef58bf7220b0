# kevlar storage and transport, modelled in Dafny

Kevlar is a small Node.js toolkit. This project models two parts of it.

The first is the file-backed store of `kevlar.db.js`, which is bundled again in `kevlar.js:240-308`:

- `database(name)` makes a database directory. It hands out three kinds of collection, each made afresh over the same disk.
- An **associative table** stages each write in `pending_changes` and arms one timer per key. When the timer fires, `commit` writes the value to `db/table/<shard>/name+` and renames it to `db/table/<shard>/name`. A read prefers the staged value. The shard is the base-36 form of `djb2_hash(name) & 0xfff`.
- An **append log** pushes JSON lines onto a queue per bucket and arms one timer per bucket. `commit` appends `queue.join('\n') + '\n'` to the bucket file. `find` splits the streamed chunks back into lines.
- An **hourly log** is an append log whose bucket key is `YYYY.MMDD.HH00`, taken from the clock.

The second is the transport codec of `kevlar.client.transport.js`:

- an ascii85-style codec over 16-bit characters (`encode85`/`decode85`);
- SHA-256 over 16-bit characters;
- an HMAC variant built on it;
- the signed-message generator and verifier.

The bundled copy of the codec at `kevlar.js:340-350` is modelled separately, because its encoder differs.

Modules, one per concern:

- `Disk`: the abstract filesystem, a map from path to contents plus a set of directories.
- `Radix`: `toString(36)` and decimal rendering.
- `Shard`: `djb2_hash` and `prefix_directory_for`.
- `Associative`: the associative table.
- `Newlines`: `split('\n')`, `join('\n')` and the line reader's algebra.
- `AppendLog`, `HourlyLog`, `Database`: the append log, the hourly log and the `database(name)` factory.
- `JsNumbers`: JavaScript's `>>> 0`, `| 0`, `%` and `String.fromCharCode` on exact numbers.
- `Base85`, `BundledBase85`, `Sha256`, `Hmac`: the codec, its bundled copy, the hash and the keyed hash.

Code that changes state in the source is modelled imperatively:

- The associative table and the log are classes. Their `pending`/`queues` maps and `timers` sets are reassigned by methods with `modifies` clauses.
- `djb2_hash` and `each_line` are loops.
- `sha256` is a loop over blocks. `hash_block` fills a 64-word array in place, then runs 64 rounds that reassign `a`..`h`.

Each method is proved against a specification function (`Djb2`, `Lines`, `Compress`, `Digest`), and the properties are proved about those functions.

Where a doc comment or a name in `kevlar.db.js` suggests otherwise, the model follows the code:

- **`djb2_hash` mixes in `Number(char)` (kevlar.db.js:70).** The step is `h = (x.charAt(0) * 33 + h) >>> 0`, where `x` is the current character. A digit contributes its value and whitespace contributes 0. Any other character gives `NaN`, which `>>> 0` turns into 0, so the hash restarts. Every key that ends in a letter therefore lands in shard `0` (`Shard.NonNumericEndingShard`).
- **`read_contents` raises on a missing or unreadable record (kevlar.db.js:93-96).** The read error is thrown by `err /wobbly`. A read of a staged key returns the staged value and never calls `f`.
- **`commit` deletes the timer and the staged entry right after starting the write (kevlar.db.js:80-81).** The deletes do not wait for the write or the rename.
- **The log's `find` hands `f` the raw lines (kevlar.db.js:116-124).** Nothing is passed through `JSON.parse`, there is no stop signal, and the bucket argument is required. A missing bucket file makes the read stream emit 'error', which has no listener, so it is raised.
- **`DD` in the hourly key is `getDay()`, the day of the week (kevlar.db.js:100).**

## Bundled copies

The store's bundled copy in `kevlar.js` is the same code, so the same members model it. Each row of the table below cites `kevlar.db.js`; the bundled lines are:

- `database(name)`: `kevlar.js:241-245`, modelled by `Database.Db`.
- `djb2_hash` and `prefix_directory_for`: `kevlar.js:252-253`, modelled by `Shard.Djb2Hash` and `Shard.PrefixDirectoryFor`.
- The associative table: `kevlar.js:258-278`, modelled by `Associative.Table`.
- The hourly key: `kevlar.js:280-283`, modelled by `HourlyLog.Now`.
- The append log and its line reader: `kevlar.js:287-306`, modelled by `AppendLog.Log` and `AppendLog.EachLine`.
- `decode85`: `kevlar.js:346-350`, the same as the transport decoder `Base85.Decode85`.

## Model

| member | source | states |
|---|---|---|
| Disk.FileSystem.EnsureDirectory | kevlar.db.js:63 | the directory exists afterwards, whether or not it did before; files untouched |
| Disk.FileSystem.WriteFile | kevlar.db.js:85 | the file at the path holds exactly the data; nothing else changes |
| Disk.FileSystem.Rename | kevlar.db.js:86 | succeeds iff the source exists; then the target holds the source's data and the source is gone; on failure nothing changes |
| Disk.FileSystem.AppendFile | kevlar.db.js:113-114 | an append-mode stream adds the text after the old contents, creating the file when absent |
| Disk.FileSystem.ReadFile | kevlar.db.js:95 | the contents when the file exists, None exactly when it does not |
| Radix.DigitValueOfChar | kevlar.db.js:71 | the digit `toString` writes for `d` reads back as `d` |
| Radix.ToRadix | kevlar.db.js:71 | the rendering has at least one digit and no leading zero except for 0 |
| Radix.ToRadixDigits | kevlar.db.js:71 | every character of the rendering is a digit of the radix |
| Radix.FromToRadix | kevlar.db.js:71 | reading back the base-36 rendering gives the number |
| Radix.ToRadixInjective | kevlar.db.js:71 | distinct numbers have distinct renderings |
| Radix.Decimal | kevlar.db.js:100 | the rendering is non-empty and starts with '-' exactly for negatives |
| Radix.DecimalInjective | kevlar.db.js:100 | distinct years have distinct decimal renderings |
| Shard.CharToNumber | kevlar.db.js:70 | `Number(c)` is a number exactly for digits and JavaScript whitespace, a value 0..9 |
| Shard.HashStep | kevlar.db.js:70 | one step `(Number(c) * 33 + h) >>> 0`, and 0 when `Number(c)` is NaN (definition; `Shard.HashAfterReset` gives its effect) |
| Shard.Djb2 | kevlar.db.js:70 | the hash stays within 0..2^32-1 |
| Shard.Djb2Hash | kevlar.db.js:70 | the loop reassigning `h` from 5381 computes `Djb2` and stays 32-bit unsigned |
| Shard.HashOfNonNumericEnding | kevlar.db.js:70 | a key whose last character is not numeric hashes to 0 |
| Shard.HashAfterReset | kevlar.db.js:70 | everything before a non-numeric character is forgotten by the hash |
| Shard.Base36Length | kevlar.db.js:71 | a value below 4096 has 1 to 3 base-36 digits |
| Shard.PrefixDirectoryFor | kevlar.db.js:71 | 1-3 base-36 digits whose value is `djb2_hash(name) & 0xfff`, below 4096, with no leading zero unless the value is 0; depends on the key only |
| Shard.NonNumericEndingShard | kevlar.db.js:70-71 | every key ending in a non-numeric character is in shard "0" |
| Associative.FilePath | kevlar.db.js:89 | `db/table/<shard>/name`, the record of a key (definition) |
| Associative.TempPath | kevlar.db.js:89-90 | the temp file `name+` is never the same key's record |
| Associative.TempPathIsNeighbourRecord | kevlar.db.js:85-90 | the temp file of key `x` is the record of key `x+`, and a commit of `x` leaves `x+` with no record |
| Associative.ReplaceFacts | kevlar.db.js:86 | after the rename the target holds the data and the temp file is gone |
| Associative.Table.constructor | kevlar.db.js:65 | the table directory exists and nothing is staged or timed |
| Associative.Table.ScheduleCommitFor | kevlar.db.js:78 | adds the key's timer, and arming twice is arming once |
| Associative.Table.SetContents | kevlar.db.js:68-83 | the key's staged value is replaced (last write wins), other keys keep theirs, no second timer; staged keys equal timed keys |
| Associative.Table.WithPrefix | kevlar.db.js:72-74 | returns the key's shard and makes sure its directory exists |
| Associative.Table.WriteFileContents | kevlar.db.js:85-91 | the target holds the JSON text and the temp file is gone; nothing else changes |
| Associative.Table.Commit | kevlar.db.js:80-81 | the value staged at that moment is the file's content, no temp file remains, and exactly that key's timer and staged entry are removed |
| Associative.Table.ReadContents | kevlar.db.js:93-96 | a staged key yields its staged value and touches no file; otherwise the parsed file, or a throw when it is missing or does not parse |
| Associative.LastWriteWins | kevlar.db.js:78-83 | two writes before the timer fires leave one timer, and the commit stores the second value |
| Associative.Durability | kevlar.db.js:80-96 | a value written and committed reads back from disk |
| Newlines.Split | kevlar.db.js:118 | `split(/\n/)` gives at least one piece |
| Newlines.Join | kevlar.db.js:113 | `join('\n')` (definition; `Newlines.JoinSplit` states it inverts `Split`) |
| Newlines.SplitPieces | kevlar.db.js:118 | no piece of `split(/\n/)` holds a newline; one piece exactly when there is no newline |
| Newlines.JoinSplit | kevlar.db.js:113 | `join('\n')` undoes `split(/\n/)` |
| Newlines.SplitAppend | kevlar.db.js:122-124 | splitting a concatenation glues the last piece of the first to the first piece of the second |
| Newlines.UnlinesAppend | kevlar.db.js:113 | newline-terminated lines concatenate |
| Newlines.JoinNewlineIsUnlines | kevlar.db.js:113 | `queue.join('\n') + '\n'` terminates every queued line |
| Newlines.SplitUnlines | kevlar.db.js:118 | splitting newline-terminated lines gives the lines and a final empty piece |
| Newlines.LinesUnlines | kevlar.db.js:118-124 | the line reader gives back exactly the lines written |
| AppendLog.EachLine | kevlar.db.js:118-124 | when every chunk holds a newline, the emitted lines are the newline-separated pieces of the whole stream in order, plus the last fragment only if non-empty |
| AppendLog.LineStep | kevlar.db.js:122-124 | one `data` event extends the emitted lines as the split of the stream so far |
| AppendLog.CommitReadsBack | kevlar.db.js:112-124 | a file built by commits reads back as the old lines followed by the queue |
| AppendLog.BucketPath | kevlar.db.js:114 | `db/table/bucket`, the file of a bucket (definition) |
| AppendLog.Log.constructor | kevlar.db.js:102 | the table directory exists; no queues, no timers |
| AppendLog.Log.QueueFor | kevlar.db.js:126 | the bucket's queue, created empty only when absent |
| AppendLog.Log.ScheduleCommitFor | kevlar.db.js:110 | adds the bucket's timer, and arming twice is arming once |
| AppendLog.Log.AppendToBucket | kevlar.db.js:107 | the line goes to the end of the bucket's queue, others untouched; queued buckets equal timed buckets, and every queue is non-empty |
| AppendLog.Log.Append | kevlar.db.js:105 | appends the record's JSON line to the bucket's queue and arms its timer |
| AppendLog.Log.WriteEachQueueItemFor | kevlar.db.js:113-114 | the bucket file gains `join('\n') + '\n'` after its old content |
| AppendLog.Log.Commit | kevlar.db.js:112 | the old content is kept and every queued line is appended in push order; that bucket's queue and timer are gone, the rest untouched |
| AppendLog.Log.Find | kevlar.db.js:103-124 | the lines of the bucket file in order; the stream's unhandled 'error' is raised exactly when the file is missing |
| AppendLog.AppendThenFind | kevlar.db.js:105-124 | two appends, a commit and a find visit the old lines, then the two records in order |
| HourlyLog.N | kevlar.db.js:101 | `n(x)`: a leading 0 below 10 (definition; `HourlyLog.NDigits` states its meaning) |
| HourlyLog.Now | kevlar.db.js:100 | `now()` (definition; `HourlyLog.NowShape` and `HourlyLog.NowInjective` state its meaning) |
| HourlyLog.NDigits | kevlar.db.js:101 | `n(x)` is two digits that read back as `x` |
| HourlyLog.KeyShape | kevlar.db.js:100 | the key is ten characters longer than the year, and year, dots, month, weekday, hour and `00` each sit at a fixed offset after the year |
| HourlyLog.KeyInjective | kevlar.db.js:100 | equal keys with two-character fields have equal year, month, weekday and hour text |
| HourlyLog.KeyOutsideHour | kevlar.db.js:100 | keys that differ only in the hour agree before and after it |
| HourlyLog.NInjective | kevlar.db.js:101 | `n` renders distinct values below 100 differently |
| HourlyLog.NowShape | kevlar.db.js:100-101 | the key is `YYYY.MMDD.HH00` over the year and three two-digit fields that read back as month + 1, weekday and hour |
| HourlyLog.NowInjective | kevlar.db.js:100-101 | equal keys come from equal year, month, weekday and hour |
| HourlyLog.OnlyHourDiffers | kevlar.db.js:100-101 | readings in different hours of one day build their keys from the same year, month and weekday fields, and the keys differ |
| HourlyLog.Hourly.constructor | kevlar.db.js:98 | wraps a fresh, empty append log for the table |
| HourlyLog.Hourly.Record | kevlar.db.js:99 | appends the record to the bucket of the clock's hour |
| HourlyLog.Hourly.Find | kevlar.db.js:99 | the wrapped log's find for the bucket: its lines in order, or the raised stream error exactly when the file is missing |
| Database.Db.constructor | kevlar.db.js:59-60 | the database directory exists afterwards |
| Database.Db.AssociativeTable | kevlar.db.js:65 | a fresh, empty associative table under `name/table` |
| Database.Db.LogTable | kevlar.db.js:102 | a fresh, empty append log under `name/table` |
| Database.Db.HourlyTable | kevlar.db.js:98 | a fresh hourly log over a fresh append log |
| Database.TablesDoNotShareState | kevlar.db.js:65-77 | two tables made for the same name keep separate staged writes |
| JsNumbers.Trunc | kevlar.client.transport.js:18 | truncation toward zero: the largest integer not above a non-negative real, the smallest not below a negative one |
| JsNumbers.JsRem | kevlar.client.transport.js:18 | `a % d` on doubles: `a` minus the remainder is a whole multiple of `d`, and the remainder has the dividend's sign and is smaller than `d` in magnitude |
| JsNumbers.ToUint32 | kevlar.client.transport.js:23 | `n >>> 0` is in 0..2^32-1 and congruent to `n` modulo 2^32 |
| JsNumbers.ToInt32 | kevlar.js:343 | the 32-bit signed value, congruent to its input modulo 2^32 |
| JsNumbers.FromCharCode | kevlar.client.transport.js:18 | `String.fromCharCode` is the truncated argument modulo 2^16, so a number in 0..65535 gives its floor |
| Base85.JsDigit | kevlar.client.transport.js:18 | `String.fromCharCode(33 + n / p % 85)` on doubles (definition; `Base85.JsDigitOfNat` states its meaning) |
| Base85.EncodeBlock | kevlar.client.transport.js:18 | `encode_block(n)`: five characters |
| Base85.JsDigitOfNat | kevlar.client.transport.js:18 | for a non-negative block, `fromCharCode(33 + n / p % 85)` is 33 plus the base-85 digit |
| Base85.EncodeBlockDigits | kevlar.client.transport.js:18 | the five characters are the base-85 digits, most significant first |
| Base85.EncodeBlockAlphabet | kevlar.client.transport.js:18 | each character of a block is in 33..117 |
| Base85.EncodeBlockValue | kevlar.client.transport.js:18-24 | reading the five digits back gives the block's value |
| Base85.Horner | kevlar.client.transport.js:24 | the fold `x * 85 + c - 33` of `block_value` (definition; `Base85.HornerOfDigits` states it inverts the digits) |
| Base85.BlockValue | kevlar.client.transport.js:24 | `block_value` of a block of five, and nothing for a shorter block (definition) |
| Base85.HornerOfDigits | kevlar.client.transport.js:24 | `block_value` of the base-85 digits of `n` is `n` |
| Base85.DecodeBlock | kevlar.client.transport.js:23 | two characters whose 32-bit combination is `n >>> 0`; two `\0` characters for NaN |
| Base85.Pair | kevlar.client.transport.js:20 | the two characters as one 32-bit number, below 2^32, that splits back into `hi` and `lo` |
| Base85.EncodeBlocks | kevlar.client.transport.js:20 | five characters per pair, each in 33..117 |
| Base85.Encode85 | kevlar.client.transport.js:19-21 | length `5*ceil(n/2) - 2*(n mod 2)`, every character in 33..117 |
| Base85.DecodeBlocks | kevlar.client.transport.js:26 | two characters per block of five |
| Base85.Decode85 | kevlar.client.transport.js:25-27 | output length from the padded length, one character dropped when the length is not a multiple of 5 |
| Base85.DecodeEncodeBlock | kevlar.client.transport.js:18-24 | decoding an encoded block gives the two characters back |
| Base85.DecodeNear | kevlar.client.transport.js:23 | adding less than 85^2 to a block whose low half is 0 keeps its high character |
| Base85.HornerPadded | kevlar.client.transport.js:25 | the 'uu' pad appends two digits 84 |
| Base85.DecodeTruncatedBlock | kevlar.client.transport.js:19-25 | three digits of an encoded `[c, 0]` block, padded with 'uu', decode to `c` first |
| Base85.EncodeBlocksAppend | kevlar.client.transport.js:20 | encoding distributes over concatenation of whole pairs |
| Base85.DecodeBlocksAppend | kevlar.client.transport.js:26 | decoding distributes over concatenation of whole blocks |
| Base85.DecodeEncodeBlocks | kevlar.client.transport.js:20-26 | decoding the blocks of an even-length string gives it back |
| Base85.EncodeOdd | kevlar.client.transport.js:19-21 | an odd-length string encodes as its even part then three digits of `[c, 0]` |
| Base85.DecodeOdd | kevlar.client.transport.js:25-27 | three trailing digits decode, after the 'uu' pad, to one character |
| Base85.DecodeEncode | kevlar.client.transport.js:19-27 | `decode85(encode85(s)) == s` for every string of 16-bit characters |
| BundledBase85.SignedPair | kevlar.js:343 | the block value equals the transport's when the high character is below 0x8000, and is negative otherwise |
| BundledBase85.BundledEncodeBlocks | kevlar.js:341-343 | five characters per pair |
| BundledBase85.BundledEncode85 | kevlar.js:340-344 | the same length as the transport encoding |
| BundledBase85.BundledBlocksAgree | kevlar.js:343 | with high characters below 0x8000 the blocks equal the transport's |
| BundledBase85.BundledAgrees | kevlar.js:340-344 | with every even-position character below 0x8000 the bundled encoding equals the transport's |
| BundledBase85.BundledRoundTrip | kevlar.js:340-350 | under the same condition the bundled encoding round-trips |
| BundledBase85.NegativeBlockLeavesAlphabet | kevlar.js:341 | a negative block's first character falls outside 33..117 |
| BundledBase85.BundledBlockAt | kevlar.js:343 | block `j` of the bundled encoding is `encode_block` of the signed value of pair `j` |
| BundledBase85.BundledHighHalfLeavesAlphabet | kevlar.js:340-344 | in any string, a character of 0x8000 or above at an even position makes the first character of its block fall outside 33..117 |
| BundledBase85.MinusOneDigits | kevlar.js:341 | every digit of the block value -1 is the character 32 |
| BundledBase85.EncodeMinusOne | kevlar.js:340-344 | `[0xFFFF, 0xFFFF]` encodes as five characters 32 |
| BundledBase85.DecodeSpaces | kevlar.js:346-350 | five characters 32 decode as `[64729, 65491]` |
| BundledBase85.BundledRoundTripFails | kevlar.js:340-350 | the bundled round trip of `[0xFFFF, 0xFFFF]` gives `[64729, 65491]` |
| BundledBase85.BundledRoundTripSometimesHolds | kevlar.js:340-350 | `[0xFCE3, 0x7B4F]`, whose block value -85^4 is negative, encodes as 32 and four 33s and still decodes back |
| Sha256.Rr | kevlar.client.transport.js:49 | the shift-and-or of `rr` is rotation to the right by `bits` |
| Sha256.Halves | kevlar.client.transport.js:40 | two characters that recombine into the word |
| Sha256.PaddingCharacters | kevlar.client.transport.js:65 | `n` characters, all 0 |
| Sha256.BigEndian64 | kevlar.client.transport.js:66 | `[0, 0, hi, lo]` of the low 32 bits of the length |
| Sha256.ZeroCountFills | kevlar.client.transport.js:64 | fewer than 32 zero characters bring the message, the 1 bit and the length to a multiple of 32 |
| Sha256.Pad | kevlar.client.transport.js:64-66 | `pad(s)` (definition; `Sha256.PadShape` states its shape) |
| Sha256.PadLength | kevlar.client.transport.js:64 | the padded length is a multiple of 32 and fewer than 32 zeros are added |
| Sha256.PadFront | kevlar.client.transport.js:64 | the message, then 0x8000, then zeros |
| Sha256.PadBack | kevlar.client.transport.js:64-66 | the last four characters are `big_endian_64` of 16 times the message length |
| Sha256.PadShape | kevlar.client.transport.js:61-66 | section 5.1.1 of FIPS 180-4 in 16-bit units: message, 1 bit, zeros, bit length; 5 to 36 characters added; whole blocks |
| Sha256.BlockWords | kevlar.client.transport.js:50 | sixteen words from a 32-character block |
| Sha256.ScheduleUpTo | kevlar.client.transport.js:50-52 | the first `n` words of the schedule: `n` words |
| Sha256.ScheduleShape | kevlar.client.transport.js:50-52 | the schedule starts with the block's words and each later word follows from the four it depends on |
| Sha256.RoundsUpTo | kevlar.client.transport.js:54-57 | the working variables after `n` rounds (definition; `Sha256.RunRounds` is proved to compute it) |
| Sha256.Round | kevlar.client.transport.js:55-57 | one round shifts `a`..`h` down by one, replacing `a` and `e` |
| Sha256.Compress | kevlar.client.transport.js:50-58 | eight words out of eight in |
| Sha256.AddState | kevlar.client.transport.js:58 | eight words out (the wordwise sum with the incoming state is its definition) |
| Sha256.HashBlocks | kevlar.client.transport.js:39 | eight words after folding the blocks |
| Sha256.HashBlocksSnoc | kevlar.client.transport.js:39 | one more block compresses the state reached so far |
| Sha256.HashBlocksAppend | kevlar.client.transport.js:39 | hashing block-aligned pieces in turn is hashing their concatenation |
| Sha256.Serialize | kevlar.client.transport.js:40 | two characters per word, high half first, recombining into the word |
| Sha256.Digest | kevlar.client.transport.js:39-40 | sixteen characters |
| Sha256.MessageSchedule | kevlar.client.transport.js:50-52 | filling `ws` in place gives the 64-word schedule of section 6.2.2 of FIPS 180-4 |
| Sha256.ScheduleSnoc | kevlar.client.transport.js:51 | the schedule grows by one word, computed from the words 16, 15, 7 and 2 back |
| Sha256.RunRounds | kevlar.client.transport.js:54-57 | the 64-round loop reassigning `a`..`h` ends in the state of the 64 rounds |
| Sha256.HashBlock | kevlar.client.transport.js:50-58 | `hash_block` computes the compression function |
| Sha256.NextBlock | kevlar.client.transport.js:39 | block `i`, at offset `32 * i`, extends the hashed prefix by one block |
| Sha256.HashPadded | kevlar.client.transport.js:39 | the loop `n[0, p.length, 32] *![h = hash_block(h, ...)]` over a whole number of blocks folds the compression function over them |
| Sha256.BlockCount | kevlar.client.transport.js:39 | the padded message is a whole number of 32-character blocks |
| Sha256.Hash | kevlar.client.transport.js:39-40 | the loop over 32-character blocks computes the digest |
| Hmac.BitXorBound | kevlar.client.transport.js:75 | XOR of two 16-bit characters is a 16-bit character |
| Hmac.BitXorTwice | kevlar.client.transport.js:75 | XOR with the same mask twice gives the value back |
| Hmac.Xor | kevlar.client.transport.js:75 | `String.fromCharCode(c ^ m)` for 16-bit `c` and `m` (definition; `Hmac.BitXorBound` keeps it 16-bit) |
| Hmac.Masked | kevlar.client.transport.js:75-76 | a mask keeps the key digest's length |
| Hmac.MaskedTwice | kevlar.client.transport.js:75-76 | masking the key digest twice with the same byte gives it back |
| Hmac.PadsDiffer | kevlar.client.transport.js:75-76 | `ik` and `ok` differ in every character |
| Hmac.Hmac | kevlar.client.transport.js:75-76 | sixteen characters |
| Hmac.HmacThroughDigest | kevlar.client.transport.js:69-75 | the key matters only through its digest |
| Hmac.SignatureGenerator | kevlar.client.transport.js:89 | the message carries the user and the text; its 40-character signature decodes to the HMAC of the text |
| Hmac.SignatureOf | kevlar.client.transport.js:89 | a digest encodes to 40 characters that decode back to it |
| Hmac.SignatureVerifier | kevlar.client.transport.js:88 | throws exactly when the user has no key; accepts, yielding the text, exactly when the decoded signature is the HMAC under the user's key |
| Hmac.GeneratedVerifies | kevlar.client.transport.js:84-89 | a message signed with the key the verifier holds for the user is accepted with its text |
| Hmac.ForeignKeyRejected | kevlar.client.transport.js:88-89 | a message signed under a key whose HMAC differs is refused |
| Hmac.AlteredTextRejected | kevlar.client.transport.js:88 | changing the text of a signed message is refused unless the HMACs collide |

## Left out

- The HTTP server (`kevlar.server.js` and `kevlar.js:91-175`) is not part of this model. It is request routing and stream plumbing.
- Real I/O is left out: `fs` callbacks and their ordering, streams, and errors other than a missing file.
  - Each filesystem call is one atomic update of the `Disk.FileSystem` maps.
  - `commit` is one atomic step, so the window between clearing the staged state and the rename finishing is not modelled.
- Timers are left out. The 1000 ms `setTimeout` is the `timers` set, and a timer firing is a call of `Commit`.
- `JSON.stringify` and `JSON.parse` are opaque parameters (`stringify`, `parse`). Serialised values must contain no raw newline; the log's constructor requires it.
- The clock (`new Date()`) is a `HourlyLog.Clock` parameter.
- AppendLog.EachLine: a chunk with no newline is excluded by its precondition. In the source such a chunk is passed to `f` at once as a line of its own, glued to the pending fragment, and then turns `partial` into `false`, which a later chunk concatenates as the text "false" (kevlar.db.js:122-124). A line longer than one stream chunk is therefore split and corrupted.
- Doc-comment promises that the code does not implement are left out:
  - a `find` over all partitions;
  - stopping `find` early when the callback returns false;
  - a callback with `undefined` for a missing key;
  - indexes.
- `derive_key` (`kevlar.client.transport.js:74`) is not modelled. Its fold passes the element, a number, where `sha256` expects a string, so what it computes depends on JavaScript coercions this model does not represent.
- Floating point:
  - `encode_block`'s `n / p % 85` is modelled on exact reals with truncation. For block values below 2^32 no rounding changes the result.
  - The bundled encoder's negative block values use the same exact model.
- The queue arrays of the log are modelled as sequences. The source's aliasing of the array returned by `queue_for` is not captured; only `push` goes through it.
- Sha256.Compress, Sha256.AddState and Sha256.HashBlocks state lengths only. Their meaning is the computation of section 6.2.2 of FIPS 180-4 they define, which `Sha256.HashBlock` and `Sha256.Hash` are proved to implement.
- The store's in-memory tables are modelled as Dafny maps and sets. In the source, `pending_changes`, `timeouts`, `queues` and the verifier's `derived_keys` are plain objects (kevlar.db.js:76-77, 109, 125; kevlar.client.transport.js:88). So `in` and `x[k] ||` also find names inherited from `Object.prototype`, such as `toString`, `constructor`, `valueOf` and `hasOwnProperty`. Keys with those names are not modelled; the lines below give what each member then does not capture.
- Associative.Table.ScheduleCommitFor: for an inherited name `timeouts[name]` is a function, so no timer is armed (kevlar.db.js:78).
- Associative.Table.SetContents: for an inherited name the value is staged but never committed, so staged keys and timed keys differ (kevlar.db.js:78, 83).
- Associative.Table.ReadContents: for an inherited name `name in pending_changes` holds, so the inherited function is returned and no file is read (kevlar.db.js:93).
- AppendLog.Log.QueueFor: for an inherited bucket name `queues[bucket] ||` returns the inherited function (kevlar.db.js:126).
- AppendLog.Log.ScheduleCommitFor: for an inherited bucket name no timer is armed (kevlar.db.js:110).
- AppendLog.Log.AppendToBucket: for an inherited bucket name `.push` is called on a function and throws (kevlar.db.js:107).
- Hmac.SignatureVerifier: for a user named like an inherited property, `derived_keys[user]` is a function, so the verifier hashes it instead of throwing (kevlar.client.transport.js:88).
- Hmac.Hmac states only its length. The construction is not RFC 2104: the pads are swapped, are 16 characters long, and the key is always hashed. So there is no standard HMAC to prove it equal to.

## Findings

| source | as written | input that shows it | evidently intended | confidence | as-written member | corrected member |
|---|---|---|---|---|---|---|
| kevlar.js:343 | the pair is combined by or-ing the low character into the already unsigned high half, and the or makes the block value a signed 32-bit number | `[0xFFFF, 0xFFFF]` encodes as five characters 32 (outside 33..117) and decodes as `[64729, 65491]` | the unsigned conversion applied after the or, as in kevlar.client.transport.js:20, so every block is unsigned and the round trip holds | not executed | BundledBase85.BundledRoundTripFails | Base85.DecodeEncode |
