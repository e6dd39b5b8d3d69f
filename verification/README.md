# Session-token backends of AuthenticationBenchmark, in Dafny

AuthenticationBenchmark compares three ways for a web service to issue a
session token on login (`Authenticate`) and to check it on every later
request (`ValidateToken`, which returns the user id or null):

- **AuthtCryptoSession**: no server state. The token is the Base64 form of
  a 48-byte record. The record holds the id (8 bytes), the expiration's
  binary form (8 bytes) and an HMAC-SHA256 tag of those 16 bytes (32
  bytes). Validation decodes the token, recomputes the tag, compares it
  with `BufferEquals`, decodes the fields and checks expiry.
- **AuthtDbSession**: a single file of 1024-byte slots. Session `id`
  writes key, id and expiration at offset `id * 1024`. The token is
  `"<id>*<key>"`. Validation splits, parses, bounds-checks, reads the slot,
  compares key and id, and checks expiry.
- **AuthtMemSession**: a dictionary from a random 64-bit key to a record
  `{Key, Id, Expiration}` (`AuthtRecord`, the datatype `Mem.Record`). The
  token is the key's decimal string. Validation parses it, looks it up and
  checks expiry.

Each backend instance has its own 32-bit id counter; all three use a
30-minute lifetime. The
`BinaryWriter`/`BinaryReader` helpers write and read little-endian `long`
fields in the caller's own byte array.

The Dafny modules follow the source:

- `Common`: fixed-width integers, the wrapping counter, `Outcome` (value,
  null, or an exception).
- `Time`: ticks, `ToBinary`/`FromBinary`.
- `Text`: decimal formatting and parsing, `Split`.
- `Helper`: the field codec and the `Writer`/`Reader` cursor classes.
- `Base64`: RFC 4648 section 4.
- `Crypto`, `Db` and `Mem`: one module per backend.

Each backend is a class whose fields are the source's mutable state. Its
`Authenticate` is a method that states the new state. Its `ValidateToken`
is a method proved equal to a pure `Validate` function, and the lemmas are
stated about that function.

Inputs the source takes from the environment are parameters:

- the clock (`now`, in 100 ns ticks);
- the random key bytes (`random` for the file backend, the sequence of
  successive 8-byte draws for the in-memory backend);
- the keyed HMAC, an arbitrary function with 32-byte results, fixed when
  the session is built.

A thrown exception is the outcome `Throws(fault)`:

- `InvalidBase64` for `FormatException` from `Convert.FromBase64String`;
- `NegativePosition` for `ArgumentOutOfRangeException` from a negative
  `Stream.Position`;
- `InvalidDateData` for `ArgumentException` from `DateTime.FromBinary`.

Behaviours of the source that the lemmas make explicit:

- A file-backend token with a negative id (down to -2^53) passes the bounds
  check and throws. It is not rejected with null.
- So does a token with a non-negative id in [2^53, 2^54): `(id + 1) * 1024`
  wraps to zero or below, so the bounds check passes whatever the file
  holds, and `id * 1024` wraps to a negative position.
- The products `(id + 1) * 1024` and `id * 1024` wrap modulo 2^64. The id
  `id + 2^54` therefore reaches the slot of `id`, and only the stored-id
  comparison rejects it.
- An unwritten (all-zero) slot holds key 0, id 0 and tick 0. The token
  `"0*0"` therefore gets through at tick 0, and is null at every later time.
- The counter is a 32-bit `int`. Call 2^31 yields a negative id, and from
  then until call 2^32 the file backend's `Authenticate` throws without
  writing. Call 2^32 issues id 0 and writes slot 0; call 2^32 + 1 issues
  id 1 again and overwrites its slot.
- Expiry is checked with `expiration < now`, so a token is still accepted at
  the instant it expires.

## Model

| member | source | states |
|---|---|---|
| `Common.Wrap64` | AuthtDbSession.cs:89 | Unchecked `long` arithmetic: the result is congruent to x modulo 2^64, and is x itself when x is in range |
| `Common.Wrap32` | AuthtMemSession.cs:26 | The result is congruent to x modulo 2^32, and is x itself when x is in range |
| `Common.Increment32` | AuthtMemSession.cs:26 | `Interlocked.Increment`: the result is n + 1 modulo 2^32 |
| `Common.ByteOf` | Helper.cs:15 | The byte built for a value in 0..255 has exactly that unsigned value |
| `Common.CounterAfter` | AuthtMemSession.cs:16-26 | `m_nextId` after k calls: k reduced into the `int` range |
| `Common.IncrementWraps` | AuthtMemSession.cs:26 | Incrementing the wrapped value of k gives the wrapped value of k + 1 |
| `Common.CounterCountsUp` | AuthtDbSession.cs:19-43 | Ids start at 1 and go up by one per Authenticate while k fits in an `int` |
| `Common.IdsDistinctBeforeWrap` | AuthtMemSession.cs:16-26 | Two different calls get different ids until the counter wraps |
| `Common.CounterGoesNegative` | AuthtCryptoSession.cs:19-30 | Call 2^31 gets the id -2^31 |
| `Common.CounterBackToZero` | AuthtDbSession.cs:43 | Call 2^32 gets the id 0 |
| `Common.CounterRepeats` | AuthtCryptoSession.cs:19-30 | Call 2^32 + 1 gets id 1 again |
| `Time.ToBinary` | AuthtCryptoSession.cs:37 | The word has the UTC kind bit (2^62) set, and its low 62 bits are the ticks |
| `Time.FromBinary` | AuthtCryptoSession.cs:64 | Succeeds exactly when the low 62 bits are at most DateTime.MaxValue's ticks; the ticks are congruent to the word modulo 2^62 |
| `Time.FromBinaryToBinary` | AuthtDbSession.cs:61-107 | Reading back a written expiration gives the same instant |
| `Time.FromBinaryZero` | AuthtDbSession.cs:107 | An all-zero word is tick 0, DateTime.MinValue |
| `Text.Digits` | AuthtMemSession.cs:51 | At least one decimal digit, with no leading zero |
| `Text.DigitsValueOfDigits` | AuthtMemSession.cs:51-58 | The digits of n denote n |
| `Text.FormatInt` | AuthtMemSession.cs:51 | Non-empty, never contains '*', and starts with '-' exactly for negative numbers |
| `Text.ParseInt64` | AuthtMemSession.cs:58 | A success is a non-empty string without '*', and is negative exactly when it is signed and non-zero |
| `Text.ParseFormat` | AuthtMemSession.cs:51-58 | Parsing the decimal form of every `long` gives it back, including 0, MinValue and MaxValue |
| `Text.FormatIntInjective` | AuthtMemSession.cs:67 | Distinct `long`s have distinct decimal forms |
| `Text.Split` | AuthtDbSession.cs:80 | One more part than separators; no part contains the separator; the parts joined with the separator give back the string |
| `Text.SplitJoin` | AuthtDbSession.cs:80 | Separator-free parts joined with the separator split back into exactly those parts |
| `Text.SplitWithoutSeparator` | AuthtDbSession.cs:80 | A string without the separator splits into itself alone |
| `Text.SplitPrefix` | AuthtDbSession.cs:80 | A separator-free prefix joins the first part |
| `Text.SplitPair` | AuthtDbSession.cs:74-81 | `a*b` with separator-free a and b splits into exactly [a, b] |
| `Helper.LittleEndian` | Helper.cs:15 | n bytes, the first of which is u modulo 256; `UnsignedOfLittleEndian` fixes the order of the rest |
| `Helper.UnsignedOfLittleEndian` | Helper.cs:15-20 | The little-endian bytes of u < 256^n read back as u |
| `Helper.LittleEndianOfUnsigned` | Helper.cs:15-20 | Every byte string is the little-endian form of its value |
| `Helper.EncodeInt64` | Helper.cs:15 | `Write(long)` produces exactly 8 bytes |
| `Helper.EncodeIsTwosComplement` | Helper.cs:15 | The 8 bytes, read as an unsigned little-endian number, are x modulo 2^64 (two's complement) |
| `Helper.DecodeInt64` | AuthtDbSession.cs:105-107 | `ReadInt64` / `BitConverter.ToInt64`: the `long` congruent modulo 2^64 to the 8 bytes read as an unsigned little-endian number |
| `Helper.DecodeEncode` | Helper.cs:13-21 | Reading back a written `long` gives it back, for every `long` |
| `Helper.EncodeDecode` | Helper.cs:13-21 | Every 8-byte word is the encoding of the `long` it decodes to |
| `Helper.EncodeFields` | Helper.cs:13-16 | n writes produce 8n bytes |
| `Helper.FieldAt` | Helper.cs:13-16 | Field i lands at offset 8i, whatever follows it |
| `Helper.DecodeFields` | Helper.cs:18-21 | n reads from offset 0 give n values |
| `Helper.DecodeEncodeFields` | Helper.cs:13-21 | Reading n fields after writing n fields gives the written values in order, whatever padding follows |
| `Helper.Writer.constructor` | Helper.cs:13-16 | The writer works on the caller's own array, from offset 0 |
| `Helper.Writer.Write` | Helper.cs:15 | The 8 bytes of x go at the cursor, which advances by 8; every other byte of the array is unchanged |
| `Helper.Reader.constructor` | Helper.cs:18-21 | The reader works on the caller's own array, from offset 0 |
| `Helper.Reader.ReadInt64` | Helper.cs:20 | Returns the `long` decoded from the 8 bytes at the cursor, which advances by 8 |
| `Base64.CharOf` | AuthtCryptoSession.cs:48 | A 6-bit value maps to an alphabet character, never the pad '=' |
| `Base64.ValueOf` | AuthtCryptoSession.cs:54 | The pad '=' has no 6-bit value |
| `Base64.CharOfValueOf` | AuthtCryptoSession.cs:48-54 | Every character with a 6-bit value is the character of that value |
| `Base64.ValueOfCharOf` | AuthtCryptoSession.cs:48-54 | Every 6-bit value is recovered from its character |
| `Base64.Sextets` | AuthtCryptoSession.cs:48 | Three bytes give four 6-bit values |
| `Base64.Combine` | AuthtCryptoSession.cs:54 | Four 6-bit values give three bytes |
| `Base64.CombineSextets` | AuthtCryptoSession.cs:48-54 | Combining the 6-bit values of three bytes gives those bytes |
| `Base64.EncodeGroup` | AuthtCryptoSession.cs:48 | Three bytes become four characters |
| `Base64.Encode` | AuthtCryptoSession.cs:48 | The text has 4 * ceil(n / 3) characters |
| `Base64.DecodeGroup` | AuthtCryptoSession.cs:54 | A decoded group of four characters is three bytes |
| `Base64.GroupAccepts` | AuthtCryptoSession.cs:54 | A group of four characters decodes exactly when all four are alphabet characters |
| `Base64.DecodeLast` | AuthtCryptoSession.cs:54 | A decoded final group is one to three bytes |
| `Base64.Decode` | AuthtCryptoSession.cs:54 | Only text whose length is a multiple of 4 decodes, to between 3 bytes per group less 2 and 3 bytes per group |
| `Base64.LastGroupAccepts` | AuthtCryptoSession.cs:54 | The final group decodes exactly when it is canonical, to 3 bytes less one per '=' |
| `Base64.DecodeAccepts` | AuthtCryptoSession.cs:54 | `FromBase64String` succeeds exactly on canonical text: groups of four alphabet characters, the last ending in at most two '='; it then gives 3 bytes per group less one per '=' |
| `Base64.GroupRoundTrip` | AuthtCryptoSession.cs:48-54 | A full group decodes to the bytes it encodes |
| `Base64.OneByteRoundTrip` | AuthtCryptoSession.cs:48-54 | A one-byte tail padded with "==" decodes back |
| `Base64.TwoBytesRoundTrip` | AuthtCryptoSession.cs:48-54 | A two-byte tail padded with "=" decodes back |
| `Base64.LongRoundTrip` | AuthtCryptoSession.cs:48-54 | A full group in front of a tail that round-trips makes a byte string that round-trips |
| `Base64.DecodeEncode` | AuthtCryptoSession.cs:48-54 | Decoding the encoding of any byte string gives it back |
| `Crypto.DataBlock` | AuthtCryptoSession.cs:33-38 | The data part is 16 bytes |
| `Crypto.SignedRecord` | AuthtCryptoSession.cs:33-45 | The record is 48 bytes |
| `Crypto.Validate` | AuthtCryptoSession.cs:51-69 | Malformed Base64 (text that is not canonical, see `Base64.DecodeAccepts`) throws; a decoded record that is not 48 bytes, or whose last 32 bytes are not the tag of its first 16, is null; the only exceptions are malformed Base64 and a bad date word, and the date word is read only from a 48-byte record whose tag matches |
| `Crypto.RecordLayout` | AuthtCryptoSession.cs:33-45 | Bytes 0..7 decode to the id, bytes 8..15 to the expiration, and bytes 16..47 are the tag of bytes 0..15 |
| `Crypto.IssuedToken` | AuthtCryptoSession.cs:48 | The token has 64 characters |
| `Crypto.IssuedTokenDecodes` | AuthtCryptoSession.cs:48-54 | Base64-decoding an issued token yields exactly its 48-byte record |
| `Crypto.IssuedTokenValidates` | AuthtCryptoSession.cs:28-68 | An issued token validates to its id at every time up to and including its expiration |
| `Crypto.IssuedTokenExpires` | AuthtCryptoSession.cs:66 | After its expiration an issued token is null |
| `Crypto.AcceptedTokenIsSigned` | AuthtCryptoSession.cs:55-68 | A non-null result means the record is 48 bytes, its last 32 bytes are the tag of its first 16, the expiration is at least now, and the result is the id in bytes 0..7 |
| `Crypto.TamperedDataRejected` | AuthtCryptoSession.cs:58-61 | Changing the data bytes while keeping the old tag gives null, unless the new data have the same tag |
| `Crypto.BlockCopy` | AuthtCryptoSession.cs:45 | `count` bytes of the source replace the destination from `dstOffset`; the rest is unchanged |
| `Crypto.BufferEquals` | AuthtCryptoSession.cs:71-78 | True exactly when the `length` bytes of a from offsetA equal those of b from offsetB |
| `Crypto.AuthtCryptoSession.constructor` | AuthtCryptoSession.cs:18-26 | The session keeps the given HMAC and starts the counter at 0 |
| `Crypto.AuthtCryptoSession.Authenticate` | AuthtCryptoSession.cs:28-49 | The counter is incremented (wrapping) and the token is the Base64 of the signed record for the new id, expiring 30 minutes after now |
| `Crypto.AuthtCryptoSession.TagMatches` | AuthtCryptoSession.cs:58-61 | Recomputing the tag and comparing it with BufferEquals is true exactly when bytes 16..47 are the tag of bytes 0..15 |
| `Crypto.AuthtCryptoSession.ValidateToken` | AuthtCryptoSession.cs:51-69 | Returns `Validate` of the token; changes no state |
| `Crypto.FirstSessionScenario` | Benchmark.cs:51-65 | On a fresh session the first token validates at once, to "1" |
| `Db.Record` | AuthtDbSession.cs:56-62 | The record is 1024 bytes, and everything after the three fields is zero |
| `Db.WriteAt` | AuthtDbSession.cs:66-70 | The written bytes replace the file's from `position`; the file grows to the end of the write if needed; other bytes are unchanged, and a gap reads as zero |
| `Db.ReadAt` | AuthtDbSession.cs:92-97 | n bytes: the file's bytes from `position`, and zero past the end of the file |
| `Db.ReadAfterWrite` | AuthtDbSession.cs:66-97 | Reading back the written range gives the written bytes |
| `Db.ReadBesideWrite` | AuthtDbSession.cs:66-70 | A write leaves every range that does not overlap it reading as before |
| `Db.RecordFields` | AuthtDbSession.cs:103-108 | The three `long`s of a record are key, id and the expiration word, in that order |
| `Db.Token` | AuthtDbSession.cs:74 | The token has exactly one '*' |
| `Db.ParseToken` | AuthtDbSession.cs:80-86 | A token that parses has exactly one '*' |
| `Db.ParseTokenOfToken` | AuthtDbSession.cs:74-86 | Every issued token parses back to its id and key |
| `Db.CheckRecord` | AuthtDbSession.cs:89-116 | A failed wrapped bounds check is null, for every `long` id; the only exceptions are a negative position and a bad date word; a negative position throws exactly when the wrapped bounds check passes and the wrapped position is negative; a non-null result is the token's id |
| `Db.Validate` | AuthtDbSession.cs:77-117 | A token without exactly one '*' is null, and so is one whose id or key part is not a `long`; the only exceptions are a negative position and a bad date word |
| `Db.AcceptedTokenMatchesSlot` | AuthtDbSession.cs:105-116 | A non-null result means the token parsed, the slot position is non-negative and within the file, the slot holds the token's key and id and an expiration of at least now, and the result is the id |
| `Db.Issue` | AuthtDbSession.cs:56-70 | After the write the id's slot holds the record, the file reaches at least to the slot's end, and every other byte of the old file is unchanged |
| `Db.SlotOutcome` | AuthtDbSession.cs:89-116 | When the token's id leads to a slot holding a record, the outcome is the id exactly when key, id and expiry all match, and null otherwise |
| `Db.SlotValidates` | AuthtDbSession.cs:89-116 | A slot holding the record for an id validates that id's token until it expires |
| `Db.IssuedTokenValidates` | AuthtDbSession.cs:56-116 | After the record is written, its token validates to the id up to its expiration, and is null after it |
| `Db.IssuedTokenSurvivesOtherIssue` | AuthtDbSession.cs:66-70 | Writing the record of another id leaves an issued token's outcome unchanged |
| `Db.NegativeIdThrows` | AuthtDbSession.cs:89-95 | A token with an id in [-2^53, 0) throws, whatever the file holds |
| `Db.LargeIdThrows` | AuthtDbSession.cs:89-95 | A token with a non-negative id in [2^53, 2^54) throws too, whatever the file holds: both products wrap |
| `Db.AliasedIdRejected` | AuthtDbSession.cs:89-112 | The id `id + 2^54` wraps onto the slot of id, and is null because the stored id differs |
| `Db.AliasOfSlotRejected` | AuthtDbSession.cs:89-112 | Wherever the slot of id holds id's record, the token for `id + 2^54` is null |
| `Db.WrongKeyRejected` | AuthtDbSession.cs:111 | The right id with any other key is null |
| `Db.BeyondEndRejected` | AuthtDbSession.cs:89 | A non-negative `int` id whose slot ends past the end of the file is null |
| `Db.BoundsCheckOnWholeSlots` | AuthtDbSession.cs:89 | In a file of whole slots, the check rejects a non-negative `int` id exactly when its slot starts at or past the end of the file |
| `Db.ZeroSlotRejected` | AuthtDbSession.cs:92-113 | An all-zero slot inside the file accepts only "0*0" at tick 0, and is null otherwise |
| `Db.BuildRecord` | AuthtDbSession.cs:56-62 | A fresh array holding exactly the record |
| `Db.ReadRecord` | AuthtDbSession.cs:92-108 | The three `long`s read are the first three fields of the slot as read from the file |
| `Db.ReadInto` | AuthtDbSession.cs:96 | Copies what the file has from `position`, at most the buffer's length, leaves the rest of the buffer alone, and returns the count |
| `Db.AuthtDbSession.constructor` | AuthtDbSession.cs:19-25 | The file starts empty and the counter at 0 |
| `Db.AuthtDbSession.Authenticate` | AuthtDbSession.cs:36-75 | The counter is incremented; a negative id throws and leaves the file unchanged; otherwise the record is written at the id's slot and the token is "id*key"; the file stays a whole number of slots |
| `Db.AuthtDbSession.ValidateToken` | AuthtDbSession.cs:77-117 | Returns `Validate` of the file and the token; changes no state |
| `Db.FirstSessionOutcomes` | AuthtDbSession.cs:56-117 | On the file the first Authenticate writes: "1*K" validates to "1", id 1 with another key is null, and "999*0" is null |
| `Db.FirstSessionScenario` | Benchmark.cs:51-65 | On a fresh backend whose first key is K: "1*K" validates to "1", id 1 with any other key is null, and "999*0" is null |
| `Mem.FirstFresh` | AuthtMemSession.cs:29-35 | The retry loop stops at the first draw whose key is not in the dictionary |
| `Mem.Validate` | AuthtMemSession.cs:54-68 | Never throws; non-null exactly when the token parses to a key that has a record whose expiration is at least now |
| `Mem.AcceptedTokenIsStored` | AuthtMemSession.cs:62-67 | A non-null result is the id of the record stored under the token's key, which has not expired |
| `Mem.StoredTokenValidates` | AuthtMemSession.cs:51-67 | The decimal token of a stored key validates to the record's id until the record expires |
| `Mem.RecordKeyIsToken` | AuthtMemSession.cs:40-67 | In a dictionary keyed by its records' own keys, a stored record's Key, in decimal, validates to its Id until it expires |
| `Mem.OtherInsertKeepsOutcome` | AuthtMemSession.cs:48 | Storing a record under another key does not change what a token validates to |
| `Mem.MalformedTokensRejected` | AuthtMemSession.cs:58 | "not-a-number" and "" are null |
| `Mem.AuthtMemSession.constructor` | AuthtMemSession.cs:16-17 | The dictionary starts empty and the counter at 0 |
| `Mem.AuthtMemSession.Authenticate` | AuthtMemSession.cs:19-52 | The counter is incremented; the chosen key is the first fresh draw and was not in the dictionary; exactly one entry key ↦ {key, id, now + 30 min} is added and all others are kept; the key set only grows; the token is the key's decimal string |
| `Mem.AuthtMemSession.ValidateToken` | AuthtMemSession.cs:54-68 | Returns `Validate` of the dictionary and the token; changes no state |
| `Mem.TwoSessionScenario` | Benchmark.cs:51-65 | Two sessions with distinct keys on a fresh backend validate to "1" and "2", and "not-a-number" is null |

## Left out

- Concurrency is not modelled; every backend runs sequentially. This covers `Interlocked.Increment` as an atomic operation, `Stream.Synchronized` and its seek/write race, `ConcurrentDictionary`, and the shared `HMACSHA256` instance.
- The HMAC-SHA256 computation (RFC 2104) is not modelled. The keyed MAC is an arbitrary function with 32-byte results, and the random MAC key is part of it.
- `RandomNumberGenerator`, `DateTime.UtcNow` and the user name and password are parameters. The user name and password are unused by the source too.
- File creation in a temporary path, the finalizer that deletes the file, and `Flush` are not modelled (AuthtDbSession.cs:21-34, 70). The file is a byte sequence that starts empty.
- The 1000-byte padding buffer of `AuthtRecord` (AuthtMemSession.cs:89) carries no data and is left out.
- `c_minRecordSize` is unused by the source; it appears only as the size of the three fields.
- IAuthtService.cs is not part of this model: it declares only the two signatures. Program.cs and the timing, threading and console output of Benchmark.cs are left out too.
- Text.ParseInt64: accepts only an optional '-' followed by decimal digits within the `long` range. `long.TryParse` also allows surrounding white space, a leading '+' and culture-specific signs. A token using those is null here but could be accepted by the source.
- Text.FormatInt: always writes '-' for a negative number. `long.ToString()` and the `$"{id}*{key}"` interpolation use the current culture's negative sign, which the model assumes to be '-'; with another sign, tokens that hold a negative key would carry that sign instead.
- Base64.Decode: accepts only canonical text without white space. It ignores the unused low bits of the last character; any stricter check the runtime makes on those bits is not modelled.
- Time.FromBinary: the local-time kind (bit 63) is read like a UTC value. The runtime converts such a value from local time, which needs the machine's time zone.
- Crypto.AuthtCryptoSession.Authenticate: requires now + 30 minutes not to exceed DateTime.MaxValue. Past that point the source's addition throws.
- Db.AuthtDbSession.Authenticate: requires now + 30 minutes not to exceed DateTime.MaxValue, as above. It also requires the 8 random bytes the generator always supplies.
- Mem.AuthtMemSession.Authenticate: requires now + 30 minutes not to exceed DateTime.MaxValue. It also requires that some supplied draw gives a key not yet in the dictionary: the source's retry loop runs until one does.
- Crypto.BufferEquals: requires both ranges to lie within their arrays. The source would throw otherwise, but it only calls this with in-range arguments.
- Helper.Writer.Write: requires room for 8 bytes at the cursor. A `MemoryStream` over a fixed array throws otherwise, but every caller writes within 48 or 1024 bytes.
- Helper.Reader.ReadInt64: requires 8 bytes at the cursor. The source would throw otherwise, but it is never reached.
- `BitConverter.ToInt64` reads in the host's byte order, while `BinaryWriter` always writes little-endian. The model decodes every word little-endian, so it describes a little-endian host. On a big-endian host the crypto backend would read the id and the expiration byte-swapped (AuthtCryptoSession.cs:63-64), and the file and in-memory backends would draw byte-swapped keys (AuthtDbSession.cs:50, AuthtMemSession.cs:34).
- Db.ReadInto: one call copies everything available up to the buffer's length. A `FileStream` may legally return fewer bytes; the source ignores the count, and so does the model.
