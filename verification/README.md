# Verified model of the range sensor firmware

The firmware is an NFC/BLE range sensor. A phone writes an NDEF record to the tag, or sends a payload over the BLE
UART service; both end in one command processor. This project models that processor and what stands around it, and
proves what each part promises:

- **SHA-256 and HMAC** (`Bytes`, `Fips180`, `FipsExample`, `Sha256`, `Hmac`): the streaming context of the firmware as
  a class over its state, count and partial-block buffer, proved against FIPS 180-4 and RFC 2104. `DigestOfChunks` is
  the statement for every message and every way of cutting it; what the functions of the standard compute is proved bit
  by bit, and through the standard's own example (`DigestOfAbc`).
- **Authentication** (`Auth`, `AuthRuns`): challenge and response with one-use nonces, a BLE unlock per connection and a
  five-minute NFC unlock that expires lazily. The run theorems compare the state machine with definitions that only look
  at observed commands and replies.
- **Commands** (`Wire`, `Tlv`, `Fields`, `Protocol`, `Handlers`, `ProtocolTheorems`, `ShellClient`, `DeviceRuns`): the
  TLV codec, the field registry, the read reply in a bounded buffer, the five-phase write transaction, the device
  life-cycle, and the decoder the shell uses on read replies.
- **Flash hand-over** (`FlashHandshake`): the NFC callback and the writer loop as interleaved atomic steps over the flag
  word, the semaphore and the shared buffer.
- **OTA reassembly and the BLE entry** (`Ota`, `OtaRuns`), **NDEF parsing and encoding** (`Ndef`) and the **NFC entry** (`NfcEntry`).

Code that changes things in place is a method on the same fields and buffers; its contract ties the new state and the
reply to a transition function, and the theorems are about those functions and their runs. The two share a file where
the source has one, and `Protocol` holds the functions of `Handlers`. Machine integers keep their width: counts, lengths
and sums wrap where the C types do. Uptime and nonce bytes are inputs.

Properties that do not hold in general are stated with the exact condition and a failing input:

- The TLV entry count wraps at 256 (`CountWrapsAt256`, `StructureAcceptedIff`), so a successful write covers the whole
  body if and only if the body has at most 511 bytes (`WholeListWrittenIff`); beyond that only a prefix is written
  (`LongBodyWritesOnlyAPrefix`).
- The length of a read's id list is computed in one byte, so a request that carries its ids is found long enough if and
  only if COUNT is at most its list length modulo 256 (`ReadReplyDecodesBack`); one of 262 bytes for a single id is
  refused (`LongRequestIsRefused`).
- NFC is sensed before the modules are initialised. Runs therefore start from the statics, with the two initialisations
  as events: two writes that skipped the permission check are separated by a factory reset unless app_fields_init comes
  in between (`SkippedChecksAreSeparated`, `EarlyWriteIsForgotten`), and a token that comes in before app_auth_init is
  judged by an all-zero password hash (`TokensConsumeNonces`, `CurrentHash`).
- NDEF 1.0 lays out TYPE before ID; the parser expects the type after the ID. A record with a non-empty ID is therefore
  ignored unless the ID ends in the type again (`CommandRecordParsesIff`, `IdHidesCommand`).
- The response record has a one-byte payload length, so a reply of 256 bytes is lost (`ResponseIsStandardRecord`);
  exactly the reads that ask for that many are concerned (`LongestReply`, `CommandInResponseOut`, `LongestReplyIsLost`).
- The stored flash length is one byte, so an update is flashed whole if and only if it has at most 255 bytes with its
  length field (`FlashedIsPrefixOfAccepted`); one of 254 data bytes is flashed empty (`LongUpdateIsLost`).
- The parser adds the lengths of a record in 32 bits, so an accepted payload lies inside the message if and only if the
  sum does not wrap (`PayloadInsideIff`); some record's does (`PayloadBeyondMessage`).

Where the communication document of the repository (version V1.7) and the code differ, the model follows the code: CMD
0x02 carries TLV fields and not a parameter id, read replies list TLV fields instead of 63 fixed bytes, CMD 0x10 to 0x12
need an unlocked link, and CMD 0x12 ends a transfer without checking its size, order or integrity.

`dafny verify dfyconfig.toml` checks the whole project with Dafny 4.11.

## Model

| member | source | states |
|---|---|---|
| Fips180.Pad | src/app_auth.c:218-233 | the padded message is whole 64-byte blocks and adds between 9 and 72 bytes (FIPS 180-4, section 5.1.1) |
| Fips180.PaddingIsMinimal | src/app_auth.c:218-233 | the padded message is the message, the byte 0x80, fewer than 64 zeros and the length in eight bytes |
| Fips180.PaddingEndsWithLength | src/app_auth.c:220-232 | for messages below 2^61 bytes the last eight padded bytes, read big-endian, are the message length in bits |
| Fips180.PaddingIsInjective | src/app_auth.c:220-232 | two messages below 2^61 bytes with the same padded form are equal |
| Fips180.RoundConstants | src/app_auth.c:86-103 | every word K[t] of the table, t < 64, holds the first 32 fraction bits of the cube root of prime number t (section 4.2.2) |
| Fips180.InitialHashValue | src/app_auth.c:184-191 | the eight initial words are the first 32 fraction bits of the square roots of the first 8 primes (section 5.3.3) |
| Fips180.Choose | src/app_auth.c:110-113 | under any bit mask, Ch takes y where x is set and z where x is clear |
| Fips180.Majority | src/app_auth.c:115-118 | under any bit mask, Maj is the common value of x and y, and z where they differ |
| Fips180.BSig0Bit | src/app_auth.c:120-123 | bit i of the sum is the exclusive or of bits i + 2, i + 13 and i + 22 modulo 32 |
| Fips180.BSig1Bit | src/app_auth.c:125-128 | bit i of the sum is the exclusive or of bits i + 6, i + 11 and i + 25 modulo 32 |
| Fips180.SSig0Bit | src/app_auth.c:130-133 | bit i of the sum is the exclusive or of bits i + 7 and i + 18 modulo 32 and of bit i + 3 if there is one |
| Fips180.SSig1Bit | src/app_auth.c:135-138 | bit i of the sum is the exclusive or of bits i + 17 and i + 19 modulo 32 and of bit i + 10 if there is one |
| FipsExample.DigestOfAbc | src/app_auth.c:154-238 | the SHA-256 of "abc" is the digest of the standard's example, computed through all 64 schedule words and rounds |
| Bytes.Put32IsBigEndian | src/app_fields.c:145-151 | the four stored bytes are the base-256 digits of the word, and reading them back gives the word |
| Bytes.Get32Inverse | src/app_fields.c:158-164 | storing a word read from four bytes gives those bytes again |
| Bytes.Put16IsBigEndian | src/app_fields.c:139-143 | the two stored bytes are the base-256 digits, and reading them back gives the number |
| Bytes.GetIsBigEndian | src/app_fields.c:153-164 | two and four bytes are read with the first one weighing most |
| Bytes.BigEndianInverse | src/app_auth.c:146-152 | reading k big-endian bytes of n gives n modulo 256^k |
| Sha256Stream.AbsorbBlock | src/app_auth.c:211-214 | a chunk that completes a block adds exactly that block to the running hash and empties the tail |
| Sha256Stream.PadFromTail | src/app_auth.c:223-233 | padding as finish does it, in one or two more blocks depending on whether the tail reaches 56 bytes, is the padding of the standard |
| Sha256Stream.LengthField | src/app_auth.c:231-232 | the two 32-bit halves of the 64-bit bit count are its eight big-endian bytes |
| Sha256Stream.HashOneMore | src/app_auth.c:195-216 | one more block is compressed into the hash of the blocks before it |
| Sha256Stream.ExpandBlock | src/app_auth.c:160-166 | the in-place loop fills w with the 64 words of the message schedule (section 6.2.2, step 1) |
| Sha256Stream.RunRounds | src/app_auth.c:168-176 | the loop over a..h ends in the working variables after 64 rounds of the standard (step 3) |
| Sha256Stream.Transform | src/app_auth.c:154-180 | the state array becomes the next intermediate hash value for the block |
| Sha256Stream.Context.Init | src/app_auth.c:182-193 | any context, whatever it holds, becomes one that has absorbed nothing |
| Sha256Stream.Context.Update | src/app_auth.c:195-216 | for every length, also zero, the context has then absorbed the old bytes followed by the new ones |
| Sha256Stream.Context.Finish | src/app_auth.c:218-238 | the first 32 output bytes are the SHA-256 digest of all absorbed bytes, the others keep their value |
| Sha256Stream.DigestOfChunks | src/app_auth.c:182-238 | init, one update per chunk and finish give the digest of the concatenation, for every cutting of every message and any previous buffer contents |
| Hmac.ComputeHmac | src/app_auth.c:244-286 | for every key and message the result is H(K xor opad, H(K xor ipad, text)) of section 2 of RFC 2104, keys above 64 bytes hashed first |
| Hmac.HmacIsRfc2104 | src/app_auth.c:256-285 | for every key: with K filled up with zeros, or hashed first when longer than 64 bytes, and the two masks given bit by bit, 0x36 inside and 0x5C outside, the result is H(outer, H(inner, text)) |
| Hmac.HmacOfEmptyKey | src/app_auth.c:256-285 | with an empty key it is the hash of 64 bytes 0x5C and the hash of 64 bytes 0x36 and the text |
| Hmac.ComputePasswordHash | src/app_auth.c:297-309 | the hash of password, serial number and salt concatenated |
| Hmac.ConstantTimeEqual | src/app_auth.c:414-419 | the XOR/OR loop without early exit answers true exactly when all 32 bytes are equal |
| Hmac.DifferenceAccumulates | src/app_auth.c:416-418 | the accumulated difference stays zero exactly as long as every compared pair is equal |
| Hmac.BitByBit | src/app_auth.c:416-418 | the two byte operations are exclusive or and or of every single bit |
| Auth.Module.constructor | src/app_auth.c:46-71 | the zero-initialised statics: no nonces, both channels locked, and an all-zero password hash |
| Auth.Module.AppAuthInit | src/app_auth.c:344-348 | initialisation sets the default password hash and nothing else |
| Auth.Module.AppAuthResetPassword | src/app_auth.c:350-354 | the password hash becomes the default one and nothing else changes |
| Auth.Module.ChannelLock | src/app_auth.c:315-326 | only the given channel is locked and only its nonce is dropped |
| Auth.Module.ChannelUnlock | src/app_auth.c:328-338 | BLE is unlocked without a deadline, NFC until five minutes after now |
| Auth.Module.AppAuthCheckWrite | src/app_auth.c:489-507 | the permission of the transition function, and an NFC deadline found to have passed is cleared |
| Auth.Module.AppAuthBleDisconnect | src/app_auth.c:509-514 | losing the link locks BLE and drops its nonce and touches nothing of NFC |
| Auth.Module.CompareToken | src/app_auth.c:401-438 | matched exactly when the received bytes are HMAC(password hash, nonce and serial number); the nonce is spent either way and the channel unlocked or locked |
| Auth.Module.AppAuthHandleCmd | src/app_auth.c:356-487 | new state and reply bytes of all CMD 0x03 subcommands, with every error reply, as the transition function about which the run theorems speak |
| AuthRuns.RunExplained | src/app_auth.c:46-71 | after every run from power-up on with a monotone clock the whole module state is determined by the observed commands and replies |
| AuthRuns.PermissionRefinesHistory | src/app_auth.c:489-507 | every permission looked up in a run is the one defined by the last session event and the clock; the first late NFC look-up says expired, later ones required |
| AuthRuns.CheckWriteRefinesHistory | src/app_auth.c:489-507 | NFC may write at time now if and only if the last NFC session event was a token success at t with now <= t + 300000 |
| AuthRuns.ExpiredOncePerUnlock | src/app_auth.c:498-505 | between two answers AUTH_EXPIRED there is a token success |
| AuthRuns.PermissionIs | src/app_auth.c:489-507 | every permission answer of a run, without recursion: required without an open session; OK on BLE, and on NFC up to five minutes after the token success; expired at the first later NFC look-up and required at the others |
| AuthRuns.SessionIff | src/app_auth.c:315-338 | a session is open if and only if a token success is the last session event of its channel |
| AuthRuns.HashInForce | src/app_auth.c:344-354 | the password hash in force is that of the last change, or since the last reset or initialisation the hash of the texts "123456", "123456" and "RL_RANGE_AUTH_V1", or zero before any |
| AuthRuns.RepliesFromHistory | src/app_auth.c:356-487 | in every run every CMD 0x03 payload is answered, byte by byte, as commands and replies before it say |
| AuthRuns.PermittedChangeSucceeds | src/app_auth.c:443-468 | a permitted password change of at least 34 bytes succeeds and is in force, a permitted shorter one is answered PARAM_LEN and changes nothing |
| AuthRuns.TokenAnswersPendingNonce | src/app_auth.c:384-440 | a token is evaluated if and only if a nonce request of its channel is pending, and accepted if and only if it equals HMAC(password hash in force, that nonce and serial number) |
| AuthRuns.NonceWasSent | src/app_auth.c:370-381 | the nonce to answer is the one sent in the reply to that request |
| AuthRuns.TokensConsumeNonces | src/app_auth.c:370-440 | in every run, whatever the clock does, a token is evaluated exactly when an earlier nonce request of its channel is open, with no lock, lost link, token or newer request of the channel in between; it succeeds if and only if it is the HMAC of the nonce sent in that reply; and no other evaluated token has the same request |
| AuthRuns.NonInterference | src/app_auth.c:55-65 | unless the other channel changes or resets the password, replies and permissions of one channel are those of the run with the other channel's events deleted |
| Tlv.RoundTrip | src/app_tlv.c:10-43 | decoding the concatenated encodings of any list of fields returns the list |
| Tlv.EncodeAfterDecode | src/app_tlv.c:21-43 | encoding a decoded list returns the bytes, and every field takes at least two of them |
| Tlv.EncodeField | src/app_tlv.c:10-19 | the field is written in place, nothing around it changes, and the uint8_t result is its size exactly up to 253 value bytes |
| Tlv.DecodeField | src/app_tlv.c:21-43 | 0 exactly when a whole field starts at the offset, which then advances by two and the value length; -1, with the offset kept, exactly when the header does not fit; -2, with the offset two further, otherwise |
| Tlv.ValidatePayload | src/app_tlv.c:45-67 | accepted exactly when the bytes are whole fields whose number modulo 256 is the declared count |
| Tlv.AcceptanceIsExact | src/app_tlv.c:45-67 | up to 511 bytes, accepted if and only if the bytes are exactly the declared number of whole fields |
| Tlv.CountWrapsAt256 | src/app_tlv.c:49-62 | the limit is sharp: 512 bytes holding 256 empty fields are accepted as a list of none |
| Fields.Get | src/app_fields.c:204-307 | a value is returned exactly for the readable fields, with the length the registry declares |
| Fields.FieldMeaning | src/app_fields.c:204-307 | what the bytes of each changeable field denote, signed values in two's complement |
| Fields.PowerUpIdentity | src/app_fields.c:25-31 | the identity fields of a device that was never written, byte by byte |
| Fields.PowerUpReadings | src/app_fields.c:33-36 | its sensor readings |
| Fields.PowerUpSettings | src/app_fields.c:39-58 | its settings, position and initialisation flag |
| Fields.ValidateIs | src/app_fields.c:309-356 | a value is accepted if and only if it is a mode 1 to 3 in one byte, an interval in two, or a location in eight with both coordinates in range; unknown and read-only fields, wrong lengths and values out of range get UNSUPPORTED, PARAM_LEN and PARAM_VALUE |
| Fields.GetAfterSet | src/app_fields.c:358-386 | a value reads back as the bytes the field takes of it, and a validated one as the bytes written; an installation location sets latitude and longitude to its halves, through the signed casts, altitude to 0 and the fix to 1; other fields are ignored |
| Fields.GetOtherAfterSet | src/app_fields.c:358-386 | writing a field changes no other field, the derived position aside |
| Fields.GetAfterSetAll | src/app_fields.c:358-386 | after a list of writes each written field holds its last value in the list |
| Fields.CastsAreInverse | src/app_fields.c:341-342 | four bytes survive the cast to int32_t and back |
| Fields.SetAllInRange | src/app_fields.c:328-350 | validated writes keep mode in 1..3, coordinates in range and the position equal to the installation location |
| Fields.SetAllKeepsState | src/app_fields.c:358-386 | validated writes touch neither the life-cycle state nor the initialisation flag |
| Fields.Module.AppFieldsInit | src/app_fields.c:183-202 | factory state and defaults are restored, sensor readings and time are kept |
| Fields.ReadsAfterReset | src/app_fields.c:183-202 | afterwards every field reads as on a device that was never written, the four sensor readings aside |
| Fields.Module.AppFieldGet | src/app_fields.c:204-307 | the buffer receives the value, cut for the two strings and refused for other fields when the buffer is too small |
| Fields.GetUpToIs | src/app_fields.c:204-307 | a buffer receives the value if it fits, else a beginning of it for the two strings and nothing for other fields |
| Fields.Module.AppFieldSet | src/app_fields.c:358-386 | the store after setting any value that holds the bytes the field takes, validated or not |
| Fields.Module.AppFieldMarkFactoryInitDone | src/app_fields.c:404-411 | initialisation is marked, and FACTORY becomes POWER_ON |
| Handlers.Device.constructor | src/app_fields.c:25-58 | the device state before start-up |
| Handlers.Device.StartUp | src/main.c:190-193 | the default password hash and the default registry, on whatever earlier NFC commands have left |
| Handlers.Device.AppendField | src/app_protocol.c:66-84 | appends exactly one encoded field, or leaves the response alone and returns 0 for an unknown field or 0xFF when there is no room |
| Handlers.Device.ListFields | src/app_protocol.c:109-170 | the response holds the count and the encoded fields in the order asked for, or names the first one without room |
| Handlers.Device.HandleCmdRead | src/app_protocol.c:86-171 | reply and time stamp of CMD 0x01 with all error replies, the uint8_t list length included |
| Handlers.Device.FillCache | src/app_protocol.c:212-253 | validation reports the first bad field and changes nothing but the cache, which otherwise holds the decoded fields in order |
| Handlers.Device.ApplyCache | src/app_protocol.c:269-274 | the store becomes the in-order fold of the cached writes |
| Handlers.Device.HandleCmdWrite | src/app_protocol.c:177-287 | the five phases give the new state and reply of the write transaction |
| Handlers.Device.HandleCmdAction | src/app_protocol.c:293-385 | power on, power off and factory reset: new state and reply, with all error replies |
| Handlers.Device.ProcessAppPayload | src/app_protocol.c:391-421 | every payload gives exactly the new state and reply of the transition function about which the run theorems speak |
| ProtocolTheorems.WriteSucceedsIff | src/app_protocol.c:181-267 | on bodies of any length CMD 0x02 succeeds if and only if the body is whole fields, COUNT of them modulo 256, COUNT is 1 to 16, the first COUNT fields are valid, and the device is factory-fresh or the channel unlocked; up to 511 bytes these are all the fields |
| ProtocolTheorems.BadStructure | src/app_protocol.c:181-210 | a body that is no list of exactly COUNT >= 1 fields (above 511 bytes: of COUNT modulo 256) is answered PARAM_LEN and changes nothing |
| ProtocolTheorems.WellFormedWrite | src/app_protocol.c:212-287 | on a well-formed body of any length the reply is that of the first failing phase and of the first bad field among the COUNT declared ones, and success applies them all and leaves the factory state |
| ProtocolTheorems.WriteIsTransaction | src/app_protocol.c:177-287 | on any body and with any response limit a refused write changes at most an expired NFC deadline, and a successful one applies exactly the first COUNT fields of the body; a limit below three hides the reply and nothing else |
| ProtocolTheorems.ApplyIsFold | src/app_protocol.c:269-280 | applying a list is the in-order fold of the single writes, and a factory-fresh device becomes POWER_ON and initialised |
| ProtocolTheorems.WholeListWrittenIff | src/app_protocol.c:200-274 | a successful write applies the whole body if and only if the body has at most 511 bytes; no body of 512 to 514 bytes is accepted |
| ProtocolTheorems.StructureAcceptedIff | src/app_protocol.c:200-210 | for bodies of any length the structure check sees the number of fields only modulo 256 |
| ProtocolTheorems.LongBodyWritesOnlyAPrefix | src/app_protocol.c:200-274 | the limit is sharp: of a 515-byte body holding 257 fields, declared as one, exactly the first is written; and of a 771-byte body of 257 valid fields the mode written is not the one the whole list would leave |
| ProtocolTheorems.ReadReplyDecodesBack | src/app_protocol.c:109-170 | for every request and response limit: a read succeeds if and only if COUNT is at most the list length modulo 256, every id is readable and 3 + sum(2 + len) fits; its reply has that size and decodes to the requested ids in order with their values; below a limit of three there is no reply |
| ProtocolTheorems.ReadRefusalNamesTheField | src/app_protocol.c:119-166 | a read whose list length modulo 256 is below COUNT is answered PARAM_LEN; any other refusal names the first unreadable id, or else the first field for which there is no room |
| ProtocolTheorems.LongRequestIsRefused | src/app_protocol.c:107-139 | up to 261 bytes a request that carries its ids is long enough; the limit is sharp, since a 262-byte request carrying one readable id is answered PARAM_LEN |
| ProtocolTheorems.SizeIsFixed | src/app_fields.c:204-307 | the size of a read reply depends on the ids alone, not on the values |
| ProtocolTheorems.LongestReply | src/app_protocol.c:391-421 | no reply into the 256-byte buffer is longer than 256 bytes, and one is that long if and only if the request is a read of readable ids whose sizes add up to it |
| ProtocolTheorems.ReadAllIsNinetyBytes | src/app_protocol.c:34-54 | reading everything gives 18 fields in exactly 90 bytes, whatever the values |
| ProtocolTheorems.PowerUpReply | src/app_protocol.c:117-170 | the reply to reading everything from a device that was never written, field by field |
| ProtocolTheorems.Dispatch | src/app_protocol.c:391-421 | the first byte selects the command, a read only takes over the big-endian time, and unknown commands are answered UNSUPPORTED |
| ProtocolTheorems.LimitHidesReply | src/app_protocol.c:309-385 | a response limit below the reply of a write or an action hides the reply and changes nothing else |
| ProtocolTheorems.ActionIs | src/app_protocol.c:293-385 | state and reply of every action: power-on without permission, power-off and reset with it, the reset giving the power-up values and the default password |
| ProtocolTheorems.WrittenValues | src/app_protocol.c:269-274 | after a successful write every written field holds the last value among the declared fields, and a location sets the position |
| ProtocolTheorems.ReadAfterWrite | src/app_protocol.c:269-274 | CMD 0x01 right after a successful CMD 0x02 returns the last value written to the field |
| ProtocolTheorems.IntervalOnTheWire | src/app_protocol.c:177-287 | one write byte by byte: the interval of a fresh device becomes ten minutes and the device initialised |
| ShellClient.FindField | src/shell_cmd.c:14-35 | the loop returns the first field with the id among the declared ones, none on damaged input |
| ShellClient.FoundInReply | src/shell_cmd.c:14-35 | in any successful read reply the shell finds exactly the requested fields with the registry's bytes |
| ShellClient.FoundInReadAll | src/shell_cmd.c:14-35 | in the reply that lists everything it finds each of the 18 readable fields and nothing else |
| ShellClient.NumbersReadBack | src/shell_cmd.c:37-51 | temperature, altitude, distance, interval and position read back as the registry's numbers, negative ones included |
| DeviceRuns.AlwaysHealthy | src/app_fields.c:309-356 | in every state reached from power-up on mode is 1..3, coordinates are in range, the position equals the installation location, and FACTORY implies not initialised |
| DeviceRuns.OnlyResetReturnsToFactory | src/app_protocol.c:343-376 | FACTORY is re-entered, and initialisation forgotten, only by an authenticated reset carrying FACTORY, which also restores the default password, or by app_fields_init at start-up |
| DeviceRuns.LifeCycle | src/app_protocol.c:309-341 | POWER_OFF is entered only with permission, POWER_ON only by the power-on action or by the first write of a factory-fresh device; apart from app_fields_init only commands change the state |
| DeviceRuns.SkippedChecksAreSeparated | src/app_protocol.c:255-280 | any two successful writes that skipped the permission check have a factory reset or app_fields_init between them |
| DeviceRuns.EarlyWriteIsForgotten | src/main.c:184-193 | the start-up matters: after an NFC write that comes in before app_fields_init a second one skips the check without any reset |
| DeviceRuns.DeviceRefinesAuth | src/app_protocol.c:391-421 | every device run is, for the authentication module, the run of the events it causes there: the states agree, and so do all CMD 0x03 payloads, lost links and replies |
| DeviceRuns.SessionOfTrace | src/app_auth.c:315-338 | the last session event of a channel, read from device payloads and replies alone, is that of the authentication history |
| DeviceRuns.PermissionIsReported | src/app_protocol.c:255-267 | when the permission is looked up, a refusal is the status the device replies, and otherwise it replies OK or rejects the reset confirmation |
| DeviceRuns.BleSession | src/app_auth.c:489-514 | in every run BLE is unlocked if and only if the last session event of the link is a token success |
| DeviceRuns.WritePermission | src/app_protocol.c:255-267 | end to end: a valid write to an initialised device is accepted if and only if the last session event of its channel was a token success, over NFC at most five minutes ago |
| DeviceRuns.ActionPermission | src/app_protocol.c:319-376 | end to end: power-off and factory reset take effect if and only if the session of the channel permits it |
| FlashHandshake.InvReachable | src/main.c:57-70 | every interleaved step of callback and writer keeps the invariant |
| FlashHandshake.Safety | src/main.c:202-214 | in every interleaving exactly one token exists while an update is ready and none otherwise, the writer's compare-and-swap never fails, and the callback is idle from the first flashed byte until the flag is cleared |
| FlashHandshake.FlashedIsPrefixOfAccepted | src/main.c:59-68 | what is flashed are the accepted snapshots in order, without gaps or repeats, at most one outstanding; the stored length is data length plus 2 exactly when that is at most 255 |
| FlashHandshake.FirstUpdateFlashed | src/main.c:57-70 | from every initial state any first update can be flashed, and then with (data length plus 2) modulo 256 bytes |
| FlashHandshake.FurtherUpdateFlashed | src/main.c:57-70 | from every reachable state a further update can be accepted and flashed once the outstanding one is done |
| FlashHandshake.LongUpdateIsLost | src/main.c:61 | the limit matters: an update of 254 data bytes is accepted and flashed with no bytes at all |
| FlashHandshake.NotStranded | src/main.c:57-70 | while an update is outstanding the party that owes the next step can take it, only that brings it closer to flash, and nothing pushes it back |
| FlashHandshake.Drains | src/main.c:202-214 | from every reachable state the two parties alone bring the outstanding update to flash |
| FlashHandshake.Progress | src/main.c:202-214 | in every run in which the owed steps are taken often enough, whatever comes between them, the outstanding update reaches flash |
| Ota.Module.ReceivePacket | src/app_config.c:335-347 | a packet is copied to index times 492 and counted, or dropped when it would pass the buffer's end |
| Ota.Module.AppConfigHandleBle | src/app_config.c:281-378 | every BLE payload gives exactly the new device and transfer state and the reply of the transition function |
| Ota.Module.HandleOta | src/app_config.c:296-367 | START, DATA and END with their refusals: the new transfer state and reply |
| Ota.DistinctTotal | src/app_config.c:342 | packets that all arrive once, in any order, add up to the image length |
| OtaRuns.ArrivedArePlaced | src/app_config.c:335-347 | in every run among any other commands each buffer byte is the image's if its packet has arrived on an unlocked link and the old one otherwise, and the byte count is the sum of the lengths |
| OtaRuns.ImageReassembled | src/app_config.c:296-349 | after START on an unlocked link, when every packet arrives, in any order, repeated, and among any other commands, the image stands in front and the rest of the buffer is unchanged; if each arrives once, the byte count is the image length |
| OtaRuns.UninterruptedArrive | src/app_config.c:296-349 | packets sent one after the other on an unlocked link all arrive, in any order and with any repetitions |
| OtaRuns.DeviceRun | src/app_config.c:296-378 | behind the OTA commands the device runs as without them, state and replies |
| OtaRuns.TransferNeedsSession | src/app_config.c:296-349 | in every run the OTA buffer and its counters change only in an OTA command over BLE while the last session event of the link is a token success |
| OtaRuns.OpenIff | src/app_config.c:303-367 | in every run a transfer is open if and only if the last START or END that was answered OK is a START |
| OtaRuns.OtaCommandsAnswered | src/app_config.c:296-367 | reply and new transfer for every OTA command of a run: refused without a session; START clears all but the buffer and takes the big-endian size; END closes; DATA outside a transfer is answered OTA_STATE and changes nothing; DATA inside takes the packet |
| OtaRuns.ReceiveTakes | src/app_config.c:335-347 | a packet of any index and length changes exactly the bytes it covers, if all of it fits, and the two counters |
| Ndef.ParseExtCmd | src/app_config.c:118-188 | the parser's answer, command byte and payload place for every message, with the 32-bit sum of the lengths |
| Ndef.AcceptedIsCommand | src/app_config.c:118-188 | what is accepted is an external record with the command type right before the payload, a payload of the declared length, and lengths that fit modulo 2^32 |
| Ndef.TypesAre | src/app_config.h:22-25 | the two record types are "ulpinternal:cmd" and "ulpinternal:info" |
| Ndef.NeverBeyond | src/app_config.c:165-179 | in messages of at least 278 bytes the answer depends on the message alone |
| Ndef.PayloadInsideIff | src/app_config.c:161-163 | an accepted payload lies inside the message if and only if the sum of the lengths is below 2^32, and then the answer depends on the message alone |
| Ndef.PayloadBeyondMessage | src/app_config.c:161-163 | the condition matters: a record declaring a payload of 2^32 - 21 bytes is accepted, with a payload that passes the end of any message |
| Ndef.HeaderReadBack | src/app_config.c:127-159 | from the header of any record laid out by section 3.2 of NDEF 1.0 the code reads its type length, payload length and ID length |
| Ndef.ParsesIffTypeReappears | src/app_config.c:153-172 | because the code looks for the type after the ID, a standard command record is recognised exactly when type followed by ID ends in the type again |
| Ndef.CommandRecordParsesIff | src/app_config.c:118-188 | a standard command record, short or long, with anything after it, yields exactly its payload if and only if it has no ID, an empty one, or one ending in the type; all others are ignored |
| Ndef.IdHidesCommand | src/app_config.c:153-172 | a one-byte ID is enough for a correct command record to be ignored |
| Ndef.EncodeResponse | src/app_config.c:200-229 | the encoded response with nothing around it changed, and its length, or -1 and an untouched buffer when there is no room |
| Ndef.ResponseIsStandardRecord | src/app_config.c:214-225 | the encoding is a standard record of the payload if and only if the payload has at most 255 bytes, and then of no other record |
| Ndef.ResponseIsNoCommand | src/app_config.c:167-169 | no response is ever accepted by the parser as a command, whatever the message area holds behind it |
| NfcEntry.AppConfigHandleNdef | src/app_config.c:233-279 | the message behind NLEN is replaced by the response record, with the bytes behind that kept, exactly when it is a command with a reply that fits; otherwise the file is untouched; handled if and only if the library has then written NLEN |
| NfcEntry.OnlyTheMessageMatters | src/app_config.c:161-163 | as long as the lengths do not wrap, nothing behind the message influences the outcome |
| NfcEntry.CommandInResponseOut | src/app_config.c:233-279 | a standard command record without ID is processed with exactly its payload, and its reply comes back as a standard record if and only if the payload is not a read that asks for exactly 256 reply bytes |
| NfcEntry.LongestReplyIsLost | src/app_config.c:218-219 | the limit matters: in every state one short command record, a read of 84 fields, is answered with 256 bytes, and no standard record of that reply has the encoded form |

## Left out

- Fields.Module.AppFieldSet: requires the bytes the field takes (1, 2 or 8), which the code reads without looking at the length; the shell's direct setters, which bypass it, are not modelled.
- Handlers.Device.ProcessAppPayload: requires a buffer that holds the CMD 0x03 reply (at most eleven bytes), because the code writes it without looking at the limit.
- NfcEntry.AppConfigHandleNdef: what lies in memory behind the file is an input of fixed value; the NLEN prefix is written by the NFC library, which is not part of this model, so nothing is said about its value.
- FlashHandshake.Safety: the tag file may change at any time outside the callback, which relies on the NFC library calling back only after it has finished writing; the result of the flash write is not looked at, as in the code apart from a log line.
- The model's clock is one reading per event, and uptime does not reach the limits of int64_t.
- NFC and BLE commands are atomic steps; only the flash hand-over is modelled step by step.
- Sensor setters appear as an event that changes battery, temperature, distance and position; the setters for mode, interval and position fields, used by the shell only, would break the registry invariants on purpose.
- BLE advertising, pairing, notifications and their retries, flash storage, the NFC library, LEDs, printing and shell argument parsing.
- Secrecy, randomness and timing of the cryptography.
