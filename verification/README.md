# enrichr: a verified model of the visitor-id pipeline

enrichr turns a raw analytics event into an enriched one. Its central promise is the visitor id:
`base62(hash(frame(entity, masked ip, user agent, salt)))`, which must be stable per masked address,
user agent and entity, and must not merge different visitors by accident of encoding. This project
models every step of that pipeline and proves what the steps compute, what they compute together, and
what two pieces of shared mutable state (the GeoIP database and the salt) guarantee when they are
replaced while other calls are running.

## How the model is laid out

| file | what it holds |
|---|---|
| `Words.dfy` | bytes, words, slices, `Option`, `Result` |
| `PlaceValue.dfy` | big-endian numerals in any base: value, fixed-width digits, shortest numeral |
| `Bits.dfy` | `&`, `\|`, `<<` defined bit by bit, and what they compute |
| `Base62Encoding.dfy` | `base62` as an in-place loop over an array, proved against a closed form |
| `Base62Decoding.dfy` | a decoder for it, the round trips, the exact set of texts |
| `Framing.dfy` | `frame`, its parser, the round trips |
| `Ip.dfy` | `mask_ip` and `canonical` |
| `Strategy.dfy` | `ip_octets`, `compute`, the two strategies, ids against keys |
| `Salt.dfy`, `SaltRotation.dfy` | the salt cell; id computations interleaved with rotations |
| `GeoIp.dfy` | the gated database cell and its undisturbed runs |
| `GeoReloads.dfy` | interleaved reloads: what always holds |
| `GeoOverlap.dfy`, `GeoOverlapExact.dfy` | what holds without overlap, and that it holds exactly then |
| `GeoLookups.dfy` | lookups interleaved with reloads |
| `Visitor.dfy`, `Events.dfy` | validated ids and event kinds, and their wire forms |
| `Processing.dfy`, `ProcessRuns.dfy` | `validate` and `process`; calls interleaved with rotations and reloads |
| `Referrals.dfy` | `extract_utm` and `paid_click` |
| `Errors.dfy`, `Types.dfy` | plain data |

Modelling choices:

- A `String` is its UTF-8 bytes (`Str`), and `len()` counts bytes. A slice length fits 64 bits (`Bytes`).
- Addresses are the words that `u32::from` and `u128::from` make of them. `Octets` gives the octets back,
  and `MappedByOctets` ties the two views together.
- Bitwise operators are recursive functions on the binary digits of naturals. Truncation to a width is
  written out (`Shl`), and so is the cast to a byte (`% 256`).
- A hasher is an arbitrary function from bytes to 32 bytes. It is never assumed injective: results are
  stated as "equal keys, or an explicit collision".
- The GeoIP decoder, the user-agent parser, the classifier and the public-suffix lookup are arbitrary
  deterministic functions.
- The inner loop of `base62` is a method of its own (`DivideInPlace`), called once per outer turn.
- In `GeoReloads` a reload call is two steps, its load-and-check and its store; in `GeoLookups` a lookup is
  two steps, its snapshot and its answer; in `SaltRotation` an id computation is two steps, its load of
  the salt and its finish. Calls interleave freely.

## Main results

- `base62` returns exactly the base-62 numeral of the digest, padded with `0` to 32 digits
  (`Base62Encoding.Base62`); it is injective, and its image is known exactly (`ImageIsCanonical`).
- Two ids are equal if and only if their keys are, or the hash collides (`IdsIdentifyKeys`,
  `StablePerMaskedIpUaEntity`), and through the whole pipeline two outputs agree exactly when all that is
  shown and the ids' origins do (`OutputsIdentifyInputs`); of an address, just the mask class shows
  (`OutputRevealsClassExactly`).
- A schedule of concurrent reloads keeps the gate between each database and the one it replaces, keeps
  epochs and sizes, and acts like its calls one at a time, if and only if no store falls inside another
  call's load-store interval (`ChainIff`, `EpochsMonotoneIff`, `SizesKeptIff`, `SequentialIff`).
- Every lookup answers from one whole installed database (`AnswerFromOneDatabase`), and every `process`
  output is that of one whole salt and one whole database, whatever rotates and reloads beside it
  (`OutputFromOneSaltAndDatabase`): the salt last set before the call made its id, down to the bytes that are
  hashed, and the database that the reloads before its lookup left (`OutputSpelledOut`). No call waits for
  another (`CallNeverWaits`, `ScheduleIff`).

Where the code and its documentation differ, the model follows the code:

- README.md:109 says a candidate's `build_epoch` must be at least the current one, and its size at least
  80% of the current one. With overlapping reloads the current database may have changed since the
  check, and both the epoch and the size can fall against it, the size to any fraction
  (`OverlapReplacesBack`). `EpochsMonotoneIff` and `SizesKeptIff` give the exact condition.
- Without overlap, the saturating size test is the 80% test exactly for current lengths up to
  230584300921369396 bytes (`SizeGateExactIff`).
- src/ip.rs:7 says `None` does no masking. It still turns an IPv4-mapped address into IPv4, like `Full`
  (`FullPrecision`).
- README.md:52 calls the id stable per (masked-ip, ua, entity). The salt is part of the key as well, and a
  missing user agent or entity counts as an empty one.
- README.md:52 gives the id about 43 characters. It has 32 to 43, and `TextLength` says when.
- An `EventKind::Custom` built directly with a reserved name passes validation but comes back from the
  wire as the known variant (`ReservedNameIsValidButFolds`, `KindSurvivesWireIff`).

## Model

| member | source | states |
|---|---|---|
| Base62Encoding.ShiftOrByte | src/hash/mod.rs:43-44 | the shift-or of remainder and byte is `rem*256 + b`, and its quotient by 62 fits a byte, so the cast loses nothing |
| Base62Encoding.DivideInPlace | src/hash/mod.rs:41-46 | one inner pass divides `bytes[start..]` exactly by 62: old value = 62 * new value + rem with rem < 62, bytes before `start` untouched |
| Base62Encoding.LeadingByteShrinks | src/hash/mod.rs:48-50 | a non-zero leading byte shrinks strictly, and a pass clears at most one leading byte |
| Base62Encoding.CursorAdvances | src/hash/mod.rs:39-51 | after k passes the cursor is min(k, leading zero bytes of the buffer), kept by every pass |
| Base62Encoding.PassAdvances | src/hash/mod.rs:40-51 | one turn of the outer loop keeps the closed form of the whole state: buffer = V/62^k, cursor, letters so far |
| Base62Encoding.DigestFits43 | src/hash/mod.rs:38 | 62^43 > 256^32, so no digest needs more than the 43 letters of capacity |
| Base62Encoding.FinalState | src/hash/mod.rs:40-54 | when the cursor reaches the end, the reversed output is the shortest base-62 numeral padded to 32 digits |
| Base62Encoding.Base62 | src/hash/mod.rs:36-55 | the loop terminates and returns the specified text: alphabet letters of the padded numeral, 32 to 43 of them |
| Base62Decoding.LetterOfDigit | src/hash/mod.rs:32 | the alphabet orders digits, upper case, lower case, and is inverted by `DigitOf` |
| Base62Decoding.TextLength | src/hash/mod.rs:36-55 | the text has at most n letters (n >= 32) if and only if the digest's value is below 62^n |
| Base62Decoding.DecodeEncode | src/hash/mod.rs:34-36 | the Horner decoder recovers all 32 digest bytes from the text |
| Base62Decoding.EncodeInjective | src/hash/mod.rs:34-36 | equal texts if and only if equal digests |
| Base62Decoding.EncodeDecode | src/hash/mod.rs:36-55 | every canonical text is re-encoded to itself |
| Base62Decoding.ImageIsCanonical | src/hash/mod.rs:36-55 | a text is produced by some digest if and only if it is canonical |
| Framing.UnframeFrame | src/hash/mod.rs:57-66 | framing is uniquely decodable for part lists of any length |
| Framing.FrameUnframe | src/hash/mod.rs:57-66 | whatever the parser accepts frames back to its input |
| Framing.UnframeDomain | src/hash/mod.rs:57-66 | the parser succeeds exactly on the image of `frame` |
| Framing.FrameInjective | src/hash/mod.rs:57-66 | equal frames if and only if equal part lists |
| Framing.FrameConcat | src/hash/mod.rs:61-64 | framing a concatenation is concatenating the frames |
| Framing.FrameLayout | src/hash/mod.rs:61-64 | a part is written as eight bytes of its length, byte i of weight 256^i, and then itself |
| Framing.FrameParts | src/hash/mod.rs:58-66 | the appending loop computes the frame and fills exactly the reserved capacity |
| Ip.MaskIsRounding | src/ip.rs:50-68 | shift-and-mask rounds down to a multiple of 2^(width - prefix), for every prefix of both widths |
| Ip.GroupsFollowPrefixes | src/ip.rs:6-27 | a mode leaves width - prefix low bits open, so groups start at multiples of 256 and 2^72, of 16 and 2^64, or everywhere |
| Ip.MaskIpRounds | src/ip.rs:30-39 | `mask_ip` keeps the canonical family and rounds the address down to the start of its group |
| Ip.MaskedV4 | src/ip.rs:19-39 | `Balanced` clears the last octet of an IPv4 address, `Accurate` its last four bits |
| Ip.MaskedV6 | src/ip.rs:19-48 | `Balanced` clears the last 72 bits of an IPv6 address and `Accurate` the last 64, but an address in `::ffff:0:0/96` is masked as the IPv4 address it carries |
| Ip.FullPrecision | src/ip.rs:7-16 | `Full` and `None` agree, and leave an address alone exactly when it is not IPv4-mapped |
| Ip.SameMaskIffSameClass | src/ip.rs:30-39 | equal masked addresses if and only if same canonical family and same leading prefix bits |
| Ip.MaskedIsCanonical | src/ip.rs:41-48 | a masked address is canonical: masking never makes an IPv6 address IPv4-mapped |
| Ip.MaskTwice | src/ip.rs:19-39 | masking with two modes in either order is masking with the coarser one |
| Ip.CoarserMerges | src/ip.rs:19-39 | addresses joined by a mode stay joined under every coarser mode |
| Strategy.IpOctets | src/strategy.rs:17-28 | the octets go to the front of the buffer, their number is returned, the rest of the buffer is unchanged |
| Strategy.OctetsAreBigEndian | src/strategy.rs:17-28 | octet i is the i-th byte of the address word from the left, in both families |
| Strategy.OctetsInjective | src/strategy.rs:17-28 | octets identify the address across both families |
| Strategy.MappedByOctets | src/ip.rs:41-48 | an IPv6 address normalises to `v4` if and only if its octets are ten zeros, two 0xFF and the octets of `v4` |
| Strategy.Compute | src/strategy.rs:30-46 | no id without an address; otherwise the base-62 text of the hash of bytes that read back as exactly entity, masked octets, user agent and current salt, in this order, a missing part as an empty one |
| Strategy.StrategyHashes | src/strategy.rs:58-82 | `SaltedHasher` hashes the whole normalised address and `MaskedHashed` the masked one, each between entity, user agent and salt |
| Strategy.FrameKeyInjective | src/strategy.rs:42-44 | the framed hash input determines entity, masked address, user agent and salt, and conversely |
| Strategy.IdsIdentifyKeys | src/strategy.rs:35-45 | two ids, of any masks and salts, are equal if and only if their keys are, or the framed keys are a hash collision |
| Strategy.StablePerMaskedIpUaEntity | README.md:52 | under one salt and mask, equal ids if and only if same mask class, user agent and entity, or a collision |
| Strategy.GeneratedIdAccepted | src/strategy.rs:45 | the validating constructor accepts every generated id, and it survives the wire |
| Strategy.StrategyIdAccepted | src/strategy.rs:58-82 | whatever strategy makes an id, built in or not, the validating constructor accepts it |
| Visitor.NewIff | src/visitor.rs:15-29 | an id is accepted if and only if it has 1 to 128 bytes from 0x21 to 0x7E; a bad byte or no byte at all is a format error, and only otherwise is the length one |
| Salt.ArcSwapSalt.TryNew | src/hash/mod.rs:124-131 | succeeds exactly for salts of 16 bytes or more, and the provider then hands out that salt |
| Salt.TryStatic | src/hash/mod.rs:86-92 | a fixed salt is made exactly from 16 bytes on, and hands out those bytes |
| Salt.ArcSwapSalt.Set | src/hash/mod.rs:133-142 | the provider hands out the whole new salt, of any length |
| SaltRotation.System.IdUsesOneSalt | src/hash/mod.rs:133-142 | in any interleaving with `set`, each id is the one for a single whole salt: the last one set before the call loaded it |
| SaltRotation.System.OneVisitorTwoIds | src/strategy.rs:41-45 | two ids of one visitor in one run agree if and only if the loaded salts do, or on a collision |
| SaltRotation.System.StableBetweenRotations | src/hash/mod.rs:133-142 | with no `set` between their loads, two ids of one visitor are equal |
| SaltRotation.System.NothingWaits | src/hash/mod.rs:133-142 | from any point of any run a salt can be set, and a call with an address can load and finish, by its own steps alone |
| GeoIp.GeoIpDb.FromBytes | src/geoip.rs:30-36 | a database comes out if and only if the bytes decode, without a gate, and holds the decoded reader, its epoch and the number of bytes |
| GeoIp.GeoIpDb.ReloadFromBytes | src/geoip.rs:42-56 | an accepted reload installs the decoded reader, its epoch and the number of bytes; a failed one leaves the cell identical; each of the three errors is given exactly when the decoder, then the epoch, then the saturating size test fails |
| GeoIp.ReloadInstallsDecoded | src/geoip.rs:54-74 | after an accepted reload every lookup gets the answer of the reader that the bytes decode to |
| GeoIp.GeoIpDb.Lookup | src/geoip.rs:69-74 | nothing before the first database, afterwards the installed reader's answer |
| GeoIp.SizeGateExactIff | src/geoip.rs:48-52 | the saturating size gate is the exact 80% test for all candidates if and only if the current length is at most 230584300921369396; beyond it a candidate of 184467440737095517 bytes passes and is too small |
| GeoIp.AcceptedIff | README.md:109 | up to that length a reload is accepted if and only if it decodes, is not older, and has at least 80% of the size |
| GeoIp.EpochNeverFalls | src/geoip.rs:42-56 | along any run of undisturbed reloads the epoch never falls, and a run of failures changes nothing |
| GeoIp.ReloadAllAppend | src/geoip.rs:42-56 | one more reload after a run acts on what the run left, and counts exactly when it is accepted |
| GeoIp.SizeShrinksAtMostByFifths | src/geoip.rs:48-52 | after n accepted reloads, Ln * 5^n >= L0 * 4^n |
| GeoReloads.EveryInstallWasGated | src/geoip.rs:42-56 | over every interleaving from an installed database, no installed database is older than the first, and each passed the gate against one installed before it |
| GeoReloads.EveryInstallIsAccountedFor | src/geoip.rs:24-56 | from any start, also an empty cell: each database installed after the start passed the gate against one installed before it, or was brought by a call that found the cell empty |
| GeoReloads.SizesShrinkAtMostByFifths | src/geoip.rs:42-56 | over every interleaving from an installed database, the j-th installed length satisfies Lj * 5^j >= L0 * 4^j |
| GeoOverlapExact.ScheduleIff | src/geoip.rs:42-56 | some run follows a schedule if and only if each call in it loads once and stores at most once, afterwards: no call waits for another |
| GeoOverlap.NoOverlapKeepsOrder | src/geoip.rs:42-56 | without overlap, each installed database passed the gate against the one it replaced |
| GeoOverlap.NoOverlapIsSequential | src/geoip.rs:42-56 | without overlap, interleaved calls leave exactly the database that the same calls leave one at a time, in the order in which they return |
| GeoOverlapExact.OverlapReplacesBack | src/geoip.rs:43-54 | whenever `hi` passes the gate against `lo`, every overlap lets a late store put `lo` back in the place of `hi` |
| GeoOverlapExact.ChainIff | src/geoip.rs:42-56 | for any pair that passes the gate one way only: every installed database passes the gate against the one it replaces, for all assignments of the two, if and only if no store falls between another call's load and store; the same for all databases |
| GeoOverlapExact.EpochsMonotoneIff | README.md:109 | the epoch half: installed epochs never fall if and only if the schedule has no overlap, for any pair with a newer `hi` and for all databases |
| GeoOverlapExact.SizesKeptIff | README.md:109 | the size half: no database is too small against the one it replaced if and only if the schedule has no overlap, for any pair with `lo` too small against `hi`, whatever the epochs, and for all databases |
| GeoOverlapExact.SequentialIff | src/geoip.rs:42-56 | the cell is at every step what the returned calls leave one at a time, in some order, if and only if the schedule has no overlap |
| GeoLookups.System.DatabaseIgnoresLookups | src/geoip.rs:69-74 | lookups leave the run of the reloads as it is |
| GeoLookups.System.AnswerFromOneDatabase | src/geoip.rs:69-74 | in any interleaving with reloads, an answer comes from one whole installed database, the one current at the lookup's snapshot, never older than the first |
| GeoLookups.System.LookupNeverWaits | src/geoip.rs:69-74 | from any point of any run, reloads in flight or not, a lookup can take its snapshot and answer by its own steps alone |
| GeoLookups.System.SnapshotsNeverGoBack | src/geoip.rs:69-74 | a later snapshot is never further back in the history, and without overlapping reloads never older |
| Events.WireIsKept | src/event.rs:35-47 | a kind built from a string has that string on the wire |
| Events.KindOfWire | src/event.rs:33-64 | which kind each string gives: the five reserved strings their variants and nothing else does, other strings of 1 to 64 bytes from 0x20 to 0x7E a `Custom`; and exactly which of the two errors the rest give |
| Events.KindRoundTrip | src/event.rs:22-64 | a kind that is no `Custom`, or one of 1 to 64 bytes from 0x20 to 0x7E, comes back from the wire normalised; any other `Custom` is refused |
| Events.NormalizeKeepsWire | src/event.rs:22-47 | normalisation keeps the wire string and is idempotent |
| Events.KindSurvivesWireIff | src/event.rs:33-47 | a valid kind comes back unchanged if and only if it is not a `Custom` holding a reserved name |
| Events.ReservedNameIsValidButFolds | src/event.rs:33-64 | a `Custom` of any reserved name passes validation and comes back from the wire as the known variant |
| Processing.ValidIff | src/processor.rs:209-251 | an event is let through if and only if its kind is no `Custom` or one of 1 to 64 bytes from 0x20 to 0x7E, and all ten length limits hold |
| Processing.KindIsCheckedFirst | src/processor.rs:217-220 | an unsound kind is what is reported, with its own error, whatever limits are broken as well |
| Processing.FirstBrokenLimitReported | src/processor.rs:217-251 | the error names the field and limit of the first broken limit in the fixed order |
| Processing.OutputId | src/processor.rs:97-101 | a preset id leaves verbatim; otherwise the id is the hash of entity, whole or masked address, user agent and salt, down to the hashed bytes, or what another strategy gave and `new` accepts; none without strategy or address |
| Processing.OutputAgent | src/processor.rs:112-168 | device, browser, OS and bot are those of the preset parsed agent, else those the parser gives for the user agent, else absent |
| Processing.OutputReferrer | src/processor.rs:120-188 | the domain is that of the referrer, the classifier sees that domain, the raw referrer, the UTM parameters and the page, and the raw referrer leaves only on request |
| Processing.OutputPassesThrough | src/processor.rs:94-155 | the location is the answer for the unmasked address, the six other fields are the input's, and the refusals are those of validation |
| Processing.MaskClassIsAllThatShows | src/processor.rs:94-155 | events that differ only in addresses of one mask class give the same output, but for the location; the very same without a database |
| Processing.OutputRevealsClassExactly | src/processor.rs:94-155 | for any two valid events with generated ids, outputs agree up to the location if and only if all else shown agrees and mask class, agent and entity agree, or the framed keys collide |
| Processing.OutputsIdentifyInputs | src/processor.rs:94-155 | any two valid events, through any two processors over one hasher: outputs agree up to the location if and only if everything else shown agrees and the ids are absent twice, preset alike, of one key, or behind an explicit collision |
| Processing.OutputIdSurvivesWire | src/processor.rs:97-101 | every id that leaves survives the wire, whatever the strategy, generated or passed through |
| Processing.OutputKindSurvivesWire | src/processor.rs:217-220 | the kind of every output event comes back from the wire normalised |
| ProcessRuns.Service.OutputFromOneSaltAndDatabase | src/processor.rs:94-155 | in any interleaving of calls, salt rotations and reloads, every output is that of `process` with one whole salt and one whole database, both from the histories and current when the call used them |
| ProcessRuns.Service.CurrentIsLastSet | src/hash/mod.rs:133-142 | at any point of any run the current salt is the one the last rotation brought, or the first one |
| ProcessRuns.Service.DatabaseIgnoresCalls | src/geoip.rs:42-74 | the database goes through the states of the run of its reloads alone |
| ProcessRuns.Service.OutputSpelledOut | src/processor.rs:97-110 | in any interleaving, an id is preset or the hash of entity, masked address, user agent and the salt last set before the call made it, and a location is the answer of the database that the reloads before the lookup left |
| ProcessRuns.Service.RestFromParts | src/processor.rs:94-155 | all other fields, and every refusal, are those of `process` with the configured parts, whatever rotates and reloads |
| ProcessRuns.Service.CallNeverWaits | src/processor.rs:199-206 | from any point of any run a call can give its output by at most three steps of its own |
| ProcessRuns.Service.MaskedCallsAgree | src/processor.rs:94-155 | whatever rotates and reloads around them, calls that differ only in addresses of one mask class, with ids made under one salt, give the same output up to the location |
| Referrals.KeysDisjoint | src/referrer.rs:24-38 | no alias belongs to two fields |
| Referrals.FirstValueMeaning | src/referrer.rs:21-41 | the value found is that of the first pair whose key is an alias, and nothing is found exactly when there is none |
| Referrals.FirstUtmConcat | src/referrer.rs:21-41 | on concatenated queries the result is the left-biased merge |
| Referrals.ExtractUtm | src/referrer.rs:18-44 | the get-or-insert loop gives each field the first value of its aliases, by name: utm_source, source, ref; utm_medium, medium; utm_campaign, campaign; utm_content, content; utm_term, term |
| Referrals.PaidClick | src/referrer.rs:48-58 | the first of gclid, gbraid, wbraid and msclkid decides: bing for msclkid and google otherwise, with medium cpc; none exactly without any of the four |

## Left out

- BLAKE3 and SHA-256: library code; any deterministic 32-byte hash is allowed instead.
- MaxMind decoding, file reads and `to_location`: library code and I/O; a decoder is an arbitrary partial function of the bytes.
- URL parsing, percent-decoding and the Public Suffix List: library code; queries start from decoded pairs, the domain lookup is arbitrary.
- User-agent parsing, the referrer tables and `client_ip`: data tables and short cascades.
- The builder, feature flags, schema generation and debug redaction: all optional parts are present, and absence is `None`.
- UTF-8 well-formedness: any byte string is a `Str`, so the results cover more inputs than the program sees.
- The debug-build assertion that a salt passed to `new` has 16 bytes: release builds take any length, and so does the model.
- Memory ordering and reclamation of replaced values in the atomic cells: each load and each store is one indivisible step.
- The sum that `frame` reserves is not wrapped to a machine word: part lists of more than 2^64 bytes in all are not representable in memory.
- Processing.Process: takes the GeoIP lookup and the salt of the moment as values; `ProcessRuns` is about whole calls while both change, and its calls use a built-in strategy or none.
- GeoIp.SizeShrinksAtMostByFifths: assumes lengths up to the bound of `SizeGateExactIff`, because beyond it the saturating gate accepts smaller candidates.
- GeoReloads.SizesShrinkAtMostByFifths: assumes the same bound on the installed lengths, for the same reason.
- GeoReloads.EveryInstallWasGated: starts from an installed database, because overlapping first loads of an empty one are not gated against anything; `EveryInstallIsAccountedFor` covers that start.
