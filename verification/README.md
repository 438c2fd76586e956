# KeyBank, verified

KeyBank hands out one-time private keys: a sender encrypts a note in the
browser and shares a link whose fragment carries the ciphertext, the recipient
fetches the private key once and the server forgets it. This project models
three parts of it in Dafny and proves what they are for.

**The QR encoder** (`static/qrcode.js`). Bytes form a bit stream (`BitBuffer`,
`DataStream`), the stream is cut into Reed-Solomon blocks over GF(256) and
interleaved (`Gf2`, `Galois`, `GaloisTables`, `Polynomials`, `ReedSolomon`,
`MinimumDistance`, `Interleave`, `Codewords`, `Versions`), and a module matrix is filled in place:
function patterns, BCH-coded format and version words, then the masked codewords
along a zigzag (`Bch`, `Layout`, `ModuleCount`, `Zigzag`, `Placement`,
`Painting`, `Symbols`, `QrCode`). `VersionChoice` picks the symbol version and
`CodeMaker` ties everything together. The main theorem, in `QrReader`, is that a
reader which sees only dark and light modules recovers the text of every symbol:
for every ASCII text that fits, every version 1 to 40 at level M and every mask.
What writer and reader could get wrong together is pinned apart from both: the
numbers and sizes of the blocks, the order of the codewords, the eight masks, the
places of the function modules, the code polynomials and the pad bytes.
The encoder implements sections 7.4 to 7.10 of ISO/IEC 18004:2015.

The matrix is the field of a class and is written module by module, as in the
source. A ghost map from cells to modules mirrors it, so that each setup routine
can be specified by a function on grids (`Layout`), and the layout a reader
assumes (`Layout.IsFunction`) is stated independently of those routines.

**The share link** (`static/crypto.js`, `static/link.js`): unpadded base64url
(section 5 of RFC 4648) built through chunks, the fragment printer and parser,
and the length prediction (`Base64Url`, `PercentEncoding`, `Link`).

**The one-time key protocol** (`store.go`, `internal/store/store.go`,
`handlers/handlers.go`, `ratelimit.go`, `static/share.js`). Store commands are
atomic, so a run of any number of concurrent callers is a sequence of actions
with a ghost history (`Delivery`). The stores, handlers, limiter and page are
classes whose methods are proved to be steps of such runs (`KeyStore`,
`InternalStore`, `Handlers`, `RateLimiter`, `SharePage`); `SharedLinks` runs many
pages, the server and unrelated clients together, with requests and replies lost
at any point.

Conventions decided by the code:

- Numbers are JavaScript numbers used as non-negative integers; no operation of
  the encoder leaves the range in which they are exact.
- `glog(0)` throws. Here it is a precondition, and every caller is proved to meet
  it: generator polynomials have no zero coefficient.
- Array holes behave as 0 under `^` and are modelled as 0.
- Clocks, random bytes, network faults, failing JSON conversions, `getLostPoint` (a
  function of the drawn modules) and whether a key decrypts are parameters. A lost
  reply leaves the effect of a command behind.
- A stored key is live up to and including its expiry instant, as
  `time.Now().After(expiry)` decides; the Redis model uses the same rule.

Four statements of the repository that the code does not meet as they stand:

- `static/link.js:7` gives 2331 bytes as the capacity of the largest symbol, but
  the length estimate adds 3 to every URL. A symbol is made exactly up to 2328
  bytes; the "fits" label is right exactly when the link length is not 2329, 2330
  or 2331, and some plaintext size is labelled wrongly exactly for origins of at
  most 1558 characters (`Link.LabelIsRight`, `Link.LabelCanBeWrong`).
- A text too long never raises "Too long data": the loop reads a table row that
  does not exist and throws a TypeError first (`VersionChoice.ChooseVersion`).
- `store.go` saves with SET, which replaces a live record when the random id is
  already taken. A run never overwrites a live record exactly when no SET draws
  a live id (`Delivery.OverwritesExactly`, `Delivery.SetOverwrites`); the SETNX
  variant of `internal/store/store.go` never does.
- `ratelimit.go:10-12` promises each address exactly `limit` requests per window.
  Loads take their id from the request path (`handlers/handlers.go:187`) and share
  the server with the counters (`main.go:38-39`), so a load that names a counter
  removes it. The limiter behaves as if there were no loads exactly when no load
  names a live counter (`RateLimiter.UndisturbedExactly`,
  `RateLimiter.LoadReopensWindow`); ids made by `randomID` never do
  (`RateLimiter.HexIdsNeverDisturb`).

## Model

| member | source | states |
|---|---|---|
| Galois.OrderIs255 | static/qrcode.js:6 | alpha is primitive: no positive power below 255 is 1 |
| Galois.PowersDistinct | static/qrcode.js:6 | the 255 powers of alpha are pairwise different, so the LOG fill overwrites nothing |
| GaloisTables.BuildTables | static/qrcode.js:6 | the EXP recurrence and LOG fill produce powers and logarithms of alpha, mutually inverse on non-zero bytes |
| GaloisTables.Glog | static/qrcode.js:6 | the discrete logarithm of any non-zero byte |
| GaloisTables.Gexp | static/qrcode.js:6 | the power of alpha with period 255, for every integer argument, negative ones included |
| GaloisTables.MulIsClmulModulo | static/qrcode.js:6 | multiplication through logarithms is carry-less multiplication modulo x^8+x^4+x^3+x^2+1 |
| Polynomials.EvalTimes | static/qrcode.js:6 | evaluation is multiplicative, the partner of polynomial multiplication |
| Polynomials.Division | static/qrcode.js:6 | dividend = quotient times divisor plus the remainder of `mod`, for every dividend and divisor with non-zero leading coefficients |
| ReedSolomon.NewPolynomial | static/qrcode.js:6 | the constructor strips leading zeros and appends zeros |
| ReedSolomon.Multiply | static/qrcode.js:6 | the double loop of `multiply` computes the polynomial product, never calling `glog(0)` |
| ReedSolomon.Mod | static/qrcode.js:6 | `mod` terminates and computes the remainder, never calling `glog(0)` for a divisor without zero coefficients |
| ReedSolomon.GeneratorNonzero | static/qrcode.js:6 | every coefficient of every generator polynomial below degree 255 is non-zero, intermediate ones included |
| ReedSolomon.GeneratorRoots | static/qrcode.js:6 | the generator of degree n vanishes exactly at alpha^0 to alpha^(n-1) |
| ReedSolomon.GetErrorCorrectPolynomial | static/qrcode.js:6 | the loop returns the product of (x - alpha^i) |
| ReedSolomon.ErrorBytes | static/qrcode.js:6 | the error-correction bytes of a block, left-padded with zeros when the remainder is short |
| ReedSolomon.EncodedIsCodeword | static/qrcode.js:6 | data followed by its error-correction bytes is a multiple of the generator polynomial |
| ReedSolomon.SyndromesVanish | static/qrcode.js:6 | every encoded block vanishes at alpha^0 to alpha^(ec-1), so all syndromes are zero |
| ReedSolomon.ErrorWordUnique | static/qrcode.js:6 | the error-correction bytes are the only ones that complete the data to a codeword |
| MinimumDistance.WeightOfVanishing | static/qrcode.js:6 | a non-zero word of at most 255 bytes that vanishes at k powers of alpha has more than k non-zero bytes |
| MinimumDistance.CodewordsFarApart | static/qrcode.js:6 | two different codewords with ec error-correction bytes differ in at least ec + 1 places |
| MinimumDistance.DamageIsCorrectable | static/qrcode.js:6 | a received word lies within ec / 2 places of at most one codeword |
| MinimumDistance.BlocksAreCorrectable | static/qrcode.js:6 | in every version, a sent block damaged in at most half its error-correction bytes is the only codeword that close |
| Versions.GetRSBlocks | static/qrcode.js:6 | expands a row of the block table into its list of blocks, which has the number, the sizes and the error-correction bytes that section 7.5.1 of ISO/IEC 18004:2015 names for the version |
| Versions.BlocksHaveShape | static/qrcode.js:6 | in every version the data codewords are shared evenly among the standard's number of blocks, the longer blocks last, each with the standard's number of error-correction bytes |
| Versions.BlockSums | static/qrcode.js:6 | the blocks of every version add up to its total and data codewords |
| Versions.CapacityAgrees | static/qrcode.js:6 | every capacity entry is exactly what the data codewords leave after header and terminator |
| Versions.BlockErrorBytes | static/qrcode.js:6 | all blocks of a version have the same number of error-correction bytes: the standard's number, between 10 and 30, at most 255 bytes in all |
| Versions.PositionLaw | static/qrcode.js:6 | alignment centres stand in equal steps from the last one back to the second, the least even steps that fill the symbol, and 26 in version 32 |
| Interleaving.DeinterleaveInterleave | static/qrcode.js:6 | reading columns back recovers every block, for any number and sizes of blocks and anything appended |
| Interleaving.InterleaveLength | static/qrcode.js:6 | interleaving emits exactly the sum of the block lengths |
| Interleaving.TakesTurns | static/qrcode.js:6 | while every block has an element m, the stream takes element m of each block in turn |
| Codewords.SplitBlocks | static/qrcode.js:6 | the block loop cuts the buffer at the running offset and keeps the maximal lengths |
| Codewords.CreateBytes | static/qrcode.js:6 | the loops of `createBytes` emit interleaved data, then interleaved error correction |
| Codewords.CodewordsLength | static/qrcode.js:6 | exactly the sum of `totalCount` codewords are emitted |
| Codewords.DataReadBack | static/qrcode.js:6 | de-interleaving and dropping the error correction gives back the data bytes, whatever follows |
| Codewords.BlocksAreCodewords | static/qrcode.js:6 | every block de-interleaved from the stream, data and error correction together, is a codeword |
| Codewords.DataCodewordOrder | static/qrcode.js:6 | with n blocks over d data bytes, codeword m * n + j is byte m of block j, counted from that block's first byte in the buffer |
| Codewords.ErrorCodewordOrder | static/qrcode.js:6 | codeword d + m * n + j is error-correction byte m of block j |
| BitBuffers.NumBitsInverse | static/qrcode.js:6 | bits spell a number and are recovered from it |
| BitBuffers.BitBuffer.PutBit | static/qrcode.js:6 | appends one bit to the contents, growing the byte array when needed |
| BitBuffers.BitBuffer.Put | static/qrcode.js:6 | appends the low bits of a number, most significant first |
| BitBuffers.BitBuffer.Get | static/qrcode.js:6 | reads back the bit that was put at an index |
| DataStream.NewSegment | static/qrcode.js:6 | an ASCII text becomes one byte per character, without a byte order mark |
| DataStream.CreateData | static/qrcode.js:6 | header, payload, terminator and padding, or the overflow error exactly when the bits exceed the data codewords |
| DataStream.FillBuffer | static/qrcode.js:6 | completes the bits to exactly 8 times the data codewords |
| DataStream.TerminatorFits | static/qrcode.js:6 | in byte mode the terminator always fits and lands on a byte boundary |
| DataStream.PadBytesAlternate | static/qrcode.js:6 | after the terminator the bytes alternate between 236 and 17 to the end |
| DataStream.HeaderBits | static/qrcode.js:6 | a segment begins with the bits 0100 and its length in 8 or 16 bits, most significant first |
| DataStream.StreamReadBack | static/qrcode.js:6 | parsing mode, count and payload of the data bytes returns the text |
| VersionChoice.FoldedLength | static/qrcode.js:6 | percent-encoding and folding the escapes preserves the length of an ASCII text |
| VersionChoice.ChooseVersion | static/qrcode.js:6 | returns the least version whose capacity entry reaches the estimate, or throws a TypeError exactly beyond the last entry |
| VersionChoice.ChosenVersionFits | static/qrcode.js:6 | a text within a capacity entry fits with header and terminator |
| VersionChoice.LongestText | static/qrcode.js:6 | a text that is no numeral gets a version exactly up to 2328 bytes |
| Bch.GetBCHDigit | static/qrcode.js:6 | the bit length of a number |
| Bch.RemainderDivides | static/qrcode.js:6 | the division loop terminates and its result differs from the input by a multiple of the generator |
| Bch.GetBCHTypeInfo | static/qrcode.js:6 | the masked 15-bit word |
| Bch.GetBCHTypeNumber | static/qrcode.js:6 | the 18-bit word |
| Bch.TypeInfoIsCode | static/qrcode.js:6 | xor 21522, the format word is divisible by the polynomial 1335 over GF(2) and keeps level and mask in its five high bits |
| Bch.TypeNumberIsCode | static/qrcode.js:6 | the version word is divisible by the polynomial 7973 over GF(2) and keeps the version in its six high bits |
| Bch.WordUnique | static/qrcode.js:6 | a word is the only multiple of its generator with its data bits |
| Layout.FinderIsConcentric | static/qrcode.js:6 | finder patterns with separators are concentric squares |
| Layout.AlignmentIsConcentric | static/qrcode.js:6 | alignment patterns are concentric squares |
| Layout.VersionCentres | static/qrcode.js:6 | the table of alignment centres starts at 6, ends 7 modules before the edge and keeps patterns apart, for every version |
| Layout.SetupLayout | static/qrcode.js:6 | after the setup a module is null exactly where a reader expects data, for every mask and test flag |
| Layout.NeverOverwritten | static/qrcode.js:6 | no setup stage changes a module an earlier one painted: finders, alignment, timing, format, version |
| Layout.FormatReadBack | static/qrcode.js:6 | both copies of the format information read back to the word, bit by bit; in a test symbol they are light |
| Layout.VersionReadBack | static/qrcode.js:6 | both copies of the version information read back to the word, bit by bit; in a test symbol they are light |
| Layout.FormatModules | static/qrcode.js:6 | the fifteen bits stand at the standard's rows of column 8 and columns of row 8, listed as numbers, beside the dark module |
| Layout.FinderModules | static/qrcode.js:6 | in every finished setup the three finder patterns are concentric squares around (3, 3), (n - 4, 3) and (3, n - 4) |
| Layout.AlignmentModules | static/qrcode.js:6 | in every finished setup an alignment pattern surrounds every centre but the three on finder patterns |
| Layout.TimingAlternates | static/qrcode.js:6 | in every finished setup both timing lines alternate, dark on even places, also across alignment patterns |
| ModuleCount.CodewordsFillSymbol | static/qrcode.js:6 | in every version the null modules number at least 8 times the codewords and at most 7 more |
| Zigzag.FullWalkIsBijection | static/qrcode.js:6 | the zigzag visits every cell outside column 6 exactly once |
| Zigzag.WalkVisits | static/qrcode.js:6 | at every moment the zigzag has visited exactly the earlier cells |
| Zigzag.WalkOrder | static/qrcode.js:6 | the zigzag cell by cell: pairs of columns from the right, upwards and downwards in turn, right column first, skipping column 6 |
| Zigzag.FreeCellCount | static/qrcode.js:6 | the null cells met along the zigzag are all the null cells, each once |
| Placement.MaskClasses | static/qrcode.js:6 | all eight masks by residues of row, column, their sum and their product |
| Placement.PlaceStep | static/qrcode.js:6 | one visited cell takes the next bit if it was null and keeps its value otherwise |
| Placement.PlacedAt | static/qrcode.js:6 | the k-th null module holds bit k of the codewords, light past the end, xor the mask |
| QrCode.QRCode.constructor | static/qrcode.js:6 | an empty model without segments or cache |
| QrCode.QRCode.AddData | static/qrcode.js:6 | appends the segment of a text and drops the cached codewords |
| QrCode.QRCode.SetupPositionProbePattern | static/qrcode.js:6 | paints one finder pattern, clipped to the matrix, and nothing else |
| QrCode.QRCode.SetupPositionAdjustPattern | static/qrcode.js:6 | paints an alignment pattern at every centre that was null, staying in bounds |
| QrCode.QRCode.SetupTimingPattern | static/qrcode.js:6 | paints the null modules of both timing lines |
| QrCode.QRCode.SetupTypeInfo | static/qrcode.js:6 | writes both copies of the format word and the dark module |
| QrCode.QRCode.SetupTypeNumber | static/qrcode.js:6 | writes both copies of the version word |
| QrCode.QRCode.MapData | static/qrcode.js:6 | terminates, places the masked bits in the null modules along the zigzag and changes nothing else |
| QrCode.QRCode.MakeImpl | static/qrcode.js:6 | draws the symbol of the segments for a mask and caches the codewords, or fails as `createData` does |
| QrCode.QRCode.GetBestMaskPattern | static/qrcode.js:6 | returns the first mask whose drawn test symbol has the fewest lost points, for every scoring of modules |
| QrCode.QRCode.Make | static/qrcode.js:6 | draws the final symbol with that mask |
| Symbols.SetupNullCells | static/qrcode.js:6 | the set of null modules depends neither on the mask nor on the test flag |
| Symbols.DataCellsAre | static/qrcode.js:6 | the data cells in placement order are distinct, are all non-function cells, and hold all codeword bits |
| Symbols.SymbolModules | static/qrcode.js:6 | a finished symbol has no null module and keeps every function module |
| Symbols.SymbolData | static/qrcode.js:6 | data cell k of a finished symbol holds bit k of the codewords xor the mask, and past the last codeword the mask alone |
| QrReader.MaskReadBack | static/qrcode.js:6 | the format information of a finished symbol names its mask |
| QrReader.InvertsIsMask | static/qrcode.js:6 | the reader's own rule for the eight masks, stated by residues, inverts the modules the encoder inverted |
| QrReader.BitsReadBack | static/qrcode.js:6 | unmasked data modules are the codeword bits |
| QrReader.CodewordsReadBack | static/qrcode.js:6 | codewords exist exactly when the text fits, and parse back to it |
| QrReader.SymbolReadBack | static/qrcode.js:6 | end to end: for every ASCII text, version and mask there is a symbol exactly when the text fits, and reading its finished matrix returns the text |
| CodeMaker.NeverOverflows | static/qrcode.js:6 | in a chosen version `createData` never reports overflow |
| CodeMaker.MakeCode | static/qrcode.js:6 | a symbol is made exactly when the estimate is at most 2331; it has the least sufficient version and reads back to the text |
| CodeMaker.LongestReadableText | static/qrcode.js:6 | some version holds a text that is no numeral exactly up to 2328 bytes |
| Base64Url.ChunkSizeForPlaintext | static/crypto.js:6-14 | the least of the three chunk sizes that holds the plaintext, if one does |
| Base64Url.BytesToBase64 | static/crypto.js:16-25 | the text does not depend on the chunk size |
| Base64Url.Base64ToBytes | static/crypto.js:27-38 | decodes through the browser's decoder with padding added, byte by byte |
| Base64Url.BytesToBase64URL | static/crypto.js:40-42 | the base64url text, for every positive chunk size |
| Base64Url.Base64URLToBytes | static/crypto.js:44-49 | rejects text outside the pattern, decodes the rest |
| Base64Url.UrlIsUrlText | static/crypto.js:40-42 | the text is one URL-safe character per six-bit group and nothing else |
| Base64Url.Alphabets | static/crypto.js:16-42 | the 64 characters in their order: sections 4 and 5 of RFC 4648 |
| Base64Url.UrlCharacters | static/crypto.js:40-42 | character k is the alphabet's character for bits 6k to 6k + 5 of the bytes, zero past their end |
| Base64Url.FromUrlIs | static/crypto.js:44-49 | decoding succeeds exactly on pattern text whose length is not 1 modulo 4 |
| Base64Url.UrlRoundTrip | static/crypto.js:16-49 | every non-empty byte sequence matches the pattern, has length ceil(4m/3) and is decoded back |
| Base64Url.TextRoundTrip | static/crypto.js:16-49 | decodable text is re-encoded to itself exactly when the decoder dropped only zero bits |
| Base64Url.UrlInjective | static/crypto.js:40-42 | different bytes have different texts |
| Link.ParamsRoundTrip | static/link.js:19-28 | any list of ASCII parameters printed into a fragment is parsed back |
| Link.FormEncodeCharacter | static/link.js:20-27 | which characters the fragment leaves alone, the plus sign for a space, and upper-case escapes for all others, anywhere in a text |
| Link.ComponentCharacter | static/link.js:27 | which characters of an id the path leaves alone, and upper-case escapes for all others |
| Link.PathsCarryId | static/link.js:27 | the segment of the link and of the request for its key, read as the routes read it, is the id, for every ASCII id but the empty one and the two dot segments, which no route can name |
| Link.ParseFragment | static/link.js:44-69 | whatever is accepted matches the base64url pattern in all three parts |
| Link.AcceptedExactly | static/link.js:44-69 | a printed parameter list is accepted exactly when the first `v` is 1 and the first `w`, `i` and `c` match the pattern, and these are the result; any other version is reported as unsupported |
| Link.LinkRoundTrip | static/link.js:19-69 | parsing the hash of a built link returns the triple, or the error for its first unusable part |
| Link.LinkCarriesBytes | static/link.js:19-69 | one link yields both the id it was made for and the very bytes the sender encoded |
| Link.LinkSpelledOut | static/link.js:19-28 | a link for a 32-digit hex id, character by character: origin, `/share/`, id, `#v=1&w=`, `&i=`, `&c=` and the three parts |
| Link.OnlyIdIsSent | static/link.js:38-42 | the part of a link that reaches the server depends on origin and id alone, and together with the part that stays it is the whole link |
| Link.EstimateIsExact | static/link.js:15-36 | the predicted length is the length of the link, for any plaintext size |
| Link.LabelIsRight | static/link.js:7 | the "fits" test agrees with the encoder exactly outside lengths 2329 to 2331 |
| Link.LabelCanBeWrong | static/link.js:7 | some plaintext size is labelled as fitting and has no symbol exactly for origins of at most 1558 characters |
| Delivery.RunIsGood | store.go:35-108 | in every run the store holds for each id exactly its last unexpired write, and every delivery was served in time |
| Delivery.LoadFindsPending | store.go:46-59 | a load finds a record exactly when the last event of its id is an unexpired write |
| Delivery.ServedAtMostOnce | store.go:95-108 | no two deliveries answer the same write |
| Delivery.DeliveriesCounted | store.go:35-108 | deliveries of an id never outnumber its writes, an outstanding one counted in |
| Delivery.OneTimeDelivery | store.go:35-108 | over every run: at most one delivery per write, none after expiry, none before the write, always the saved record |
| Delivery.ExpiryTimingIsInvisible | store.go:46-59 | lazy removal on load and eager removal at any moments give the same history |
| Delivery.OverwritesExactly | store.go:80-93 | a run overwrites no live record exactly when no SET draws a live id |
| Delivery.SetOverwrites | store.go:80-93 | a run in which SET loses a live record |
| Delivery.SetnxNeverOverwrites | internal/store/store.go:81-102 | with SETNX no run overwrites a live record |
| KeyStore.MemKeyStore.Save | store.go:35-44 | a write step under the random id, nothing on a failing random source |
| KeyStore.MemKeyStore.Load | store.go:46-59 | a take step: removes the entry and returns it unless expired |
| KeyStore.RedisKeyStore.Save | store.go:80-93 | a write step; a failing random source or JSON conversion leaves the server alone, a lost reply may leave the record behind |
| KeyStore.RedisKeyStore.Load | store.go:95-108 | a take step on the server; a value that is no record is an error and gone all the same |
| KeyStore.RandomID | store.go:61-67 | a 32-digit lower-case hex id |
| KeyStore.HexDigits | store.go:61-67 | digit k of an id is the high or low half of byte k / 2, in lower case |
| KeyStore.HexTextInjective | store.go:61-67 | different random bytes give different ids |
| InternalStore.RedisKeyStore.Save | internal/store/store.go:81-102 | the retry loop is at most three SETNX attempts of the call's state machine, stopping at the first outcome, whatever other callers do before each attempt |
| InternalStore.RedisKeyStore.Load | internal/store/store.go:104-118 | a take step on the server; a value that is no record is an error and gone all the same |
| InternalStore.SavesAreUnique | internal/store/store.go:81-102 | however attempts interleave: no live record overwritten, a successful save wrote exactly its record once, a save out of ids wrote none after three taken ids |
| Handlers.Handlers.SetMaxTTL | handlers/handlers.go:75-79 | the ceiling changes only to a value between a minute and a week |
| Handlers.Handlers.CreateKey | handlers/handlers.go:131-150 | rejects exactly the lifetimes below 60 seconds or above the ceiling before touching the store, stores the key for the granted lifetime, and keeps every stored lifetime within policy |
| Handlers.Handlers.FetchKey | handlers/handlers.go:186-203 | 200 with the key while a live record waits, 404 without one, 500 on a fault; one take step |
| Handlers.GrantedInPolicy | handlers/handlers.go:131-150 | an accepted request is granted a lifetime between a minute and the ceiling |
| Handlers.CreationStores | handlers/handlers.go:131-164 | after any history a creation stores a record exactly when its lifetime is permitted and key, id and store are there; the record is the new key under the new id and expires after the seconds asked for, or after the lesser of a day and the ceiling |
| Handlers.EveryWriteWasAskedFor | handlers/handlers.go:131-164 | every record in a history was written by a creation that asked for it, under its id, for its lifetime and the ceiling in force then |
| Handlers.CeilingIsLastSetting | handlers/handlers.go:75-79 | the ceiling in force is the last setting between a minute and a week, and a week before any |
| Handlers.PolicyHolds | handlers/handlers.go:75-203 | over every history of settings, creations and fetches all stored lifetimes are within policy and all deliveries timely |
| Handlers.LifetimesBounded | handlers/handlers.go:75-203 | over every such history each stored record expires 60 seconds to 7 days after its save, and each delivery comes at most 7 days after the save it answers |
| RateLimiter.CounterServer.RunScript | ratelimit.go:22-28 | INCR and the first-use EXPIRE as one step on one key |
| RateLimiter.RedisRateLimiter.Allow | ratelimit.go:41-49 | allows exactly when answered with a count within the limit, fails closed, touches one counter |
| RateLimiter.CounterIsPosition | ratelimit.go:22-28 | the counter is the position in its window and later requests never move the expiry |
| RateLimiter.FirstOfWindow | ratelimit.go:22-49 | in each window exactly the first `limit` requests are allowed |
| RateLimiter.WindowsApart | ratelimit.go:22-28 | a later window opens more than 3 600 000 milliseconds after the earlier one |
| RateLimiter.HourBound | ratelimit.go:22-49 | any half-open hour allows at most 2 * limit - 1 of the requests of one counter |
| RateLimiter.HourBoundIsTight | ratelimit.go:22-49 | that bound is attained for every limit |
| RateLimiter.HourBoundInRuns | ratelimit.go:22-49 | the bound over every run of many buckets, addresses and loads, for a counter no load names while it is live |
| RateLimiter.CountersIndependent | ratelimit.go:41-49 | in every run a counter depends on the requests of its own bucket and address since its last removal, and on nothing else |
| RateLimiter.AnswerIsFirstOfWindow | ratelimit.go:41-49 | in every run a request is allowed exactly among the first `limit` of its own window, counted from the last removal of the counter |
| RateLimiter.LoadReopensWindow | store.go:95-96 | a run in which a load named after a counter lets a request through beyond the limit |
| RateLimiter.UndisturbedExactly | ratelimit.go:41-49 | at every moment of a run the limiter acts as if there were no loads exactly when no load names a live counter |
| RateLimiter.HexIdsNeverDisturb | store.go:61-67 | ids as `randomID` makes them never name a counter |
| RateLimiter.KeysDiffer | ratelimit.go:42 | counters of different buckets or addresses have different keys, for bucket names without a colon |
| RateLimiter.ColonsCollide | ratelimit.go:42 | without that restriction two counters can share a key |
| SharePage.SharePage.InspectLink | static/share.js:82-93 | the page is ready with the parsed fragment or invalid without one |
| SharePage.SharePage.OnHashChange | static/share.js:96-100 | re-inspects the link only while ready or invalid |
| SharePage.SharePage.OnClick | static/share.js:102-107 | a request leaves exactly from an enabled button with a fragment and an id |
| SharePage.SharePage.OnReply | static/share.js:110-123 | back to ready on an error, spent on null, on to decryption with the key |
| SharePage.SharePage.OnDecrypted | static/share.js:125-134 | open or spent |
| SharePage.HandlersKeepConsistent | static/share.js:76-137 | every handler keeps: invalid exactly without a fragment, enabled exactly when ready, working exactly while suspended |
| SharePage.LinkIsInspected | static/share.js:82-100 | a page loaded with a built link, or moved to it while ready or invalid, is ready with exactly its parts and an enabled button if they are well formed, and invalid otherwise |
| SharePage.InvalidExactly | static/share.js:82-100 | for any address a page is invalid exactly when the parser rejects it |
| SharedLinks.RunIsCoherent | static/share.js:76-137 | the joint invariant of all pages, requests in flight and the store, over every run |
| SharedLinks.PagesAreConsistent | static/share.js:76-137 | in every run: invalid exactly without a fragment, at most one request in flight and only while working |
| SharedLinks.OnlyReadyPagesFetch | static/share.js:102-112 | in every run a request is issued only by a click on a ready page with a well-formed link |
| SharedLinks.ClickSends | static/share.js:102-112 | in every run a click on a ready page with an id makes it working with one more request under way, and any other click changes nothing |
| SharedLinks.FinishedForever | static/share.js:96-137 | an open or spent page stays so and never fetches again |
| SharedLinks.OneOpenPagePerRecord | static/share.js:110-134 | open pages answer different writes: at most one page per saved record |
| SharedLinks.SingleRecordOpensOnce | static/share.js:110-134 | an id written once is opened by at most one page |
| SharedLinks.ClickOutcome | static/share.js:102-137 | a click whose request goes through makes the page try the stored key on the parts of its link exactly when an unexpired write was the last event of the id, and opens it exactly when that key fits, whatever happens between the steps; faults return it to ready |
| SharedLinks.LinkReachesServer | static/share.js:82-112 | over every run, opening a usable link and pressing the button later puts one request for the id of the link under way, with the parts of the link in the page |
| SharedLinks.LinkOpens | static/share.js:82-137 | over every run, from the link to the note: the page opens exactly when the record of the id was pending as the server handled the request and its key fits the parts of the link, and is spent otherwise |

## Left out

- QR levels L, Q and H: the create page asks for level M.
- DataStream.NewSegment: ASCII text only, which every share URL is; beyond it the constructor reuses one byte array across characters and prepends a byte order mark.
- QrCode.QRCode.AddData: ASCII text only, as its segment.
- VersionChoice.ChooseVersion: ASCII text only; for other text the estimate counts UTF-8 bytes and `encodeURI` can throw.
- CodeMaker.MakeCode: ASCII text only, as its parts.
- `getLostPoint`: an arbitrary score per mask; only the choice by score is modelled.
- Drawing a symbol (SVG, canvas, table), Android detection and `createMovieClip`.
- Base64Url.Atob: the browser's decoder is modelled for text without white space, the only text its callers pass.
- Link.ParseParams: percent escapes above 127 decode to single characters instead of UTF-8 text, which the pattern test rejects either way.
- VersionChoice.Estimate: reading the text as a number is a parameter; no URL has such a reading.
- QrReader.ReadText: reads level M symbols and does not correct errors; it takes the version from the size and the mask from one copy of the format information.
- RSA, AES and key generation: keys are opaque strings, and whether one decrypts is a parameter.
- The JSON text of stored records and requests (whether a record converts is a parameter), HTTP headers, middleware and templates, and routing beyond the path segment that carries an id.
- Rounding of lifetimes by Redis, persistence and failover.
- Redis keeps stored keys and counters in one keyspace; the model has a class for each, and a load that names a counter is a command of the limiter's runs.
- Countdown, clipboard and other user interface code of the pages.
