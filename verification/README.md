# CTF web tools, modelled in Dafny

This project models the pure computations inside the CTF web toolkit's React widgets. It
leaves out the state, canvas, file-reading and fetch plumbing around them, and proves what
those computations promise.

- **LSB text steganography codec** (`stego_codec.dfy`): capacity, bit packing and the
  bounded decoder, with the round trip.
- **Smart scanner**:
  - `smart_scanner.dfy`: magic-byte classification, recommendations, the strings pass and
    the IPv4 and URL classifiers;
  - `flag_pattern.dfy`: the flag regular expression;
  - `findings.dfy`: severity ranking and the stable sort;
  - `scan_report.dfy`: the LSB probe and report assembly for files and typed-in targets.
- **File analyzer** (`file_analyzer.dfy`): the hex view, the first-match signature table and
  printable-string extraction.
- **Crypto playground** (`crypto_playground.dfy`): Caesar, ROT13, Vigenère, and the hex and
  binary text encoders.
- **XOR calculator** (`xor_calculator.dfy`): hex and binary parsing, cyclic XOR, and the hex
  and ASCII renderings.
- **RSA calculator** (`rsa_calculator.dfy`): n, φ(n), the modular inverse, modular power,
  and the integer-to-character conversion.
- **Small widgets**:
  - the stego analyzer's bit-plane view (`stego_analyzer.dfy`);
  - the letter-frequency table (`frequency_analyzer.dfy`);
  - the ASCII table (`ascii_table.dfy`);
  - the request builder's header list and header object (`request_builder.dfy`);
  - the payload filter (`payload_generator.dfy`).

Shared modules model the JavaScript behaviour these widgets rely on:

- `jstext.dfy`: UTF-16 code units, `parseInt`, `String.fromCharCode`, `split` and `join`,
  ASCII case mapping, and `trim`;
- `digits.dfy`: positional digits;
- `radix_text.dfy`: `toString(radix).padStart`;
- `bytes.dfy`: bytes, bits and XOR;
- `stable_sort.dfy`: `Array.prototype.sort`, which is stable;
- `results.dfy`: `Option` and `Result`.

Text is a Dafny `string` of code points. Where the JavaScript depends on UTF-16 code units,
the model works on `seq<CodeUnit>`; this matters for `parseInt` input, the `.{1,2}`
chunking and `fromCharCode` output. Bytes are `int`s in 0..255.

Library and host calls are parameters of the model, so no property depends on their
internals:

- `TextEncoder.encode` and `TextDecoder.decode`;
- `atob` and the Base64 pass `recursiveDecode`;
- image decoding, as an `Option` of the pixel buffer.

Two behaviours of the steganography codec are worth stating plainly:

1. **Decoding without a terminator.** When no terminator turns up within the 800 000-bit
   bound, the decoder returns the bytes it has grouped so far
   (`components/stego-text-tool.tsx:161-176`). `StegoCodec.Decode` does the same.
2. **Encoding an empty message.** The encoder refuses an empty message with the
   missing-input error (`components/stego-text-tool.tsx:66-69`). See
   `StegoCodec.EmptyMessageRefused`.

The big-integer library's code is not part of this model. Its `modInv` and `modPow` are
written out after the library's published loops: extended Euclid with a quotient rounded
toward zero, whose last coefficient is moved up by the modulus only when negative, and
square-and-multiply that starts from 1 and stops with 0 once the base is 0. So modulo 1
the inverse of 1 is 1 and a zero exponent gives 1, where residues alone would give 0.

## Model

| member | source | states |
|---|---|---|
| StegoCodec.CapacityIsLargestFit | components/stego-text-tool.tsx:41-46 | The capacity is the largest byte count whose eight bits per byte fit in three bits per pixel, i.e. floor(3·W·H/8); it depends on the dimensions only |
| StegoCodec.Encode | components/stego-text-tool.tsx:65-74 | Without an image or with an empty message: the missing-input error. Otherwise "too long" exactly when used capacity (UTF-8 length + 1) is strictly greater than capacity. On success the dimensions are kept and the buffer is the bitstream embedded in it |
| StegoCodec.Bitstream | components/stego-text-tool.tsx:90-97 | The stream written is 8·(|m|+1) bits: the message bytes and the terminator |
| StegoCodec.GroupMessage | components/stego-text-tool.tsx:93-97 | The decoder's MSB-first grouping reads a zero-free message's bit spelling back as the message, then goes on with whatever follows |
| StegoCodec.GroupTerminator | components/stego-text-tool.tsx:97 | After the eight zero bits of the terminator nothing more is read |
| StegoCodec.EmbedBytes | components/stego-text-tool.tsx:99-113 | Alpha bytes, and colour bytes past the end of the stream, are unchanged. A written byte keeps its upper seven bits, and its LSB is the stream bit of its channel position |
| StegoCodec.EmbedLoop | components/stego-text-tool.tsx:99-113 | The pixel loop, which stops once the stream is used up and never touches alpha, computes `Embed` |
| StegoCodec.ChannelAddressing | components/stego-text-tool.tsx:101-110 | The k-th colour channel is a red, green or blue byte, and the numbering of colour channels inverts it |
| StegoCodec.Lsbs | components/stego-text-tool.tsx:144-154 | Reads exactly min(limit, 3·pixels) LSBs, the k-th from the k-th colour channel |
| StegoCodec.CollectLsbs | components/stego-text-tool.tsx:144-154 | The bounded two-level collecting loop computes `Lsbs` |
| StegoCodec.GroupBytes | components/stego-text-tool.tsx:161-171 | Grouping never yields a zero byte and never uses more bits than are available |
| StegoCodec.GroupLoop | components/stego-text-tool.tsx:161-171 | The byte loop, which stops at an incomplete group or a zero, computes `GroupBytes` |
| StegoCodec.Decode | components/stego-text-tool.tsx:124-181 | An error exactly when there is no image. Otherwise the bytes hold no zero, and cover at most 800 000 bits and at most 3 bits per pixel |
| StegoCodec.DecodeLoop | components/stego-text-tool.tsx:144-171 | The two decoding loops together compute the decoded bytes |
| StegoCodec.RoundTrip | components/stego-text-tool.tsx:90-181 | A non-empty, zero-free message that fits the image and the 100 000-byte bound is encoded without error, and decodes to exactly itself |
| StegoCodec.EncodeDecode | components/stego-text-tool.tsx:90-181 | Any accepted message decodes to its bytes before the first zero, cut at the decoder's bound |
| StegoCodec.ZeroTruncates | components/stego-text-tool.tsx:166-169 | A zero byte inside the message ends the decoded message just before it |
| StegoCodec.LeadingTerminator | components/stego-text-tool.tsx:161-180 | An image whose first eight colour LSBs are zero decodes to no message |
| StegoCodec.EmptyMessageRefused | components/stego-text-tool.tsx:66-69 | The empty message is refused with the missing-input error |
| StegoCodec.LongMessageCut | components/stego-text-tool.tsx:71-74 | As written: a message that fits the image but exceeds the decoder's bound is accepted, and decodes to its first 100 000 bytes only |
| StegoCodec.MegapixelCut | components/stego-text-tool.tsx:41-46 | Concrete instance: a 1000×1000 image accepts a 100 001-byte message that does not decode back |
| StegoCodec.EncodeBounded | components/stego-text-tool.tsx:71-74 | Corrected check: "too long" exactly when used capacity exceeds the capacity or the decoder's 100 000-byte bound; otherwise it encodes as `Encode` does |
| StegoCodec.BoundedRoundTrip | components/stego-text-tool.tsx:90-181 | Everything the corrected encoder accepts decodes to its bytes before the first zero, and zero-free messages decode exactly |
| SmartScanner.IdentifyMagicBytes | components/smart-scanner.tsx:52-71 | The hex-string table lookup equals a byte-prefix classification in three steps: a 4-byte signature, else BMP for bytes beginning 42 4D, else "Unknown Binary" |
| SmartScanner.HeaderMatches | components/smart-scanner.tsx:53-68 | The upper-case hex spelling of the first four bytes equals a 4-byte signature's spelling exactly when the file starts with that signature |
| SmartScanner.BmpPrefix | components/smart-scanner.tsx:69 | The header string starts with "424D" exactly when the file starts with bytes 42 4D |
| SmartScanner.RecommendationsSpec | components/smart-scanner.tsx:74-111 | Steganography iff the type mentions "Image". Cryptography and forensics iff it mentions "Text" or is "Unknown Binary". The web tool iff it is "IP Address" or "URL". Each at most once, in that order |
| SmartScanner.FileRecommendations | components/smart-scanner.tsx:74-111 | For file types: the stego tool for the image formats, crypto and forensics for an unknown binary, nothing for the other formats |
| SmartScanner.TargetRecommendations | components/smart-scanner.tsx:86-108 | An address or URL gets only the web tool; raw text gets crypto and forensics |
| SmartScanner.StringsPass | components/smart-scanner.tsx:126-134 | The strings pass is no longer than the buffer and holds only printable ASCII, LF, CR or space |
| SmartScanner.StringsPrintable | components/smart-scanner.tsx:129-130 | A buffer of kept bytes is copied verbatim |
| SmartScanner.StringsKeepText | components/smart-scanner.tsx:126-134 | Apart from spaces, the pass is exactly the kept bytes in order |
| SmartScanner.StringsJunkRun | components/smart-scanner.tsx:131-132 | A run of other bytes adds one space, or none when the text already ends in a space |
| SmartScanner.IPv4Split | components/smart-scanner.tsx:174 | The address test holds iff the target splits at dots into exactly four groups of 1–3 ASCII digits, with no range check |
| SmartScanner.IPv4NotUrl | components/smart-scanner.tsx:174-175 | No address passes the URL test, so the order of the two tests decides nothing |
| FlagPattern.MatchAtSound | components/smart-scanner.tsx:229 | A match is a keyword from {ctf, flag, key, hackthebox, htb, pico} in any ASCII case, then `{`, a body with no `}` and no line terminator, then `}` |
| FlagPattern.MatchAtComplete | components/smart-scanner.tsx:229 | A flag-shaped text starting at i is exactly the match at i, since the lazy body stops at the first `}` |
| FlagPattern.KeywordsExclusive | components/smart-scanner.tsx:229 | At most one keyword of the alternation occurs at a position, so the order of the alternatives does not matter |
| FlagPattern.FindFromSound | components/smart-scanner.tsx:229-239 | Every span the global exec loop reports is the match at its start |
| FlagPattern.FindFromOrdered | components/smart-scanner.tsx:229-239 | Reported spans come left to right without overlap |
| FlagPattern.FindFromFirstGap | components/smart-scanner.tsx:229-239 | No match starts before the first span, nor anywhere when there is none |
| FlagPattern.FindFromInnerGaps | components/smart-scanner.tsx:229-239 | No match starts between two consecutive spans |
| FlagPattern.FindFromLastGap | components/smart-scanner.tsx:229-239 | No match starts after the last span |
| Findings.Score | components/smart-scanner.tsx:325-332 | Every score is between 1 and 5 |
| Findings.ScoreInjective | components/smart-scanner.tsx:325-332 | Distinct severities have distinct scores |
| Findings.SortFindings | components/smart-scanner.tsx:153 | The sorted findings are a permutation of the input, with non-increasing score |
| Findings.SortFindingsStable | components/smart-scanner.tsx:218 | Findings of equal severity keep their original order |
| ScanReport.FlagFindings | components/smart-scanner.tsx:227-241 | One critical flag finding per match |
| ScanReport.FlagFindingsSound | components/smart-scanner.tsx:231-238 | Each finding quotes the text of its match, and that text is flag-shaped |
| ScanReport.FlagFindingsNone | components/smart-scanner.tsx:227-241 | No findings exactly when no piece of the text is flag-shaped |
| ScanReport.ProbeBytes | components/smart-scanner.tsx:293-298 | The probe's bytes are never zero, and a trailing partial chunk yields at most one extra byte |
| ScanReport.ProbeChunkParse | components/smart-scanner.tsx:295 | `parseInt(chunk, 2)` reads a chunk of one to eight bits as its value |
| ScanReport.ProbeMatchesCodec | components/smart-scanner.tsx:293-298 | On whole bytes the probe groups bits exactly as the codec's decoder does |
| ScanReport.ProbeKeepsPartialByte | components/smart-scanner.tsx:283-298 | One pixel gives three bits: the probe makes a byte of them, the codec's decoder none |
| ScanReport.LsbProbe | components/smart-scanner.tsx:283-316 | A finding needs more than five collected bytes, and is a critical flag finding whose text is flag-shaped |
| ScanReport.LsbProbeComplete | components/smart-scanner.tsx:300-315 | With more than five bytes, any flag-shaped piece of the decoded text is found, and the finding starts no later than it |
| ScanReport.ScanTarget | components/smart-scanner.tsx:165-223 | Nothing for an empty input. Otherwise the trimmed target, and its findings permuted into non-increasing severity |
| ScanReport.AddressReport | components/smart-scanner.tsx:180-197 | An address is typed "IP Address". The private-network finding comes first iff it starts with "192.168" or "10.", then the format finding. Only the web tool is recommended |
| ScanReport.UrlReport | components/smart-scanner.tsx:198-206 | A URL gets one format finding and the web tool |
| ScanReport.RawTextReport | components/smart-scanner.tsx:207-212 | Raw text is typed "Raw Text / Hash". Its flag findings open the report in text order, and crypto and forensics are recommended |
| ScanReport.FlagsLead | components/smart-scanner.tsx:218 | Sorting keeps critical findings first and in their order |
| ScanReport.FileProbe | components/smart-scanner.tsx:143-146 | The probe runs only for a type naming an image whose pixels decoded |
| ScanReport.ScanFile | components/smart-scanner.tsx:115-163 | The file name, and the findings permuted into non-increasing severity |
| ScanReport.FileReportType | components/smart-scanner.tsx:122-154 | The type comes from the signature bytes, and the recommendations follow from the type |
| ScanReport.FileReportFlags | components/smart-scanner.tsx:136-153 | The strings pass's flag findings open the file report, in text order |
| ScanReport.FileReportProbe | components/smart-scanner.tsx:142-146 | The probe adds one finding only for image formats, and only when it finds a flag |
| FileAnalyzer.HexParts | components/file-analyzer.tsx:53-56 | min(|file|, 512) parts, each two hex digits |
| FileAnalyzer.HexPartsSpelling | components/file-analyzer.tsx:55 | Part i is the upper-cased padded hex of byte i, and reads back as it |
| FileAnalyzer.HexViewShape | components/file-analyzer.tsx:53-57 | The view is 3·min(|file|, 512) − 1 characters, and splits at spaces into the parts |
| FileAnalyzer.DetectTypeIsPrefix | components/file-analyzer.tsx:11-25 | Detection is the first table entry, in table order, whose bytes are a prefix of the file |
| FileAnalyzer.KeyMatchIsPrefix | components/file-analyzer.tsx:60-66 | Comparing the spaced hex of the first bytes with a key is the same as testing for a byte prefix |
| FileAnalyzer.ShortFileNoMatch | components/file-analyzer.tsx:65-66 | A file shorter than a signature never matches it |
| FileAnalyzer.FirstMatch | components/file-analyzer.tsx:61-70 | The loop gives the first matching entry, or none iff no entry matches |
| FileAnalyzer.ExtractStrings | components/file-analyzer.tsx:78-80 | At most 1000 strings, each of 4 or more printable ASCII characters |
| FileAnalyzer.ExtractStringsRuns | components/file-analyzer.tsx:78-80 | The strings are the first 1000 maximal printable runs of length at least 4, in order, from the first 1 MiB |
| FileAnalyzer.RegexRunsAreLongPieces | components/file-analyzer.tsx:79 | The global match of `[ -~]{4,}` is exactly the maximal printable runs of length at least 4 |
| CryptoPlayground.Process | components/crypto-playground.tsx:36-75 | Empty input gives empty output; the ciphers keep the length in code units |
| CryptoPlayground.JsRem | components/crypto-playground.tsx:97 | JavaScript's `%`: truncating, taking the dividend's sign |
| CryptoPlayground.JsResidue | components/crypto-playground.tsx:97 | `((x % 26) + 26) % 26` is the mathematical residue for any integer x |
| CryptoPlayground.Caesar | components/crypto-playground.tsx:94-99 | Non-letters are unchanged. Letters keep their case, and offset x becomes (x + shift) mod 26 |
| CryptoPlayground.CaesarRoundTrip | components/crypto-playground.tsx:69-71 | Decoding with −shift undoes encoding |
| CryptoPlayground.Rot13Involution | components/crypto-playground.tsx:66-68 | ROT13 applied twice is the identity |
| CryptoPlayground.NonNumericKey | components/crypto-playground.tsx:70 | A key `parseInt` reads as NaN leaves the text unchanged |
| CryptoPlayground.KeyLetters | components/crypto-playground.tsx:103-104 | Only the upper-cased ASCII letters of the key are kept; the result is empty iff the key has no letters |
| CryptoPlayground.Vigenere | components/crypto-playground.tsx:101-130 | Same length, non-letters copied, letters stay letters. The identity when the key has no letters |
| CryptoPlayground.VigenereAt | components/crypto-playground.tsx:109-124 | The i-th letter uses key letter (number of letters before i) mod key length, so the key advances only on letters |
| CryptoPlayground.VigenereRoundTrip | components/crypto-playground.tsx:113-121 | Decryption undoes encryption for every key |
| CryptoPlayground.VigenereLoop | components/crypto-playground.tsx:106-129 | The loop with its key index computes the recursive definition |
| CryptoPlayground.HexEncodeBytes | components/crypto-playground.tsx:51 | For single-byte characters the encoding is two lower-case hex digits per character |
| CryptoPlayground.HexRoundTrip | components/crypto-playground.tsx:50-52 | Hex decoding undoes hex encoding for text of single-byte characters |
| CryptoPlayground.BinaryEncodeSplit | components/crypto-playground.tsx:59 | The binary encoding splits at spaces into eight binary digits per character |
| CryptoPlayground.BinaryRoundTrip | components/crypto-playground.tsx:58-60 | Binary decoding undoes binary encoding for non-empty text of single-byte characters |
| XorCalculator.ParseHex | components/xor-calculator.tsx:61-69 | An error iff the filtered digit count is odd; otherwise half that many bytes |
| XorCalculator.ParseHexReads | components/xor-calculator.tsx:66-68 | Byte i is the value of filtered digits 2i and 2i+1 |
| XorCalculator.ParseHexIgnoresJunk | components/xor-calculator.tsx:62 | Non-hex characters have no effect |
| XorCalculator.ParseHexRoundTrip | components/xor-calculator.tsx:43-69 | Parsing the hex rendering of bytes gives the bytes back |
| XorCalculator.ParseBinaryRoundTrip | components/xor-calculator.tsx:81-82 | Space-separated eight-digit words read back as their bytes, in order |
| XorCalculator.SkipsNaN | components/xor-calculator.tsx:81 | A piece that reads as NaN is dropped, and any other value is kept modulo 256 |
| XorCalculator.CyclicXorLoop | components/xor-calculator.tsx:33-40 | Length max(|A|, |B|), and res[i] = A[i mod |A|] xor B[i mod |B|], with an empty side reading as 0 |
| XorCalculator.CyclicXorSymmetric | components/xor-calculator.tsx:36-40 | The result does not depend on the order of the inputs |
| XorCalculator.CyclicXorUndo | components/xor-calculator.tsx:36-40 | XOR-ing with B again gives A back when A is at least as long as B |
| XorCalculator.AsciiOut | components/xor-calculator.tsx:45-50 | One printable character per byte: the byte itself iff it is in 32..126, otherwise '.' |
| XorCalculator.HexOutPairs | components/xor-calculator.tsx:43 | Two padded lower-case digits per byte, reading back as the byte |
| XorCalculator.Calculate | components/xor-calculator.tsx:21-56 | Both outputs cleared when an input is empty. The previous outputs are kept on a parse error. Otherwise the hex output is two characters and the ASCII output one per result byte |
| RsaCalculator.QuotRem | components/rsa-calculator.tsx:39 | The library's `divide` rounds toward zero: the remainder it leaves has the dividend's sign and the size of the magnitudes' remainder, and on non-negative operands it is Euclidean division |
| RsaCalculator.InvLoopEnds | components/rsa-calculator.tsx:39 | The `modInv` loop ends with gcd(|φ|, e) up to sign, congruent to its coefficient times e; for φ > 0 that coefficient of a remainder 1 is smaller than φ in size |
| RsaCalculator.ModInverseSpec | components/rsa-calculator.tsx:38-42 | `modInv` succeeds iff gcd(|φ|, e) = 1. For φ ≥ 2 it gives the inverse d of e with 0 ≤ d < φ. Modulo 1 it gives 1 for e = 1 and 0 otherwise. Modulo 0 only e = 1 has an inverse, 1. For φ < 0 the result times e is ±1 modulo |φ| |
| RsaCalculator.InverseModOne | components/rsa-calculator.tsx:39 | Modulo 1 the library's inverse is 1 for e = 1 and 0 for every other e |
| RsaCalculator.NoInverse | components/rsa-calculator.tsx:38-42 | When gcd(φ, e) ≠ 1, no d at all has d·e ≡ 1 (mod φ) |
| RsaCalculator.CalculateKeysAsWritten | components/rsa-calculator.tsx:27-50 | As written: nothing unless p, q and e are all given; then n = p·q and φ = (p−1)(q−1) for every natural p and q, zero included |
| RsaCalculator.UnitPhiMisreported | components/rsa-calculator.tsx:38-46 | As written: p = q = 2 and e = 3 give gcd(φ, 3) = 1, yet the error text is shown |
| RsaCalculator.CalculateKeys | components/rsa-calculator.tsx:27-50 | Corrected: nothing unless p, q and e are all given; then n = p·q and φ = (p−1)(q−1) for every natural p and q, zero included |
| RsaCalculator.CalculateKeysExponent | components/rsa-calculator.tsx:38-46 | Corrected: "not coprime" iff gcd(|φ|, e) ≠ 1, for every φ including zero and negative ones. For φ ≥ 2, d is otherwise the inverse of e below φ. For φ = 1, d is 1 for e = 1 and 0 otherwise |
| RsaCalculator.ModPowFromValue | components/rsa-calculator.tsx:59 | Square-and-multiply from accumulator r, stopping at a zero base, computes r·b^k mod m for k ≥ 1 |
| RsaCalculator.ModPowValue | components/rsa-calculator.tsx:59 | `modPow(c, d, n)` is c^d mod n for d ≥ 1, and 1 for d = 0, even for n = 1 |
| RsaCalculator.ModPowLoop | components/rsa-calculator.tsx:59 | The library's loop, with its early return on a zero base, computes c^d mod n for d ≥ 1 and 1 for d = 0 |
| RsaCalculator.EvenHexDigits | components/rsa-calculator.tsx:63-64 | The zero-padded hex form has even length and reads back as m |
| RsaCalculator.PairUpValue | components/rsa-calculator.tsx:65-68 | Pairing hex digits into base-256 digits keeps the value |
| RsaCalculator.MessageTextBytes | components/rsa-calculator.tsx:63-68 | The characters are bytes, read as base-256 digits they give back m, and m = 0 gives a single NUL |
| RsaCalculator.DecryptMessage | components/rsa-calculator.tsx:52-74 | Nothing unless c, d and n are all given; the error text exactly when n = 0 |
| RsaCalculator.DecryptMessageValue | components/rsa-calculator.tsx:59-69 | For n ≥ 1 the integer is c^d mod n, or 1 when d = 0, and the text is its big-endian bytes |
| StegoAnalyzer.ChannelOffset | components/stego-analyzer.tsx:76-80 | red ↦ 0 and alpha ↦ 3 (each iff), every offset below 4, any other name no channel |
| StegoAnalyzer.ShiftCount | components/stego-analyzer.tsx:72-83 | The shift count is below 32, equals an in-range bit index, and is 0 for NaN |
| StegoAnalyzer.PlaneView | components/stego-analyzer.tsx:75-91 | Length kept. Every value is 0 or 255, alpha is 255, and R = G = B = 255 iff bit k of the selected channel is 1 |
| StegoAnalyzer.BitPlane | components/stego-analyzer.tsx:69-73 | "original" leaves the pixels alone, and every selection keeps the buffer length |
| StegoAnalyzer.SelectorEntry | components/stego-analyzer.tsx:129-136 | A selector value "name-k" shows bit k of that channel |
| StegoAnalyzer.PlaneIdempotent | components/stego-analyzer.tsx:83-90 | For red, green, blue or no channel, viewing a plane twice is viewing it once |
| StegoAnalyzer.AlphaPlaneNotIdempotent | components/stego-analyzer.tsx:80-90 | The alpha plane is not idempotent: the first pass sets alpha to 255 |
| StegoAnalyzer.PlaneLoop | components/stego-analyzer.tsx:75-91 | The in-place loop, which drops writes past the end, computes `PlaneView` |
| FrequencyAnalyzer.LetterCount | components/frequency-analyzer.tsx:12 | Zero iff the text has no ASCII letter |
| FrequencyAnalyzer.Tally | components/frequency-analyzer.tsx:15-19 | Each letter counted once, and the counts add up to the number of lower-case letters |
| FrequencyAnalyzer.TallyFacts | components/frequency-analyzer.tsx:15-19 | Keys are distinct lower-case letters. Each count is the letter's positive number of occurrences. Every occurring letter is a key |
| FrequencyAnalyzer.TallyKeysPrefix | components/frequency-analyzer.tsx:15-21 | Keys appear in first-occurrence order |
| FrequencyAnalyzer.Frequencies | components/frequency-analyzer.tsx:10-28 | Empty iff no ASCII letter. Otherwise a permutation of the tallied rows, ordered by non-increasing count |
| FrequencyAnalyzer.FrequencyRowCounts | components/frequency-analyzer.tsx:15-19 | Each row's count is the letter's occurrences in either case, and its total is the letter count |
| FrequencyAnalyzer.FrequencyRowsDistinct | components/frequency-analyzer.tsx:15-22 | No letter appears twice |
| FrequencyAnalyzer.FrequencyRowsComplete | components/frequency-analyzer.tsx:15-19 | Every letter that occurs in either case has a row |
| FrequencyAnalyzer.FrequencySum | components/frequency-analyzer.tsx:12-19 | The counts add up to the total letter count |
| FrequencyAnalyzer.FrequencyTies | components/frequency-analyzer.tsx:21-22 | Rows with equal counts keep their first-occurrence order |
| AsciiTable.Table | components/ascii-table.tsx:6-29 | 128 entries, and entry i has dec = i |
| AsciiTable.TableHex | components/ascii-table.tsx:25 | The hex cell is two upper-case hex digits that read back as i |
| AsciiTable.TableBin | components/ascii-table.tsx:26 | The bin cell is eight binary digits that read back as i |
| AsciiTable.TableLabels | components/ascii-table.tsx:9-21 | A label is a single character exactly for the codes 33..126, and then it is that code's character. The mnemonics are NUL, TAB, LF, CR, ESC and DEL for their codes, CTL for the other codes below 32 and SPC for 32 |
| AsciiTable.LabelNamesCode | components/ascii-table.tsx:9-21 | Every label other than CTL names one code only |
| AsciiTable.HexCellPair | components/ascii-table.tsx:25 | Upper-casing before padding gives the same cell as padding first |
| RequestBuilder.InitialHeaders | components/request-builder.tsx:15 | A single empty pair, from which the request gets no header at all |
| RequestBuilder.AddHeader | components/request-builder.tsx:20 | One empty pair appended, the others unchanged |
| RequestBuilder.RemoveHeader | components/request-builder.tsx:21-25 | A valid index removes exactly that entry and keeps the order of the rest; an index past the end changes nothing |
| RequestBuilder.UpdateHeader | components/request-builder.tsx:26-30 | Only the chosen field of the chosen entry changes |
| RequestBuilder.AddRemove | components/request-builder.tsx:20-25 | Removing the pair just added gives the list back |
| RequestBuilder.HeaderObjectLookup | components/request-builder.tsx:36-39 | The object has no property for the empty key or for "__proto__", whose assignment runs the prototype setter. It maps every other key to the value of its last pair |
| RequestBuilder.HeaderObjectKeys | components/request-builder.tsx:36-39 | No property is written twice, and none is named "" or "__proto__" |
| RequestBuilder.PutGet | components/request-builder.tsx:38 | Assigning a property sets that key and leaves every other key unchanged |
| RequestBuilder.RequestBody | components/request-builder.tsx:48 | No body iff the method is GET, and otherwise the body as typed |
| RequestBuilder.BodyReachesRequest | components/request-builder.tsx:48 | The typed body reaches the request exactly when the method is not GET: two bodies give the same request iff the method is GET or the bodies are equal |
| PayloadGenerator.Payloads | components/payload-generator.tsx:10-37 | The category lists have sizes 5, 5, 4 and 4 |
| PayloadGenerator.Filter | components/payload-generator.tsx:43 | Only payloads of the list that match are kept |
| PayloadGenerator.FilterExact | components/payload-generator.tsx:43 | The result is an order-preserving sub-list, and a payload is kept iff its lower-case form contains the lower-case filter |
| PayloadGenerator.EmptyFilter | components/payload-generator.tsx:43 | An empty filter keeps the whole list |
| PayloadGenerator.FilterNarrows | components/payload-generator.tsx:43 | When f occurs in g, everything matching g also matches f |
| PayloadGenerator.FilterCaseBlind | components/payload-generator.tsx:43 | Filters equal up to ASCII case give the same result |

## Left out

- The Base64, URL and hashing branches of `processInput` call `btoa`, `atob`, `encodeURIComponent` and `crypto.subtle.digest`. They are not modelled.
- `TextEncoder` and `TextDecoder` are parameters or byte sequences. UTF-8 itself, RFC 3629, is not modelled.
- The canvas and image codec are not modelled: loading, `drawImage`, `getImageData`, `putImageData` and PNG export. Only the RGBA buffer is.
- An image that fails to load is an absent buffer. A missing 2-D context, for which the probe never resolves, is not modelled.
- `recursiveDecode` in the smart scanner is a parameter. It is built on `atob` and regular expressions over its output.
- Not modelled: timestamps, the 1.5 s delay, the KB size text and `downloadReport`.
- The jwt inspector, the reverse-shell generator, the terminal interface and the server routes are I/O, templates and JSON, and are not modelled.
- Floating point is not modelled: the frequency percentages and the file size.
- `parseInt` beyond 2^53 is not modelled: the model reads digits exactly, while JavaScript rounds to the nearest double.
- Case mapping is ASCII-only. `toLowerCase` also maps some non-ASCII letters to ASCII ones, such as the Kelvin sign; for such input the frequency counts could exceed the `[a-zA-Z]` total.
- RequestBuilder.HeaderObject: the properties are kept in assignment order. `JSON.stringify` emits integer-like names such as "0" or "42" first, in numeric order; that order is not modelled. Lookups, which are what the contracts state, do not depend on it.
- CryptoPlayground.KeyLetters: upper-cases the key with ASCII rules only. JavaScript's `toUpperCase` also maps a few non-ASCII characters to ASCII letters: "ß" becomes "SS", "ſ" becomes "S", "ı" becomes "I" and "ﬀ" becomes "FF". Such characters are dropped here, where the page keeps their letters.
- CryptoPlayground.Vigenere: inherits that gap. Its clause "the identity when the key has no letters" holds for keys without ASCII letters only under ASCII case mapping; with the key "ß" the page encrypts "abc" to "stu".
- RequestBuilder.UpdateHeader: requires an index in range. Out of range, the source throws a TypeError from the event handler, which changes no state.
- RsaCalculator: inputs are absent or natural numbers, zero included, so p = 0 or q = 0 gives φ(n) ≤ 1. Negative numbers, non-numeric text and the big-integer library's other errors are left out.
- RsaCalculator: RSA correctness, that decryption undoes encryption for distinct primes, is not proved; it needs Euler's theorem.
- RsaCalculator.ModPow: requires n ≥ 1. For n = 0 the library throws, and `DecryptMessage` gives the error text instead.
- StegoAnalyzer.PlaneIdempotent: holds for red, green, blue and no channel only. `AlphaPlaneNotIdempotent` shows that the alpha plane is not idempotent.
- StegoAnalyzer.BitPlane: the view of a selection is stated through `PlaneView` and `SelectorEntry`, not in one contract.
- XorCalculator.Calculate: states the output lengths. The contents are stated by `AsciiOut`, `HexOutPairs` and `CyclicXorLoop`.
- The XOR binary branch's first loop is not modelled. Its buffer is never used and it cannot throw. The binary option is also not offered by the selector, whose entry is commented out.
- CryptoPlayground.HexRoundTrip and CryptoPlayground.BinaryRoundTrip: stated for text of single-byte characters, where the encoders produce fixed-width digits.

## Findings

| source | as written | input that shows it | evidently intended | confidence | as-written member | corrected member |
|---|---|---|---|---|---|---|
| components/stego-text-tool.tsx:71 | The encoder checks the message only against the image capacity. The decoder stops after 800 000 bits (line 145). | A 1000×1000 image (capacity 375 000 bytes) and a 100 001-byte message without zeros: it is accepted, but decodes to its first 100 000 bytes. | Refuse a message whose bits the decoder will not read, so that every accepted zero-free message decodes back. | medium, not executed | StegoCodec.LongMessageCut | StegoCodec.EncodeBounded |
| components/rsa-calculator.tsx:41-46 | The modular inverse 0 stands for "no inverse". But modulo φ = 1 the library's inverse of every e other than 1 is 0, so a valid inverse is shown as the not-coprime error. | p = 2, q = 2, e = 3: gcd(1, 3) = 1, yet the error text is shown. | Show the error only when gcd(|φ|, e) ≠ 1. | low, not executed; follows the library's published `modInv` loop | RsaCalculator.UnitPhiMisreported | RsaCalculator.CalculateKeys |
