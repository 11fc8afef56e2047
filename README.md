# Jetty 9 webserver service: path decoding, CRL reloading, MDC access logging

This project models, in Dafny, three pieces of the Jetty 9 webserver service of
Trapperkeeper. It proves properties of each.

- **Legacy URI path decoder** (`OldURIUtil`, module `UriDecoding`). The decoder
  scans `path[offset..offset+length)` once. It replaces `%XY` by a byte and
  `%uXXXX` by a UTF-16 code unit, and drops each `;`-parameter up to the next
  `/`. If the range holds neither `%` nor `;`, it returns the range itself.
  - `decodePath` assembles the output as UTF-8. When the bytes are not valid
    UTF-8, it falls back to `decodeISO88591Path` over the same range.
  - The output is modelled as a sequence of tokens: a copied character, a byte
    or a code unit.
  - Both Java decoders run the same loop, modelled once as the method
    `ScanRange`. That loop is proved equal to the specification function `Scan`.
  - Proved properties: what each escape contributes, which inputs throw,
    that characters outside the range are never read (when `%u` escapes fit
    inside it), and that decoding inverts percent-encoding.
- **CRL reloading** (`InternalSslContextFactory`, module `CrlReload`).
  - The server and the client TLS context factory each own a CRL collection.
  - `loadCRL` serves the cached CRLs once a reload has succeeded.
  - `reload` re-parses the CRL file in a do-while loop. A failure uses up one try
    unless the file's modification time changed, which resets the counter to
    `maxTries` (25). Giving up logs one warning. A success rebuilds the SSL
    context.
  - The loop is proved against the specification function `Retry`. It gives up
    after exactly `maxTries` unchanged failures with `maxTries - 1` pauses. It
    never gives up while the file keeps changing.
- **MDC access-log converter** (`MDCAccessLogConverter`, module `MdcAccessLog`).
  - `start` and `stop` set and clear the configured key and default.
  - `convert` prints the configured key's value or the default. With no key it
    prints all entries as `k0=v0, k1=v1`, which is the pure `Joined` function.

## Model

| member | source | states |
|---|---|---|
| UriDecoding.HexValue | java/org/eclipse/jetty/util/OldURIUtil.java:85 | under the assumed strict digit rule, a character has a hex value exactly when it is 0-9, a-f or A-F, and the value is below 16 |
| UriDecoding.ParseHex | java/org/eclipse/jetty/util/OldURIUtil.java:80 | a successful read of `count` digits means all of them lie inside the string and are hexadecimal |
| UriDecoding.ParseHexAcceptsDigits | java/org/eclipse/jetty/util/OldURIUtil.java:80 | conversely, `count` hexadecimal digits that lie inside the string always parse |
| UriDecoding.NextSlash | java/org/eclipse/jetty/util/OldURIUtil.java:103-110 | the parameter skip stops at the first '/' before the end of the range, skipping no '/', or at the end |
| UriDecoding.StepAt | java/org/eclipse/jetty/util/OldURIUtil.java:63-118 | every turn of the loop that does not throw moves strictly forward |
| UriDecoding.Scan | java/org/eclipse/jetty/util/OldURIUtil.java:63-118 | the tokens the loop appends from position i to the end of the range, in order, or the first exception a turn throws; it has no contract of its own, and ScanRange, ScanPlainPrefix, ScanLocal and ScanEncoded state its properties |
| UriDecoding.ScanUnicodeEscape | java/org/eclipse/jetty/util/OldURIUtil.java:77-81 | %uXXXX adds the one code unit `0xffff & parseInt(XXXX, 16)` and resumes six characters on; a failed digit read throws |
| UriDecoding.ScanPercentEscape | java/org/eclipse/jetty/util/OldURIUtil.java:83-87 | %XY adds the single byte `(16*X + Y) & 0xff` and resumes three characters on; a non-hex digit throws |
| UriDecoding.ScanTruncatedEscape | java/org/eclipse/jetty/util/OldURIUtil.java:74-92 | a '%' with fewer than two characters after it in the range throws "Bad URI % encoding" |
| UriDecoding.ScanParameter | java/org/eclipse/jetty/util/OldURIUtil.java:96-112 | ';' drops everything up to the next '/', which is kept; with no '/' left, the rest of the range is dropped |
| UriDecoding.ScanOrdinary | java/org/eclipse/jetty/util/OldURIUtil.java:114-117 | any other character is copied unchanged |
| UriDecoding.ScanRange | java/org/eclipse/jetty/util/OldURIUtil.java:61-125 | the loop yields no builder exactly when the range has no '%' or ';', otherwise the builder holds the scan's tokens, or the loop throws what the scan throws |
| UriDecoding.ScanTurn | java/org/eclipse/jetty/util/OldURIUtil.java:65-118 | one turn of the switch keeps the loop invariant (builder absent means a plain prefix; builder present holds all tokens emitted so far) or throws what the scan throws |
| UriDecoding.StateAdvances | java/org/eclipse/jetty/util/OldURIUtil.java:63-118 | after a turn that emits, the builder holds everything emitted so far and the rest of the scan continues from the step's end |
| UriDecoding.CreateBuilder | java/org/eclipse/jetty/util/OldURIUtil.java:69-73 | the builder is created once, on the first '%' or ';', holding exactly the range's characters before that position |
| UriDecoding.DecodeEscape | java/org/eclipse/jetty/util/OldURIUtil.java:68-94 | the '%' case emits the escape's one token and skips its characters, or throws exactly as the scan does |
| UriDecoding.SkipParameter | java/org/eclipse/jetty/util/OldURIUtil.java:103-110 | the inner `while(++i<end)` loop stops at the next '/' or at the end of the range |
| UriDecoding.DecodeIso88591Path | java/org/eclipse/jetty/util/OldURIUtil.java:139-205 | the ISO-8859-1 decoder returns the range itself when it is plain (the whole path when the range is the whole path), otherwise the scan's tokens or its exception |
| UriDecoding.DecodePath | java/org/eclipse/jetty/util/OldURIUtil.java:57-133 | the UTF-8 decoder returns a plain range unchanged; it falls back to the ISO-8859-1 result exactly when UTF-8 assembly rejects the tokens |
| UriDecoding.DecodeWholePath | java/org/eclipse/jetty/util/OldURIUtil.java:49-52 | decoding a whole path decodes the range [0, length); a path with no '%' or ';' comes back unchanged |
| UriDecodingProperties.ScanPlainPrefix | java/org/eclipse/jetty/util/OldURIUtil.java:114-117 | a stretch with no '%' or ';' is emitted character for character |
| UriDecodingProperties.PrefixCopied | java/org/eclipse/jetty/util/OldURIUtil.java:69-73 | at the first special character a builder exists and starts with exactly the range's characters before it |
| UriDecodingProperties.TruncatedEscapeRejected | java/org/eclipse/jetty/util/OldURIUtil.java:89-92 | a first special character that is a truncated '%' makes both decoders throw BadEncoding, whatever UTF-8 assembly would do |
| UriDecodingProperties.ParseHexLocal | java/org/eclipse/jetty/util/OldURIUtil.java:80 | reading hex digits depends only on the characters read |
| UriDecodingProperties.NextSlashLocal | java/org/eclipse/jetty/util/OldURIUtil.java:103-110 | the parameter skip depends only on the characters inside the range |
| UriDecodingProperties.ScanLocal | java/org/eclipse/jetty/util/OldURIUtil.java:63-118 | two paths that agree on the range scan alike, provided every %u escape ends inside the range |
| UriDecodingProperties.DecodingIsLocal | java/org/eclipse/jetty/util/OldURIUtil.java:57-205 | both decoders depend only on path[offset..offset+length) when every %u escape ends inside it |
| UriDecodingProperties.BoundedDecodingIsLocal | java/org/eclipse/jetty/util/OldURIUtil.java:74-81 | with %u escapes required to fit the range, decoding never depends on characters outside the range |
| UriDecodingProperties.UnicodeEscapeReadsPastRange | java/org/eclipse/jetty/util/OldURIUtil.java:74-81 | the %u guard only checks `i+2<end`, so "%u1234" and "%u1567" agree on [0,3) yet decode there to different code units |
| UriDecodingProperties.Iso88591DecodingAsWritten | java/org/eclipse/jetty/util/OldURIUtil.java:139-205 | decodeISO88591Path with its prefix copy as written; a plain range still comes back verbatim, and any other range gives an exception or an assembled result |
| UriDecodingProperties.FirstSpecial | java/org/eclipse/jetty/util/OldURIUtil.java:143-153 | the builder-creating position is the first '%' or ';' of the range, or its end |
| UriDecodingProperties.AsWrittenAgreesFromZero | java/org/eclipse/jetty/util/OldURIUtil.java:149-153 | for ranges starting at 0 the ISO-8859-1 prefix copy as written is the intended one |
| UriDecodingProperties.IsoPrefixCopyDropsCharacters | java/org/eclipse/jetty/util/OldURIUtil.java:149-153 | with offset 1, the ISO-8859-1 decoder as written drops the 'b' of "ab%41" that the intended copy keeps |
| UriDecodingProperties.IsoPrefixCopyOutOfBounds | java/org/eclipse/jetty/util/OldURIUtil.java:149-153 | with offset 2, the copy's end lies before its start, so the decoder as written fails where the intended one decodes |
| UriDecodingProperties.IsoParameterCopyOutOfBounds | java/org/eclipse/jetty/util/OldURIUtil.java:176-181 | with offset 2, a ';' at the start of the range makes the as-written copy's end lie before its start, where the intended decoder drops the parameter |
| UriDecodingProperties.Utf8DecodingAsWritten | java/org/eclipse/jetty/util/OldURIUtil.java:57-133 | decodePath with its fallback going to the as-written ISO-8859-1 decoder, whether UTF-8 assembly throws part-way through the loop or on the finished tokens; a plain range comes back verbatim |
| UriDecodingProperties.Utf8DecodingRejectingMidScan | java/org/eclipse/jetty/util/OldURIUtil.java:57-133 | decodePath with the corrected fallback, falling back as soon as UTF-8 assembly throws part-way through the loop; it has no contract of its own, and MidScanRejectionIsInvisible states its property |
| UriDecodingProperties.MidScanRejectionIsInvisible | java/org/eclipse/jetty/util/OldURIUtil.java:127-131 | with the corrected fallback, an assembly that throws part-way through gives the same result as consulting UTF-8 assembly on the finished scan |
| UriDecodingProperties.MidScanRejectionOutOfBounds | java/org/eclipse/jetty/util/OldURIUtil.java:127-153 | on "ab%FF%" from offset 2, UTF-8 throws at the byte 0xFF and the as-written fallback fails at its prefix copy, where the intended decoder reports the truncated '%' |
| UriDecodingProperties.Utf8AsWrittenAgreesFromZero | java/org/eclipse/jetty/util/OldURIUtil.java:127-131 | for ranges starting at 0 the as-written fallback changes nothing, whenever UTF-8 assembly throws |
| UriDecodingProperties.Utf8FallbackDropsCharacters | java/org/eclipse/jetty/util/OldURIUtil.java:127-131 | through decodePath itself, "ab%FF" from offset 1 is rejected by UTF-8 assembly and the as-written fallback drops the 'b' that the intended fallback keeps |
| UriDecodingProperties.ParseHexOfUnitDigits | java/org/eclipse/jetty/util/OldURIUtil.java:80 | reading back four upper-case hex digits of a code unit gives that code unit |
| UriDecodingProperties.StepOverEncodedToken | java/org/eclipse/jetty/util/OldURIUtil.java:68-117 | one encoded token (a character other than '%' or ';', %XY or %uXXXX) is one turn of the loop emitting that token |
| UriDecodingProperties.ScanEncoded | java/org/eclipse/jetty/util/OldURIUtil.java:63-118 | scanning the percent-encoding of a token sequence emits exactly that sequence |
| UriDecodingProperties.DecodeEncodeRoundTrip | java/org/eclipse/jetty/util/OldURIUtil.java:57-205 | both decoders turn the percent-encoding of any token sequence back into that sequence |
| CrlReload.Retry | java/com/puppetlabs/trapperkeeper/services/webserver/jetty9/utils/InternalSslContextFactory.java:62-87 | the do-while from a given counter and stored modification time over the observed attempts; it has no contract of its own, and RetryShape and the lemmas after it state its properties |
| CrlReload.SslFactory.constructor | java/com/puppetlabs/trapperkeeper/services/webserver/jetty9/utils/InternalSslContextFactory.java:54 | the factory state the collection reads and drives: its CRL path, which `getCrlPath` returns, and a rebuild count that `factory.reload(consumer)` at line 91 raises, starting at zero |
| CrlReload.CrlCollection.constructor | java/com/puppetlabs/trapperkeeper/services/webserver/jetty9/utils/InternalSslContextFactory.java:31-34 | a new collection belongs to its factory and logger and has no cached CRLs |
| CrlReload.CrlCollection.LoadCrl | java/com/puppetlabs/trapperkeeper/services/webserver/jetty9/utils/InternalSslContextFactory.java:36-48 | once a reload has cached CRLs those are returned; before that the file is parsed, and its error passes through |
| CrlReload.CrlCollection.Reload | java/com/puppetlabs/trapperkeeper/services/webserver/jetty9/utils/InternalSslContextFactory.java:50-94 | with no CRL path the context is rebuilt and nothing is retried; otherwise attempts, pauses and outcome are those of `Retry`, the cache changes only on success, one warning is logged exactly on a warned give-up, and the context is rebuilt only on success |
| CrlReload.RetryStep | java/com/puppetlabs/trapperkeeper/services/webserver/jetty9/utils/InternalSslContextFactory.java:62-87 | one pass of the do-while: a success ends the loop; a failure resets the counter when the file changed, otherwise decrements it, and the loop goes on while the counter is positive |
| CrlReload.ContextFactory.constructor | java/com/puppetlabs/trapperkeeper/services/webserver/jetty9/utils/InternalSslContextFactory.java:97-102 | each server or client factory gets its own fresh, empty CRL collection that logs through its role's logger |
| CrlReload.ContextFactory.LoadCrl | java/com/puppetlabs/trapperkeeper/services/webserver/jetty9/utils/InternalSslContextFactory.java:104-107 | a factory's loadCRL is its own collection's |
| CrlReload.ContextFactory.Reload | java/com/puppetlabs/trapperkeeper/services/webserver/jetty9/utils/InternalSslContextFactory.java:109-111 | a factory's reload is its own collection's reload and touches no other factory's collection |
| CrlReloadProperties.RetryShape | java/com/puppetlabs/trapperkeeper/services/webserver/jetty9/utils/InternalSslContextFactory.java:62-87 | a run consumes attempts up to the one that ends it, all failures except a final success; giving up leaves the counter at or below zero and warns exactly when it is zero; one pause follows each failure except the warned one |
| CrlReloadProperties.GiveUpAfterTries | java/com/puppetlabs/trapperkeeper/services/webserver/jetty9/utils/InternalSslContextFactory.java:71-87 | with the file unchanged, a counter at `tries` gives up after exactly `tries` failures, with `tries - 1` pauses and a warning carrying the last failure's cause |
| CrlReloadProperties.GiveUpAfterMaxTries | java/com/puppetlabs/trapperkeeper/services/webserver/jetty9/utils/InternalSslContextFactory.java:15-16 | with the shipped limit of 25, an unchanged failing file costs 25 attempts, 2400 ms of pauses and one warning |
| CrlReloadProperties.GivingUpWarns | java/com/puppetlabs/trapperkeeper/services/webserver/jetty9/utils/InternalSslContextFactory.java:76-82 | with a positive limit the counter reaches exactly zero, so every give-up logs the warning |
| CrlReloadProperties.CounterStaysInRange | java/com/puppetlabs/trapperkeeper/services/webserver/jetty9/utils/InternalSslContextFactory.java:53-87 | with a limit of at least one, the counter stays within [0, maxTries] and ends at zero exactly when the loop gave up |
| CrlReloadProperties.NonPositiveLimitGivesUpSilently | java/com/puppetlabs/trapperkeeper/services/webserver/jetty9/utils/InternalSslContextFactory.java:76-87 | with a limit below one, the first unchanged failure ends the loop after a pause, with no warning |
| CrlReloadProperties.SuccessWithinTriesWins | java/com/puppetlabs/trapperkeeper/services/webserver/jetty9/utils/InternalSslContextFactory.java:62-87 | a parse that would succeed within the first `tries` attempts is always reached, since each failure lowers the counter by at most one |
| CrlReloadProperties.ChangingFileNeverGivesUp | java/com/puppetlabs/trapperkeeper/services/webserver/jetty9/utils/InternalSslContextFactory.java:71-74 | while the CRL file changes between failures the counter keeps being reset, so the loop ends only by succeeding |
| CrlReloadProperties.FirstSuccessEndsLoop | java/com/puppetlabs/trapperkeeper/services/webserver/jetty9/utils/InternalSslContextFactory.java:63-65 | a first attempt that parses ends the loop at once, with no pause |
| MdcAccessLog.Lookup | java/com/puppetlabs/trapperkeeper/services/webserver/jetty9/utils/MDCAccessLogConverter.java:67 | a found value is stored under the key; nothing is found exactly when no entry has the key |
| MdcAccessLog.Joined | java/com/puppetlabs/trapperkeeper/services/webserver/jetty9/utils/MDCAccessLogConverter.java:81-89 | every entry printed as key=value, in order, separated by ", "; the text is empty exactly when there are no entries |
| MdcAccessLog.ExtractMdc | java/com/puppetlabs/trapperkeeper/services/webserver/jetty9/utils/MDCAccessLogConverter.java:94-101 | the MDC the request log handler stored on the request, or none; it has no contract of its own |
| MdcAccessLog.MdcConverter.constructor | java/com/puppetlabs/trapperkeeper/services/webserver/jetty9/utils/MDCAccessLogConverter.java:29-30 | a new converter has no key and the empty default |
| MdcAccessLog.MdcConverter.Start | java/com/puppetlabs/trapperkeeper/services/webserver/jetty9/utils/MDCAccessLogConverter.java:32-41 | the key becomes the option's key part, which may be absent; the default changes only when the option gives one |
| MdcAccessLog.MdcConverter.Stop | java/com/puppetlabs/trapperkeeper/services/webserver/jetty9/utils/MDCAccessLogConverter.java:43-49 | stopping clears the key and resets the default to "" |
| MdcAccessLog.MdcConverter.Convert | java/com/puppetlabs/trapperkeeper/services/webserver/jetty9/utils/MDCAccessLogConverter.java:51-75 | no request or no MDC prints the default; no key prints all entries joined; a present key prints a value stored under it, and an absent key prints the default |
| MdcAccessLog.OutputMdcForAllKeys | java/com/puppetlabs/trapperkeeper/services/webserver/jetty9/utils/MDCAccessLogConverter.java:77-92 | the first-flag loop prints exactly the entries joined by ", ", each as key=value |
| MdcAccessLogProperties.LookupFindsStoredValue | java/com/puppetlabs/trapperkeeper/services/webserver/jetty9/utils/MDCAccessLogConverter.java:66-73 | on a map (distinct keys) the lookup returns v exactly when the pair (key, v) is stored |
| MdcAccessLogProperties.JoinedAppend | java/com/puppetlabs/trapperkeeper/services/webserver/jetty9/utils/MDCAccessLogConverter.java:81-89 | printing two non-empty runs of entries is printing each and separating them with one ", " |
| MdcAccessLogProperties.JoinedEnds | java/com/puppetlabs/trapperkeeper/services/webserver/jetty9/utils/MDCAccessLogConverter.java:82-88 | the printed text starts with the first entry's key=value and ends with the last one's, so there is no separator before the first or after the last |
| MdcAccessLogProperties.RestartWithoutDefault | java/com/puppetlabs/trapperkeeper/services/webserver/jetty9/utils/MDCAccessLogConverter.java:36-46 | a stop followed by a start with no default leaves the default empty, whatever it was before |

### Two choices about the URI decoder

- **The prefix copy follows the UTF-8 decoder.** When `DecodeIso88591Path`
  creates its builder, it copies the range's characters before the first
  special position, as the UTF-8 decoder does. The copy exactly as written is
  the function `Iso88591DecodingAsWritten` (see Findings).
  `DecodePath` falls back to this corrected decoder, so it inherits the
  correction. decodePath as written falls back to the as-written decoder, which
  is the function `Utf8DecodingAsWritten`. The two differ only when the range
  starts after position 0 and UTF-8 assembly rejects the tokens.
  `Utf8FallbackDropsCharacters` shows one such input, and
  `Utf8AsWrittenAgreesFromZero` shows that the two agree from position 0.
- **%u escapes may read past the range.** A `%u` escape that starts two
  characters before the end of the range is decoded as written: its four digits
  are read from beyond the range when the string continues. `UnicodeBound`
  selects between this and an escape bounded by the range.
  `UnicodeEscapeReadsPastRange` exhibits the difference, and
  `BoundedDecodingIsLocal` proves what the bound would buy.

## Left out

- `TypeUtil` is not part of this model.
  - `HexValue` stands for `convertHexDigit`. It is an assumed strict digit
    rule: 0-9, a-f and A-F are digits, and nothing else is.
  - `ParseHex` stands for `parseInt(path, i, 4, 16)`. It reads the four
    characters one by one with the same rule.
- UriDecoding.HexValue, ParseHex, ScanPercentEscape: their `NotHexDigit` cases
  hold only for this strict rule. They are HexValue's "exactly when", the
  failures of ParseHex, and ScanPercentEscape's failure on a bad digit. If the
  real `convertHexDigit` maps some other characters to values below 16, those
  escapes would decode in Java where the model fails. `:`, `@` and the
  backquote are examples when it works by bit arithmetic on the character.
  - A non-hex digit becomes `NotHexDigit`, and a read past the end of the
    string becomes `PastEndOfPath`. These stand for the Java exceptions.
    Exception classes and messages are not modelled.
- `Utf8StringBuilder` is not part of this model.
  - Its UTF-8 assembly is left abstract. The parameter `accepts` says whether
    assembly succeeds. When it is false, the Java code throws
    `NotUtf8Exception` and takes the fallback.
  - The builder may reject a byte before the loop ends. The corrected
    fallback then rescans the same range with the same branches, so it meets
    any later escape error too. `MidScanRejectionIsInvisible` proves that
    this makes the moment of rejection irrelevant. `DecodePath` therefore
    consults `accepts` only on a complete scan.
  - Its three-argument `append(String, offset, length)` is taken to copy
    `length` characters starting at `offset`.
- UriDecodingProperties.Utf8DecodingAsWritten: whether UTF-8 assembly throws
  part-way through the loop is a separate input, `rejectedMidScan`, and is not
  derived from `accepts`.
  - For decodePath as written the moment matters. The fallback's own prefix
    copy can fail before a later escape error is reached, as
    `MidScanRejectionOutOfBounds` shows.
  - `Utf8AsWrittenAgreesFromZero` and `MidScanRejectionIsInvisible` assume
    the two inputs are consistent (`ConsistentRejection`): a mid-scan
    rejection only for an escaped range whose tokens, if the scan completes,
    are rejected too.
- Decoded output is modelled as tokens, not text. At OldURIUtil.java:165 the
  ISO-8859-1 decoder passes a `byte` to `StringBuilder.append`, which Java
  resolves to `append(int)`: the byte is written as its signed decimal value.
  The model does not claim any character-level ISO-8859-1 result.
- The fallback's warning and debug logging (OldURIUtil.java:129-130) is not
  modelled.
- UriDecoding.DecodePath, DecodeIso88591Path, ScanRange: they require
  `offset + length <= |path|`, and `nat` excludes a negative offset or length.
  - For a range that runs past the string, Java decodes the characters inside
    it normally. It throws `StringIndexOutOfBoundsException` at the first read
    at or past `path.length()`.
  - It may also throw earlier, without any such read. A '%' with fewer than two
    characters after it inside the range throws "Bad URI % encoding" at line
    91, as in `decodePath("a%", 0, 3)`. Any other escape error in the range
    also comes first.
  - With length 0 and an offset past the end, the exception comes from
    `substring`.
  - Negative arguments make `charAt` or `substring` throw.
  - The model covers none of these exceptions.
- A Dafny `string` is a sequence of Unicode scalar values. A Java `String` is
  a sequence of UTF-16 code units, and may hold lone surrogates.
  - Offsets, lengths and `charAt` positions count code units in Java and
    scalar values here. They agree only for text without surrogate pairs.
  - A character outside the Basic Multilingual Plane is one position here but
    two in Java.
  - Strings holding a lone surrogate cannot be represented.
- The `synchronized (factory)` locking in `loadCRL` and `reload` is not
  modelled. The model is single-threaded.
- The file system and the CRL parser become inputs:
  - `Thread.sleep` is counted as pauses (`sleeps`, 100 ms each).
  - `File.lastModified` and `CertificateUtils.loadCRL` are supplied as a finite
    sequence of attempts. Each attempt is a parse result plus the
    modification-time reads that follow a failure.
  - `SslContextFactory.reload(consumer)` is counted in `SslFactory.reloads`.
  - The `InterruptedException` that `Thread.sleep` may throw is not modelled.
- CrlReload.CrlCollection.Reload: when the supplied attempts run out before the
  loop ends, the run stops with `Pending`. The Java loop would keep going: it
  never ends while the file keeps changing and parsing keeps failing.
- The static `maxTries` is a parameter of `Reload`. The constant `MaxTries` (25)
  is its shipped value.
  - The counter is an unbounded integer here and a 32-bit `int` in Java.
  - With `maxTries` at `Integer.MIN_VALUE`, Java's `tries--` would wrap to a
    positive value and the loop would go on. `NonPositiveLimitGivesUpSilently`
    says it stops.
  - The shipped value 25 is private and never reassigned, so no configuration
    reaches this.
- The Java `Server` and `Client` classes are modelled as one class,
  `ContextFactory`, with a `Role`. They differ only in their logger.
  - The Jetty factory state the collection reads (the CRL path and the rebuild
    count) is a separate `SslFactory` object.
  - In Java that state is the `Server` or `Client` object itself.
- Logback's `OptionHelper.extractDefaultReplacement` is not part of this model.
  `Start` receives the key and default parts already split.
  `HttpServletRequest.getAttribute` is replaced by the request's optional MDC.
  `super.start()` and `super.stop()` are modelled as the `started` flag.
- MDC entries are a sequence in the map's iteration order, because `HashMap`
  order is unspecified. `null` keys and values are not modelled.
- MdcAccessLog.MdcConverter.Convert: for a present key it states that the
  printed value is stored under that key. It does not state which value is
  printed when a sequence repeats a key. `LookupFindsStoredValue` makes the
  value unique for a real map.

## Findings

| source | as written | input that shows it | evidently intended | confidence | as-written member | corrected member |
|---|---|---|---|---|---|---|
| java/org/eclipse/jetty/util/OldURIUtil.java:149-153, 177-181 | the ISO-8859-1 decoder creates its builder with `append(path, offset, i-offset)`. On a `StringBuilder` that overload takes a start and an END index, so it copies `path[offset..i-offset)` | `decodeISO88591Path("ab%41", 1, 4)` copies nothing before the escape and drops the 'b'. With offset 2 and length 3, or `"ab;x"` from offset 2, the copy's end (0) lies before its start (2), so the call fails. Through the public method, `decodePath("ab%FF", 1, 4)` is rejected by UTF-8 assembly, and the fallback drops the 'b'. `decodePath("ab%FF%", 2, 4)` throws out of bounds at the fallback's copy where the truncated '%' should be reported | copy the `i-offset` characters `path[offset..i)`, as the UTF-8 decoder's `append(String, offset, length)` does at lines 69-73 | high; not executed | UriDecodingProperties.Iso88591DecodingAsWritten, UriDecodingProperties.IsoPrefixCopyDropsCharacters, UriDecodingProperties.Utf8FallbackDropsCharacters, UriDecodingProperties.MidScanRejectionOutOfBounds | UriDecoding.DecodeIso88591Path, UriDecoding.DecodePath, UriDecodingProperties.PrefixCopied |
