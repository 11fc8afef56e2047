/** Jetty's legacy URI path decoder (OldURIUtil.decodePath and its ISO-8859-1
    fallback). The decoder scans path[offset..offset+length) once, replaces
    percent-encoded triplets (section 2.1 of RFC 3986) and the non-standard
    %uXXXX form by what they denote, and drops the `;`-parameters of each path
    segment (section 3.3 of RFC 3986).

    The decoded output is described as a sequence of tokens; how a string
    builder renders those tokens as text (UTF-8 assembly, or the ISO-8859-1
    builder) is left abstract. */
module UriDecoding {
  import opened Wrappers

  type ByteValue = b: int | 0 <= b < 0x100
  type UnitValue = u: int | 0 <= u < 0x1_0000

  /** One piece of decoded output: a character copied from the path, the
      UTF-16 code unit of a %uXXXX escape, or the byte of a %XY escape. */
  datatype Token = Char(c: char) | Unit(u: UnitValue) | Byte(b: ByteValue)

  /** The ways a decode can throw. */
  datatype DecodeError =
    | BadEncoding     // a '%' with fewer than two characters after it in the range
    | NotHexDigit     // a digit of an escape is not hexadecimal
    | PastEndOfPath   // the digits of a %u escape run off the end of the string
    | OutOfBounds     // a copy whose start lies after its end

  datatype Charset = Utf8 | Iso88591

  /** What a decoder returns: the range itself when it holds neither '%' nor
      ';' (no builder was ever created), or the text a builder assembled. */
  datatype Decoded = Verbatim(text: string) | Assembled(charset: Charset, tokens: seq<Token>)

  /** How far the four digits of a %u escape may lie: the code as written
      only checks that two characters follow the '%' inside the range
      (PastRange); WithinRange is the bound the range contract implies. */
  datatype UnicodeBound = PastRange | WithinRange

  predicate IsSpecial(c: char) {
    c == '%' || c == ';'
  }

  /** No character of path[a..b) makes the decoder start a builder. */
  predicate PlainBetween(path: string, a: nat, b: nat)
    requires b <= |path|
  {
    forall k :: a <= k < b ==> !IsSpecial(path[k])
  }

  predicate Plain(s: string) {
    PlainBetween(s, 0, |s|)
  }

  function Chars(s: string): seq<Token> {
    seq(|s|, k requires 0 <= k < |s| => Char(s[k]))
  }

  function TokensOf(d: Decoded): seq<Token> {
    match d
    case Verbatim(text) => Chars(text)
    case Assembled(_, ts) => ts
  }

  // ---------------------------------------------------------------------
  // Hexadecimal digits

  /** The value of a hexadecimal digit. This stands in for
      TypeUtil.convertHexDigit, which is not part of this model: it is taken
      to accept exactly 0-9, a-f and A-F and to reject every other character. */
  function HexValue(c: char): (r: Option<nat>)
    ensures r.Some? <==> ('0' <= c <= '9' || 'a' <= c <= 'f' || 'A' <= c <= 'F')
    ensures r.Some? ==> r.value < 16
  {
    if '0' <= c <= '9' then Some(c as int - '0' as int)
    else if 'a' <= c <= 'f' then Some(c as int - 'a' as int + 10)
    else if 'A' <= c <= 'F' then Some(c as int - 'A' as int + 10)
    else None
  }

  predicate IsHexDigit(c: char) {
    HexValue(c).Some?
  }

  /** The upper-case digit for a value below 16. */
  function HexChar(d: nat): (c: char)
    requires d < 16
    ensures HexValue(c) == Some(d)
  {
    if d < 10 then ('0' as int + d) as char else ('A' as int + d - 10) as char
  }

  /** The digits path[j..j+count), read one at a time onto the accumulated
      value `acc`. This stands in for TypeUtil.parseInt(path, j, count, 16),
      which is not part of this model: it is taken to read each character
      with the digit rule of HexValue and to fail on the first one that is
      off the string or not a digit. */
  function ParseHex(path: string, j: nat, count: nat, acc: nat): (r: Result<nat, DecodeError>)
    ensures r.Ok? ==> count == 0 || j + count <= |path|
    ensures r.Ok? ==> forall k | j <= k < j + count && k < |path| :: IsHexDigit(path[k])
    decreases count
  {
    if count == 0 then Ok(acc)
    else if j >= |path| then Err(PastEndOfPath)
    else if !IsHexDigit(path[j]) then Err(NotHexDigit)
    else ParseHex(path, j + 1, count - 1, acc * 16 + HexValue(path[j]).value)
  }

  /** The converse of ParseHex's contract: `count` hexadecimal digits that
      all lie inside the string always parse. */
  lemma {:induction false} ParseHexAcceptsDigits(path: string, j: nat, count: nat, acc: nat)
    requires j + count <= |path|
    requires forall k | j <= k < j + count :: IsHexDigit(path[k])
    ensures ParseHex(path, j, count, acc).Ok?
    decreases count
  {
    if count > 0 {
      ParseHexAcceptsDigits(path, j + 1, count - 1, acc * 16 + HexValue(path[j]).value);
    }
  }

  // ---------------------------------------------------------------------
  // The scan, as a specification

  /** Puts `ts` in front of a successful result and lets an error through. */
  function Prepend(ts: seq<Token>, r: Result<seq<Token>, DecodeError>): Result<seq<Token>, DecodeError> {
    match r
    case Ok(rest) => Ok(ts + rest)
    case Err(e) => Err(e)
  }

  /** The first position at or after k and before end that holds a '/', or
      end when there is none: where a `;`-parameter stops. */
  function NextSlash(path: string, k: nat, end: nat): (r: nat)
    requires k <= end <= |path|
    ensures k <= r <= end
    ensures r < end ==> path[r] == '/'
    ensures forall m :: k <= m < r ==> path[m] != '/'
    decreases end - k
  {
    if k == end then end
    else if path[k] == '/' then k
    else NextSlash(path, k + 1, end)
  }

  /** One turn of the decoder's loop at a position inside the range: the
      tokens it appends and the position the next turn starts from, or the
      exception it throws. */
  datatype Step = Emit(tokens: seq<Token>, next: nat) | Fail(error: DecodeError)

  function StepAt(path: string, i: nat, end: nat, bound: UnicodeBound): (s: Step)
    requires i < end <= |path|
    ensures s.Emit? ==> s.next > i
  {
    if path[i] == '%' then
      if i + 2 < end then
        if path[i + 1] == 'u' then
          if bound == WithinRange && i + 6 > end then Fail(BadEncoding)
          else match ParseHex(path, i + 2, 4, 0)
            case Err(e) => Fail(e)
            case Ok(v) => Emit([Unit(v % 0x1_0000)], i + 6)
        else if HexValue(path[i + 1]).Some? && HexValue(path[i + 2]).Some?
        then Emit([Byte((HexValue(path[i + 1]).value * 16 + HexValue(path[i + 2]).value) % 0x100)], i + 3)
        else Fail(NotHexDigit)
      else Fail(BadEncoding)
    else if path[i] == ';' then
      var j := NextSlash(path, i + 1, end);
      if j < end then Emit([Char('/')], j + 1) else Emit([], end + 1)
    else Emit([Char(path[i])], i + 1)
  }

  /** Every token the decoder emits from position i to the end of the range,
      in order; the prefix before the first '%' or ';' is included, as the
      builder copies it in when it is created. */
  function Scan(path: string, i: nat, end: nat, bound: UnicodeBound): Result<seq<Token>, DecodeError>
    requires end <= |path|
    decreases end - i
  {
    if i >= end then Ok([])
    else match StepAt(path, i, end, bound)
      case Fail(e) => Err(e)
      case Emit(ts, next) => Prepend(ts, Scan(path, next, end, bound))
  }

  // ---------------------------------------------------------------------
  // One step of the scan

  /** %uXXXX contributes one code unit, `0xffff & parseInt(XXXX, 16)`, and
      consumes six characters. */
  lemma ScanUnicodeEscape(path: string, i: nat, end: nat, bound: UnicodeBound)
    requires end <= |path| && i + 2 < end && path[i] == '%' && path[i + 1] == 'u'
    requires bound == WithinRange ==> i + 6 <= end
    ensures ParseHex(path, i + 2, 4, 0).Err? ==> Scan(path, i, end, bound) == Err(ParseHex(path, i + 2, 4, 0).error)
    ensures ParseHex(path, i + 2, 4, 0).Ok? ==>
              Scan(path, i, end, bound) == Prepend([Unit(ParseHex(path, i + 2, 4, 0).value % 0x1_0000)], Scan(path, i + 6, end, bound))
  {
  }

  /** %XY (X not 'u') contributes the single byte `(16 * X + Y) & 0xff` and
      consumes three characters; a digit that is not hexadecimal fails. */
  lemma ScanPercentEscape(path: string, i: nat, end: nat, bound: UnicodeBound)
    requires end <= |path| && i + 2 < end && path[i] == '%' && path[i + 1] != 'u'
    ensures HexValue(path[i + 1]).None? || HexValue(path[i + 2]).None? ==> Scan(path, i, end, bound) == Err(NotHexDigit)
    ensures HexValue(path[i + 1]).Some? && HexValue(path[i + 2]).Some? ==>
              Scan(path, i, end, bound)
              == Prepend([Byte((HexValue(path[i + 1]).value * 16 + HexValue(path[i + 2]).value) % 0x100)], Scan(path, i + 3, end, bound))
  {
  }

  /** A '%' with fewer than two characters after it inside the range fails. */
  lemma ScanTruncatedEscape(path: string, i: nat, end: nat, bound: UnicodeBound)
    requires end <= |path| && i < end <= i + 2 && path[i] == '%'
    ensures Scan(path, i, end, bound) == Err(BadEncoding)
  {
  }

  /** A ';' drops everything up to the next '/', which is kept; with no '/'
      left in the range, the rest of the range is dropped. */
  lemma ScanParameter(path: string, i: nat, end: nat, bound: UnicodeBound)
    requires end <= |path| && i < end && path[i] == ';'
    ensures var j := NextSlash(path, i + 1, end);
            Scan(path, i, end, bound) == if j < end then Prepend([Char('/')], Scan(path, j + 1, end, bound)) else Ok([])
  {
    var none: seq<Token> := [];
    assert none + none == none;
  }

  /** Any other character is copied. */
  lemma ScanOrdinary(path: string, i: nat, end: nat, bound: UnicodeBound)
    requires end <= |path| && i < end && !IsSpecial(path[i])
    ensures Scan(path, i, end, bound) == Prepend([Char(path[i])], Scan(path, i + 1, end, bound))
  {
  }

  /** The outcome of the scanning loop over path[offset..offset+length): no
      builder (None) when the range is plain, else the builder's tokens. */
  function BuilderOutcome(path: string, offset: nat, length: nat, bound: UnicodeBound): Result<Option<seq<Token>>, DecodeError>
    requires offset + length <= |path|
  {
    if PlainBetween(path, offset, offset + length) then Ok(None)
    else match Scan(path, offset, offset + length, bound)
      case Ok(ts) => Ok(Some(ts))
      case Err(e) => Err(e)
  }

  /** What decodeISO88591Path returns. */
  function Iso88591Decoding(path: string, offset: nat, length: nat): Result<Decoded, DecodeError>
    requires offset + length <= |path|
  {
    match BuilderOutcome(path, offset, length, PastRange)
    case Err(e) => Err(e)
    case Ok(None) => Ok(Verbatim(path[offset..offset + length]))
    case Ok(Some(ts)) => Ok(Assembled(Iso88591, ts))
  }

  /** What decodePath returns, given whether UTF-8 assembly accepts a token
      sequence (`accepts(ts)` is false when the builder throws
      NotUtf8Exception on it). */
  function Utf8Decoding(path: string, offset: nat, length: nat, accepts: seq<Token> -> bool): Result<Decoded, DecodeError>
    requires offset + length <= |path|
  {
    var iso := Iso88591Decoding(path, offset, length);
    if iso.Ok? && iso.value.Assembled? && accepts(iso.value.tokens)
    then Ok(Assembled(Utf8, iso.value.tokens))
    else iso
  }

  // ---------------------------------------------------------------------
  // The decoders

  /** What holds at the top of each turn of the scanning loop: before the
      builder exists the range so far is plain and `emitted` is its
      characters; once it exists it holds `emitted`; and the whole scan is
      `emitted` followed by the scan from i. */
  ghost predicate ScanState(path: string, offset: nat, end: nat, i: nat, builder: Option<seq<Token>>, emitted: seq<Token>, special: nat)
    requires end <= |path|
  {
    && offset <= i
    && (builder.None? ==> i <= end && PlainBetween(path, offset, i) && emitted == Chars(path[offset..i]))
    && (builder.Some? ==> offset <= special < end && IsSpecial(path[special]) && emitted == builder.value)
    && Scan(path, offset, end, PastRange) == Prepend(emitted, Scan(path, i, end, PastRange))
  }

  /** The scanning loop both decoders run: `builder` stays None until the
      first '%' or ';', and is then created holding the characters before it. */
  method ScanRange(path: string, offset: nat, length: nat) returns (r: Result<Option<seq<Token>>, DecodeError>)
    requires offset + length <= |path|
    ensures r == BuilderOutcome(path, offset, length, PastRange)
  {
    var end := offset + length;
    var builder: Option<seq<Token>> := None;
    var i := offset;
    ghost var emitted: seq<Token> := [];
    ghost var special: nat := offset;
    PrependNil(Scan(path, offset, end, PastRange));
    while i < end
      invariant ScanState(path, offset, end, i, builder, emitted, special)
      decreases end - i
    {
      var failure, next;
      failure, next, builder, emitted, special := ScanTurn(path, offset, end, i, builder, emitted, special);
      if failure.Some? {
        assert !PlainBetween(path, offset, end) by {
          assert IsSpecial(path[i]);
        }
        return Err(failure.value);
      }
      i := next;
    }
    assert Scan(path, i, end, PastRange) == Ok([]);
    if builder.Some? {
      assert builder.value + [] == builder.value;
    } else {
      assert PlainBetween(path, offset, offset + length);
    }
    r := Ok(builder);
  }

  /** One turn of the scanning loop, at the character path[i]: the switch on
      '%', ';' and any other character, ending where the next turn starts. */
  method ScanTurn(path: string, offset: nat, end: nat, i: nat, builder: Option<seq<Token>>, ghost emitted: seq<Token>, ghost special: nat)
    returns (failure: Option<DecodeError>, next: nat, builder': Option<seq<Token>>, ghost emitted': seq<Token>, ghost special': nat)
    requires i < end <= |path|
    requires ScanState(path, offset, end, i, builder, emitted, special)
    ensures failure.Some? ==> path[i] == '%' && Scan(path, offset, end, PastRange) == Err(failure.value)
    ensures failure.None? ==> next > i && ScanState(path, offset, end, next, builder', emitted', special')
  {
    ghost var step := StepAt(path, i, end, PastRange);
    failure, next, builder', emitted', special' := None, i, builder, emitted, special;
    var c := path[i];
    if c == '%' || c == ';' {
      if builder.None? {
        special' := i;
      }
      builder' := CreateBuilder(path, offset, i, builder);
    }
    if c == '%' {
      var escaped, skip := DecodeEscape(path, i, end);
      if escaped.Err? {
        ScanFails(path, offset, i, end, emitted, escaped.error);
        return Some(escaped.error), i, builder', emitted', special';
      }
      builder' := Some(builder'.value + [escaped.value]);
      next := i + skip;
    } else if c == ';' {
      var j := SkipParameter(path, i, end);
      if j < end {
        builder' := Some(builder'.value + [Char('/')]);
      }
      next := j;
    } else if builder'.Some? {
      builder' := Some(builder'.value + [Char(c)]);
    }
    next := next + 1;
    StateAdvances(path, offset, end, i, builder, emitted, special, builder', special');
    emitted' := emitted + step.tokens;
  }

  /** One emitting turn keeps ScanState, whatever the case: the builder, if
      there is one now, holds what was emitted before and the step's tokens. */
  lemma StateAdvances(path: string, offset: nat, end: nat, i: nat, builder: Option<seq<Token>>, emitted: seq<Token>, special: nat,
                      builder': Option<seq<Token>>, special': nat)
    requires i < end <= |path|
    requires ScanState(path, offset, end, i, builder, emitted, special)
    requires StepAt(path, i, end, PastRange).Emit?
    requires builder'.Some? ==>
               && builder'.value == emitted + StepAt(path, i, end, PastRange).tokens
               && offset <= special' < end && IsSpecial(path[special'])
    requires builder'.None? ==> builder.None? && !IsSpecial(path[i])
    ensures var step := StepAt(path, i, end, PastRange);
            ScanState(path, offset, end, step.next, builder', emitted + step.tokens, special')
  {
    Advance(path, offset, i, end, emitted);
    if builder'.None? {
      assert path[offset..i + 1] == path[offset..i] + [path[i]];
      CharsSnoc(path[offset..i], path[i]);
    }
  }

  /** The builder, created on first need holding the characters of the
      range before position i. */
  method CreateBuilder(path: string, offset: nat, i: nat, builder: Option<seq<Token>>) returns (created: Option<seq<Token>>)
    requires offset <= i <= |path|
    ensures created.Some?
    ensures builder.None? ==> created.value == Chars(path[offset..i])
    ensures builder.Some? ==> created == builder
  {
    created := builder;
    if created.None? {
      created := Some(Chars(path[offset..i]));
    }
  }

  /** The `%` case of the loop: the token the escape at i stands for and
      how many characters after the '%' it consumes. */
  method DecodeEscape(path: string, i: nat, end: nat) returns (r: Result<Token, DecodeError>, skip: nat)
    requires i < end <= |path| && path[i] == '%'
    ensures r.Err? ==> StepAt(path, i, end, PastRange) == Fail(r.error)
    ensures r.Ok? ==> StepAt(path, i, end, PastRange) == Emit([r.value], i + skip + 1)
  {
    skip := 0;
    if i + 2 < end {
      var u := path[i + 1];
      if u == 'u' {
        var parsed := ParseHex(path, i + 2, 4, 0);
        if parsed.Err? {
          return Err(parsed.error), 0;
        }
        r := Ok(Unit(parsed.value % 0x1_0000));
        skip := 5;
      } else {
        var hi := HexValue(u);
        var lo := HexValue(path[i + 2]);
        if hi.None? || lo.None? {
          return Err(NotHexDigit), 0;
        }
        r := Ok(Byte((hi.value * 16 + lo.value) % 0x100));
        skip := 2;
      }
    } else {
      r := Err(BadEncoding);
    }
  }

  /** The inner `while (++i < end)` loop of the `;` case: the position of
      the '/' that ends the parameter, or end when the range has none. */
  method SkipParameter(path: string, semi: nat, end: nat) returns (j: nat)
    requires semi < end <= |path|
    ensures j == NextSlash(path, semi + 1, end)
  {
    j := semi + 1;
    while j < end
      invariant semi < j <= end
      invariant NextSlash(path, semi + 1, end) == NextSlash(path, j, end)
    {
      if path[j] == '/' {
        break;
      }
      j := j + 1;
    }
  }

  /** The scan from i is the tokens of a step that emits, followed by the
      scan from where the step leaves off. */
  lemma ScanStep(path: string, i: nat, end: nat, bound: UnicodeBound, ts: seq<Token>, next: nat)
    requires i < end <= |path|
    requires StepAt(path, i, end, bound) == Emit(ts, next)
    ensures Scan(path, i, end, bound) == Prepend(ts, Scan(path, next, end, bound))
  {
  }

  /** One emitting turn of the loop keeps the scan from offset equal to what
      was emitted followed by the scan from the current position. */
  lemma Advance(path: string, offset: nat, i: nat, end: nat, emitted: seq<Token>)
    requires i < end <= |path|
    requires Scan(path, offset, end, PastRange) == Prepend(emitted, Scan(path, i, end, PastRange))
    requires StepAt(path, i, end, PastRange).Emit?
    ensures var step := StepAt(path, i, end, PastRange);
            Scan(path, offset, end, PastRange) == Prepend(emitted + step.tokens, Scan(path, step.next, end, PastRange))
  {
    var step := StepAt(path, i, end, PastRange);
    ScanStep(path, i, end, PastRange, step.tokens, step.next);
    PrependAssoc(emitted, step.tokens, Scan(path, step.next, end, PastRange));
  }

  /** Once the scan from i fails, the whole scan fails the same way. */
  lemma ScanFails(path: string, offset: nat, i: nat, end: nat, done: seq<Token>, e: DecodeError)
    requires offset <= i < end <= |path|
    requires Scan(path, offset, end, PastRange) == Prepend(done, Scan(path, i, end, PastRange))
    requires StepAt(path, i, end, PastRange) == Fail(e)
    ensures Scan(path, offset, end, PastRange) == Err(e)
  {
  }

  lemma PrependNil(r: Result<seq<Token>, DecodeError>)
    ensures Prepend([], r) == r
  {
    if r.Ok? {
      assert [] + r.value == r.value;
    }
  }

  lemma PrependAssoc(a: seq<Token>, b: seq<Token>, r: Result<seq<Token>, DecodeError>)
    ensures Prepend(a, Prepend(b, r)) == Prepend(a + b, r)
  {
    if r.Ok? {
      assert a + (b + r.value) == (a + b) + r.value;
    }
  }

  lemma CharsSnoc(s: string, c: char)
    ensures Chars(s + [c]) == Chars(s) + [Char(c)]
  {
  }

  /** decodeISO88591Path(path, offset, length), with the builder created
      holding path[offset..i) as the UTF-8 decoder does (the copy as written
      is Iso88591DecodingAsWritten). */
  method DecodeIso88591Path(path: string, offset: nat, length: nat) returns (r: Result<Decoded, DecodeError>)
    requires offset + length <= |path|
    ensures r == Iso88591Decoding(path, offset, length)
    ensures PlainBetween(path, offset, offset + length) ==> r == Ok(Verbatim(path[offset..offset + length]))
    ensures Plain(path) && offset == 0 && length == |path| ==> r == Ok(Verbatim(path))
  {
    var scanned := ScanRange(path, offset, length);
    match scanned
    case Err(e) =>
      r := Err(e);
    case Ok(None) =>
      if offset == 0 && length == |path| {
        assert path[offset..offset + length] == path;
        r := Ok(Verbatim(path));
      } else {
        r := Ok(Verbatim(path[offset..offset + length]));
      }
    case Ok(Some(ts)) =>
      r := Ok(Assembled(Iso88591, ts));
  }

  /** decodePath(path, offset, length): on NotUtf8Exception it falls back
      to decodeISO88591Path over the same range. */
  method DecodePath(path: string, offset: nat, length: nat, accepts: seq<Token> -> bool) returns (r: Result<Decoded, DecodeError>)
    requires offset + length <= |path|
    ensures r == Utf8Decoding(path, offset, length, accepts)
    ensures r.Ok? && r.value.Assembled? && r.value.charset == Iso88591 ==>
              !accepts(r.value.tokens) && r == Iso88591Decoding(path, offset, length)
    ensures PlainBetween(path, offset, offset + length) ==> r == Ok(Verbatim(path[offset..offset + length]))
  {
    var scanned := ScanRange(path, offset, length);
    match scanned
    case Err(e) =>
      r := Err(e);
    case Ok(None) =>
      if offset == 0 && length == |path| {
        assert path[offset..offset + length] == path;
        r := Ok(Verbatim(path));
      } else {
        r := Ok(Verbatim(path[offset..offset + length]));
      }
    case Ok(Some(ts)) =>
      if accepts(ts) {
        r := Ok(Assembled(Utf8, ts));
      } else {
        r := DecodeIso88591Path(path, offset, length);
      }
  }

  /** decodePath(path): the whole string as the range. */
  method DecodeWholePath(path: string, accepts: seq<Token> -> bool) returns (r: Result<Decoded, DecodeError>)
    ensures r == Utf8Decoding(path, 0, |path|, accepts)
    ensures Plain(path) ==> r == Ok(Verbatim(path))
  {
    r := DecodePath(path, 0, |path|, accepts);
    assert path[0..|path|] == path;
  }
}

/** Properties of the path decoder: what it copies, what it rejects, which
    characters it reads, and that it inverts percent-encoding. */
module UriDecodingProperties {
  import opened Wrappers
  import opened UriDecoding

  lemma CharsSplit(s: string)
    requires s != []
    ensures Chars(s) == [Char(s[0])] + Chars(s[1..])
  {
  }

  /** A plain stretch path[i..k) is emitted character for character. */
  lemma {:induction false} ScanPlainPrefix(path: string, i: nat, k: nat, end: nat, bound: UnicodeBound)
    requires i <= k <= end <= |path|
    requires PlainBetween(path, i, k)
    ensures Scan(path, i, end, bound) == Prepend(Chars(path[i..k]), Scan(path, k, end, bound))
    decreases k - i
  {
    if i == k {
      assert Chars(path[i..k]) == [];
      PrependNil(Scan(path, k, end, bound));
    } else {
      assert StepAt(path, i, end, bound) == Emit([Char(path[i])], i + 1);
      ScanPlainPrefix(path, i + 1, k, end, bound);
      PrependAssoc([Char(path[i])], Chars(path[i + 1..k]), Scan(path, k, end, bound));
      CharsSplit(path[i..k]);
      assert path[i..k][1..] == path[i + 1..k];
    }
  }

  /** The characters before the first '%' or ';' of the range start the
      builder's output unchanged. */
  lemma PrefixCopied(path: string, offset: nat, length: nat, k: nat, bound: UnicodeBound)
    requires offset <= k < offset + length <= |path|
    requires PlainBetween(path, offset, k) && IsSpecial(path[k])
    requires BuilderOutcome(path, offset, length, bound).Ok?
    ensures var built := BuilderOutcome(path, offset, length, bound).value;
            built.Some? && k - offset <= |built.value| && built.value[..k - offset] == Chars(path[offset..k])
  {
    ScanPlainPrefix(path, offset, k, offset + length, bound);
  }

  /** When the first '%' or ';' of the range is a '%' with fewer than two
      characters after it in the range, both decoders throw. */
  lemma TruncatedEscapeRejected(path: string, offset: nat, length: nat, k: nat, accepts: seq<Token> -> bool)
    requires offset <= k < offset + length <= k + 2 && offset + length <= |path|
    requires PlainBetween(path, offset, k) && path[k] == '%'
    ensures Iso88591Decoding(path, offset, length) == Err(BadEncoding)
    ensures Utf8Decoding(path, offset, length, accepts) == Err(BadEncoding)
  {
    ScanPlainPrefix(path, offset, k, offset + length, PastRange);
    assert StepAt(path, k, offset + length, PastRange) == Fail(BadEncoding);
  }

  // -------------------------------------------------------------------
  // Which characters the decoder reads

  /** Every %u escape that the range holds has its four digits inside the
      range too. */
  predicate UnicodeEscapesFit(path: string, i: nat, end: nat)
    requires end <= |path|
  {
    forall k :: i <= k && k + 2 < end && path[k] == '%' && path[k + 1] == 'u' ==> k + 6 <= end
  }

  predicate AgreeBetween(p1: string, p2: string, a: nat, b: nat)
    requires b <= |p1| && b <= |p2|
  {
    forall k :: a <= k < b ==> p1[k] == p2[k]
  }

  lemma {:induction false} ParseHexLocal(p1: string, p2: string, j: nat, count: nat, acc: nat)
    requires j + count <= |p1| && j + count <= |p2| && AgreeBetween(p1, p2, j, j + count)
    ensures ParseHex(p1, j, count, acc) == ParseHex(p2, j, count, acc)
    decreases count
  {
    if count > 0 && IsHexDigit(p1[j]) {
      assert p1[j] == p2[j];
      ParseHexLocal(p1, p2, j + 1, count - 1, acc * 16 + HexValue(p1[j]).value);
    }
  }

  lemma {:induction false} NextSlashLocal(p1: string, p2: string, k: nat, end: nat)
    requires k <= end <= |p1| && end <= |p2| && AgreeBetween(p1, p2, k, end)
    ensures NextSlash(p1, k, end) == NextSlash(p2, k, end)
    decreases end - k
  {
    if k < end {
      NextSlashLocal(p1, p2, k + 1, end);
    }
  }

  /** Two paths that agree on [i, end) scan alike from i, provided no %u
      escape reads past end (always the case under WithinRange). */
  lemma {:induction false} ScanLocal(p1: string, p2: string, i: nat, end: nat, bound: UnicodeBound)
    requires end <= |p1| && end <= |p2| && AgreeBetween(p1, p2, i, end)
    requires bound == PastRange ==> UnicodeEscapesFit(p1, i, end)
    ensures Scan(p1, i, end, bound) == Scan(p2, i, end, bound)
    decreases end - i
  {
    if i < end {
      if p1[i] == '%' && i + 2 < end && p1[i + 1] == 'u' && i + 6 <= end {
        ParseHexLocal(p1, p2, i + 2, 4, 0);
      }
      if p1[i] == ';' {
        NextSlashLocal(p1, p2, i + 1, end);
      }
      var s1 := StepAt(p1, i, end, bound);
      assert s1 == StepAt(p2, i, end, bound);
      if s1.Emit? {
        ScanLocal(p1, p2, s1.next, end, bound);
      }
    }
  }

  /** Characters outside [offset, offset + length) do not affect either
      decoder, as long as every %u escape of the range ends inside it. */
  lemma DecodingIsLocal(p1: string, p2: string, offset: nat, length: nat, accepts: seq<Token> -> bool)
    requires offset + length <= |p1| && offset + length <= |p2|
    requires p1[offset..offset + length] == p2[offset..offset + length]
    requires UnicodeEscapesFit(p1, offset, offset + length)
    ensures Iso88591Decoding(p1, offset, length) == Iso88591Decoding(p2, offset, length)
    ensures Utf8Decoding(p1, offset, length, accepts) == Utf8Decoding(p2, offset, length, accepts)
  {
    var end := offset + length;
    assert AgreeBetween(p1, p2, offset, end) by {
      forall k | offset <= k < end ensures p1[k] == p2[k] {
        assert p1[offset..end][k - offset] == p2[offset..end][k - offset];
      }
    }
    ScanLocal(p1, p2, offset, end, PastRange);
    assert PlainBetween(p1, offset, end) == PlainBetween(p2, offset, end);
  }

  /** With %u escapes bounded by the range, the scan never depends on
      characters outside it. */
  lemma BoundedDecodingIsLocal(p1: string, p2: string, offset: nat, length: nat)
    requires offset + length <= |p1| && offset + length <= |p2|
    requires p1[offset..offset + length] == p2[offset..offset + length]
    ensures BuilderOutcome(p1, offset, length, WithinRange) == BuilderOutcome(p2, offset, length, WithinRange)
  {
    var end := offset + length;
    assert AgreeBetween(p1, p2, offset, end) by {
      forall k | offset <= k < end ensures p1[k] == p2[k] {
        assert p1[offset..end][k - offset] == p2[offset..end][k - offset];
      }
    }
    ScanLocal(p1, p2, offset, end, WithinRange);
    assert PlainBetween(p1, offset, end) == PlainBetween(p2, offset, end);
  }

  /** As written, a %u escape that starts two characters before the end of
      the range takes its digits from beyond the range: "%u1234" and
      "%u1567" agree on [0, 3) yet decode differently there. Bounding the
      escape by the range rejects both. */
  lemma UnicodeEscapeReadsPastRange()
    ensures "%u1234"[0..3] == "%u1567"[0..3]
    ensures BuilderOutcome("%u1234", 0, 3, PastRange) == Ok(Some([Unit(0x1234)]))
    ensures BuilderOutcome("%u1567", 0, 3, PastRange) == Ok(Some([Unit(0x1567)]))
    ensures BuilderOutcome("%u1234", 0, 3, WithinRange) == Err(BadEncoding)
    ensures BuilderOutcome("%u1567", 0, 3, WithinRange) == Err(BadEncoding)
  {
    var p1, p2 := "%u1234", "%u1567";
    assert !PlainBetween(p1, 0, 3) && !PlainBetween(p2, 0, 3) by {
      assert IsSpecial(p1[0]) && IsSpecial(p2[0]);
    }
    assert ParseHex(p1, 2, 4, 0) == Ok(0x1234);
    assert ParseHex(p2, 2, 4, 0) == Ok(0x1567);
    assert StepAt(p1, 0, 3, PastRange) == Emit([Unit(0x1234)], 6);
    assert StepAt(p2, 0, 3, PastRange) == Emit([Unit(0x1567)], 6);
    assert [Unit(0x1234)] + [] == [Unit(0x1234)];
    assert [Unit(0x1567)] + [] == [Unit(0x1567)];
  }

  /** The first '%' or ';' in path[a..b), or b when there is none. */
  function FirstSpecial(path: string, a: nat, b: nat): (k: nat)
    requires a <= b <= |path|
    ensures a <= k <= b && PlainBetween(path, a, k)
    ensures k < b ==> IsSpecial(path[k])
    decreases b - a
  {
    if a == b || IsSpecial(path[a]) then a else FirstSpecial(path, a + 1, b)
  }

  /** decodeISO88591Path as written: when it creates its builder at the first
      special character k it copies with a start/end call given (offset,
      k - offset), so it copies path[offset..k - offset), and fails when that
      end lies before the start. */
  function Iso88591DecodingAsWritten(path: string, offset: nat, length: nat): (r: Result<Decoded, DecodeError>)
    requires offset + length <= |path|
    ensures PlainBetween(path, offset, offset + length) ==> r == Ok(Verbatim(path[offset..offset + length]))
    ensures !PlainBetween(path, offset, offset + length) ==> r.Err? || r.value.Assembled?
  {
    var end := offset + length;
    var k := FirstSpecial(path, offset, end);
    if k == end then Ok(Verbatim(path[offset..end]))
    else if k - offset < offset then Err(OutOfBounds)
    else match Scan(path, k, end, PastRange)
      case Err(e) => Err(e)
      case Ok(ts) => Ok(Assembled(Iso88591, Chars(path[offset..k - offset]) + ts))
  }

  /** For a range starting at 0 the start/end copy is the intended one. */
  lemma AsWrittenAgreesFromZero(path: string, length: nat)
    requires length <= |path|
    ensures Iso88591DecodingAsWritten(path, 0, length) == Iso88591Decoding(path, 0, length)
  {
    var k := FirstSpecial(path, 0, length);
    ScanPlainPrefix(path, 0, k, length, PastRange);
    if k < length {
      assert !PlainBetween(path, 0, length) by {
        assert IsSpecial(path[k]);
      }
    }
  }

  /** From offset 1 the ISO-8859-1 decoder as written drops the 'b' of
      "ab%41" that the intended copy keeps. */
  lemma IsoPrefixCopyDropsCharacters()
    ensures Iso88591DecodingAsWritten("ab%41", 1, 4) == Ok(Assembled(Iso88591, [Byte(0x41)]))
    ensures Iso88591Decoding("ab%41", 1, 4) == Ok(Assembled(Iso88591, [Char('b'), Byte(0x41)]))
  {
    var p := "ab%41";
    assert FirstSpecial(p, 1, 5) == 2 by {
      assert FirstSpecial(p, 2, 5) == 2;
    }
    assert !PlainBetween(p, 1, 5) by {
      assert IsSpecial(p[2]);
    }
    assert StepAt(p, 2, 5, PastRange) == Emit([Byte(0x41)], 5);
    assert StepAt(p, 1, 5, PastRange) == Emit([Char('b')], 2);
    assert Scan(p, 2, 5, PastRange) == Ok([Byte(0x41)]) by {
      assert [Byte(0x41)] + [] == [Byte(0x41)];
    }
    assert Scan(p, 1, 5, PastRange) == Ok([Char('b'), Byte(0x41)]) by {
      assert [Char('b')] + [Byte(0x41)] == [Char('b'), Byte(0x41)];
    }
    assert Chars(p[1..1]) == [];
    assert [] + [Byte(0x41)] == [Byte(0x41)];
  }

  /** From offset 2, a '%' right at the start of the range makes the copy's
      end (0) lie before its start (2). */
  lemma IsoPrefixCopyOutOfBounds()
    ensures Iso88591DecodingAsWritten("ab%41", 2, 3) == Err(OutOfBounds)
    ensures Iso88591Decoding("ab%41", 2, 3) == Ok(Assembled(Iso88591, [Byte(0x41)]))
  {
    var p := "ab%41";
    assert FirstSpecial(p, 2, 5) == 2;
    assert !PlainBetween(p, 2, 5) by {
      assert IsSpecial(p[2]);
    }
    assert StepAt(p, 2, 5, PastRange) == Emit([Byte(0x41)], 5);
    assert [Byte(0x41)] + [] == [Byte(0x41)];
  }

  /** From offset 2, a ';' right at the start of the range makes the copy's
      end (0) lie before its start (2), where the intended decoder drops the
      parameter and gives an empty result. */
  lemma IsoParameterCopyOutOfBounds()
    ensures Iso88591DecodingAsWritten("ab;x", 2, 2) == Err(OutOfBounds)
    ensures Iso88591Decoding("ab;x", 2, 2) == Ok(Assembled(Iso88591, []))
  {
    var p := "ab;x";
    assert FirstSpecial(p, 2, 4) == 2;
    assert !PlainBetween(p, 2, 4) by {
      assert IsSpecial(p[2]);
    }
    assert NextSlash(p, 3, 4) == 4 by {
      assert NextSlash(p, 4, 4) == 4;
    }
    assert StepAt(p, 2, 4, PastRange) == Emit([], 5);
    var none: seq<Token> := [];
    assert none + none == none;
  }

  /** Whether UTF-8 assembly may have thrown part-way through the loop, given
      what it says of the finished tokens: an assembly that throws before the
      loop ends never accepts the tokens the loop would have finished with.
      A plain range creates no builder, so nothing can be rejected there. */
  predicate ConsistentRejection(path: string, offset: nat, length: nat, accepts: seq<Token> -> bool, rejectedMidScan: bool)
    requires offset + length <= |path|
  {
    rejectedMidScan ==>
      && !PlainBetween(path, offset, offset + length)
      && match Iso88591Decoding(path, offset, length)
         case Ok(Assembled(_, ts)) => !accepts(ts)
         case _ => true
  }

  /** decodePath with the corrected fallback, told whether UTF-8 assembly threw
      part-way through the loop (`rejectedMidScan`), which makes it fall back
      at once. */
  function Utf8DecodingRejectingMidScan(path: string, offset: nat, length: nat, accepts: seq<Token> -> bool, rejectedMidScan: bool): Result<Decoded, DecodeError>
    requires offset + length <= |path|
  {
    if rejectedMidScan && !PlainBetween(path, offset, offset + length)
    then Iso88591Decoding(path, offset, length)
    else Utf8Decoding(path, offset, length, accepts)
  }

  /** With the corrected fallback it makes no difference when UTF-8 assembly
      throws: the fallback rescans the range through the same branches, so a
      later escape error is met again, and a finished scan was rejected
      anyway. This is why DecodePath consults `accepts` only on a finished
      scan. */
  lemma MidScanRejectionIsInvisible(path: string, offset: nat, length: nat, accepts: seq<Token> -> bool, rejectedMidScan: bool)
    requires offset + length <= |path|
    requires ConsistentRejection(path, offset, length, accepts, rejectedMidScan)
    ensures Utf8DecodingRejectingMidScan(path, offset, length, accepts, rejectedMidScan) == Utf8Decoding(path, offset, length, accepts)
  {
  }

  /** decodePath as written: the UTF-8 loop copies its prefix as intended,
      but when UTF-8 assembly rejects the tokens, part-way through the loop
      (`rejectedMidScan`) or at the end, it falls back to the ISO-8859-1
      decoder as written. */
  function Utf8DecodingAsWritten(path: string, offset: nat, length: nat, accepts: seq<Token> -> bool, rejectedMidScan: bool): (r: Result<Decoded, DecodeError>)
    requires offset + length <= |path|
    ensures PlainBetween(path, offset, offset + length) ==> r == Ok(Verbatim(path[offset..offset + length]))
  {
    var iso := Iso88591Decoding(path, offset, length);
    if (rejectedMidScan && !PlainBetween(path, offset, offset + length))
       || (iso.Ok? && iso.value.Assembled? && !accepts(iso.value.tokens))
    then Iso88591DecodingAsWritten(path, offset, length)
    else Utf8Decoding(path, offset, length, accepts)
  }

  /** UTF-8 assembly as far as the counterexample needs it: byte 0xFF never
      occurs in well-formed UTF-8. */
  predicate WithoutByteFF(ts: seq<Token>) {
    Byte(0xFF) !in ts
  }

  /** For ranges starting at 0 decodePath as written is the intended one. */
  lemma Utf8AsWrittenAgreesFromZero(path: string, length: nat, accepts: seq<Token> -> bool, rejectedMidScan: bool)
    requires length <= |path|
    requires ConsistentRejection(path, 0, length, accepts, rejectedMidScan)
    ensures Utf8DecodingAsWritten(path, 0, length, accepts, rejectedMidScan) == Utf8Decoding(path, 0, length, accepts)
  {
    AsWrittenAgreesFromZero(path, length);
  }

  /** Through decodePath itself: "ab%FF" from offset 1 is rejected by UTF-8
      assembly, and the as-written fallback then drops the 'b' that the
      intended fallback keeps. */
  lemma Utf8FallbackDropsCharacters()
    ensures Utf8DecodingAsWritten("ab%FF", 1, 4, WithoutByteFF, false) == Ok(Assembled(Iso88591, [Byte(0xFF)]))
    ensures Utf8Decoding("ab%FF", 1, 4, WithoutByteFF) == Ok(Assembled(Iso88591, [Char('b'), Byte(0xFF)]))
  {
    var p := "ab%FF";
    assert FirstSpecial(p, 1, 5) == 2 by {
      assert FirstSpecial(p, 2, 5) == 2;
    }
    assert !PlainBetween(p, 1, 5) by {
      assert IsSpecial(p[2]);
    }
    assert StepAt(p, 2, 5, PastRange) == Emit([Byte(0xFF)], 5);
    assert StepAt(p, 1, 5, PastRange) == Emit([Char('b')], 2);
    assert Scan(p, 2, 5, PastRange) == Ok([Byte(0xFF)]) by {
      assert [Byte(0xFF)] + [] == [Byte(0xFF)];
    }
    assert Scan(p, 1, 5, PastRange) == Ok([Char('b'), Byte(0xFF)]) by {
      assert [Char('b')] + [Byte(0xFF)] == [Char('b'), Byte(0xFF)];
    }
    assert !WithoutByteFF([Char('b'), Byte(0xFF)]) by {
      assert [Char('b'), Byte(0xFF)][1] == Byte(0xFF);
    }
    assert Chars(p[1..1]) == [];
    assert [] + [Byte(0xFF)] == [Byte(0xFF)];
  }

  /** "ab%FF%" from offset 2: UTF-8 assembly throws on the byte 0xFF, so
      decodePath as written falls back before reaching the truncated '%', and
      the fallback's copy fails first. The intended decoder reports the
      truncated escape, whatever UTF-8 assembly says. */
  lemma MidScanRejectionOutOfBounds(accepts: seq<Token> -> bool)
    ensures Utf8DecodingAsWritten("ab%FF%", 2, 4, accepts, true) == Err(OutOfBounds)
    ensures Utf8Decoding("ab%FF%", 2, 4, accepts) == Err(BadEncoding)
  {
    var p := "ab%FF%";
    assert FirstSpecial(p, 2, 6) == 2;
    assert !PlainBetween(p, 2, 6) by {
      assert IsSpecial(p[2]);
    }
    assert StepAt(p, 2, 6, PastRange) == Emit([Byte(0xFF)], 5);
    assert StepAt(p, 5, 6, PastRange) == Fail(BadEncoding);
    assert Scan(p, 2, 6, PastRange) == Err(BadEncoding);
  }

  // -------------------------------------------------------------------
  // Percent-encoding, the decoder's inverse

  /** A token sequence that encoding can produce: copied characters are
      never '%' or ';'. */
  predicate Encodable(ts: seq<Token>) {
    forall k :: 0 <= k < |ts| && ts[k].Char? ==> !IsSpecial(ts[k].c)
  }

  /** The four upper-case hexadecimal digits of a code unit, most
      significant first. */
  function UnitDigits(u: UnitValue): string {
    var q1 := u / 16;
    var q2 := q1 / 16;
    var q3 := q2 / 16;
    [HexChar(q3), HexChar(q2 % 16), HexChar(q1 % 16), HexChar(u % 16)]
  }

  /** The text that decodes to one token: a byte as %XY, a code unit as
      %uXXXX, with upper-case digits. */
  function EncodeToken(t: Token): string {
    match t
    case Char(c) => [c]
    case Byte(b) => ['%', HexChar(b / 16), HexChar(b % 16)]
    case Unit(u) => ['%', 'u'] + UnitDigits(u)
  }

  function Encode(ts: seq<Token>): string {
    if ts == [] then "" else EncodeToken(ts[0]) + Encode(ts[1..])
  }

  /** Reading back the four digits of a code unit gives the code unit. */
  lemma ParseHexOfUnitDigits(path: string, j: nat, u: UnitValue)
    requires j + 4 <= |path| && path[j..j + 4] == UnitDigits(u)
    ensures ParseHex(path, j, 4, 0) == Ok(u)
  {
    var q1 := u / 16;
    var q2 := q1 / 16;
    var q3 := q2 / 16;
    var ds := UnitDigits(u);
    assert path[j] == ds[0] && path[j + 1] == ds[1] && path[j + 2] == ds[2] && path[j + 3] == ds[3] by {
      assert path[j..j + 4][0] == path[j] && path[j..j + 4][1] == path[j + 1];
      assert path[j..j + 4][2] == path[j + 2] && path[j..j + 4][3] == path[j + 3];
    }
    assert ParseHex(path, j, 4, 0) == ParseHex(path, j + 1, 3, q3);
    assert q3 * 16 + q2 % 16 == q2;
    assert ParseHex(path, j + 1, 3, q3) == ParseHex(path, j + 2, 2, q2);
    assert q2 * 16 + q1 % 16 == q1;
    assert ParseHex(path, j + 2, 2, q2) == ParseHex(path, j + 3, 1, q1);
    assert q1 * 16 + u % 16 == u;
    assert ParseHex(path, j + 3, 1, q1) == ParseHex(path, j + 4, 0, u);
  }

  /** An encoded character, byte or code unit at i is one turn of the
      decoder's loop. */
  lemma StepOverEncodedChar(path: string, i: nat, end: nat, c: char, bound: UnicodeBound)
    requires i < end <= |path| && path[i] == c && !IsSpecial(c)
    ensures StepAt(path, i, end, bound) == Emit([Char(c)], i + 1)
  {
  }

  lemma StepOverEncodedByte(path: string, i: nat, end: nat, b: ByteValue, bound: UnicodeBound)
    requires i + 3 <= end <= |path|
    requires path[i] == '%' && path[i + 1] == HexChar(b / 16) && path[i + 2] == HexChar(b % 16)
    ensures StepAt(path, i, end, bound) == Emit([Byte(b)], i + 3)
  {
    ByteDigitsRecombine(b);
  }

  lemma StepOverEncodedUnit(path: string, i: nat, end: nat, u: UnitValue, bound: UnicodeBound)
    requires i + 6 <= end <= |path|
    requires path[i] == '%' && path[i + 1] == 'u' && path[i + 2..i + 6] == UnitDigits(u)
    ensures StepAt(path, i, end, bound) == Emit([Unit(u)], i + 6)
  {
    ParseHexOfUnitDigits(path, i + 2, u);
    UnitMaskKeeps(u);
  }

  lemma UnitMaskKeeps(u: UnitValue)
    ensures u % 0x1_0000 == u
  {
  }

  lemma ByteDigitsRecombine(b: ByteValue)
    ensures (b / 16 * 16 + b % 16) % 0x100 == b
  {
  }

  lemma StepOverEncodedToken(path: string, i: nat, end: nat, t: Token, bound: UnicodeBound)
    requires i + |EncodeToken(t)| <= end <= |path|
    requires path[i..i + |EncodeToken(t)|] == EncodeToken(t)
    requires t.Char? ==> !IsSpecial(t.c)
    ensures StepAt(path, i, end, bound) == Emit([t], i + |EncodeToken(t)|)
  {
    var e := EncodeToken(t);
    var w := path[i..i + |e|];
    assert path[i] == w[0];
    match t
    case Char(c) =>
      StepOverEncodedChar(path, i, end, c, bound);
    case Byte(b) =>
      assert path[i + 1] == w[1] && path[i + 2] == w[2];
      StepOverEncodedByte(path, i, end, b, bound);
    case Unit(u) =>
      assert path[i + 1] == w[1];
      assert path[i + 2..i + 6] == w[2..];
      StepOverEncodedUnit(path, i, end, u, bound);
  }

  /** The text at i that spells e + rest spells e at i and rest after it. */
  lemma SpellsSplit(path: string, i: nat, e: string, rest: string)
    requires i + |e| + |rest| <= |path|
    requires path[i..i + |e| + |rest|] == e + rest
    ensures path[i..i + |e|] == e
    ensures path[i + |e|..i + |e| + |rest|] == rest
  {
    assert path[i..i + |e|] == path[i..i + |e| + |rest|][..|e|];
    assert path[i + |e|..i + |e| + |rest|] == path[i..i + |e| + |rest|][|e|..];
  }

  /** The first token of an encoded sequence decodes on its own, and the
      encoding of the rest follows it, from position n on. */
  lemma ScanEncodedHead(path: string, i: nat, m: nat, end: nat, ts: seq<Token>, bound: UnicodeBound) returns (n: nat)
    requires ts != [] && m == i + |Encode(ts)| && m <= end <= |path|
    requires path[i..m] == Encode(ts)
    requires Encodable(ts)
    ensures i < n <= m && m == n + |Encode(ts[1..])|
    ensures path[n..m] == Encode(ts[1..])
    ensures Encodable(ts[1..])
    ensures Scan(path, i, end, bound) == Prepend([ts[0]], Scan(path, n, end, bound))
  {
    var e, rest := EncodeToken(ts[0]), Encode(ts[1..]);
    n := i + |e|;
    assert Encode(ts) == e + rest;
    SpellsSplit(path, i, e, rest);
    StepOverEncodedToken(path, i, end, ts[0], bound);
    ScanStep(path, i, end, bound, [ts[0]], n);
    assert Encodable(ts[1..]) by {
      forall k | 0 <= k < |ts[1..]| && ts[1..][k].Char? ensures !IsSpecial(ts[1..][k].c) {
        assert ts[1..][k] == ts[k + 1];
      }
    }
  }

  /** Putting the head of ts in front of what the tail puts in front. */
  lemma PrependCons(ts: seq<Token>, r: Result<seq<Token>, DecodeError>)
    requires ts != []
    ensures Prepend([ts[0]], Prepend(ts[1..], r)) == Prepend(ts, r)
  {
    PrependAssoc([ts[0]], ts[1..], r);
    assert [ts[0]] + ts[1..] == ts;
  }

  /** Decoding the encoding of ts, spelt out in path[i..m), emits ts. */
  lemma {:induction false} ScanEncoded(path: string, i: nat, m: nat, end: nat, ts: seq<Token>, bound: UnicodeBound)
    requires m == i + |Encode(ts)| && m <= end <= |path|
    requires path[i..m] == Encode(ts)
    requires Encodable(ts)
    ensures Scan(path, i, end, bound) == Prepend(ts, Scan(path, m, end, bound))
    decreases |ts|
  {
    if ts == [] {
      PrependNil(Scan(path, i, end, bound));
    } else {
      var n := ScanEncodedHead(path, i, m, end, ts, bound);
      ScanEncoded(path, n, m, end, ts[1..], bound);
      PrependCons(ts, Scan(path, m, end, bound));
    }
  }

  /** Both decoders turn the encoding of ts back into ts. */
  lemma DecodeEncodeRoundTrip(ts: seq<Token>, accepts: seq<Token> -> bool)
    requires Encodable(ts)
    ensures var p := Encode(ts);
            && Iso88591Decoding(p, 0, |p|).Ok? && TokensOf(Iso88591Decoding(p, 0, |p|).value) == ts
            && Utf8Decoding(p, 0, |p|, accepts).Ok? && TokensOf(Utf8Decoding(p, 0, |p|, accepts).value) == ts
  {
    var p := Encode(ts);
    assert p[0..|p|] == p;
    ScanEncoded(p, 0, |p|, |p|, ts, PastRange);
    assert ts + [] == ts;
    if PlainBetween(p, 0, |p|) {
      ScanPlainPrefix(p, 0, |p|, |p|, PastRange);
      assert Chars(p) + [] == Chars(p);
    }
  }
}
