/** The Code 39 row decoder (`Code39Reader`) as the methods it is made of, each proved equal to
    the function in `Code39Spec` that states what it computes. Counters are `int` arrays that the
    methods fill and shift in place, and the decoded text grows in a `StringBuffer`. */
module Code39Reader {
  import opened Base
  import opened Bits
  import opened Code39Spec
  import opened TextBuffer

  // ---------------------------------------------------------------- toNarrowWidePattern

  /** The smallest counter above `maxNarrow`, `INT_MAX` when there is none. */
  method MinCounterAbove(counters: array<int>, maxNarrow: int) returns (minCounter: int)
    ensures minCounter == MinAbove(counters[..], maxNarrow)
  {
    minCounter := INT_MAX;
    var i := 0;
    while i < counters.Length
      invariant 0 <= i <= counters.Length
      invariant minCounter == MinAbove(counters[..i], maxNarrow)
    {
      assert counters[..i + 1][..i] == counters[..i];
      var counter := counters[i];
      if counter < minCounter && counter > maxNarrow {
        minCounter := counter;
      }
      i := i + 1;
    }
    assert counters[..i] == counters[..];
  }

  /** The counters above `maxNarrow` as bits, the first counter's bit highest, and their number.
      Setting a bit (`pattern |= 1 << k`) is adding its power of two, as the bit is still clear. */
  method WidePattern(counters: array<int>, maxNarrow: int) returns (pattern: nat, wideCounters: nat)
    ensures pattern == BitsValue(WideFlags(counters[..], maxNarrow))
    ensures wideCounters == WideCount(counters[..], maxNarrow)
  {
    var n := counters.Length;
    pattern, wideCounters := 0, 0;
    ghost var high := 0;
    var i := 0;
    while i < n
      invariant 0 <= i <= n
      invariant high == BitsValue(WideFlags(counters[..i], maxNarrow))
      invariant pattern == high * Pow2(n - i)
      invariant wideCounters == WideCount(counters[..i], maxNarrow)
    {
      WideStep(counters[..], maxNarrow, i);
      var bit := if counters[i] > maxNarrow then 1 else 0;
      ShiftStep(high, bit, Pow2(n - 1 - i));
      if counters[i] > maxNarrow {
        pattern := pattern + Pow2(n - 1 - i);
        wideCounters := wideCounters + 1;
      }
      high := 2 * high + bit;
      i := i + 1;
    }
    assert counters[..i] == counters[..];
  }

  /** One more counter: its flag becomes the new lowest bit and it may add to the count. */
  lemma WideStep(cs: seq<int>, t: int, i: nat)
    requires i < |cs|
    ensures BitsValue(WideFlags(cs[..i + 1], t)) == 2 * BitsValue(WideFlags(cs[..i], t)) + (if cs[i] > t then 1 else 0)
    ensures WideCount(cs[..i + 1], t) == WideCount(cs[..i], t) + (if cs[i] > t then 1 else 0)
  {
    assert cs[..i + 1][..i] == cs[..i];
    assert WideFlags(cs[..i + 1], t)[..i] == WideFlags(cs[..i], t);
  }

  /** Shifting the bits read so far up by one and adding the new bit, scaled by the power of two
      still to come: kept apart so that the loop's proof does not face the product itself. */
  lemma ShiftStep(high: nat, bit: nat, p: nat)
    ensures high * (2 * p) + bit * p == (2 * high + bit) * p
  {
  }

  /** `toNarrowWidePattern`: raise the narrow threshold to the next larger counter until exactly
      three counters are above it. */
  method ToNarrowWidePattern(counters: array<int>) returns (r: Outcome<nat>)
    requires CountersFit(counters[..])
    ensures r == NarrowWide(counters[..])
  {
    ghost var cs := counters[..];
    var maxNarrowCounter := 0;
    while true
      invariant NarrowWideFrom(cs, maxNarrowCounter) == NarrowWide(cs)
      decreases WideCount(cs, maxNarrowCounter)
    {
      var minCounter := MinCounterAbove(counters, maxNarrowCounter);
      var pattern, wideCounters := WidePattern(counters, minCounter);
      if wideCounters == 3 {
        return Ok(pattern);
      }
      if wideCounters < 3 {
        return Fail("Can't find 3 wide bars/spaces out of 9");
      }
      MinAboveBounds(cs, maxNarrowCounter);
      WideCountAboveAll(cs, INT_MAX);
      WideCountMonotone(cs, maxNarrowCounter, minCounter);
      maxNarrowCounter := minCounter;
    }
  }

  // ---------------------------------------------------------------- patternToChar

  /** `patternToChar`: the character at the first table position holding `pattern`. */
  method PatternToChar(pattern: int) returns (r: Outcome<char>)
    ensures r == PatternChar(pattern)
  {
    var i := 0;
    while i < |CHARACTER_ENCODINGS|
      invariant 0 <= i <= |CHARACTER_ENCODINGS|
      invariant EncodingIndexFrom(pattern, i) == EncodingIndexFrom(pattern, 0)
    {
      if CHARACTER_ENCODINGS[i] == pattern {
        return Ok(ALPHABET[i]);
      }
      i := i + 1;
    }
    return Fail("Pattern did not match character encoding");
  }

  // ---------------------------------------------------------------- findAsteriskPattern

  /** Drops the first two counters, moving the other seven down, and clears the last two. */
  method ShiftCounters(counters: array<int>)
    requires counters.Length == 9
    modifies counters
    ensures counters[..] == Shifted(old(counters[..]))
  {
    for y := 2 to 9
      invariant forall k :: 0 <= k < y - 2 ==> counters[k] == old(counters[k + 2])
      invariant forall k :: y - 2 <= k < 9 ==> counters[k] == old(counters[k])
    {
      counters[y - 2] := counters[y];
    }
    counters[7] := 0;
    counters[8] := 0;
  }

  /** Java's white-space skip. */
  method SkipWhiteSpace(row: seq<bool>, from: nat) returns (next: nat)
    ensures next == SkipWhite(row, from)
  {
    next := from;
    while next < |row| && !row[next]
      invariant from <= next && (next == from || next <= |row|)
      invariant SkipWhite(row, next) == SkipWhite(row, from)
      decreases |row| - next
    {
      next := next + 1;
    }
  }

  /** `findAsteriskPattern`: the first and one-past-last pixel of the start pattern. */
  method FindAsteriskPattern(row: seq<bool>) returns (r: Outcome<(nat, nat)>)
    requires |row| <= INT_MAX
    ensures r == FindAsteriskSpec(row)
  {
    var rowOffset := SkipWhiteSpace(row, 0);
    var counterPosition: nat := 0;
    var counters := new int[9](_ => 0);
    var patternStart: nat := rowOffset;
    var isWhite := false;
    assert counters[..] == EMPTY_WINDOW;
    EmptyWindowStart(row, rowOffset);
    for i := rowOffset to |row|
      invariant ScanWindow(row, i, counters[..], counterPosition, patternStart)
      invariant ScanFrom(row, i, counters[..], counterPosition, patternStart, isWhite) == FindAsteriskSpec(row)
    {
      var pixel := row[i];
      ghost var before := counters[..];
      if pixel != isWhite {
        ScanGrow(row, i, before, counterPosition, patternStart, isWhite);
        counters[counterPosition] := counters[counterPosition] + 1;
        assert counters[..] == before[counterPosition := before[counterPosition] + 1];
      } else if counterPosition == 8 {
        ScanWindowFull(row, i, before, patternStart, isWhite);
        var narrowWide := ToNarrowWidePattern(counters);
        if narrowWide == Ok(ASTERISK_ENCODING) {
          return Ok((patternStart, i));
        }
        patternStart := patternStart + counters[0] + counters[1];
        ShiftCounters(counters);
        counterPosition := counterPosition - 1;
        counters[counterPosition] := 1;
        assert counters[..] == Shifted(before)[7 := 1];
        isWhite := !isWhite;
      } else {
        ScanFlip(row, i, before, counterPosition, patternStart, isWhite);
        counterPosition := counterPosition + 1;
        counters[counterPosition] := 1;
        assert counters[..] == before[counterPosition := 1];
        isWhite := !isWhite;
      }
    }
    return Fail("Can't find pattern");
  }

  // ---------------------------------------------------------------- decodeExtended

  /** `s` in front of the text of an outcome. */
  function Prefixed(s: string, o: Outcome<string>): Outcome<string> {
    match o
    case Ok(t) => Ok(s + t)
    case Fail(e) => Fail(e)
  }

  lemma PrefixedPrepend(s: string, c: char, o: Outcome<string>)
    ensures Prefixed(s + [c], o) == Prefixed(s, Prepend(c, o))
  {
    if o.Ok? {
      assert s + [c] + o.value == s + ([c] + o.value);
    }
  }

  /** `decodeExtended`: each shift character and the character after it become one character by
      the pair table of `tables`; every other character is copied. */
  method DecodeExtended(tables: Tables, encoded: string) returns (r: Outcome<string>)
    ensures r == DecodeExtendedSpec(tables, encoded)
  {
    var decoded := new StringBuffer();
    var i := 0;
    assert Prefixed([], DecodeExtendedSpec(tables, encoded)) == DecodeExtendedSpec(tables, encoded) by {
      if DecodeExtendedSpec(tables, encoded).Ok? {
        assert [] + DecodeExtendedSpec(tables, encoded).value == DecodeExtendedSpec(tables, encoded).value;
      }
    }
    while i < |encoded|
      invariant 0 <= i <= |encoded|
      invariant Prefixed(decoded.chars, DecodeExtendedSpec(tables, encoded[i..])) == DecodeExtendedSpec(tables, encoded)
      decreases |encoded| - i
    {
      var c := encoded[i];
      if IsShiftChar(c) {
        if i + 1 >= |encoded| {
          return Fail("String index out of range");
        }
        var next := encoded[i + 1];
        assert encoded[i..][1] == next && encoded[i..][2..] == encoded[i + 2..];
        var pair := Pair(tables, c, next);
        if pair.Fail? {
          return Fail(pair.reason);
        }
        PrefixedPrepend(decoded.chars, pair.value, DecodeExtendedSpec(tables, encoded[i + 2..]));
        decoded.Append([pair.value]);
        i := i + 2;
      } else {
        assert encoded[i..][1..] == encoded[i + 1..];
        PrefixedPrepend(decoded.chars, c, DecodeExtendedSpec(tables, encoded[i + 1..]));
        decoded.Append([c]);
        i := i + 1;
      }
    }
    assert encoded[i..] == [];
    assert decoded.chars + [] == decoded.chars;
    return Ok(decoded.chars);
  }

  // ---------------------------------------------------------------- decodeRow

  /** `recordPattern(row, start, counters)`: fills the counters with the widths of the nine runs
      from `start`, or reports that the row ended first. */
  method RecordPattern(record: RunRecorder, start: nat, counters: array<int>) returns (ok: bool)
    requires counters.Length == 9
    modifies counters
    ensures ok == record(start).Some?
    ensures ok ==> counters[..] == record(start).value
  {
    var runs := record(start);
    if runs.None? {
      return false;
    }
    forall k | 0 <= k < 9 {
      counters[k] := runs.value[k];
    }
    return true;
  }

  /** One pass of the do-while loop of `decodeRow`: record the runs at `start`, decode them and
      move past them and the white space after them. */
  method ReadCharacter(row: seq<bool>, record: RunRecorder, start: nat, counters: array<int>)
    returns (r: Outcome<(char, nat)>)
    requires counters.Length == 9
    modifies counters
    ensures r == ReadOne(row, record, start)
  {
    var ok := RecordPattern(record, start, counters);
    if !ok {
      return Fail("Not found");
    }
    var pattern := ToNarrowWidePattern(counters);
    if pattern.Fail? {
      return Fail(pattern.reason);
    }
    var decodedChar := PatternToChar(pattern.value);
    if decodedChar.Fail? {
      return Fail(decodedChar.reason);
    }
    var nextStart := start;
    for i := 0 to 9
      invariant nextStart == start + Sum(counters[..i])
    {
      assert counters[..i + 1][..i] == counters[..i];
      nextStart := nextStart + counters[i];
    }
    assert counters[..9] == counters[..];
    RunsAdvance(counters[..]);
    nextStart := SkipWhiteSpace(row, nextStart);
    return Ok((decodedChar.value, nextStart));
  }

  /** The do-while loop of `decodeRow`: append characters to `result` until one is `*`. */
  method ReadCharactersInto(row: seq<bool>, record: RunRecorder, start: nat, result: StringBuffer)
    returns (r: Outcome<(nat, nat)>)
    requires RecordsWithin(record, |row|) && start <= |row| && result.chars == []
    modifies result
    ensures match ReadCharacters(Reader(row, record), |row|, start, [])
            case Fail(e) => r == Fail(e)
            case Ok(read) => r == Ok((read.lastStart, read.nextStart)) && result.chars == read.text
  {
    ghost var read := Reader(row, record);
    ghost var whole := ReadCharacters(read, |row|, start, []);
    var counters := new int[9];
    var nextStart: nat := start;
    var lastStart: nat := start;
    var done := false;
    while !done
      invariant nextStart <= |row|
      invariant !done ==> ReadCharacters(read, |row|, nextStart, result.chars) == whole
      invariant done ==> whole == Ok(RowRead(result.chars, lastStart, nextStart))
      decreases |row| - nextStart + (if done then 0 else 1)
    {
      var one := ReadCharacter(row, record, nextStart, counters);
      if one.Fail? {
        return Fail(one.reason);
      }
      var (decodedChar, next) := one.value;
      assert read(nextStart) == one;
      result.Append([decodedChar]);
      lastStart := nextStart;
      nextStart := next;
      done := decodedChar == '*';
    }
    return Ok((lastStart, nextStart));
  }

  /** The check of `decodeRow`: the total of the values (by `tables`) of all characters but the
      last, modulo 43, must be the last one's; the last one is then deleted. */
  method VerifyCheckDigit(tables: Tables, result: StringBuffer) returns (r: Outcome<()>)
    modifies result
    ensures var check := CheckDigitWith(CharValue(tables), old(result.chars));
            (check.Fail? ==> r == Fail(check.reason) && result.chars == old(result.chars))
            && (check.Ok? ==> r == Ok(()) && result.chars == check.value)
  {
    var value := CharValue(tables);
    var max := |result.chars| - 1;
    if max < 0 {
      return Fail("String index out of range: -1");
    }
    var total := 0;
    for i := 0 to max
      invariant total == ValueSum(value, result.chars[..i])
    {
      assert result.chars[..i + 1][..i] == result.chars[..i];
      total := total + value(result.chars[i]);
    }
    if JavaRem(total, 43) != value(result.chars[max]) {
      return Fail("Checksum failed");
    }
    result.DeleteCharAt(max);
    assert result.chars == old(result.chars)[..max];
    return Ok(());
  }

  /** The end of `decodeRow`: delete the `*`, then check and delete the check character and
      decode Full ASCII escapes, each when asked to, by `tables`. */
  method FinishText(tables: Tables, result: StringBuffer, usingCheckDigit: bool, extendedMode: bool)
    returns (r: Outcome<string>)
    requires |result.chars| > 0
    modifies result
    ensures r == RowText(tables, old(result.chars)[..|old(result.chars)| - 1], usingCheckDigit, extendedMode)
  {
    result.DeleteCharAt(|result.chars| - 1);
    assert result.chars == old(result.chars)[..|old(result.chars)| - 1];
    if usingCheckDigit {
      var checked := VerifyCheckDigit(tables, result);
      if checked.Fail? {
        return Fail(checked.reason);
      }
    }
    var resultString := result.chars;
    if extendedMode {
      r := DecodeExtended(tables, resultString);
      return;
    }
    return Ok(resultString);
  }

  class Code39Reader {
    const usingCheckDigit: bool
    const extendedMode: bool

    /** All characters are data; no escapes are decoded. */
    constructor ()
      ensures !usingCheckDigit && !extendedMode
    {
      usingCheckDigit := false;
      extendedMode := false;
    }

    /** The last character may be a check character; no escapes are decoded. */
    constructor WithCheckDigit(usingCheckDigit: bool)
      ensures this.usingCheckDigit == usingCheckDigit && !extendedMode
    {
      this.usingCheckDigit := usingCheckDigit;
      extendedMode := false;
    }

    constructor WithOptions(usingCheckDigit: bool, extendedMode: bool)
      ensures this.usingCheckDigit == usingCheckDigit && this.extendedMode == extendedMode
    {
      this.usingCheckDigit := usingCheckDigit;
      this.extendedMode := extendedMode;
    }

    /** `decodeRow`: one row of pixels to the text of the symbol on it, with the character
        values and pair table as written. */
    method DecodeRow(row: seq<bool>, record: RunRecorder) returns (r: Outcome<RowResult>)
      requires |row| <= INT_MAX && RecordsWithin(record, |row|)
      ensures r == DecodeRowSpec(row, record, AsWritten, usingCheckDigit, extendedMode)
    {
      var start := FindAsteriskPattern(row);
      if start.Fail? {
        return Fail(start.reason);
      }
      FindAsteriskFound(row);
      r := DecodeRowAfter(row, record, start.value);
    }

    /** `decodeRow` after the start pattern. */
    method DecodeRowAfter(row: seq<bool>, record: RunRecorder, found: (nat, nat)) returns (r: Outcome<RowResult>)
      requires RecordsWithin(record, |row|) && found.1 < |row|
      ensures r == RowAfter(row, record, AsWritten, found, usingCheckDigit, extendedMode)
    {
      var nextStart := SkipWhiteSpace(row, found.1);
      var result := new StringBuffer();
      var read := ReadCharactersInto(row, record, nextStart, result);
      if read.Fail? {
        return Fail(read.reason);
      }
      var (lastStart, endStart) := read.value;
      var resultString := FinishText(AsWritten, result, usingCheckDigit, extendedMode);
      if resultString.Fail? {
        return Fail(resultString.reason);
      }
      return Ok(RowResult(resultString.value, found, lastStart, endStart));
    }
  }
}
