/** What the QR Code bit-stream decoder computes, stated as functions over the bit string
    and a read position (ISO/IEC 18004:2006, sections 6.4.3 to 6.4.8), together with encoders
    for each segment kind and the lemmas that decoding undoes them. The methods in module
    DecodedBitStreamParser are proved to compute exactly these functions. */
module QrSpec {
  import opened Base
  import opened Bits

  const DECIMAL_DIGITS: string := "0123456789"

  /** Table 5 of ISO/IEC 18004:2006: the alphanumeric character set, by value. */
  const ALPHANUMERIC_CHARS: string := DECIMAL_DIGITS + "ABCDEFGHIJKLMNOPQRSTUVWXYZ $%*+-./:"

  /** The FNC1 group separator that a lone `%` stands for (section 6.4.8.1). */
  const GS: char := 0x1D as char

  /** The segment modes `Mode.forBits` can return. */
  datatype Mode =
    | Terminator | Numeric | Alphanumeric | StructuredAppend | Byte | Eci | Kanji
    | Fnc1FirstPosition | Fnc1SecondPosition

  /** The character encodings a byte segment can be decoded with. */
  datatype Charset = ShiftJis | Utf8 | Iso88591 | EciCharset(name: string)

  /** What `CharacterSetECI.getCharacterSetECIByValue` does with an ECI value: throw
      `IllegalArgumentException` (ignored by the decoder), or return a character set,
      possibly `null`, given here by its encoding name. */
  datatype EciLookup = Unsupported | Found(encoding: Option<string>)

  /** The collaborators of the decoder that are not part of this model. */
  datatype Platform = Platform(
    forBits: nat -> Option<Mode>,                        // Mode.forBits; None: it throws
    countBits: Mode -> nat,                              // Mode.getCharacterCountBits(version)
    eciLookup: nat -> EciLookup,                         // CharacterSetECI lookup
    decodeBytes: (seq<byte>, Charset) -> Option<string>, // new String(bytes, encoding); None: unsupported
    assumeShiftJis: bool)                                // platform default encoding is SJIS or EUC_JP

  /** The result of decoding one segment: what it produced and where reading stopped. */
  datatype Seg<T> = Seg(out: T, next: nat)

  predicate Fits(bits: seq<bool>, pos: nat, n: nat) {
    pos + n <= |bits|
  }

  /** The `n` bits at `pos` as an unsigned number: what `BitSource.readBits(n)` returns there. */
  function ValueAt(bits: seq<bool>, pos: nat, n: nat): nat
    requires Fits(bits, pos, n)
  {
    BitsValue(bits[pos .. pos + n])
  }

  /** The widths the decoder reads whole bytes, Kanji values and byte pairs in bound what
      they can hold. */
  lemma FieldBound(bits: seq<bool>, pos: nat, n: nat)
    requires Fits(bits, pos, n)
    ensures n == 8 ==> ValueAt(bits, pos, n) < 0x100
    ensures n == 13 ==> ValueAt(bits, pos, n) < 0x2000
    ensures n == 16 ==> ValueAt(bits, pos, n) < 0x10000
  {
    BitsValueBound(bits[pos .. pos + n]);
    Pow2Table();
  }

  /** `c` is the character some Table 5 index stands for (by AlphanumericTable, the
      characters of ALPHANUMERIC_CHARS). */
  predicate IsAlphanumeric(c: char) {
    exists v: nat :: v < 45 && ToAlphaNumericChar(v) == c
  }

  // ---------------------------------------------------------------- numeric segments

  /** The character for a digit value: the decimal digit. */
  function NumeralChar(d: nat): (c: char)
    requires d < 10
    ensures IsAsciiDigit(c) && c as int - '0' as int == d
  {
    DigitChar(d)
  }

  /** The last nine entries of Table 5. */
  const ALPHANUMERIC_SPECIALS: string := " $%*+-./:"

  /** `ALPHANUMERIC_CHARS[v]` for an index below 45, computed from its place in Table 5:
      ten digits, then 26 capital letters, then the nine other characters (AlphanumericTable). */
  function ToAlphaNumericChar(v: nat): (c: char)
    requires v < 45
    ensures v < 10 ==> c == NumeralChar(v)
  {
    if v < 10 then NumeralChar(v)
    else if v < 36 then (v - 10 + 'A' as int) as char
    else ALPHANUMERIC_SPECIALS[v - 36]
  }

  /** The computed entry is the one Table 5 lists at that index. */
  lemma AlphanumericTable(v: nat)
    requires v < 45
    ensures ToAlphaNumericChar(v) == ALPHANUMERIC_CHARS[v]
  {
    if v < 10 {
      assert ALPHANUMERIC_CHARS[v] == DECIMAL_DIGITS[v];
    } else {
      assert ALPHANUMERIC_CHARS[v] == "ABCDEFGHIJKLMNOPQRSTUVWXYZ $%*+-./:"[v - 10];
    }
  }

  /** Where `ToBits(v, n)` stands at `pos`, reading `n` bits there gives `v` back. */
  lemma ReadEncoded(v: nat, n: nat, bits: seq<bool>, pos: nat)
    requires v < Pow2(n)
    requires pos + n <= |bits| && bits[pos .. pos + n] == ToBits(v, n)
    ensures ValueAt(bits, pos, n) == v
  {
    ToBitsExact(v, n);
  }

  /** An `n`-bit field holding `v` laid out at `pos` in front of `rest`: reading the field
      gives `v`, and `rest` stands right after it. */
  lemma FieldThenRest(v: nat, n: nat, rest: seq<bool>, bits: seq<bool>, pos: nat)
    requires v < Pow2(n)
    requires pos + n + |rest| <= |bits| && bits[pos .. pos + n + |rest|] == ToBits(v, n) + rest
    ensures ValueAt(bits, pos, n) == v
    ensures bits[pos + n .. pos + n + |rest|] == rest
  {
    SliceSplit(bits, pos, ToBits(v, n), rest);
    ReadEncoded(v, n, bits, pos);
  }

  /** A concatenation laid out at `pos` puts each part at its place. */
  lemma SliceSplit(bits: seq<bool>, pos: nat, a: seq<bool>, b: seq<bool>)
    requires pos + |a| + |b| <= |bits| && bits[pos .. pos + |a| + |b|] == a + b
    ensures bits[pos .. pos + |a|] == a
    ensures bits[pos + |a| .. pos + |a| + |b|] == b
  {
    assert bits[pos .. pos + |a|] == bits[pos .. pos + |a| + |b|][..|a|];
    assert bits[pos + |a| .. pos + |a| + |b|] == bits[pos .. pos + |a| + |b|][|a|..];
  }

  /** The three decimal digits of a value below 1000. */
  function ThreeDigitText(v: nat): (s: string)
    requires v < 1000
    ensures |s| == 3
  {
    [NumeralChar(v / 100), NumeralChar((v / 10) % 10), NumeralChar(v % 10)]
  }

  /** The two decimal digits of a value below 100. */
  function TwoDigitText(v: nat): (s: string)
    requires v < 100
    ensures |s| == 2
  {
    [NumeralChar(v / 10), NumeralChar(v % 10)]
  }

  /** Bits a numeric segment of `count` digits occupies. */
  function NumericBits(count: nat): nat {
    10 * (count / 3) + (if count % 3 == 2 then 7 else if count % 3 == 1 then 4 else 0)
  }

  /** A numeric segment: groups of three digits in 10 bits, then two digits in 7 bits or
      one digit in 4 bits; a group whose value has too many digits is an error. */
  function NumericSpec(bits: seq<bool>, pos: nat, count: nat): (r: Outcome<Seg<string>>)
    requires pos <= |bits|
    ensures r.Ok? ==> |r.value.out| == count && r.value.next == pos + NumericBits(count) <= |bits|
    decreases count
  {
    if count >= 3 then
      if !Fits(bits, pos, 10) then Fail("not enough bits")
      else
        var v := ValueAt(bits, pos, 10);
        if v >= 1000 then Fail("Illegal value for 3-digit unit")
        else
          match NumericSpec(bits, pos + 10, count - 3)
          case Fail(e) => Fail(e)
          case Ok(rest) =>
            Ok(Seg(ThreeDigitText(v) + rest.out, rest.next))
    else if count == 2 then
      if !Fits(bits, pos, 7) then Fail("not enough bits")
      else
        var v := ValueAt(bits, pos, 7);
        if v >= 100 then Fail("Illegal value for 2-digit unit")
        else Ok(Seg(TwoDigitText(v), pos + 7))
    else if count == 1 then
      if !Fits(bits, pos, 4) then Fail("not enough bits")
      else
        var v := ValueAt(bits, pos, 4);
        if v >= 10 then Fail("Illegal value for digit unit")
        else Ok(Seg([NumeralChar(v)], pos + 4))
    else Ok(Seg([], pos))
  }

  /** A numeric segment decodes to decimal digits only. */
  lemma {:induction false} NumericSpecDigits(bits: seq<bool>, pos: nat, count: nat)
    requires pos <= |bits| && NumericSpec(bits, pos, count).Ok?
    ensures forall k :: 0 <= k < count ==> IsAsciiDigit(NumericSpec(bits, pos, count).value.out[k])
    decreases count
  {
    var out := NumericSpec(bits, pos, count).value.out;
    if count >= 3 {
      var v := ValueAt(bits, pos, 10);
      NumericSpecDigits(bits, pos + 10, count - 3);
      var rest := NumericSpec(bits, pos + 10, count - 3).value.out;
      assert out == ThreeDigitText(v) + rest;
      forall k | 0 <= k < count
        ensures IsAsciiDigit(out[k])
      {
        if k >= 3 {
          assert out[k] == rest[k - 3];
        }
      }
    }
  }

  predicate AllDigits(ds: seq<nat>) {
    forall k :: 0 <= k < |ds| ==> ds[k] < 10
  }

  function DigitText(ds: seq<nat>): (s: string)
    requires AllDigits(ds)
    ensures |s| == |ds|
  {
    if ds == [] then [] else [NumeralChar(ds[0])] + DigitText(ds[1..])
  }

  /** The encoder's side of a numeric segment. */
  function EncodeNumeric(ds: seq<nat>): (e: seq<bool>)
    ensures |e| == NumericBits(|ds|)
    decreases |ds|
  {
    if |ds| >= 3 then
      ToBits(100 * ds[0] + 10 * ds[1] + ds[2], 10) + EncodeNumeric(ds[3..])
    else if |ds| == 2 then ToBits(10 * ds[0] + ds[1], 7)
    else if |ds| == 1 then ToBits(ds[0], 4)
    else []
  }

  /** Where the encoding of `ds` stands at `pos`, the numeric segment decodes to `ds`. */
  lemma {:induction false} NumericRoundTrip(ds: seq<nat>, bits: seq<bool>, pos: nat)
    requires AllDigits(ds)
    requires pos + |EncodeNumeric(ds)| <= |bits|
    requires bits[pos .. pos + |EncodeNumeric(ds)|] == EncodeNumeric(ds)
    ensures NumericSpec(bits, pos, |ds|) == Ok(Seg(DigitText(ds), pos + |EncodeNumeric(ds)|))
    decreases |ds|
  {
    if |ds| >= 3 {
      NumericGroupEncoded(ds, bits, pos);
      NumericRoundTrip(ds[3..], bits, pos + 10);
      NumericGroupRoundTrip(ds, bits, pos, pos + 10 + |EncodeNumeric(ds[3..])|);
    } else if |ds| == 2 {
      NumericPairRoundTrip(ds, bits, pos);
    } else if |ds| == 1 {
      Pow2Table();
      ReadEncoded(ds[0], 4, bits, pos);
      assert DigitText(ds) == [NumeralChar(ds[0])];
    }
  }

  /** The first group of an encoding holds the value of the first three digits, the rest
      encodes the remaining digits. */
  lemma NumericGroupEncoded(ds: seq<nat>, bits: seq<bool>, pos: nat)
    requires AllDigits(ds) && |ds| >= 3
    requires pos + |EncodeNumeric(ds)| <= |bits|
    requires bits[pos .. pos + |EncodeNumeric(ds)|] == EncodeNumeric(ds)
    ensures pos + 10 + |EncodeNumeric(ds[3..])| == pos + |EncodeNumeric(ds)|
    ensures ValueAt(bits, pos, 10) == 100 * ds[0] + 10 * ds[1] + ds[2]
    ensures bits[pos + 10 .. pos + 10 + |EncodeNumeric(ds[3..])|] == EncodeNumeric(ds[3..])
  {
    var rest := EncodeNumeric(ds[3..]);
    var v := 100 * ds[0] + 10 * ds[1] + ds[2];
    assert EncodeNumeric(ds) == ToBits(v, 10) + rest;
    GroupValueBound(ds[0], ds[1], ds[2], v);
    FieldThenRest(v, 10, rest, bits, pos);
  }

  lemma GroupValueBound(a: nat, b: nat, c: nat, v: nat)
    requires a < 10 && b < 10 && c < 10 && v == 100 * a + 10 * b + c
    ensures v < Pow2(10)
  {
    Pow2Table();
  }

  lemma NumericPairRoundTrip(ds: seq<nat>, bits: seq<bool>, pos: nat)
    requires AllDigits(ds) && |ds| == 2
    requires pos + 7 <= |bits| && bits[pos .. pos + 7] == EncodeNumeric(ds)
    ensures NumericSpec(bits, pos, 2) == Ok(Seg(DigitText(ds), pos + 7))
  {
    Pow2Table();
    ReadEncoded(10 * ds[0] + ds[1], 7, bits, pos);
    DigitTexts(ds[0], ds[1], 0);
    assert DigitText(ds) == [NumeralChar(ds[0]), NumeralChar(ds[1])];
  }

  lemma NumericGroupRoundTrip(ds: seq<nat>, bits: seq<bool>, pos: nat, next: nat)
    requires AllDigits(ds) && |ds| >= 3
    requires pos + 10 <= |bits| && ValueAt(bits, pos, 10) == 100 * ds[0] + 10 * ds[1] + ds[2]
    requires NumericSpec(bits, pos + 10, |ds| - 3) == Ok(Seg(DigitText(ds[3..]), next))
    ensures NumericSpec(bits, pos, |ds|) == Ok(Seg(DigitText(ds), next))
  {
    var front := [NumeralChar(ds[0]), NumeralChar(ds[1]), NumeralChar(ds[2])];
    DigitTexts(ds[0], ds[1], ds[2]);
    NumericGroupStep(bits, pos, |ds|, DigitText(ds[3..]), next);
    DigitTextSplit(ds);
    SameFront(DigitText(ds), ThreeDigitText(ValueAt(bits, pos, 10)), front, DigitText(ds[3..]));
  }

  lemma DigitTextSplit(ds: seq<nat>)
    requires AllDigits(ds) && |ds| >= 3
    ensures DigitText(ds) == [NumeralChar(ds[0]), NumeralChar(ds[1]), NumeralChar(ds[2])] + DigitText(ds[3..])
  {
    var t1 := ds[1..];
    var t2 := t1[1..];
    assert t2[1..] == ds[3..];
    DigitTextFirst(ds);
    DigitTextFirst(t1);
    DigitTextFirst(t2);
    assert [NumeralChar(ds[0])] + ([NumeralChar(t1[0])] + ([NumeralChar(t2[0])] + DigitText(ds[3..])))
        == [NumeralChar(ds[0]), NumeralChar(ds[1]), NumeralChar(ds[2])] + DigitText(ds[3..]);
  }

  /** The first digit's numeral in front of the others'. */
  lemma DigitTextFirst(ds: seq<nat>)
    requires AllDigits(ds) && |ds| > 0
    ensures AllDigits(ds[1..])
    ensures DigitText(ds) == [NumeralChar(ds[0])] + DigitText(ds[1..])
  {
  }

  /** One group of three digits followed by the rest of the segment. */
  lemma NumericGroupStep(bits: seq<bool>, pos: nat, count: nat, restOut: string, restNext: nat)
    requires count >= 3 && pos + 10 <= |bits| && ValueAt(bits, pos, 10) < 1000
    requires NumericSpec(bits, pos + 10, count - 3) == Ok(Seg(restOut, restNext))
    ensures NumericSpec(bits, pos, count) == Ok(Seg(ThreeDigitText(ValueAt(bits, pos, 10)) + restOut, restNext))
  {
  }

  /** The digit texts give back the digits a value was built from. */
  lemma DigitTexts(a: nat, b: nat, c: nat)
    requires a < 10 && b < 10 && c < 10
    ensures 100 * a + 10 * b + c < 1000 && 10 * a + b < 100
    ensures ThreeDigitText(100 * a + 10 * b + c) == [NumeralChar(a), NumeralChar(b), NumeralChar(c)]
    ensures TwoDigitText(10 * a + b) == [NumeralChar(a), NumeralChar(b)]
  {
    DivMod10(10 * a + b, c);
    DivMod10(a, b);
    DivMod100(a, 10 * b + c);
  }

  /** Division by 10, 45 or 100 undoes `d q + r` when `r < d`. */
  lemma DivMod10(q: nat, r: nat)
    requires r < 10
    ensures (10 * q + r) / 10 == q && (10 * q + r) % 10 == r
  {
  }

  lemma DivMod45(q: nat, r: nat)
    requires r < 45
    ensures (45 * q + r) / 45 == q && (45 * q + r) % 45 == r
  {
  }

  lemma DivMod100(q: nat, r: nat)
    requires r < 100
    ensures (100 * q + r) / 100 == q && (100 * q + r) % 100 == r
  {
  }

  // ---------------------------------------------------------------- alphanumeric segments

  /** Bits an alphanumeric segment of `count` characters occupies. */
  function AlphanumericBits(count: nat): nat {
    11 * (count / 2) + (if count % 2 == 1 then 6 else 0)
  }

  /** The two characters `45 a + b` stands for. */
  function PairText(v: nat): (s: string)
    requires v / 45 < 45
    ensures |s| == 2
  {
    [ToAlphaNumericChar(v / 45), ToAlphaNumericChar(v % 45)]
  }

  /** An alphanumeric segment before FNC1 processing: pairs in 11 bits as `45 a + b`, a last
      odd character in 6 bits. A table index of 45 or more fails, as the array access does. */
  function AlphanumericRawSpec(bits: seq<bool>, pos: nat, count: nat): (r: Outcome<Seg<string>>)
    requires pos <= |bits|
    ensures r.Ok? ==> |r.value.out| == count && r.value.next == pos + AlphanumericBits(count) <= |bits|
    decreases count
  {
    if count > 1 then
      if !Fits(bits, pos, 11) then Fail("not enough bits")
      else
        var v := ValueAt(bits, pos, 11);
        if v / 45 >= 45 then Fail("character index out of range")
        else
          match AlphanumericRawSpec(bits, pos + 11, count - 2)
          case Fail(e) => Fail(e)
          case Ok(rest) =>
            Ok(Seg(PairText(v) + rest.out, rest.next))
    else if count == 1 then
      if !Fits(bits, pos, 6) then Fail("not enough bits")
      else
        var v := ValueAt(bits, pos, 6);
        if v >= 45 then Fail("character index out of range")
        else Ok(Seg([ToAlphaNumericChar(v)], pos + 6))
    else Ok(Seg([], pos))
  }

  /** An alphanumeric segment decodes to characters of Table 5 only. */
  lemma {:induction false} AlphanumericSpecChars(bits: seq<bool>, pos: nat, count: nat)
    requires pos <= |bits| && AlphanumericRawSpec(bits, pos, count).Ok?
    ensures forall k :: 0 <= k < count ==> IsAlphanumeric(AlphanumericRawSpec(bits, pos, count).value.out[k])
    decreases count
  {
    var out := AlphanumericRawSpec(bits, pos, count).value.out;
    if count > 1 {
      var v := ValueAt(bits, pos, 11);
      AlphanumericSpecChars(bits, pos + 11, count - 2);
      var rest := AlphanumericRawSpec(bits, pos + 11, count - 2).value.out;
      assert out == PairText(v) + rest;
      forall k | 0 <= k < count
        ensures IsAlphanumeric(out[k])
      {
        if k >= 2 {
          assert out[k] == rest[k - 2];
        } else {
          assert IsAlphanumeric(ToAlphaNumericChar(v / 45));
          assert IsAlphanumeric(ToAlphaNumericChar(v % 45));
        }
      }
    } else if count == 1 {
      assert IsAlphanumeric(ToAlphaNumericChar(ValueAt(bits, pos, 6)));
    }
  }

  /** The FNC1 rewriting of sections 6.4.8.1 and 6.4.8.2, left to right: `%%` becomes `%`
      and any other `%` becomes the group separator. */
  function Fnc1Rewrite(s: string): (r: string)
    ensures |r| <= |s|
  {
    if s == [] then []
    else if s[0] == '%' then
      if |s| > 1 && s[1] == '%' then ['%'] + Fnc1Rewrite(s[2..])
      else [GS] + Fnc1Rewrite(s[1..])
    else [s[0]] + Fnc1Rewrite(s[1..])
  }

  /** An alphanumeric segment: the raw characters, rewritten when FNC1 is in effect. */
  function AlphanumericSpec(bits: seq<bool>, pos: nat, count: nat, fc1InEffect: bool): Outcome<Seg<string>>
    requires pos <= |bits|
  {
    match AlphanumericRawSpec(bits, pos, count)
    case Fail(e) => Fail(e)
    case Ok(raw) => Ok(Seg(if fc1InEffect then Fnc1Rewrite(raw.out) else raw.out, raw.next))
  }

  predicate AllAlphanumericIndices(cs: seq<nat>) {
    forall k :: 0 <= k < |cs| ==> cs[k] < 45
  }

  function AlphanumericText(cs: seq<nat>): (s: string)
    requires AllAlphanumericIndices(cs)
    ensures |s| == |cs|
  {
    if cs == [] then [] else [ToAlphaNumericChar(cs[0])] + AlphanumericText(cs[1..])
  }

  /** The encoder's side of an alphanumeric segment, from Table 5 values. */
  function EncodeAlphanumeric(cs: seq<nat>): (e: seq<bool>)
    ensures |e| == AlphanumericBits(|cs|)
    decreases |cs|
  {
    if |cs| > 1 then ToBits(45 * cs[0] + cs[1], 11) + EncodeAlphanumeric(cs[2..])
    else if |cs| == 1 then ToBits(cs[0], 6)
    else []
  }

  /** Where the encoding of `cs` stands at `pos`, the raw alphanumeric segment decodes to it. */
  lemma {:induction false} AlphanumericRoundTrip(cs: seq<nat>, bits: seq<bool>, pos: nat)
    requires AllAlphanumericIndices(cs)
    requires pos + |EncodeAlphanumeric(cs)| <= |bits|
    requires bits[pos .. pos + |EncodeAlphanumeric(cs)|] == EncodeAlphanumeric(cs)
    ensures AlphanumericRawSpec(bits, pos, |cs|)
            == Ok(Seg(AlphanumericText(cs), pos + |EncodeAlphanumeric(cs)|))
    decreases |cs|
  {
    if |cs| > 1 {
      AlphanumericPairEncoded(cs, bits, pos);
      AlphanumericRoundTrip(cs[2..], bits, pos + 11);
      AlphanumericPairRoundTrip(cs, bits, pos, pos + 11 + |EncodeAlphanumeric(cs[2..])|);
    } else if |cs| == 1 {
      Pow2Table();
      ReadEncoded(cs[0], 6, bits, pos);
      assert AlphanumericText(cs) == [ToAlphaNumericChar(cs[0])];
    }
  }

  /** The first pair's 11 bits hold `45 a + b`, and the encoding of the rest follows them. */
  lemma AlphanumericPairEncoded(cs: seq<nat>, bits: seq<bool>, pos: nat)
    requires AllAlphanumericIndices(cs) && |cs| > 1
    requires pos + |EncodeAlphanumeric(cs)| <= |bits|
    requires bits[pos .. pos + |EncodeAlphanumeric(cs)|] == EncodeAlphanumeric(cs)
    ensures pos + 11 + |EncodeAlphanumeric(cs[2..])| == pos + |EncodeAlphanumeric(cs)|
    ensures ValueAt(bits, pos, 11) == 45 * cs[0] + cs[1]
    ensures bits[pos + 11 .. pos + 11 + |EncodeAlphanumeric(cs[2..])|] == EncodeAlphanumeric(cs[2..])
  {
    var v := 45 * cs[0] + cs[1];
    var rest := EncodeAlphanumeric(cs[2..]);
    assert EncodeAlphanumeric(cs) == ToBits(v, 11) + rest;
    PairValueBound(cs[0], cs[1], v);
    FieldThenRest(v, 11, rest, bits, pos);
  }

  lemma PairValueBound(a: nat, b: nat, v: nat)
    requires a < 45 && b < 45 && v == 45 * a + b
    ensures v < Pow2(11)
  {
    Pow2Table();
  }

  /** A first pair read as `45 a + b` in front of a segment that decodes to the rest. */
  lemma AlphanumericPairRoundTrip(cs: seq<nat>, bits: seq<bool>, pos: nat, next: nat)
    requires AllAlphanumericIndices(cs) && |cs| > 1
    requires pos + 11 <= |bits| && ValueAt(bits, pos, 11) == 45 * cs[0] + cs[1]
    requires AlphanumericRawSpec(bits, pos + 11, |cs| - 2) == Ok(Seg(AlphanumericText(cs[2..]), next))
    ensures AlphanumericRawSpec(bits, pos, |cs|) == Ok(Seg(AlphanumericText(cs), next))
  {
    AlphanumericTextSplit(cs, ValueAt(bits, pos, 11));
    AlphanumericPairStep(bits, pos, |cs|, AlphanumericText(cs[2..]), next);
  }

  lemma AlphanumericPairStep(bits: seq<bool>, pos: nat, count: nat, restOut: string, restNext: nat)
    requires count >= 2 && pos + 11 <= |bits| && ValueAt(bits, pos, 11) / 45 < 45
    requires AlphanumericRawSpec(bits, pos + 11, count - 2) == Ok(Seg(restOut, restNext))
    ensures AlphanumericRawSpec(bits, pos, count) == Ok(Seg(PairText(ValueAt(bits, pos, 11)) + restOut, restNext))
  {
  }

  lemma AlphanumericTextSplit(cs: seq<nat>, v: nat)
    requires AllAlphanumericIndices(cs) && |cs| > 1 && v == 45 * cs[0] + cs[1]
    ensures v / 45 < 45
    ensures AlphanumericText(cs) == PairText(v) + AlphanumericText(cs[2..])
  {
    var pair := [ToAlphaNumericChar(cs[0]), ToAlphaNumericChar(cs[1])];
    AlphanumericTextFront(cs);
    PairTextOf(cs[0], cs[1], v);
    SameFront(AlphanumericText(cs), PairText(v), pair, AlphanumericText(cs[2..]));
  }

  lemma AlphanumericTextFront(cs: seq<nat>)
    requires AllAlphanumericIndices(cs) && |cs| > 1
    ensures AlphanumericText(cs)
            == [ToAlphaNumericChar(cs[0]), ToAlphaNumericChar(cs[1])] + AlphanumericText(cs[2..])
  {
    var t1 := cs[1..];
    assert t1[1..] == cs[2..];
    AlphanumericTextFirst(cs);
    AlphanumericTextFirst(t1);
    assert [ToAlphaNumericChar(cs[0])] + ([ToAlphaNumericChar(t1[0])] + AlphanumericText(cs[2..]))
        == [ToAlphaNumericChar(cs[0]), ToAlphaNumericChar(cs[1])] + AlphanumericText(cs[2..]);
  }

  /** The first index's character in front of the others'. */
  lemma AlphanumericTextFirst(cs: seq<nat>)
    requires AllAlphanumericIndices(cs) && |cs| > 0
    ensures AllAlphanumericIndices(cs[1..])
    ensures AlphanumericText(cs) == [ToAlphaNumericChar(cs[0])] + AlphanumericText(cs[1..])
  {
  }

  lemma SameFront(whole: string, front: string, same: string, rest: string)
    requires whole == same + rest && front == same
    ensures whole == front + rest
  {
  }

  lemma PairTextOf(a: nat, b: nat, v: nat)
    requires a < 45 && b < 45 && v == 45 * a + b
    ensures v / 45 == a && v % 45 == b
    ensures PairText(v) == [ToAlphaNumericChar(a), ToAlphaNumericChar(b)]
  {
    DivMod45(a, b);
  }

  /** The encoder's side of FNC1 in alphanumeric mode: `%` is doubled, the separator becomes `%`. */
  function Fnc1Escape(t: string): (s: string)
    ensures |s| >= |t|
  {
    if t == [] then []
    else if t[0] == '%' then "%%" + Fnc1Escape(t[1..])
    else if t[0] == GS then "%" + Fnc1Escape(t[1..])
    else [t[0]] + Fnc1Escape(t[1..])
  }

  /** A separator directly followed by `%` or by another separator cannot be told apart from
      an escaped `%`: `%%%` always reads as `%` then a separator. */
  predicate Fnc1Unambiguous(t: string) {
    forall k :: 0 <= k < |t| - 1 && t[k] == GS ==> t[k + 1] != '%' && t[k + 1] != GS
  }

  /** The FNC1 rewriting undoes the escaping, wherever the escaping is unambiguous. */
  lemma {:induction false} Fnc1RoundTrip(t: string)
    requires Fnc1Unambiguous(t)
    ensures Fnc1Rewrite(Fnc1Escape(t)) == t
  {
    if t != [] {
      assert Fnc1Unambiguous(t[1..]) by {
        forall k | 0 <= k < |t[1..]| - 1 && t[1..][k] == GS
          ensures t[1..][k + 1] != '%' && t[1..][k + 1] != GS
        {
          assert t[k + 1] == GS;
        }
      }
      Fnc1RoundTrip(t[1..]);
      var rest := Fnc1Escape(t[1..]);
      if t[0] == '%' {
        assert ("%%" + rest)[2..] == rest;
      } else if t[0] == GS {
        assert ("%" + rest)[1..] == rest;
        if |t| > 1 {
          assert t[1] != '%' && t[1] != GS;
          assert rest[0] == t[1];
        } else {
          assert rest == [];
        }
      } else {
        assert ([t[0]] + rest)[1..] == rest;
      }
    }
  }

  // ---------------------------------------------------------------- Kanji segments

  /** The Shift_JIS code of a 13-bit Kanji value: `((v / 0xC0) << 8) | (v % 0xC0)`, where the
      low part is below 0x100 so the `|` is an addition, then offset into the 0x8140 or the
      0xE040 range. */
  function KanjiAssembled(v: nat): nat
    requires v < 0x2000
  {
    var assembled := (v / 0xC0) * 0x100 + v % 0xC0;
    if assembled < 0x1F00 then assembled + 0x8140 else assembled + 0xC140
  }

  /** The two bytes stored for one Kanji character: high byte, then low byte. */
  function KanjiBytes(v: nat): (b: seq<byte>)
    requires v < 0x2000
    ensures |b| == 2
  {
    var a := KanjiAssembled(v);
    [(a / 0x100) % 0x100, a % 0x100]
  }

  /** The encoder's side: a Shift_JIS double-byte code back to its 13-bit value. */
  function KanjiValue(hi: byte, lo: byte): int {
    (hi - (if hi >= 0xE0 then 0xC1 else 0x81)) * 0xC0 + (lo - 0x40)
  }

  lemma DivMod256(h: nat, l: nat)
    requires l < 0x100
    ensures (0x100 * h + l) / 0x100 == h && (0x100 * h + l) % 0x100 == l
  {
  }

  /** Each Kanji value becomes a lead byte in 0x81..0x9F or 0xE0..0xEB and a trail byte from
      0x40 up, and the Shift_JIS code determines the value again. */
  lemma KanjiBytesRoundTrip(v: nat)
    requires v < 0x2000
    ensures var b := KanjiBytes(v);
            && ((0x81 <= b[0] <= 0x9F) || (0xE0 <= b[0] <= 0xEB))
            && 0x40 <= b[1]
            && KanjiValue(b[0], b[1]) == v
  {
    var hi, lo := v / 0xC0, v % 0xC0;
    assert v == 0xC0 * hi + lo;
    if hi <= 30 {
      assert KanjiAssembled(v) == 0x100 * (hi + 0x81) + (lo + 0x40);
      DivMod256(hi + 0x81, lo + 0x40);
      assert (hi + 0x81) % 0x100 == hi + 0x81;
      assert KanjiBytes(v) == [hi + 0x81, lo + 0x40];
    } else {
      assert KanjiAssembled(v) == 0x100 * (hi + 0xC1) + (lo + 0x40);
      DivMod256(hi + 0xC1, lo + 0x40);
      assert (hi + 0xC1) % 0x100 == hi + 0xC1;
      assert KanjiBytes(v) == [hi + 0xC1, lo + 0x40];
    }
  }

  /** A Kanji segment: `count` 13-bit values, each stored as two bytes. */
  function KanjiSpec(bits: seq<bool>, pos: nat, count: nat): (r: Outcome<Seg<seq<byte>>>)
    requires pos <= |bits|
    ensures r.Ok? ==> |r.value.out| == 2 * count && r.value.next == pos + 13 * count <= |bits|
    decreases count
  {
    if count == 0 then Ok(Seg([], pos))
    else if !Fits(bits, pos, 13) then Fail("not enough bits")
    else
      var v := ValueAt(bits, pos, 13);
      FieldBound(bits, pos, 13);
      match KanjiSpec(bits, pos + 13, count - 1)
      case Fail(e) => Fail(e)
      case Ok(rest) => Ok(Seg(KanjiBytes(v) + rest.out, rest.next))
  }

  // ---------------------------------------------------------------- byte segments

  /** The 8 bits at `pos` as a byte. */
  function ByteAt(bits: seq<bool>, pos: nat): byte
    requires Fits(bits, pos, 8)
  {
    FieldBound(bits, pos, 8);
    ValueAt(bits, pos, 8)
  }

  /** A byte segment: refused before anything is read when `8 count` exceeds the bits left;
      otherwise `count` bytes of 8 bits each. */
  function ByteSpec(bits: seq<bool>, pos: nat, count: nat): (r: Outcome<Seg<seq<byte>>>)
    requires pos <= |bits|
    ensures r.Ok? <==> 8 * count <= |bits| - pos
    ensures r.Ok? ==> |r.value.out| == count && r.value.next == pos + 8 * count
  {
    if 8 * count > |bits| - pos then Fail("Count too large")
    else
      Ok(Seg(seq(count, k requires 0 <= k < count => ByteAt(bits, pos + 8 * k)), pos + 8 * count))
  }

  /** Reading a byte segment at a byte boundary of a code's bytes gives those bytes back. */
  lemma ByteSegmentRoundTrip(bytes: seq<byte>, m: nat, count: nat)
    requires m + count <= |bytes|
    ensures ByteSpec(BytesToBits(bytes), 8 * m, count) == Ok(Seg(bytes[m .. m + count], 8 * (m + count)))
  {
    ByteSegmentBytes(bytes, m, count);
    ByteSpecPointwise(BytesToBits(bytes), 8 * m, count, bytes[m .. m + count], 8 * (m + count));
  }

  /** Each byte of a byte-aligned segment is the byte of the code at that place. */
  lemma ByteSegmentBytes(bytes: seq<byte>, m: nat, count: nat)
    requires m + count <= |bytes|
    ensures 8 * m + 8 * count == 8 * (m + count) <= |BytesToBits(bytes)|
    ensures forall k :: 0 <= k < count ==> ByteAt(BytesToBits(bytes), 8 * m + 8 * k) == bytes[m .. m + count][k]
  {
    forall k | 0 <= k < count
      ensures ByteAt(BytesToBits(bytes), 8 * m + 8 * k) == bytes[m .. m + count][k]
    {
      ByteAtEncodedFrom(bytes, m, k);
    }
  }

  /** A byte segment whose every byte is known. */
  lemma ByteSpecPointwise(bits: seq<bool>, pos: nat, count: nat, out: seq<byte>, next: nat)
    requires next == pos + 8 * count <= |bits| && |out| == count
    requires forall k :: 0 <= k < count ==> ByteAt(bits, pos + 8 * k) == out[k]
    ensures ByteSpec(bits, pos, count) == Ok(Seg(out, next))
  {
    assert ByteSpec(bits, pos, count).value.out == out;
  }

  lemma ByteAtEncodedFrom(bytes: seq<byte>, m: nat, k: nat)
    requires m + k < |bytes|
    ensures ByteAt(BytesToBits(bytes), 8 * m + 8 * k) == bytes[m + k]
  {
    assert 8 * m + 8 * k == 8 * (m + k);
    ByteAtEncoded(bytes, m + k);
  }

  lemma ByteAtEncoded(bytes: seq<byte>, j: nat)
    requires j < |bytes|
    ensures ByteAt(BytesToBits(bytes), 8 * j) == bytes[j]
  {
    BytesToBitsAt(bytes, j);
    Pow2Table();
    ReadEncoded(bytes[j], 8, BytesToBits(bytes), 8 * j);
  }

  // ---------------------------------------------------------------- ECI designators

  /** An ECI designator: the leading bits of the first byte give its length. `0xxxxxxx` is a
      7-bit value; `10xxxxxx` takes the next byte as well; `110xxxxx` the next 16 bits;
      anything else is an error. The masks are written as ranges (see EciMasks). */
  function EciSpec(bits: seq<bool>, pos: nat): (r: Outcome<Seg<nat>>)
    ensures r.Ok? ==> r.value.next in {pos + 8, pos + 16, pos + 24} && r.value.next <= |bits|
    ensures r.Ok? ==> r.value.out < 0x200000
  {
    if !Fits(bits, pos, 8) then Fail("not enough bits")
    else
      var first := ValueAt(bits, pos, 8);
      FieldBound(bits, pos, 8);
      if first < 0x80 then Ok(Seg(first, pos + 8))
      else if first < 0xC0 then
        if !Fits(bits, pos + 8, 8) then Fail("not enough bits")
        else
          FieldBound(bits, pos + 8, 8);
          Ok(Seg((first - 0x80) * 0x100 + ValueAt(bits, pos + 8, 8), pos + 16))
      else if first < 0xE0 then
        if !Fits(bits, pos + 8, 16) then Fail("not enough bits")
        else
          FieldBound(bits, pos + 8, 16);
          Ok(Seg((first - 0xC0) * 0x10000 + ValueAt(bits, pos + 8, 16), pos + 24))
      else Fail("Bad ECI bits")
  }

  /** `x & m` on a byte. */
  function Mask(b: bv8, m: bv8): byte {
    (b & m) as int
  }

  /** The source's masks on the first byte agree with the ranges EciSpec tests, and the masked
      values with the differences it takes. */
  lemma EciMasks(b: bv8)
    ensures (Mask(b, 0x80) == 0) <==> b as int < 0x80
    ensures (Mask(b, 0xC0) == 0x80) <==> 0x80 <= b as int < 0xC0
    ensures (Mask(b, 0xE0) == 0xC0) <==> 0xC0 <= b as int < 0xE0
    ensures b as int < 0x80 ==> Mask(b, 0x7F) == b as int
    ensures 0x80 <= b as int < 0xC0 ==> Mask(b, 0x3F) == b as int - 0x80
    ensures 0xC0 <= b as int < 0xE0 ==> Mask(b, 0x1F) == b as int - 0xC0
  {
  }

  /** A byte's value survives the conversion to eight bits and back. */
  lemma ByteAsBits(x: byte)
    ensures (x as bv8) as int == x
  {
    assert x % 256 == x;
  }

  /** The encoder's side: the shortest ECI designator for a value below 2^21. */
  function EncodeEci(v: nat): (e: seq<bool>)
    requires v < 0x200000
  {
    if v < 0x80 then ToBits(v, 8)
    else if v < 0x4000 then ToBits(0x80 + v / 0x100, 8) + ToBits(v % 0x100, 8)
    else ToBits(0xC0 + v / 0x10000, 8) + ToBits(v % 0x10000, 16)
  }

  lemma EciRoundTrip(v: nat, bits: seq<bool>, pos: nat)
    requires v < 0x200000
    requires pos + |EncodeEci(v)| <= |bits| && bits[pos .. pos + |EncodeEci(v)|] == EncodeEci(v)
    ensures EciSpec(bits, pos) == Ok(Seg(v, pos + |EncodeEci(v)|))
  {
    Pow2Table();
    if v < 0x80 {
      ReadEncoded(v, 8, bits, pos);
    } else if v < 0x4000 {
      EciTwoBytes(v, bits, pos);
    } else {
      EciThreeBytes(v, bits, pos);
    }
  }

  lemma EciTwoBytes(v: nat, bits: seq<bool>, pos: nat)
    requires 0x80 <= v < 0x4000
    requires pos + 16 <= |bits| && bits[pos .. pos + 16] == ToBits(0x80 + v / 0x100, 8) + ToBits(v % 0x100, 8)
    ensures EciSpec(bits, pos) == Ok(Seg(v, pos + 16))
  {
    Pow2Table();
    SliceSplit(bits, pos, ToBits(0x80 + v / 0x100, 8), ToBits(v % 0x100, 8));
    ReadEncoded(0x80 + v / 0x100, 8, bits, pos);
    ReadEncoded(v % 0x100, 8, bits, pos + 8);
  }

  lemma EciThreeBytes(v: nat, bits: seq<bool>, pos: nat)
    requires 0x4000 <= v < 0x200000
    requires pos + 24 <= |bits| && bits[pos .. pos + 24] == ToBits(0xC0 + v / 0x10000, 8) + ToBits(v % 0x10000, 16)
    ensures EciSpec(bits, pos) == Ok(Seg(v, pos + 24))
  {
    Pow2Table();
    SliceSplit(bits, pos, ToBits(0xC0 + v / 0x10000, 8), ToBits(v % 0x10000, 16));
    ReadEncoded(0xC0 + v / 0x10000, 8, bits, pos);
    ReadEncoded(v % 0x10000, 16, bits, pos + 8);
  }

  // ---------------------------------------------------------------- guessing a byte encoding

  /** A byte in 0x80..0x9F that is not the last: ISO-8859-1 does not use it, Shift_JIS
      starts double-byte characters with it. */
  predicate Candidate(bytes: seq<byte>, i: int) {
    0 <= i < |bytes| - 1 && 0x80 <= bytes[i] <= 0x9F
  }

  /** How many candidates come before index `i`. */
  function CandidatesBefore(bytes: seq<byte>, i: nat): nat
    requires i <= |bytes|
  {
    if i == 0 then 0 else CandidatesBefore(bytes, i - 1) + (if Candidate(bytes, i - 1) then 1 else 0)
  }

  /** A candidate checked as the lead byte of a pair: the decoder's flag alternates on
      candidates only, so the 1st, 3rd, 5th, ... candidate is checked. */
  predicate CheckedLead(bytes: seq<byte>, i: int) {
    Candidate(bytes, i) && CandidatesBefore(bytes, i) % 2 == 0
  }

  /** The trail byte Shift_JIS allows after lead byte `lead`. */
  predicate ValidTrail(lead: byte, trail: byte) {
    if lead % 2 == 0 then 0x9F <= trail <= 0xFC else 0x40 <= trail <= 0x9E
  }

  predicate HasUtf8Bom(bytes: seq<byte>) {
    |bytes| > 3 && bytes[0] == 0xEF && bytes[1] == 0xBB && bytes[2] == 0xBF
  }

  /** The guessed encoding of a byte segment that carries no ECI. */
  function GuessSpec(bytes: seq<byte>, assumeShiftJis: bool): Charset {
    if assumeShiftJis then ShiftJis
    else if HasUtf8Bom(bytes) then Utf8
    else if exists i :: 0 <= i < |bytes| - 1 && CheckedLead(bytes, i) && !ValidTrail(bytes[i], bytes[i + 1]) then Utf8
    else if exists i :: 0 <= i < |bytes| - 1 && Candidate(bytes, i) then ShiftJis
    else Iso88591
  }

  /** Without a candidate byte, and without the UTF-8 byte order mark, the guess is ISO-8859-1. */
  lemma GuessIsoWithoutCandidates(bytes: seq<byte>)
    requires !HasUtf8Bom(bytes)
    requires forall i :: 0 <= i < |bytes| - 1 ==> !(0x80 <= bytes[i] <= 0x9F)
    ensures GuessSpec(bytes, false) == Iso88591
  {
  }

  /** After a candidate, the count stays one higher up to the next candidate, whatever other
      bytes lie between. */
  lemma {:induction false} CandidatesBetween(bytes: seq<byte>, i: nat, k: nat)
    requires i < k <= |bytes| && Candidate(bytes, i)
    requires forall m :: i < m < k ==> !Candidate(bytes, m)
    ensures CandidatesBefore(bytes, k) == CandidatesBefore(bytes, i) + 1
    decreases k
  {
    if k > i + 1 {
      CandidatesBetween(bytes, i, k - 1);
    }
  }

  /** The candidate that follows a checked one is not checked, even when bytes outside
      0x80..0x9F lie between them: the flag is only cleared by the next candidate. */
  lemma GuessLeadFlagPersists(bytes: seq<byte>, i: nat, j: nat)
    requires i < j && CheckedLead(bytes, i) && Candidate(bytes, j)
    requires forall m :: i < m < j ==> !Candidate(bytes, m)
    ensures !CheckedLead(bytes, j)
  {
    CandidatesBetween(bytes, i, j);
  }

  /** An example of the flag persisting: the second 0x81 is followed by 0x00, which no
      Shift_JIS pair allows, and the guess is still Shift_JIS. */
  lemma GuessLeadFlagExample()
    ensures GuessSpec([0x81, 0x40, 0x81, 0x00, 0x00], false) == ShiftJis
  {
    var b: seq<byte> := [0x81, 0x40, 0x81, 0x00, 0x00];
    assert Candidate(b, 0) && !Candidate(b, 1) && Candidate(b, 2) && !Candidate(b, 3);
    GuessLeadFlagPersists(b, 0, 2);
    assert forall i :: CheckedLead(b, i) ==> i == 0;
  }

  // ---------------------------------------------------------------- the whole bit stream

  /** A byte segment's text: its bytes decoded with the ECI encoding in effect, or else with
      the guessed one. */
  function ByteTextSpec(bits: seq<bool>, pos: nat, count: nat, eci: Option<string>, p: Platform)
    : (r: Outcome<Seg<string>>)
    requires pos <= |bits|
    ensures r.Ok? ==> r.value.next == pos + 8 * count <= |bits|
  {
    match ByteSpec(bits, pos, count)
    case Fail(e) => Fail(e)
    case Ok(seg) =>
      var encoding := if eci.Some? then EciCharset(eci.value) else GuessSpec(seg.out, p.assumeShiftJis);
      match p.decodeBytes(seg.out, encoding)
      case None => Fail("unsupported encoding")
      case Some(text) => Ok(Seg(text, seg.next))
  }

  /** A Kanji segment's text: its double-byte codes decoded as Shift_JIS. */
  function KanjiTextSpec(bits: seq<bool>, pos: nat, count: nat, p: Platform): (r: Outcome<Seg<string>>)
    requires pos <= |bits|
    ensures r.Ok? ==> r.value.next == pos + 13 * count <= |bits|
  {
    match KanjiSpec(bits, pos, count)
    case Fail(e) => Fail(e)
    case Ok(seg) =>
      match p.decodeBytes(seg.out, ShiftJis)
      case None => Fail("SJIS encoding is not supported on this device")
      case Some(text) => Ok(Seg(text, seg.next))
  }

  /** The text a counted segment (numeric, alphanumeric, byte or Kanji) appends. */
  function SegmentSpec(bits: seq<bool>, pos: nat, mode: Mode, count: nat, fc1InEffect: bool,
                       eci: Option<string>, p: Platform): (r: Outcome<Seg<string>>)
    requires pos <= |bits|
    ensures r.Ok? ==> pos <= r.value.next <= |bits|
  {
    match mode
    case Numeric => NumericSpec(bits, pos, count)
    case Alphanumeric => AlphanumericSpec(bits, pos, count, fc1InEffect)
    case Byte => ByteTextSpec(bits, pos, count, eci, p)
    case Kanji => KanjiTextSpec(bits, pos, count, p)
    case _ => Fail("Unsupported mode indicator")
  }

  /** A character count of the width the mode and version call for, then the segment it
      counts. A mode with no segment decoder fails after its count is read. */
  function CountedSegmentSpec(bits: seq<bool>, pos: nat, mode: Mode, fc1InEffect: bool,
                              eci: Option<string>, p: Platform): (r: Outcome<Seg<string>>)
    requires pos <= |bits|
    ensures r.Ok? ==> pos <= r.value.next <= |bits|
  {
    var countBits := p.countBits(mode);
    if !Fits(bits, pos, countBits) then Fail("not enough bits")
    else SegmentSpec(bits, pos + countBits, mode, ValueAt(bits, pos, countBits), fc1InEffect, eci, p)
  }

  /** The encoding in effect after an ECI designator: an unsupported value leaves it as it was. */
  function NextEci(eci: Option<string>, lookup: EciLookup): Option<string> {
    match lookup
    case Unsupported => eci
    case Found(enc) => enc
  }

  /** The decoder's loop from position `pos`, with the FNC1 flag, the current ECI encoding and
      the text produced so far. No bits left, or a TERMINATOR, ends it. */
  function DecodeSpec(bits: seq<bool>, pos: nat, fc1InEffect: bool, eci: Option<string>,
                      acc: string, p: Platform): Outcome<string>
    requires pos <= |bits|
    decreases |bits| - pos, 0
  {
    if pos == |bits| then Ok(acc)
    else if !Fits(bits, pos, 4) then Fail("not enough bits")
    else
      match p.forBits(ValueAt(bits, pos, 4))
      case None => Fail("unknown mode")
      case Some(mode) =>
        if mode == Terminator then Ok(acc)
        else if mode == Fnc1FirstPosition || mode == Fnc1SecondPosition then
          DecodeSpec(bits, pos + 4, true, eci, acc, p)
        else if mode == Eci then
          match EciSpec(bits, pos + 4)
          case Fail(e) => Fail(e)
          case Ok(value) =>
            DecodeSpec(bits, value.next, fc1InEffect, NextEci(eci, p.eciLookup(value.out)), acc, p)
        else DecodeCounted(bits, pos + 4, mode, fc1InEffect, eci, acc, p)
  }

  /** The decoder's loop after the mode indicator of a counted segment: the segment, then the
      rest of the stream. */
  function DecodeCounted(bits: seq<bool>, pos: nat, mode: Mode, fc1InEffect: bool, eci: Option<string>,
                         acc: string, p: Platform): Outcome<string>
    requires pos <= |bits|
    decreases |bits| - pos, 1
  {
    match CountedSegmentSpec(bits, pos, mode, fc1InEffect, eci, p)
    case Fail(e) => Fail(e)
    case Ok(seg) => DecodeSpec(bits, seg.next, fc1InEffect, eci, acc + seg.out, p)
  }

  /** The decoder only ever appends: whatever it returns extends the text it started from. */
  lemma {:induction false} DecodeExtends(bits: seq<bool>, pos: nat, fc1InEffect: bool,
                                         eci: Option<string>, acc: string, p: Platform)
    requires pos <= |bits|
    requires DecodeSpec(bits, pos, fc1InEffect, eci, acc, p).Ok?
    ensures StartsWith(DecodeSpec(bits, pos, fc1InEffect, eci, acc, p).value, acc)
    decreases |bits| - pos
  {
    if pos < |bits| {
      var mode := p.forBits(ValueAt(bits, pos, 4)).value;
      if mode == Terminator {
      } else if mode == Fnc1FirstPosition || mode == Fnc1SecondPosition {
        DecodeExtends(bits, pos + 4, true, eci, acc, p);
      } else if mode == Eci {
        var value := EciSpec(bits, pos + 4).value;
        DecodeExtends(bits, value.next, fc1InEffect, NextEci(eci, p.eciLookup(value.out)), acc, p);
      } else {
        var seg := CountedSegmentSpec(bits, pos + 4, mode, fc1InEffect, eci, p).value;
        DecodeExtends(bits, seg.next, fc1InEffect, eci, acc + seg.out, p);
        var r := DecodeSpec(bits, seg.next, fc1InEffect, eci, acc + seg.out, p).value;
        assert r[..|acc|] == (acc + seg.out)[..|acc|] == acc;
      }
    }
  }

  /** A mode indicator read as FNC1 changes nothing but the flag. */
  lemma DecodeFnc1OnlySetsFlag(bits: seq<bool>, pos: nat, fc1InEffect: bool, eci: Option<string>,
                               acc: string, p: Platform)
    requires pos + 4 <= |bits|
    requires p.forBits(ValueAt(bits, pos, 4)) in {Some(Fnc1FirstPosition), Some(Fnc1SecondPosition)}
    ensures DecodeSpec(bits, pos, fc1InEffect, eci, acc, p) == DecodeSpec(bits, pos + 4, true, eci, acc, p)
  {
  }

  /** A structured-append indicator, or any mode with no segment decoder, is an error. */
  lemma DecodeUnsupportedModeFails(bits: seq<bool>, pos: nat, fc1InEffect: bool, eci: Option<string>,
                                   acc: string, p: Platform)
    requires pos + 4 <= |bits|
    requires p.forBits(ValueAt(bits, pos, 4)) == Some(StructuredAppend)
    ensures DecodeSpec(bits, pos, fc1InEffect, eci, acc, p).Fail?
  {
  }
}
