/** The QR Code bit-stream decoder (`DecodedBitStreamParser`). Each segment decoder reads from
    the bit cursor and works on the text buffer in place, as the Java code does, and each is
    proved to compute exactly the matching function of module QrSpec: it succeeds exactly when
    that function does, and then leaves the cursor where the function says reading stops and the
    buffer extended by what the function says the segment produces. */
module DecodedBitStreamParser {
  import opened Base
  import opened Bits
  import opened QrSpec
  import opened TextBuffer

  /** A segment outcome with `prefix` put in front of what it produced. */
  function Prepend<T>(prefix: seq<T>, o: Outcome<Seg<seq<T>>>): Outcome<Seg<seq<T>>> {
    match o
    case Fail(e) => Fail(e)
    case Ok(s) => Ok(Seg(prefix + s.out, s.next))
  }

  lemma PrependNothing<T>(o: Outcome<Seg<seq<T>>>)
    ensures Prepend([], o) == o
  {
    if o.Ok? {
      assert [] + o.value.out == o.value.out;
    }
  }

  lemma PrependTwice<T>(a: seq<T>, b: seq<T>, o: Outcome<Seg<seq<T>>>)
    ensures Prepend(a, Prepend(b, o)) == Prepend(a + b, o)
  {
    if o.Ok? {
      assert a + (b + o.value.out) == (a + b) + o.value.out;
    }
  }

  /** A group of three digits, read in 10 bits, comes before the rest of a numeric segment. */
  lemma NumericGroupFirst(bits: seq<bool>, pos: nat, n: nat)
    requires n >= 3 && pos <= |bits|
    ensures !Fits(bits, pos, 10) || ValueAt(bits, pos, 10) >= 1000 ==> NumericSpec(bits, pos, n).Fail?
    ensures Fits(bits, pos, 10) && ValueAt(bits, pos, 10) < 1000 ==>
              NumericSpec(bits, pos, n)
              == Prepend(ThreeDigitText(ValueAt(bits, pos, 10)), NumericSpec(bits, pos + 10, n - 3))
  {
  }

  lemma PrependFail<T>(prefix: seq<T>, o: Outcome<Seg<seq<T>>>)
    requires o.Fail?
    ensures Prepend(prefix, o).Fail?
  {
  }

  /** One pass of the group loop moves three digits from the segment still to read to the text
      already produced. */
  lemma GroupLoopStep(bits: seq<bool>, at: nat, n: nat, added: string, digits: string)
    requires n >= 3 && at + 10 <= |bits| && ValueAt(bits, at, 10) < 1000
    requires digits == ThreeDigitText(ValueAt(bits, at, 10))
    ensures Prepend(added, NumericSpec(bits, at, n))
            == Prepend(added + digits, NumericSpec(bits, at + 10, n - 3))
  {
    NumericGroupFirst(bits, at, n);
    PrependTwice(added, digits, NumericSpec(bits, at + 10, n - 3));
  }

  /** `decodeNumericSegment`: groups of three digits in 10 bits, then two digits in 7 bits or
      one in 4 bits, each digit looked up in the alphanumeric table. */
  method DecodeNumericSegment(src: BitSource, buf: StringBuffer, count: nat) returns (r: Outcome<()>)
    requires src.Valid()
    modifies src, buf
    ensures src.Valid()
    ensures r.Ok? <==> NumericSpec(src.bits, old(src.offset), count).Ok?
    ensures r.Ok? ==> var seg := NumericSpec(src.bits, old(src.offset), count).value;
                      buf.chars == old(buf.chars) + seg.out && src.offset == seg.next
  {
    var groups, added := DecodeDigitGroups(src, buf, count);
    if groups.Fail? {
      return Fail(groups.reason);
    }
    ghost var at := src.offset;
    r := DecodeNumericTail(src, buf, groups.value);
    if r.Ok? {
      assert buf.chars == old(buf.chars) + (added + NumericSpec(src.bits, at, groups.value).value.out);
    }
  }

  /** The loop of `decodeNumericSegment` over the groups of three digits: it stops with fewer
      than three digits left, having appended the digits the groups hold. */
  method DecodeDigitGroups(src: BitSource, buf: StringBuffer, count: nat)
    returns (r: Outcome<nat>, ghost added: string)
    requires src.Valid()
    modifies src, buf
    ensures src.Valid()
    ensures r.Fail? ==> NumericSpec(src.bits, old(src.offset), count).Fail?
    ensures r.Ok? ==> r.value < 3 && buf.chars == old(buf.chars) + added
                      && NumericSpec(src.bits, old(src.offset), count)
                         == Prepend(added, NumericSpec(src.bits, src.offset, r.value))
  {
    ghost var pos0 := src.offset;
    added := [];
    var n: nat := count;
    PrependNothing(NumericSpec(src.bits, pos0, count));
    while n >= 3
      invariant src.Valid()
      invariant buf.chars == old(buf.chars) + added
      invariant NumericSpec(src.bits, pos0, count) == Prepend(added, NumericSpec(src.bits, src.offset, n))
    {
      var group, digits := AppendThreeDigits(src, buf, n, added);
      if group.Fail? {
        return Fail(group.reason), added;
      }
      added := added + digits;
      n := n - 3;
    }
    r := Ok(n);
  }

  /** The body of the group loop: three digits in 10 bits appended to the text, or a failure
      where the segment's specification fails. */
  method AppendThreeDigits(src: BitSource, buf: StringBuffer, ghost n: nat, ghost added: string)
    returns (r: Outcome<()>, ghost digits: string)
    requires src.Valid() && n >= 3
    modifies src, buf
    ensures src.Valid()
    ensures r.Fail? ==> Prepend(added, NumericSpec(src.bits, old(src.offset), n)).Fail?
    ensures r.Ok? ==> old(src.offset) + 10 == src.offset
                      && buf.chars == old(buf.chars) + digits
                      && Prepend(added, NumericSpec(src.bits, old(src.offset), n))
                         == Prepend(added + digits, NumericSpec(src.bits, src.offset, n - 3))
  {
    ghost var at := src.offset;
    var group := DecodeThreeDigits(src);
    if group.Fail? {
      NumericGroupFirst(src.bits, at, n);
      PrependFail(added, NumericSpec(src.bits, at, n));
      return Fail(group.reason), [];
    }
    digits := group.value;
    GroupLoopStep(src.bits, at, n, added, digits);
    buf.Append(group.value);
    return Ok(()), digits;
  }

  /** One group of `decodeNumericSegment`: three digits in 10 bits. */
  method DecodeThreeDigits(src: BitSource) returns (r: Outcome<string>)
    requires src.Valid()
    modifies src
    ensures src.Valid()
    ensures r.Ok? <==> Fits(src.bits, old(src.offset), 10) && ValueAt(src.bits, old(src.offset), 10) < 1000
    ensures r.Ok? ==> r.value == ThreeDigitText(ValueAt(src.bits, old(src.offset), 10))
                      && src.offset == old(src.offset) + 10
  {
    var read := src.ReadBits(10);
    if read.Fail? {
      return Fail(read.reason);
    }
    var v := read.value;
    if v >= 1000 {
      return Fail("Illegal value for 3-digit unit");
    }
    return Ok([ToAlphaNumericChar(v / 100), ToAlphaNumericChar((v / 10) % 10), ToAlphaNumericChar(v % 10)]);
  }

  /** The end of `decodeNumericSegment`: the last two digits in 7 bits or the last digit in 4. */
  method DecodeNumericTail(src: BitSource, buf: StringBuffer, n: nat) returns (r: Outcome<()>)
    requires src.Valid() && n < 3
    modifies src, buf
    ensures src.Valid()
    ensures r.Ok? <==> NumericSpec(src.bits, old(src.offset), n).Ok?
    ensures r.Ok? ==> var seg := NumericSpec(src.bits, old(src.offset), n).value;
                      buf.chars == old(buf.chars) + seg.out && src.offset == seg.next
  {
    if n == 2 {
      var read := src.ReadBits(7);
      if read.Fail? {
        return Fail(read.reason);
      }
      var v := read.value;
      if v >= 100 {
        return Fail("Illegal value for 2-digit unit");
      }
      buf.Append([ToAlphaNumericChar(v / 10), ToAlphaNumericChar(v % 10)]);
    } else if n == 1 {
      var read := src.ReadBits(4);
      if read.Fail? {
        return Fail(read.reason);
      }
      var v := read.value;
      if v >= 10 {
        return Fail("Illegal value for digit unit");
      }
      buf.Append([ToAlphaNumericChar(v)]);
    }
    return Ok(());
  }

  /** A pair of characters, read in 11 bits, comes before the rest of an alphanumeric segment. */
  lemma AlphanumericPairFirst(bits: seq<bool>, pos: nat, n: nat)
    requires n >= 2 && pos <= |bits|
    ensures !Fits(bits, pos, 11) || ValueAt(bits, pos, 11) / 45 >= 45 ==> AlphanumericRawSpec(bits, pos, n).Fail?
    ensures Fits(bits, pos, 11) && ValueAt(bits, pos, 11) / 45 < 45 ==>
              AlphanumericRawSpec(bits, pos, n)
              == Prepend(PairText(ValueAt(bits, pos, 11)), AlphanumericRawSpec(bits, pos + 11, n - 2))
  {
  }

  /** `decodeAlphanumericSegment`: pairs of characters in 11 bits, a last odd one in 6 bits;
      with FNC1 in effect the characters this segment appended are then rewritten in place. */
  method DecodeAlphanumericSegment(src: BitSource, buf: StringBuffer, count: nat, fc1InEffect: bool)
    returns (r: Outcome<()>)
    requires src.Valid()
    modifies src, buf
    ensures src.Valid()
    ensures r.Ok? <==> AlphanumericSpec(src.bits, old(src.offset), count, fc1InEffect).Ok?
    ensures r.Ok? ==> var seg := AlphanumericSpec(src.bits, old(src.offset), count, fc1InEffect).value;
                      buf.chars == old(buf.chars) + seg.out && src.offset == seg.next
  {
    var start := |buf.chars|;
    var pairs, added := DecodeCharacterPairs(src, buf, count);
    if pairs.Fail? {
      return Fail(pairs.reason);
    }
    ghost var at := src.offset;
    var tail := DecodeAlphanumericTail(src, buf, pairs.value);
    if tail.Fail? {
      return tail;
    }
    ghost var raw := added + AlphanumericRawSpec(src.bits, at, pairs.value).value.out;
    assert buf.chars == old(buf.chars) + raw;
    assert buf.chars[start..] == raw;
    if fc1InEffect {
      Fnc1InPlace(buf, start);
    }
    return Ok(());
  }

  /** The loop of `decodeAlphanumericSegment` over pairs of characters: it stops with at most
      one character left, having appended the characters the pairs hold. */
  method DecodeCharacterPairs(src: BitSource, buf: StringBuffer, count: nat)
    returns (r: Outcome<nat>, ghost added: string)
    requires src.Valid()
    modifies src, buf
    ensures src.Valid()
    ensures r.Fail? ==> AlphanumericRawSpec(src.bits, old(src.offset), count).Fail?
    ensures r.Ok? ==> r.value < 2 && buf.chars == old(buf.chars) + added
                      && AlphanumericRawSpec(src.bits, old(src.offset), count)
                         == Prepend(added, AlphanumericRawSpec(src.bits, src.offset, r.value))
  {
    ghost var pos0 := src.offset;
    added := [];
    var n: nat := count;
    PrependNothing(AlphanumericRawSpec(src.bits, pos0, count));
    while n > 1
      invariant src.Valid()
      invariant buf.chars == old(buf.chars) + added
      invariant AlphanumericRawSpec(src.bits, pos0, count)
                == Prepend(added, AlphanumericRawSpec(src.bits, src.offset, n))
    {
      var pair, chars := AppendCharacterPair(src, buf, n, added);
      if pair.Fail? {
        return Fail(pair.reason), added;
      }
      added := added + chars;
      n := n - 2;
    }
    r := Ok(n);
  }

  /** One pass of the pair loop moves two characters from the segment still to read to the
      text already produced. */
  lemma PairLoopStep(bits: seq<bool>, at: nat, n: nat, added: string, pair: string)
    requires n >= 2 && at + 11 <= |bits| && ValueAt(bits, at, 11) / 45 < 45
    requires pair == PairText(ValueAt(bits, at, 11))
    ensures Prepend(added, AlphanumericRawSpec(bits, at, n))
            == Prepend(added + pair, AlphanumericRawSpec(bits, at + 11, n - 2))
  {
    AlphanumericPairFirst(bits, at, n);
    PrependTwice(added, pair, AlphanumericRawSpec(bits, at + 11, n - 2));
  }

  /** The body of the pair loop: two characters in 11 bits appended to the text, or a failure
      where the segment's specification fails. */
  method AppendCharacterPair(src: BitSource, buf: StringBuffer, ghost n: nat, ghost added: string)
    returns (r: Outcome<()>, ghost chars: string)
    requires src.Valid() && n >= 2
    modifies src, buf
    ensures src.Valid()
    ensures r.Fail? ==> Prepend(added, AlphanumericRawSpec(src.bits, old(src.offset), n)).Fail?
    ensures r.Ok? ==> old(src.offset) + 11 == src.offset
                      && buf.chars == old(buf.chars) + chars
                      && Prepend(added, AlphanumericRawSpec(src.bits, old(src.offset), n))
                         == Prepend(added + chars, AlphanumericRawSpec(src.bits, src.offset, n - 2))
  {
    ghost var at := src.offset;
    var read := src.ReadBits(11);
    if read.Fail? || read.value / 45 >= 45 {
      AlphanumericPairFirst(src.bits, at, n);
      PrependFail(added, AlphanumericRawSpec(src.bits, at, n));
      return if read.Fail? then Fail(read.reason) else Fail("character index out of range"), [];
    }
    var text := PairText(read.value);
    PairLoopStep(src.bits, at, n, added, text);
    buf.Append(text);
    return Ok(()), text;
  }

  /** The end of `decodeAlphanumericSegment`: a last odd character in 6 bits. */
  method DecodeAlphanumericTail(src: BitSource, buf: StringBuffer, n: nat) returns (r: Outcome<()>)
    requires src.Valid() && n < 2
    modifies src, buf
    ensures src.Valid()
    ensures r.Ok? <==> AlphanumericRawSpec(src.bits, old(src.offset), n).Ok?
    ensures r.Ok? ==> var seg := AlphanumericRawSpec(src.bits, old(src.offset), n).value;
                      buf.chars == old(buf.chars) + seg.out && src.offset == seg.next
  {
    if n == 1 {
      var read := src.ReadBits(6);
      if read.Fail? {
        return Fail(read.reason);
      }
      var v := read.value;
      if v >= 45 {
        return Fail("character index out of range");
      }
      buf.Append([ToAlphaNumericChar(v)]);
    }
    return Ok(());
  }

  lemma Fnc1Pair(done: string, s: string)
    requires |s| > 1 && s[0] == '%' && s[1] == '%'
    ensures done + Fnc1Rewrite(s) == (done + "%") + Fnc1Rewrite(s[2..])
  {
    assert Fnc1Rewrite(s) == "%" + Fnc1Rewrite(s[2..]);
  }

  lemma Fnc1Lone(done: string, s: string)
    requires |s| > 0 && s[0] == '%' && !(|s| > 1 && s[1] == '%')
    ensures done + Fnc1Rewrite(s) == (done + [GS]) + Fnc1Rewrite(s[1..])
  {
    assert Fnc1Rewrite(s) == [GS] + Fnc1Rewrite(s[1..]);
  }

  lemma Fnc1Other(done: string, s: string)
    requires |s| > 0 && s[0] != '%'
    ensures done + Fnc1Rewrite(s) == (done + [s[0]]) + Fnc1Rewrite(s[1..])
  {
    assert Fnc1Rewrite(s) == [s[0]] + Fnc1Rewrite(s[1..]);
  }

  /** The FNC1 pass of `decodeAlphanumericSegment` over the buffer from `start` on: `%%` loses
      its second `%`, any other `%` is overwritten with the group separator. */
  method Fnc1InPlace(buf: StringBuffer, start: nat)
    requires start <= |buf.chars|
    modifies buf
    ensures buf.chars == old(buf.chars)[..start] + Fnc1Rewrite(old(buf.chars)[start..])
  {
    ghost var prefix, raw := buf.chars[..start], buf.chars[start..];
    ghost var done: string, todo := [], raw;
    var i := start;
    while i < |buf.chars|
      invariant buf.chars == prefix + done + todo && i == |prefix| + |done|
      invariant Fnc1Rewrite(raw) == done + Fnc1Rewrite(todo)
      decreases |todo|
    {
      SplitAt(prefix + done, todo);
      if buf.chars[i] == '%' {
        if i < |buf.chars| - 1 && buf.chars[i + 1] == '%' {
          Fnc1Pair(done, todo);
          buf.DeleteCharAt(i + 1);
          DeleteStep(prefix, done, todo);
          done, todo := done + "%", todo[2..];
        } else {
          Fnc1Lone(done, todo);
          buf.SetCharAt(i, GS);
          SetStep(prefix, done, todo);
          done, todo := done + [GS], todo[1..];
        }
      } else {
        Fnc1Other(done, todo);
        KeepStep(prefix, done, todo);
        done, todo := done + [todo[0]], todo[1..];
      }
      i := i + 1;
    }
  }

  lemma SplitAt(a: string, b: string)
    requires |b| > 0
    ensures (a + b)[|a|] == b[0]
    ensures |b| > 1 ==> (a + b)[|a| + 1] == b[1]
  {
  }

  lemma DeleteStep(prefix: string, done: string, todo: string)
    requires |todo| > 1 && todo[0] == '%'
    ensures var c, i := prefix + done + todo, |prefix| + |done|;
            c[..i + 1] + c[i + 2..] == prefix + (done + "%") + todo[2..]
  {
    var c, i := prefix + done + todo, |prefix| + |done|;
    assert c[..i + 1] == prefix + (done + "%");
    assert c[i + 2..] == todo[2..];
  }

  lemma SetStep(prefix: string, done: string, todo: string)
    requires |todo| > 0
    ensures var c, i := prefix + done + todo, |prefix| + |done|;
            c[i := GS] == prefix + (done + [GS]) + todo[1..]
  {
  }

  lemma KeepStep(prefix: string, done: string, todo: string)
    requires |todo| > 0
    ensures prefix + done + todo == prefix + (done + [todo[0]]) + todo[1..]
  {
    assert todo == [todo[0]] + todo[1..];
  }

  /** One 13-bit Kanji value comes before the rest of a Kanji segment. */
  lemma KanjiFirst(bits: seq<bool>, pos: nat, n: nat)
    requires n > 0 && pos + 13 <= |bits|
    ensures ValueAt(bits, pos, 13) < 0x2000
    ensures KanjiSpec(bits, pos, n) == Prepend(KanjiBytes(ValueAt(bits, pos, 13)), KanjiSpec(bits, pos + 13, n - 1))
  {
    FieldBound(bits, pos, 13);
  }

  /** `decodeKanjiSegment`: each 13-bit value becomes a Shift_JIS double-byte code, stored high
      byte first in a buffer of `2 count` bytes, which is then decoded as Shift_JIS. */
  method DecodeKanjiSegment(src: BitSource, buf: StringBuffer, count: nat, p: Platform) returns (r: Outcome<()>)
    requires src.Valid()
    modifies src, buf
    ensures src.Valid()
    ensures r.Ok? <==> KanjiTextSpec(src.bits, old(src.offset), count, p).Ok?
    ensures r.Ok? ==> var seg := KanjiTextSpec(src.bits, old(src.offset), count, p).value;
                      buf.chars == old(buf.chars) + seg.out && src.offset == seg.next
  {
    var buffer := new byte[2 * count];
    var offset := 0;
    var n: nat := count;
    ghost var pos0 := src.offset;
    ghost var got: seq<byte> := [];
    PrependNothing(KanjiSpec(src.bits, pos0, count));
    while n > 0
      invariant src.Valid() && n <= count && offset == 2 * (count - n) && buffer.Length == 2 * count
      invariant buffer[..offset] == got
      invariant KanjiSpec(src.bits, pos0, count) == Prepend(got, KanjiSpec(src.bits, src.offset, n))
      modifies src, buffer
      decreases n
    {
      ghost var at := src.offset;
      var read := src.ReadBits(13);
      if read.Fail? {
        return Fail(read.reason);
      }
      KanjiFirst(src.bits, at, n);
      var pair := KanjiBytes(read.value);
      buffer[offset] := pair[0];
      buffer[offset + 1] := pair[1];
      assert buffer[..offset + 2] == got + pair;
      PrependTwice(got, pair, KanjiSpec(src.bits, src.offset, n - 1));
      got := got + pair;
      offset := offset + 2;
      n := n - 1;
    }
    assert got + [] == got;
    assert buffer[..] == got;
    match p.decodeBytes(buffer[..], ShiftJis)
    case None =>
      return Fail("SJIS encoding is not supported on this device");
    case Some(text) =>
      buf.Append(text);
      return Ok(());
  }

  /** Fills `readBytes` with the next bytes of the stream, eight bits each. */
  method ReadByteArray(src: BitSource, readBytes: array<byte>)
    requires src.Valid() && 8 * readBytes.Length <= src.Available()
    modifies src, readBytes
    ensures src.Valid()
    ensures ByteSpec(src.bits, old(src.offset), readBytes.Length)
            == Ok(Seg(readBytes[..], src.offset))
  {
    ghost var pos0 := src.offset;
    var i := 0;
    while i < readBytes.Length
      invariant src.Valid() && i <= readBytes.Length && src.offset == pos0 + 8 * i
      invariant forall k :: 0 <= k < i ==> readBytes[k] == ByteAt(src.bits, pos0 + 8 * k)
      modifies src, readBytes
    {
      ghost var at := src.offset;
      var read := src.ReadBits(8);
      assert read.Ok?;
      FieldBound(src.bits, at, 8);
      readBytes[i] := read.value;
      i := i + 1;
    }
    assert readBytes[..] == ByteSpec(src.bits, pos0, readBytes.Length).value.out;
  }

  /** `decodeByteSegment`: refused when `8 count` exceeds the bits left, otherwise `count` bytes
      decoded with the ECI encoding in effect or, without one, the guessed encoding. */
  method DecodeByteSegment(src: BitSource, buf: StringBuffer, count: nat, eci: Option<string>, p: Platform)
    returns (r: Outcome<()>)
    requires src.Valid()
    modifies src, buf
    ensures src.Valid()
    ensures r.Ok? <==> ByteTextSpec(src.bits, old(src.offset), count, eci, p).Ok?
    ensures r.Ok? ==> var seg := ByteTextSpec(src.bits, old(src.offset), count, eci, p).value;
                      buf.chars == old(buf.chars) + seg.out && src.offset == seg.next
  {
    var readBytes := new byte[count];
    if 8 * count > src.Available() {
      return Fail("Count too large");
    }
    ReadByteArray(src, readBytes);
    var bytes := readBytes[..];
    var encoding: Charset;
    if eci.None? {
      encoding := GuessEncoding(bytes, p.assumeShiftJis);
    } else {
      encoding := EciCharset(eci.value);
    }
    match p.decodeBytes(bytes, encoding)
    case None =>
      return Fail("unsupported encoding");
    case Some(text) =>
      buf.Append(text);
      return Ok(());
  }

  /** `parseECIValue`: the leading bits of the first byte, tested with the source's masks,
      say whether one, two or three bytes make up the designator. */
  method ParseEciValue(src: BitSource) returns (r: Outcome<nat>)
    requires src.Valid()
    modifies src
    ensures src.Valid()
    ensures r.Ok? <==> EciSpec(src.bits, old(src.offset)).Ok?
    ensures r.Ok? ==> var seg := EciSpec(src.bits, old(src.offset)).value;
                      r.value == seg.out && src.offset == seg.next
  {
    ghost var at := src.offset;
    var first := src.ReadBits(8);
    if first.Fail? {
      return Fail(first.reason);
    }
    FieldBound(src.bits, at, 8);
    var firstByte: byte := first.value;
    var firstBits := firstByte as bv8;
    ByteAsBits(firstByte);
    EciMasks(firstBits);
    if Mask(firstBits, 0x80) == 0 {
      return Ok(Mask(firstBits, 0x7F));
    } else if Mask(firstBits, 0xC0) == 0x80 {
      var second := src.ReadBits(8);
      if second.Fail? {
        return Fail(second.reason);
      }
      // `((firstByte & 0x3F) << 8) | secondByte`, the second byte being below 0x100
      return Ok(Mask(firstBits, 0x3F) * 0x100 + second.value);
    } else if Mask(firstBits, 0xE0) == 0xC0 {
      var rest := src.ReadBits(16);
      if rest.Fail? {
        return Fail(rest.reason);
      }
      // `((firstByte & 0x1F) << 16) | secondThirdBytes`, the 16-bit part being below 0x10000
      return Ok(Mask(firstBits, 0x1F) * 0x10000 + rest.value);
    }
    return Fail("Bad ECI bits");
  }

  /** `guessEncoding`: the two flags the loop keeps are exactly "no candidate byte seen yet"
      and "an odd number of candidates seen", and every candidate checked as a lead byte so far
      had a valid trail byte. */
  method GuessEncoding(bytes: seq<byte>, assumeShiftJis: bool) returns (c: Charset)
    ensures c == GuessSpec(bytes, assumeShiftJis)
  {
    if assumeShiftJis {
      return ShiftJis;
    }
    if |bytes| > 3 && bytes[0] == 0xEF && bytes[1] == 0xBB && bytes[2] == 0xBF {
      return Utf8;
    }
    var length := |bytes|;
    var canBeIso88591 := true;
    var lastWasPossibleDoubleByteStart := false;
    var i := 0;
    while i < length
      invariant 0 <= i <= length
      invariant canBeIso88591 <==> forall j :: 0 <= j < i ==> !Candidate(bytes, j)
      invariant lastWasPossibleDoubleByteStart <==> CandidatesBefore(bytes, i) % 2 == 1
      invariant forall j :: 0 <= j < i && CheckedLead(bytes, j) ==> ValidTrail(bytes[j], bytes[j + 1])
    {
      assert CandidatesBefore(bytes, i + 1) == CandidatesBefore(bytes, i) + (if Candidate(bytes, i) then 1 else 0);
      var value := bytes[i];
      if 0x80 <= value <= 0x9F && i < length - 1 {
        canBeIso88591 := false;
        if lastWasPossibleDoubleByteStart {
          lastWasPossibleDoubleByteStart := false;
        } else {
          lastWasPossibleDoubleByteStart := true;
          var nextValue := bytes[i + 1];
          assert CheckedLead(bytes, i);
          // `(value & 0x1) == 0`: the lead byte is even
          if value % 2 == 0 {
            if nextValue < 0x9F || nextValue > 0xFC {
              return Utf8;
            }
          } else {
            if nextValue < 0x40 || nextValue > 0x9E {
              return Utf8;
            }
          }
        }
      }
      i := i + 1;
    }
    return if canBeIso88591 then Iso88591 else ShiftJis;
  }

  /** The body of `decode` for a mode that carries a character count: read the count, then
      hand over to the segment decoder for the mode. */
  method DecodeCountedSegment(src: BitSource, buf: StringBuffer, mode: Mode, fc1InEffect: bool,
                              eci: Option<string>, p: Platform) returns (r: Outcome<()>)
    requires src.Valid()
    modifies src, buf
    ensures src.Valid()
    ensures r.Ok? <==> CountedSegmentSpec(src.bits, old(src.offset), mode, fc1InEffect, eci, p).Ok?
    ensures r.Ok? ==> var seg := CountedSegmentSpec(src.bits, old(src.offset), mode, fc1InEffect, eci, p).value;
                      buf.chars == old(buf.chars) + seg.out && src.offset == seg.next
  {
    ghost var pos := src.offset;
    var countRead := src.ReadBits(p.countBits(mode));
    if countRead.Fail? {
      return Fail(countRead.reason);
    }
    CountThenSegment(src.bits, pos, mode, countRead.value, fc1InEffect, eci, p);
    r := DecodeSegment(src, buf, mode, countRead.value, fc1InEffect, eci, p);
  }

  lemma CountThenSegment(bits: seq<bool>, pos: nat, mode: Mode, count: nat, fc1InEffect: bool,
                         eci: Option<string>, p: Platform)
    requires Fits(bits, pos, p.countBits(mode)) && count == ValueAt(bits, pos, p.countBits(mode))
    ensures CountedSegmentSpec(bits, pos, mode, fc1InEffect, eci, p)
            == SegmentSpec(bits, pos + p.countBits(mode), mode, count, fc1InEffect, eci, p)
  {
  }

  /** The segment decoder for the mode, or a failure for a mode that has none. */
  method DecodeSegment(src: BitSource, buf: StringBuffer, mode: Mode, count: nat, fc1InEffect: bool,
                       eci: Option<string>, p: Platform) returns (r: Outcome<()>)
    requires src.Valid()
    modifies src, buf
    ensures src.Valid()
    ensures r.Ok? <==> SegmentSpec(src.bits, old(src.offset), mode, count, fc1InEffect, eci, p).Ok?
    ensures r.Ok? ==> var seg := SegmentSpec(src.bits, old(src.offset), mode, count, fc1InEffect, eci, p).value;
                      buf.chars == old(buf.chars) + seg.out && src.offset == seg.next
  {
    if mode == Numeric {
      r := DecodeNumericSegment(src, buf, count);
    } else if mode == Alphanumeric {
      r := DecodeAlphanumericSegment(src, buf, count, fc1InEffect);
    } else if mode == Byte {
      r := DecodeByteSegment(src, buf, count, eci, p);
    } else if mode == Kanji {
      r := DecodeKanjiSegment(src, buf, count, p);
    } else {
      return Fail("Unsupported mode indicator");
    }
  }

  /** The head of the decoding loop: an exhausted stream reads as the terminator, otherwise
      the next four bits are the mode indicator, which the platform's table must know. */
  method ReadMode(src: BitSource, p: Platform) returns (r: Outcome<Mode>)
    requires src.Valid()
    modifies src
    ensures src.Valid()
    ensures old(src.offset) == |src.bits| ==> r == Ok(Terminator) && src.offset == old(src.offset)
    ensures old(src.offset) < |src.bits| ==>
              (r.Ok? <==> Fits(src.bits, old(src.offset), 4)
                          && p.forBits(ValueAt(src.bits, old(src.offset), 4)).Some?)
    ensures old(src.offset) < |src.bits| && r.Ok? ==>
              r.value == p.forBits(ValueAt(src.bits, old(src.offset), 4)).value
              && src.offset == old(src.offset) + 4
  {
    if src.Available() == 0 {
      return Ok(Terminator);
    }
    var read := src.ReadBits(4);
    if read.Fail? {
      return Fail(read.reason);
    }
    match p.forBits(read.value)
    case None =>
      return Fail("unknown mode indicator");
    case Some(m) =>
      return Ok(m);
  }

  /** One pass of the decoding loop: a mode indicator and what it introduces. `done` says the
      stream ended; otherwise decoding the rest from the new position, in the new FNC1 and
      ECI state, gives what decoding from the old position would have. */
  method DecodeStep(src: BitSource, buf: StringBuffer, fc1InEffect: bool, eci: Option<string>,
                    p: Platform)
      returns (r: Outcome<bool>, fc1After: bool, eciAfter: Option<string>)
    requires src.Valid()
    modifies src, buf
    ensures src.Valid() && (r.Ok? ==> old(src.offset) <= src.offset)
    ensures r.Fail? ==> DecodeSpec(src.bits, old(src.offset), fc1InEffect, eci, old(buf.chars), p).Fail?
    ensures r == Ok(true) ==>
              DecodeSpec(src.bits, old(src.offset), fc1InEffect, eci, old(buf.chars), p) == Ok(buf.chars)
    ensures r == Ok(false) ==>
              old(src.offset) < src.offset
              && DecodeSpec(src.bits, src.offset, fc1After, eciAfter, buf.chars, p)
                 == DecodeSpec(src.bits, old(src.offset), fc1InEffect, eci, old(buf.chars), p)
  {
    fc1After, eciAfter := fc1InEffect, eci;
    var read := ReadMode(src, p);
    if read.Fail? {
      return Fail(read.reason), fc1After, eciAfter;
    }
    var mode := read.value;
    if mode == Terminator {
      return Ok(true), fc1After, eciAfter;
    } else if mode == Fnc1FirstPosition || mode == Fnc1SecondPosition {
      fc1After := true;
    } else if mode == Eci {
      var value := ParseEciValue(src);
      if value.Fail? {
        return Fail(value.reason), fc1After, eciAfter;
      }
      eciAfter := NextEci(eci, p.eciLookup(value.value));
    } else {
      var segment := DecodeCountedSegment(src, buf, mode, fc1InEffect, eci, p);
      if segment.Fail? {
        return Fail(segment.reason), fc1After, eciAfter;
      }
    }
    return Ok(false), fc1After, eciAfter;
  }

  /** `decode`: reads mode indicators until the bits run out or a TERMINATOR is read, and
      returns the text the segments produced. */
  method Decode(bytes: seq<byte>, p: Platform) returns (r: Outcome<string>)
    ensures r.Ok? <==> DecodeSpec(BytesToBits(bytes), 0, false, None, [], p).Ok?
    ensures r.Ok? ==> r.value == DecodeSpec(BytesToBits(bytes), 0, false, None, [], p).value
  {
    var src := new BitSource(bytes);
    var buf := new StringBuffer();
    var currentEci: Option<string> := None;
    var fc1InEffect := false;
    var terminated := false;
    ghost var whole := DecodeSpec(src.bits, 0, false, None, [], p);
    while !terminated
      invariant src.Valid() && src.bits == BytesToBits(bytes)
      invariant !terminated ==> DecodeSpec(src.bits, src.offset, fc1InEffect, currentEci, buf.chars, p) == whole
      invariant terminated ==> whole == Ok(buf.chars)
      decreases |src.bits| - src.offset + (if terminated then 0 else 1)
    {
      var step;
      step, fc1InEffect, currentEci := DecodeStep(src, buf, fc1InEffect, currentEci, p);
      if step.Fail? {
        return Fail(step.reason);
      }
      terminated := step.value;
    }
    return Ok(buf.chars);
  }
}
