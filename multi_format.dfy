/** The two 1D readers that try several formats on one row: the UPC/EAN reader, which reads
    UPC-A through EAN-13, and the general 1D reader. Each builds its list of readers from the
    requested formats (the POSSIBLE_FORMATS hint; `None` when absent) and returns the first
    result any of them decodes. The individual readers are not part of this model: their
    outcome on the row is a parameter. */
module MultiFormatReaders {
  import opened Base
  import opened DecodeResult

  const NO_BARCODE: string := "No barcode was detected in this image."

  /** How a `decodeRow` call ends: with a result, with a `ReaderException`, or with any other
      exception (a null text, an index out of range), which no reader here catches. */
  datatype Attempt = Decoded(result: ResultData) | ReaderError(reason: string) | Unchecked(reason: string)

  /** The readers are tried in order and only a `ReaderException` moves on to the next: the
      outcome is the first attempt that ends otherwise, or the "no barcode" error. */
  function FirstSuccess<R>(readers: seq<R>, attempt: R -> Attempt): (r: Attempt)
    ensures r.ReaderError? ==> r == ReaderError(NO_BARCODE)
  {
    if readers == [] then ReaderError(NO_BARCODE)
    else if attempt(readers[0]).ReaderError? then FirstSuccess(readers[1..], attempt)
    else attempt(readers[0])
  }

  /** The outcome is the first attempt that does not end in a `ReaderException`, all earlier
      ones having ended in one, and it is the error exactly when every attempt does. */
  lemma {:induction false} FirstSuccessIsFirst<R>(readers: seq<R>, attempt: R -> Attempt)
    ensures var r := FirstSuccess(readers, attempt);
      && (r.ReaderError? <==> forall i :: 0 <= i < |readers| ==> attempt(readers[i]).ReaderError?)
      && (!r.ReaderError? ==>
            exists i :: 0 <= i < |readers| && attempt(readers[i]) == r
                        && forall j :: 0 <= j < i ==> attempt(readers[j]).ReaderError?)
  {
    if readers != [] && attempt(readers[0]).ReaderError? {
      var rest := readers[1..];
      FirstSuccessIsFirst(rest, attempt);
      var r := FirstSuccess(rest, attempt);
      assert forall i :: 1 <= i < |readers| ==> readers[i] == rest[i - 1];
      if !r.ReaderError? {
        var i :| 0 <= i < |rest| && attempt(rest[i]) == r && forall j :: 0 <= j < i ==> attempt(rest[j]).ReaderError?;
        assert attempt(readers[i + 1]) == r;
        assert forall j :: 1 <= j < i + 1 ==> attempt(readers[j]) == attempt(rest[j - 1]);
      }
    } else if readers != [] {
      assert !attempt(readers[0]).ReaderError?;
    }
  }

  /** Any other exception ends the search: once an attempt throws one, with only
      `ReaderException`s before it, that is the outcome, whatever the later readers would do. */
  lemma {:induction false} UncheckedPropagates<R>(readers: seq<R>, attempt: R -> Attempt, i: nat)
    requires i < |readers| && attempt(readers[i]).Unchecked?
    requires forall j :: 0 <= j < i ==> attempt(readers[j]).ReaderError?
    ensures FirstSuccess(readers, attempt) == attempt(readers[i])
    decreases i
  {
    if i > 0 {
      assert forall j :: 0 <= j < i - 1 ==> readers[1..][j] == readers[j + 1];
      UncheckedPropagates(readers[1..], attempt, i - 1);
    }
  }

  predicate IsUpcEan(f: BarcodeFormat)
  {
    f == Ean13 || f == UpcA || f == Ean8 || f == UpcE
  }

  // ---------------------------------------------------------------- UPC/EAN

  datatype UpcEanReader = Ean13Reader | UpcAReader | Ean8Reader | UpcEReader

  /** The formats each reader recognises; the EAN-13 reader also reads every UPC-A code. */
  predicate UpcEanReads(reader: UpcEanReader, f: BarcodeFormat)
  {
    match reader
    case Ean13Reader => f == Ean13 || f == UpcA
    case UpcAReader => f == UpcA
    case Ean8Reader => f == Ean8
    case UpcEReader => f == UpcE
  }

  function UpcEanRank(reader: UpcEanReader): nat
  {
    match reader
    case Ean13Reader => 0
    case UpcAReader => 1
    case Ean8Reader => 2
    case UpcEReader => 3
  }

  const UPC_EAN_DEFAULT: seq<UpcEanReader> := [Ean13Reader, Ean8Reader, UpcEReader]

  /** The readers the requested formats select, before the default applies. */
  function RequestedUpcEan(formats: seq<BarcodeFormat>): seq<UpcEanReader>
  {
    (if Ean13 in formats then [Ean13Reader] else if UpcA in formats then [UpcAReader] else [])
    + (if Ean8 in formats then [Ean8Reader] else [])
    + (if UpcE in formats then [UpcEReader] else [])
  }

  /** The reader list `decodeRow` builds. */
  function SelectUpcEanReaders(possibleFormats: Option<seq<BarcodeFormat>>): seq<UpcEanReader>
  {
    var requested := if possibleFormats.None? then [] else RequestedUpcEan(possibleFormats.value);
    if requested == [] then UPC_EAN_DEFAULT else requested
  }

  /** What the selection promises: at least one reader, no reader twice and all in the fixed
      order EAN-13, UPC-A, EAN-8, UPC-E; requesting EAN-13 leaves out the UPC-A reader; every
      requested UPC/EAN format has a reader for it and every reader is for a requested format,
      unless none was requested and the default list is used. */
  lemma UpcEanSelection(possibleFormats: Option<seq<BarcodeFormat>>)
    ensures var readers := SelectUpcEanReaders(possibleFormats);
      && |readers| >= 1
      && (forall i, j :: 0 <= i < j < |readers| ==> UpcEanRank(readers[i]) < UpcEanRank(readers[j]))
      && (possibleFormats.Some? && Ean13 in possibleFormats.value ==> Ean13Reader in readers && UpcAReader !in readers)
      && (forall f :: possibleFormats.Some? && f in possibleFormats.value && IsUpcEan(f) ==>
            exists k :: k in readers && UpcEanReads(k, f))
  {
    var readers := SelectUpcEanReaders(possibleFormats);
    forall f | possibleFormats.Some? && f in possibleFormats.value && IsUpcEan(f)
      ensures exists k :: k in readers && UpcEanReads(k, f)
    {
      var formats := possibleFormats.value;
      assert RequestedUpcEan(formats) != [];
      if f == Ean13 || f == UpcA {
        if Ean13 in formats {
          assert Ean13Reader in readers && UpcEanReads(Ean13Reader, f);
        } else {
          assert UpcAReader in readers && UpcEanReads(UpcAReader, f);
        }
      } else if f == Ean8 {
        assert Ean8Reader in readers && UpcEanReads(Ean8Reader, f);
      } else {
        assert UpcEReader in readers && UpcEanReads(UpcEReader, f);
      }
    }
  }

  /** Without a UPC/EAN format among the requested ones the default list is used, and with
      one every reader on the list is for a requested format. */
  lemma UpcEanDefault(possibleFormats: Option<seq<BarcodeFormat>>)
    ensures (possibleFormats.None? || forall f :: f in possibleFormats.value ==> !IsUpcEan(f)) ==>
      SelectUpcEanReaders(possibleFormats) == UPC_EAN_DEFAULT
    ensures possibleFormats.Some? && (exists f :: f in possibleFormats.value && IsUpcEan(f)) ==>
      forall k :: k in SelectUpcEanReaders(possibleFormats) ==>
        exists f :: f in possibleFormats.value && UpcEanReads(k, f)
  {
    if possibleFormats.Some? && (exists f :: f in possibleFormats.value && IsUpcEan(f)) {
      var formats := possibleFormats.value;
      var f :| f in formats && IsUpcEan(f);
      assert RequestedUpcEan(formats) != [];
      forall k | k in SelectUpcEanReaders(possibleFormats)
        ensures exists f :: f in formats && UpcEanReads(k, f)
      {
        match k
        case Ean13Reader => assert UpcEanReads(k, Ean13);
        case UpcAReader => assert UpcEanReads(k, UpcA);
        case Ean8Reader => assert UpcEanReads(k, Ean8);
        case UpcEReader => assert UpcEanReads(k, UpcE);
      }
    }
  }

  /** A 12-digit UPC-A code reads as EAN-13 with a leading '0'; such an EAN-13 result is
      turned into the UPC-A result: the text without its '0', no raw bytes, the same points.
      Reading the first character of a null or empty text throws. */
  function ConvertEan13(result: ResultData): (r: Attempt)
    ensures result.format != Ean13 ==> r == Decoded(result)
    ensures !r.ReaderError?
    ensures r.Unchecked? <==> result.format == Ean13 && (result.text.None? || |result.text.value| == 0)
    ensures r.Decoded? && r.result != result ==>
      && result.format == Ean13 && result.text.Some? && |result.text.value| > 0
      && result.text.value[0] == '0'
  {
    if result.format != Ean13 then Decoded(result)
    else if result.text.None? then Unchecked("NullPointerException")
    else if |result.text.value| == 0 then Unchecked("StringIndexOutOfBoundsException")
    else if result.text.value[0] == '0' then
      Decoded(ResultData(Some(result.text.value[1..]), None, result.resultPoints, UpcA))
    else Decoded(result)
  }

  /** The EAN-13 reading of a UPC-A code, "0" followed by the UPC-A text, converts back to
      exactly that UPC-A text with the same points. */
  lemma ConvertEan13RoundTrip(upcText: string, rawBytes: Option<seq<byte>>, points: Option<seq<ResultPoint>>)
    ensures ConvertEan13(ResultData(Some("0" + upcText), rawBytes, points, Ean13))
      == Decoded(ResultData(Some(upcText), None, points, UpcA))
  {
    assert ("0" + upcText)[1..] == upcText;
  }

  /** The start guard a UPC/EAN row search finds; its search is not part of this model. */
  type StartGuard = seq<int>

  /** Each reader's outcome on the row, given the shared start guard. */
  type UpcEanDecoder = (UpcEanReader, StartGuard) -> Attempt

  function AttemptWith(decode: UpcEanDecoder, guard: StartGuard): UpcEanReader -> Attempt
  {
    reader => decode(reader, guard)
  }

  /** `MultiFormatUPCEANReader.decodeRow`: the start guard error if there is no start guard,
      otherwise the first outcome among the selected readers that is not a `ReaderException`,
      a result converted from EAN-13 to UPC-A where that applies. */
  function UpcEanDecodeRowSpec(possibleFormats: Option<seq<BarcodeFormat>>, startGuard: Outcome<StartGuard>,
                               decode: UpcEanDecoder): Attempt
  {
    match startGuard
    case Fail(e) => ReaderError(e)
    case Ok(guard) =>
      match FirstSuccess(SelectUpcEanReaders(possibleFormats), AttemptWith(decode, guard))
      case Decoded(result) => ConvertEan13(result)
      case ReaderError(e) => ReaderError(e)
      case Unchecked(e) => Unchecked(e)
  }

  /** The reader list of `decodeRow`, built element by element. */
  method BuildUpcEanReaders(possibleFormats: Option<seq<BarcodeFormat>>) returns (readers: seq<UpcEanReader>)
    ensures readers == SelectUpcEanReaders(possibleFormats)
  {
    readers := [];
    if possibleFormats.Some? {
      var formats := possibleFormats.value;
      if Ean13 in formats {
        readers := readers + [Ean13Reader];
      } else if UpcA in formats {
        readers := readers + [UpcAReader];
      }
      if Ean8 in formats {
        readers := readers + [Ean8Reader];
      }
      if UpcE in formats {
        readers := readers + [UpcEReader];
      }
    }
    if |readers| == 0 {
      readers := readers + [Ean13Reader];
      readers := readers + [Ean8Reader];
      readers := readers + [UpcEReader];
    }
  }

  /** The reader list built, then tried in order. */
  method UpcEanDecodeRow(possibleFormats: Option<seq<BarcodeFormat>>, startGuard: Outcome<StartGuard>,
                         decode: UpcEanDecoder) returns (r: Attempt)
    ensures r == UpcEanDecodeRowSpec(possibleFormats, startGuard, decode)
  {
    var readers := BuildUpcEanReaders(possibleFormats);
    if startGuard.Fail? {
      return ReaderError(startGuard.reason);
    }
    var guard := startGuard.value;
    ghost var attempt := AttemptWith(decode, guard);
    var i := 0;
    while i < |readers|
      invariant 0 <= i <= |readers|
      invariant FirstSuccess(readers[i..], attempt) == FirstSuccess(readers, attempt)
    {
      var result := decode(readers[i], guard);
      assert attempt(readers[i]) == result;
      if result.Unchecked? {
        return result;
      } else if result.Decoded? {
        r := ConvertEan13(result.result);
        return;
      }
      assert readers[i..][1..] == readers[i + 1..];
      i := i + 1;
    }
    r := ReaderError(NO_BARCODE);
  }

  // ---------------------------------------------------------------- all 1D formats

  datatype OneDReader = MultiFormatUpcEanReader | Code39OneDReader | Code128OneDReader

  predicate OneDReads(reader: OneDReader, f: BarcodeFormat)
  {
    match reader
    case MultiFormatUpcEanReader => IsUpcEan(f)
    case Code39OneDReader => f == Code39
    case Code128OneDReader => f == Code128
  }

  function OneDRank(reader: OneDReader): nat
  {
    match reader
    case MultiFormatUpcEanReader => 0
    case Code39OneDReader => 1
    case Code128OneDReader => 2
  }

  const ONE_D_DEFAULT: seq<OneDReader> := [MultiFormatUpcEanReader, Code39OneDReader, Code128OneDReader]

  function RequestedOneD(formats: seq<BarcodeFormat>): seq<OneDReader>
  {
    (if Ean13 in formats || UpcA in formats || Ean8 in formats || UpcE in formats then [MultiFormatUpcEanReader] else [])
    + (if Code39 in formats then [Code39OneDReader] else [])
    + (if Code128 in formats then [Code128OneDReader] else [])
  }

  /** The reader list `MultiFormatOneDReader.decodeRow` builds. */
  function SelectOneDReaders(possibleFormats: Option<seq<BarcodeFormat>>): seq<OneDReader>
  {
    var requested := if possibleFormats.None? then [] else RequestedOneD(possibleFormats.value);
    if requested == [] then ONE_D_DEFAULT else requested
  }

  /** What the selection promises: at least one reader, each once, in the order UPC/EAN,
      Code 39, Code 128; every requested 1D format has its reader, and without any 1D format
      requested the default list is used. */
  lemma OneDSelection(possibleFormats: Option<seq<BarcodeFormat>>)
    ensures var readers := SelectOneDReaders(possibleFormats);
      && |readers| >= 1
      && (forall i, j :: 0 <= i < j < |readers| ==> OneDRank(readers[i]) < OneDRank(readers[j]))
      && (forall f :: possibleFormats.Some? && f in possibleFormats.value && (IsUpcEan(f) || f == Code39 || f == Code128) ==>
            exists k :: k in readers && OneDReads(k, f))
      && ((possibleFormats.None? || forall f :: f in possibleFormats.value ==> !(IsUpcEan(f) || f == Code39 || f == Code128)) ==>
            readers == ONE_D_DEFAULT)
  {
    var readers := SelectOneDReaders(possibleFormats);
    forall f | possibleFormats.Some? && f in possibleFormats.value && (IsUpcEan(f) || f == Code39 || f == Code128)
      ensures exists k :: k in readers && OneDReads(k, f)
    {
      assert RequestedOneD(possibleFormats.value) != [];
      if IsUpcEan(f) {
        assert MultiFormatUpcEanReader in readers && OneDReads(MultiFormatUpcEanReader, f);
      } else if f == Code39 {
        assert Code39OneDReader in readers && OneDReads(Code39OneDReader, f);
      } else {
        assert Code128OneDReader in readers && OneDReads(Code128OneDReader, f);
      }
    }
  }

  /** Each reader's outcome on the row with the caller's hints. */
  type OneDDecoder = OneDReader -> Attempt

  /** `MultiFormatOneDReader.decodeRow`: the first outcome among the selected readers that is
      not a `ReaderException`, returned unchanged. */
  method OneDDecodeRow(possibleFormats: Option<seq<BarcodeFormat>>, decode: OneDDecoder)
    returns (r: Attempt)
    ensures r == FirstSuccess(SelectOneDReaders(possibleFormats), decode)
  {
    var readers := BuildOneDReaders(possibleFormats);
    var i := 0;
    while i < |readers|
      invariant 0 <= i <= |readers|
      invariant FirstSuccess(readers[i..], decode) == FirstSuccess(readers, decode)
    {
      var result := decode(readers[i]);
      if !result.ReaderError? {
        return result;
      }
      assert readers[i..][1..] == readers[i + 1..];
      i := i + 1;
    }
    r := ReaderError(NO_BARCODE);
  }

  /** The reader list of `MultiFormatOneDReader.decodeRow`, built element by element. */
  method BuildOneDReaders(possibleFormats: Option<seq<BarcodeFormat>>) returns (readers: seq<OneDReader>)
    ensures readers == SelectOneDReaders(possibleFormats)
  {
    readers := [];
    if possibleFormats.Some? {
      var formats := possibleFormats.value;
      if Ean13 in formats || UpcA in formats || Ean8 in formats || UpcE in formats {
        readers := readers + [MultiFormatUpcEanReader];
      }
      if Code39 in formats {
        readers := readers + [Code39OneDReader];
      }
      if Code128 in formats {
        readers := readers + [Code128OneDReader];
      }
    }
    if |readers| == 0 {
      readers := readers + [MultiFormatUpcEanReader];
      readers := readers + [Code39OneDReader];
      readers := readers + [Code128OneDReader];
    }
  }
}
