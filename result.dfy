/** The outcome of decoding one barcode: its text and raw bytes (either may be null, not
    both), the points it was found at, its format, and a metadata table that is created on
    first use. */
module DecodeResult {
  import opened Base

  /** The barcode formats the decoders in this model name. */
  datatype BarcodeFormat = QrCode | DataMatrix | UpcE | UpcA | Ean8 | Ean13 | Code128 | Code39

  /** A point of the image, in pixels. */
  datatype ResultPoint = ResultPoint(x: real, y: real)

  /** A metadata key (`ResultMetadataType`) and a metadata value (any object); neither type's
      source is part of this model, so both are named by strings. */
  type MetadataKey = string
  type MetadataValue = string

  /** The immutable part of a result, as passed to its constructor. */
  datatype ResultData = ResultData(
    text: Option<string>,
    rawBytes: Option<seq<byte>>,
    resultPoints: Option<seq<ResultPoint>>,
    format: BarcodeFormat)
  {
    /** What the constructor accepts: text or bytes, or both. */
    predicate Valid()
    {
      text.Some? || rawBytes.Some?
    }

    /** `toString`: the text, or the byte count in brackets when there is no text. */
    function ToString(): (s: string)
      requires Valid()
      ensures text.Some? ==> s == text.value
      ensures text.None? ==>
        && |s| >= 8 && s[0] == '[' && s[|s| - 7..] == " bytes]"
        && (forall k :: 1 <= k < |s| - 7 ==> IsAsciiDigit(s[k]))
    {
      if text.Some? then text.value else "[" + NatToString(|rawBytes.value|) + " bytes]"
    }
  }

  /** The byte count can be read back from the text `toString` gives for a result without text. */
  lemma ToStringCountsBytes(data: ResultData)
    requires data.Valid() && data.text.None?
    ensures var s := data.ToString();
      DecimalValue(s[1..|s| - 7]) == |data.rawBytes.value|
  {
    var digits := NatToString(|data.rawBytes.value|);
    var s := data.ToString();
    assert s[1..|s| - 7] == digits;
    DecimalRoundTrip(|data.rawBytes.value|);
  }

  class Result {
    const data: ResultData
    var resultMetadata: Option<map<MetadataKey, MetadataValue>>

    /** The constructor once its argument check has passed; metadata starts out null. */
    constructor (text: Option<string>, rawBytes: Option<seq<byte>>,
                 resultPoints: Option<seq<ResultPoint>>, format: BarcodeFormat)
      requires text.Some? || rawBytes.Some?
      ensures data.Valid()
      ensures GetText() == text && GetRawBytes() == rawBytes
      ensures GetResultPoints() == resultPoints && GetBarcodeFormat() == format
      ensures GetResultMetadata().None?
    {
      data := ResultData(text, rawBytes, resultPoints, format);
      resultMetadata := None;
    }

    function GetText(): Option<string> { data.text }
    function GetRawBytes(): Option<seq<byte>> { data.rawBytes }
    function GetResultPoints(): Option<seq<ResultPoint>> { data.resultPoints }
    function GetBarcodeFormat(): BarcodeFormat { data.format }

    function GetResultMetadata(): Option<map<MetadataKey, MetadataValue>>
      reads this
    {
      resultMetadata
    }

    /** `putMetadata`: creates the table when it is null, then maps `key` to `value`,
        leaving every other entry as it was. */
    method PutMetadata(key: MetadataKey, value: MetadataValue)
      modifies this
      ensures resultMetadata.Some?
      ensures resultMetadata.value == old(resultMetadata).GetOr(map[])[key := value]
      ensures key in resultMetadata.value && resultMetadata.value[key] == value
      ensures forall k :: k != key ==>
        (k in resultMetadata.value <==> old(resultMetadata).Some? && k in old(resultMetadata).value)
      ensures forall k :: k != key && old(resultMetadata).Some? && k in old(resultMetadata).value ==>
        resultMetadata.value[k] == old(resultMetadata).value[k]
    {
      if resultMetadata.None? {
        resultMetadata := Some(map[]);
      }
      resultMetadata := Some(resultMetadata.value[key := value]);
    }
  }

  /** `new Result(...)`: it throws when text and bytes are both null; otherwise the result
      holds the arguments and no metadata. */
  method NewResult(text: Option<string>, rawBytes: Option<seq<byte>>,
                   resultPoints: Option<seq<ResultPoint>>, format: BarcodeFormat)
    returns (r: Outcome<Result>)
    ensures r.Ok? <==> text.Some? || rawBytes.Some?
    ensures r.Ok? ==>
      && fresh(r.value)
      && r.value.data == ResultData(text, rawBytes, resultPoints, format)
      && r.value.resultMetadata.None?
  {
    if text.None? && rawBytes.None? {
      return Fail("Text and bytes are null");
    }
    var result := new Result(text, rawBytes, resultPoints, format);
    r := Ok(result);
  }
}
