/** The MobileTag "simple web" result (service type "04"): a Data Matrix whose text holds a
    URI field and a title field. A digit at index 2 of the URI field selects one of five
    scheme prefixes. The field splitter `matchDelimitedFields` is not part of this model and
    is a parameter here; `None` stands for Java's `null`. */
module MobileTagSimpleWeb {
  import opened Base
  import opened DecodeResult

  const SERVICE_TYPE: string := "04"

  /** `URI_PREFIXES`; entry 0 is reserved (`null`). */
  const URI_PREFIXES: seq<Option<string>> :=
    [None, Some("http://"), Some("http://www."), Some("https://"), Some("https://www."), Some("rtsp://")]

  datatype MobileTagSimpleWebParsedResult = MobileTagSimpleWebParsedResult(title: Option<string>, uri: string)
  {
    function GetTitle(): Option<string> { title }
    function GetURI(): string { uri }

    /** `getDisplayResult`: the URI, after the title and a newline when there is a title. */
    function GetDisplayResult(): (s: string)
      ensures title.None? ==> s == uri
      ensures title.Some? ==> |s| == |title.value| + 1 + |uri| && s[|title.value|] == '\n'
    {
      if title.None? then uri else title.value + "\n" + uri
    }
  }

  /** `matchDelimitedFields(text, 2)`: the two fields of `text`, or `None`. */
  type TwoFieldMatcher = string -> Option<(Option<string>, Option<string>)>

  /** The URI after its prefix digit is applied: a digit 1..5 at index 2 puts that prefix in
      place of the first character, any other digit only drops the first character, and a
      non-digit leaves the URI alone. A URI shorter than three characters throws. */
  function ExpandUri(uri: string): (r: Outcome<string>)
    ensures r.Fail? <==> |uri| < 3
    ensures r.Ok? && !IsAsciiDigit(uri[2]) ==> r.value == uri
    ensures r.Ok? && IsAsciiDigit(uri[2]) ==> EndsWith(r.value, uri[1..])
  {
    if |uri| < 3 then Fail("StringIndexOutOfBoundsException")
    else
      var maybePrefixChar := uri[2];
      if '0' <= maybePrefixChar <= '9' then
        var prefixIndex := maybePrefixChar as int - '0' as int;
        if 1 <= prefixIndex < |URI_PREFIXES| then Ok(URI_PREFIXES[prefixIndex].value + uri[1..])
        else Ok(uri[1..])
      else Ok(uri)
  }

  predicate EndsWith(s: string, suffix: string)
  {
    |suffix| <= |s| && s[|s| - |suffix|..] == suffix
  }

  /** The prefix table: entries 1 to 5 hold exactly the five schemes, each ending in "//" or
      "www.", and a digit `d` in 1..5 at index 2 expands to prefix `d`. */
  lemma ExpandUriPrefix(uri: string, d: nat)
    requires |uri| >= 3 && 1 <= d <= 5 && uri[2] as int == '0' as int + d
    ensures URI_PREFIXES[d].Some?
    ensures ExpandUri(uri) == Ok(URI_PREFIXES[d].value + uri[1..])
  {
  }

  /** The reserved digit 0 and the digits 6..9 only drop the first character. */
  lemma ExpandUriNoPrefix(uri: string)
    requires |uri| >= 3 && (uri[2] == '0' || '6' <= uri[2] <= '9')
    ensures ExpandUri(uri) == Ok(uri[1..])
  {
  }

  /** `parse`: `Ok(None)` is Java's `null` result, `Fail` an exception (null text, a null URI
      field, or a URI field too short to hold a prefix digit). */
  function Parse(format: BarcodeFormat, rawText: Option<string>, matchFields: TwoFieldMatcher)
    : (r: Outcome<Option<MobileTagSimpleWebParsedResult>>)
    ensures format != DataMatrix ==> r == Ok(None)
    ensures r.Ok? && r.value.Some? ==>
      && rawText.Some? && StartsWith(rawText.value, SERVICE_TYPE)
      && matchFields(rawText.value[2..]).Some?
      && var (uri, title) := matchFields(rawText.value[2..]).value;
         uri.Some? && ExpandUri(uri.value) == Ok(r.value.value.uri) && r.value.value.title == title
  {
    if format != DataMatrix then Ok(None)
    else if rawText.None? then Fail("NullPointerException")
    else if !StartsWith(rawText.value, SERVICE_TYPE) then Ok(None)
    else
      var matches := matchFields(rawText.value[2..]);
      if matches.None? then Ok(None)
      else
        var (uri, title) := matches.value;
        if uri.None? then Fail("NullPointerException")
        else
          match ExpandUri(uri.value)
          case Fail(e) => Fail(e)
          case Ok(expanded) => Ok(Some(MobileTagSimpleWebParsedResult(title, expanded)))
  }

  /** Text of another service type, or whose fields do not match, yields `null`. */
  lemma ParseRejects(rawText: string, matchFields: TwoFieldMatcher)
    ensures !StartsWith(rawText, SERVICE_TYPE) ==> Parse(DataMatrix, Some(rawText), matchFields) == Ok(None)
    ensures StartsWith(rawText, SERVICE_TYPE) && matchFields(rawText[2..]).None? ==>
      Parse(DataMatrix, Some(rawText), matchFields) == Ok(None)
  {
  }

  /** A title without a newline can be read back from the display text, and so can the URI. */
  lemma DisplaySplits(result: MobileTagSimpleWebParsedResult)
    requires result.title.Some? && '\n' !in result.title.value
    ensures var s, t := result.GetDisplayResult(), result.title.value;
      IndexOfFrom(s, '\n', 0) == |t| && s[..|t|] == t && s[|t| + 1..] == result.uri
  {
    var s, t := result.GetDisplayResult(), result.title.value;
    assert s[..|t|] == t;
    assert s[|t| + 1..] == result.uri;
    assert forall k :: 0 <= k < |t| ==> s[k] == t[k];
  }
}
