/** `handleTypeConversion` of the type utilities: converts a fragment's
    bytes to a requested type. Decoding a `Buffer` as UTF-8 and rendering
    markdown with markdown-it are outside the model, so a result names the
    rendering that produced it and carries the bytes it was applied to. */
module Conversions {
  import opened Wrappers

  const PlainText := "text/plain"
  const Html := "text/html"
  const Markdown := "text/markdown"

  /** What a conversion returns. */
  datatype Output =
    | Decoded(bytes: Bytes)    // `fragmentData.toString()`
    | Rendered(bytes: Bytes)   // `md.render(fragmentData.toString())`
    | Undefined                // a function that falls off its end

  function NotSupported(currentType: string, finalType: string): string {
    "Type conversion from " + currentType + " to " + finalType + " is currently not supported by the API."
  }

  /** `convertTxtPlain`: the payload as text, whatever it was. */
  function ConvertTxtPlain(fragmentData: Bytes): (r: Output)
    ensures r.Decoded? && r.bytes == fragmentData
  {
    Decoded(fragmentData)
  }

  /** `convertHTML`: markdown is rendered; any other source type reaches
      an empty `default` and the function returns nothing. */
  function ConvertHtml(currentType: string, fragmentData: Bytes): (r: Output)
    ensures r.Rendered? <==> currentType == Markdown
    ensures r.Undefined? <==> currentType != Markdown
    ensures r.Rendered? ==> r.bytes == fragmentData
  {
    if currentType == Markdown then Rendered(fragmentData) else Undefined
  }

  function HandleTypeConversion(currentType: string, finalType: string, fragmentData: Bytes): (r: Result<Output>)
    ensures r.Err? <==> finalType != PlainText && finalType != Html
    ensures r.Err? ==> r.msg == NotSupported(currentType, finalType)
    ensures finalType == PlainText ==> r == Ok(Decoded(fragmentData))
    ensures finalType == Html ==> r.Ok? && (r.value.Undefined? <==> currentType != Markdown)
    ensures finalType == Html && currentType == Markdown ==> r == Ok(Rendered(fragmentData))
  {
    if finalType == PlainText then Ok(ConvertTxtPlain(fragmentData))
    else if finalType == Html then Ok(ConvertHtml(currentType, fragmentData))
    else Err(NotSupported(currentType, finalType))
  }

  /** Only a conversion to HTML looks at the source type. */
  lemma SourceMattersOnlyForHtml(a: string, b: string, finalType: string, fragmentData: Bytes)
    requires finalType != Html
    ensures HandleTypeConversion(a, finalType, fragmentData).Ok? ==
            HandleTypeConversion(b, finalType, fragmentData).Ok?
    ensures finalType == PlainText ==>
      HandleTypeConversion(a, finalType, fragmentData) == HandleTypeConversion(b, finalType, fragmentData)
  {
  }

  /** A conversion never changes the bytes it works on: whatever comes out
      is a rendering of the payload itself. */
  lemma ConversionKeepsPayload(currentType: string, finalType: string, fragmentData: Bytes)
    requires HandleTypeConversion(currentType, finalType, fragmentData).Ok?
    requires !HandleTypeConversion(currentType, finalType, fragmentData).value.Undefined?
    ensures HandleTypeConversion(currentType, finalType, fragmentData).value.bytes == fragmentData
  {
  }
}
