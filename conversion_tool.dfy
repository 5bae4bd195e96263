/** `handleTypeConversion` of the tools: the same conversions as the type
    utilities, except that a non-markdown source converted to HTML throws
    instead of returning nothing. */
module ConversionTool {
  import opened Wrappers
  import opened Conversions

  function CannotConvertToHtml(currentType: string): string {
    "Cannot convert " + currentType + " to HTML"
  }

  function HandleTypeConversion(currentType: string, finalType: string, fragmentData: Bytes): (r: Result<Output>)
    ensures r.Ok? ==> !r.value.Undefined?
    ensures r.Ok? <==> finalType == PlainText || (finalType == Html && currentType == Markdown)
    ensures r.Err? && finalType == Html ==> r.msg == CannotConvertToHtml(currentType)
    ensures r.Err? && finalType != Html ==> r.msg == NotSupported(currentType, finalType)
    ensures finalType == PlainText ==> r == Ok(Decoded(fragmentData))
    ensures finalType == Html && currentType == Markdown ==> r == Ok(Rendered(fragmentData))
  {
    if finalType == PlainText then Ok(Decoded(fragmentData))
    else if finalType == Html then
      if currentType == Markdown then Ok(Rendered(fragmentData))
      else Err(CannotConvertToHtml(currentType))
    else Err(NotSupported(currentType, finalType))
  }

  /** The two conversion functions agree on every input except a
      non-markdown source converted to HTML, where the utilities return
      nothing and the tool throws. */
  lemma AgreesWithUtilities(currentType: string, finalType: string, fragmentData: Bytes)
    ensures HandleTypeConversion(currentType, finalType, fragmentData)
         == Conversions.HandleTypeConversion(currentType, finalType, fragmentData)
        <==> !(finalType == Html && currentType != Markdown)
    ensures finalType == Html && currentType != Markdown ==>
      Conversions.HandleTypeConversion(currentType, finalType, fragmentData) == Ok(Undefined) &&
      HandleTypeConversion(currentType, finalType, fragmentData) == Err(CannotConvertToHtml(currentType))
  {
  }
}
