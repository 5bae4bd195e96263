/** The extension-to-type table of the type utilities, and the list of
    types that carry a charset. */
module TypeMapping {
  import opened Wrappers
  import MediaType

  const TypesMapping: map<string, string> := map[
    ".txt" := "text/plain",
    ".md" := "text/markdown",
    ".html" := "text/html",
    ".csv" := "text/csv",
    ".json" := "application/json",
    ".yaml" := "application/yaml",
    ".yml" := "application/yaml",
    ".png" := "image/png",
    ".jpg" := "image/jpeg",
    ".webp" := "image/webp",
    ".gif" := "image/gif",
    ".avif" := "image/avif"]

  const CharsetTypes: seq<string> := ["text/plain", "text/html", "text/css", "application/json"]

  /** `TYPES_MAPPING[extension]`: `undefined` for an unknown extension. */
  function TypeOfExtension(extension: string): (r: Option<string>)
    ensures r.Some? <==> extension in TypesMapping
    ensures r.Some? ==> r.value in TypesMapping.Values && r.value == TypesMapping[extension]
  {
    if extension in TypesMapping then Some(TypesMapping[extension]) else None
  }

  /** `.yaml` and `.yml` name the same type, so the table has no inverse. */
  lemma YamlExtensionsShareAType()
    ensures TypeOfExtension(".yaml") == TypeOfExtension(".yml") == Some("application/yaml")
  {
  }

  /** `.jpeg` is not listed; only `.jpg` maps to `image/jpeg`. */
  lemma JpegIsNotListed()
    ensures TypeOfExtension(".jpeg").None?
    ensures forall e :: TypeOfExtension(e) == Some("image/jpeg") <==> e == ".jpg"
  {
  }

  /** `text/css` carries a charset but no extension maps to it. */
  lemma CssHasCharsetButNoExtension()
    ensures "text/css" in CharsetTypes
    ensures "text/css" !in TypesMapping.Values
  {
  }

  lemma ListedExtensions()
    ensures TypesMapping.Keys == {".txt", ".md", ".html", ".csv", ".json", ".yaml", ".yml",
                                  ".png", ".jpg", ".webp", ".gif", ".avif"}
  {
  }

  lemma TwelveExtensions()
    ensures |{".txt", ".md", ".html", ".csv", ".json", ".yaml", ".yml",
              ".png", ".jpg", ".webp", ".gif", ".avif"}| == 12
  {
  }

  /** The table lists twelve extensions, and every type in it is a base
      type: a lower-case `type/subtype` with no parameters. */
  lemma TableMapsToBaseTypes()
    ensures |TypesMapping| == 12
    ensures forall e :: e in TypesMapping ==> MediaType.IsBaseType(TypesMapping[e])
  {
    ListedExtensions();
    TwelveExtensions();
    forall e | e in TypesMapping ensures MediaType.IsBaseType(TypesMapping[e]) {
      ListedTypeIsBaseType(e, TypesMapping[e]);
    }
  }

  /** Each listed type is lower-case letters on either side of the slash
      that follows `text`, `application` or `image`. */
  lemma ListedTypeIsBaseType(e: string, t: string)
    requires e in TypesMapping && t == TypesMapping[e]
    ensures MediaType.IsBaseType(t)
  {
    var k := if t[0] == 't' then 4 else if t[0] == 'a' then 11 else 5;
    MediaType.LettersAroundSlash(t, k);
  }
}
