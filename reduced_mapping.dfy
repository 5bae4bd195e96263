/** The extension table of the mappings utility: only `.txt` is left in,
    every other entry is commented out. */
module ReducedMapping {
  import opened Wrappers
  import TypeMapping
  import FragmentModel

  const TypesMapping: map<string, string> := map[".txt" := "text/plain"]

  /** The reduced table is the full one cut down to `.txt`, and what it
      maps to is a type a fragment may have. */
  lemma IsRestrictionOfFullTable(extension: string)
    requires extension in TypesMapping
    ensures extension in TypeMapping.TypesMapping
    ensures TypesMapping[extension] == TypeMapping.TypesMapping[extension]
    ensures FragmentModel.IsSupportedType(TypesMapping[extension]) == Ok(true)
  {
    FragmentModel.PlainTextIsSupported(TypesMapping[extension]);
  }

  /** Every extension but `.txt` is unknown here, even those the full
      table lists. */
  lemma OnlyText(extension: string)
    ensures extension in TypesMapping <==> extension == ".txt"
    ensures extension in TypeMapping.TypesMapping && extension != ".txt" ==> extension !in TypesMapping
  {
  }
}
