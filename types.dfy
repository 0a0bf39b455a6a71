/** The option records of src/types.ts. An absent optional property is `None`. */
module Types {
  import opened Wrappers

  /** Which uses of the page the `Content-Signal` header permits; each defaults to allowed. */
  datatype ContentSignalOptions = ContentSignalOptions(
    aiTrain: Option<bool>,
    search: Option<bool>,
    aiInput: Option<bool>)

  /** `boolean | ContentSignalOptions`. */
  datatype ContentSignal = Flag(on: bool) | Signals(options: ContentSignalOptions)

  datatype MarkdownAgentsOptions = MarkdownAgentsOptions(
    skipHeader: Option<string>,
    varyHeader: Option<bool>,
    contentSignal: Option<ContentSignal>,
    stripSelectors: Option<seq<string>>)

  /** `{}`: every option left to its default. */
  const NoOptions := MarkdownAgentsOptions(None, None, None, None)
}
