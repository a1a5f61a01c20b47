/**
 * The add-in's settings (the application settings store), passed in as a value
 * instead of being read from the process-wide store.
 */
module Config {

  datatype Settings = Settings(
    redmineUrl: string,
    redmineApiKey: string,
    idPrefix: string,
    replyDelimiter1: string,
    replyDelimiter2: string,
    replyDelimiter3: string,
    replyDelimiter4: string)

  /** The reply delimiters in the order they are tried. */
  function ReplyDelimiters(settings: Settings): seq<string> {
    [settings.replyDelimiter1, settings.replyDelimiter2, settings.replyDelimiter3, settings.replyDelimiter4]
  }
}
