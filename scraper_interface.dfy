/** The value every extraction strategy hands to the orchestrator. */
module Scraper {
  import opened Wrappers
  import opened Calendar

  /** A posting found on a source, before it is persisted. */
  datatype ScrapedInternship = ScrapedInternship(
    origin: string,             // source tag, such as "UADER"
    url: string,                // the identity of the posting
    title: string,
    imageUrl: Option<string>,
    publishedAt: Option<JsDate>)
}
