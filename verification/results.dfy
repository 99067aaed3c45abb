/** Failure-carrying results for the two lookups the scraper treats as fatal. */
module Results {

  datatype Option<+T> = None | Some(value: T)

  /** The two `ValueError`s the scraper raises when a page lacks the structure it expects. */
  datatype ScrapeError =
    | WinsTableMissing      // no table follows the "Multiple wins" heading
    | InfoboxMissing        // no table whose class mentions "infobox"

  datatype Result<+T> = Ok(value: T) | Err(error: ScrapeError)
}
