/** A URL as `urllib.parse.urlparse` and `parse_qs` hand it to the identifier
    resolver. The splitting itself is not modelled: the record is its output. */
module Url {

  /** One `name=value` field of the query string, percent-decoded. A field
      written without `=` is represented with an empty value, which is how
      `parse_qs` (with blank values dropped) treats it. */
  type QueryField = (string, string)

  datatype UrlParts = UrlParts(
    scheme: string,
    netloc: string,
    path: string,
    query: seq<QueryField>)
}
