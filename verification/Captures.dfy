/** One request and response as the proxy saw them. */
module Captures {
  import opened Text
  import opened FieldMaps

  /** A body is kept readable if it is UTF-8, and encoded otherwise. */
  datatype CapturedBody = TextBody(text: string) | Base64Body(data: string)

  datatype CapturedRequest = CapturedRequest(verb: string, url: string, httpVersion: string, headers: Entries,
                                             body: Option<CapturedBody>)

  datatype CapturedResponse = CapturedResponse(status: nat, statusText: string, headers: Entries, body: Option<CapturedBody>)

  datatype Capture = Capture(id: string, at: nat, durationMs: nat, session: Option<string>, page: Option<string>,
                             request: CapturedRequest, response: Option<CapturedResponse>)
}
