/**
 The parts of an HTTP exchange the downloader looks at: the status code and the
 body bytes of a response, or a transport failure raised by the fetch itself.
 */
module Http {

  newtype byte = b: int | 0 <= b < 256

  type Bytes = seq<byte>

  /** `requests.Response`, reduced to `status_code` and `content`. */
  datatype Response = Response(status: int, content: Bytes)

  /** What `session.get(url, proxies=...)` produced: a response, or an exception. */
  datatype FetchResult = TransportError | Got(response: Response)

  const StatusOk := 200
  /** The status the downloader treats as the end of the page sequence. */
  const StatusTerminal := 400
}
