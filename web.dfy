/**
 * The network as the scripts see it. Every request is answered by a value
 * given to the model: the caller supplies the reply for each URL, so the
 * same URL always gets the same reply within one run.
 */
module Web {
  import opened Common

  /** What `requests.get(url)` yields: an exception before any reply
      (connection refused, timeout, bad URL), or a reply with its status code,
      its body as text and, when that body parses as a JSON object whose
      values are strings, its fields (None when `.json()` would raise or
      yield something other than an object). */
  datatype Reply =
    | Unreachable
    | Reply(status: int, text: string, fields: Option<map<string, string>>)

  /** `response.raise_for_status()` raises for client and server errors only. */
  predicate RaisesForStatus(status: int) {
    400 <= status < 600
  }

  /** A streamed download (`requests.get(url, stream=True)`): refused
      outright, or a reply whose `content-length` header either parses as an
      integer (or is absent) or does not, whose body arrives as `chunks`, and
      which may break off with an exception after the last chunk listed. */
  datatype Stream =
    | Refused
    | Stream(status: int, lengthHeaderOk: bool, chunks: seq<seq<byte>>, interrupted: bool)

  /** The download reaches `open(filename, 'wb')`: nothing raised before it. */
  predicate OpensFile(st: Stream) {
    st.Stream? && !RaisesForStatus(st.status) && st.lengthHeaderOk
  }

  /** Every chunk arrives and the stream closes normally. */
  predicate Completes(st: Stream) {
    OpensFile(st) && !st.interrupted
  }
}
