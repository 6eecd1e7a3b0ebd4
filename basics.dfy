/** Optional values, for a JSON field that may be missing or an input
    stream that may run out. */
module Maybe {
  datatype Option<+T> = None | Some(value: T) {
    function GetOr(default: T): T {
      match this
      case Some(v) => v
      case None => default
    }
  }
}

/** What one HTTP request does once the network has answered. */
module Http {
  /** `raise_for_status()` raises for every status from 400 to 599, so a
      response that passed it has a status outside that range. */
  type PassedStatus = s: nat | s < 400 || 600 <= s

  /** The outcome of `requests.get(...)` followed by `raise_for_status()`.
      `Response` is a response that passed the status check, with its status
      code and its body (for the chatbots: the text BeautifulSoup extracted
      from it). `TimedOut` is `requests.exceptions.Timeout`. `RequestFailed`
      is every other exception, the `HTTPError` of a 4xx/5xx status included;
      each failure carries the exception's description, `str(e)`. */
  datatype HttpResult =
    | Response(status: PassedStatus, body: string)
    | TimedOut(description: string)
    | RequestFailed(description: string)
}
