/** The browser server's `open_url` tool, as far as URL screening goes: as
    written it hands the URL straight to the browser and never consults the
    validator; the screened version runs `validate_url` first. */
module BrowserTools {

  import opened Strings
  import opened UrlSafety

  /** What the tool does with a URL: the browser navigates to it and the tool
      replies with a confirmation, or the tool refuses it and replies why. */
  datatype Navigation = Opened(url: string, reply: string) | Refused(reply: string)

  const OPENED_PREFIX: string := "Opened URL: "

  /** open_url as written: the URL goes to the browser exactly as given. */
  function OpenUrl(url: string): (n: Navigation)
    ensures n.Opened? && n.url == url
    ensures StartsWith(n.reply, OPENED_PREFIX) && EndsWith(n.reply, url)
  {
    Opened(url, OPENED_PREFIX + url)
  }

  /** Every URL the validator refuses, or on which URL parsing raises, is
      opened all the same: "http://bit.ly/x.exe" among them. */
  lemma OpenUrlSkipsScreening(url: string)
    requires !ValidateUrl(url).Allowed?
    ensures OpenUrl(url).Opened? && OpenUrl(url).url == url
  {
  }

  /** open_url with the screening the validator was written for: a URL reaches
      the browser only when it is allowed, and then in its stripped form. */
  function OpenUrlScreened(url: string): (n: Navigation)
    ensures n.Opened? <==> ValidateUrl(url).Allowed?
    ensures n.Opened? ==>
      && n.url == Strip(url)
      && StartsWith(n.url, HTTPS_PREFIX)
      && !HasNonAscii(n.url)
      && n.reply == OPENED_PREFIX + n.url
    // A refused URL is answered with the validator's reason, or with the
    // parsing error.
    ensures ValidateUrl(url).Blocked? ==> n == Refused(Message(ValidateUrl(url).reason))
    ensures ValidateUrl(url).Raised? ==> n == Refused(ERROR_IPV6)
  {
    RaisedExactly(url);
    match ValidateUrl(url)
    case Allowed(u) => Opened(u, OPENED_PREFIX + u)
    case Blocked(reason) => Refused(Message(reason))
    case Raised(error) => Refused(error)
  }
}
