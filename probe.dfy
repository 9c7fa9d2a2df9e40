/** The decision made by `is_url_accessible`. The URL split and the HEAD
    request are not computed here: their outcomes are inputs. */
module Probe {
  import opened Text

  /** What `urlparse(url)` gives: the scheme and network location, or the
      error it raised. */
  datatype UrlParse = Parsed(scheme: string, netloc: string) | ParseRaised(error: string)

  /** What the HEAD request (redirects followed) gives: a final status code,
      or the exception it raised. */
  datatype HeadResult =
    | Response(statusCode: nat)
    | TimeoutRaised
    | ConnectionErrorRaised
    | OtherRaised(error: string)

  /** Why a URL was judged as it was. */
  datatype Reason =
    | InvalidFormat
    | StreamingSkipped
    | Status(code: nat)
    | Timeout
    | ConnectionError
    | Exception(error: string)

  datatype Verdict = Verdict(valid: bool, reason: Reason)

  /** Hosts of streaming sites whose links are accepted without a request. */
  const TrustedDomains: seq<string> := ["youtube.com", "youtu.be", "twitch.tv"]

  /** Final status codes that count as reachable. */
  const OkStatuses: set<nat> := {200, 302, 301}

  const StatusPrefix: string := "状态码: "
  const ExceptionPrefix: string := "异常: "

  /** The message the source pairs with each reason. */
  function Message(reason: Reason): (m: string)
    ensures reason.Status? ==> m == StatusPrefix + NatToString(reason.code)
    ensures reason.Exception? ==> m == ExceptionPrefix + reason.error
  {
    match reason
    case InvalidFormat => "无效的URL格式"
    case StreamingSkipped => "流媒体链接（跳过验证）"
    case Status(code) => StatusPrefix + NatToString(code)
    case Timeout => "连接超时"
    case ConnectionError => "连接错误"
    case Exception(error) => ExceptionPrefix + error
  }

  /** The status message ends in the decimal code, which reads back as the
      status code. */
  lemma StatusMessageReadsBack(code: nat)
    ensures |Message(Status(code))| > |StatusPrefix|
    ensures Message(Status(code))[..|StatusPrefix|] == StatusPrefix
    ensures ParseNat(Message(Status(code))[|StatusPrefix|..]) == code
  {
    var m := Message(Status(code));
    NatToStringRoundTrip(code);
    assert m[|StatusPrefix|..] == NatToString(code);
  }

  /** The message the probe reports tells the reason apart: two reasons
      with the same message are the same reason. */
  lemma MessageDistinguishes(r1: Reason, r2: Reason)
    ensures Message(r1) == Message(r2) ==> r1 == r2
  {
    var m1, m2 := Message(r1), Message(r2);
    if m1 == m2 {
      if r1.Status? && r2.Status? {
        StatusMessageReadsBack(r1.code);
        StatusMessageReadsBack(r2.code);
      } else if r1.Exception? && r2.Exception? {
        assert r1.error == m1[|ExceptionPrefix|..];
        assert r2.error == m2[|ExceptionPrefix|..];
      } else {
        MessageHead(r1);
        MessageHead(r2);
      }
    }
  }

  /** The first character of each message, and the third of the two that
      share their first. */
  lemma MessageHead(r: Reason)
    ensures |Message(r)| > 2
    ensures Message(r)[0] == match r
      case InvalidFormat => '无'
      case StreamingSkipped => '流'
      case Status(_) => '状'
      case Timeout => '连'
      case ConnectionError => '连'
      case Exception(_) => '异'
    ensures r.Timeout? ==> Message(r)[2] == '超'
    ensures r.ConnectionError? ==> Message(r)[2] == '错'
  {
  }

  predicate WellFormed(parsed: UrlParse) {
    parsed.Parsed? && parsed.scheme != "" && parsed.netloc != ""
  }

  predicate Trusted(url: string) {
    ContainsAny(url, TrustedDomains)
  }

  /** Whether `is_url_accessible` reaches the HEAD request. */
  predicate NeedsRequest(parsed: UrlParse, url: string) {
    WellFormed(parsed) && !Trusted(url)
  }

  /** The verdict for a request's outcome. */
  function FromResponse(head: HeadResult): Verdict {
    match head
    case Response(code) => Verdict(code in OkStatuses, Status(code))
    case TimeoutRaised => Verdict(false, Timeout)
    case ConnectionErrorRaised => Verdict(false, ConnectionError)
    case OtherRaised(error) => Verdict(false, Exception(error))
  }

  /** `is_url_accessible(channel)` for a channel with URL `url`. `head` is
      consulted only on the path that sends the request. */
  function IsUrlAccessible(parsed: UrlParse, url: string, head: HeadResult): (v: Verdict)
    // accepted exactly when well formed and either trusted or answering
    // with 200, 301 or 302
    ensures v.valid <==>
              WellFormed(parsed) &&
              (Trusted(url) || (head.Response? && head.statusCode in {200, 301, 302}))
  {
    if parsed.ParseRaised? then Verdict(false, Exception(parsed.error))
    else if parsed.scheme == "" || parsed.netloc == "" then Verdict(false, InvalidFormat)
    else if Trusted(url) then Verdict(true, StreamingSkipped)
    else FromResponse(head)
  }

  // ------------------------------------------------------------ properties

  /** Which reason, and so which message, each path of `is_url_accessible`
      reports. */
  lemma ReasonSpec(parsed: UrlParse, url: string, head: HeadResult)
    ensures var r := IsUrlAccessible(parsed, url, head).reason;
      && (parsed.ParseRaised? ==> r == Exception(parsed.error))
      && (parsed.Parsed? && (parsed.scheme == "" || parsed.netloc == "") ==> r == InvalidFormat)
      && (WellFormed(parsed) && Trusted(url) ==> r == StreamingSkipped)
      && (NeedsRequest(parsed, url) ==>
            match head
            case Response(code) => r == Status(code)
            case TimeoutRaised => r == Timeout
            case ConnectionErrorRaised => r == ConnectionError
            case OtherRaised(error) => r == Exception(error))
  {
  }

  /** Without the request the verdict cannot depend on its outcome: a
      malformed URL and a trusted one are decided before it is sent. */
  lemma NoRequestWhenDecided(parsed: UrlParse, url: string, head1: HeadResult, head2: HeadResult)
    requires !NeedsRequest(parsed, url)
    ensures IsUrlAccessible(parsed, url, head1) == IsUrlAccessible(parsed, url, head2)
    ensures IsUrlAccessible(parsed, url, head1).reason in {InvalidFormat, StreamingSkipped} ||
            IsUrlAccessible(parsed, url, head1).reason.Exception?
  {
  }

  /** Once the request is sent, the verdict is the request's. */
  lemma RequestDecides(parsed: UrlParse, url: string, head: HeadResult)
    requires NeedsRequest(parsed, url)
    ensures IsUrlAccessible(parsed, url, head) == FromResponse(head)
    ensures head.Response? ==> IsUrlAccessible(parsed, url, head).reason == Status(head.statusCode)
    ensures !head.Response? ==> !IsUrlAccessible(parsed, url, head).valid
  {
  }

  /** The trusted test looks at the whole URL, so a trusted domain in the
      query string skips the request as well. */
  lemma TrustedInQuery(head: HeadResult)
    ensures IsUrlAccessible(Parsed("http", "example.org"), "http://example.org/?from=twitch.tv", head)
            == Verdict(true, StreamingSkipped)
  {
    var url := "http://example.org/?from=twitch.tv";
    assert url[25..] == "twitch.tv";
    ContainsAt(url, "twitch.tv", 25);
    assert Contains(url, TrustedDomains[2]);
  }
}
