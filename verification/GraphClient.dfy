/** Sends and their budgets (core/graph_client.py). */
module GraphSend {
  import opened Prelude
  import opened Resilience

  /** What the wire answers to one request. */
  datatype Reply = Transport(name: string) | Response(status: int, invalidToken: bool, body: int)

  /** Everything one `_send_with_auth_retry` can meet: two token requests and two replies. */
  datatype Wire = Wire(token: Option<Fault>, first: Reply, refreshed: Option<Fault>, second: Reply)

  datatype Bearer = Cached | Fresh

  const AUTH_ERROR := Exc("MSALAuthenticationError")

  predicate IsSuccess(status: int) { 200 <= status <= 299 }

  predicate StaleToken(r: Reply) { r.Response? && r.status == 401 && r.invalidToken }

  /** The reply to the last of n requests. */
  function LastReply(w: Wire, n: nat): Reply { if n == 2 then w.second else w.first }

  /**
   * The outcome of an exchange of n requests is what its last step gave: the token's fault if nothing
   * was sent; else that of the last reply, unless asking for a fresh token failed. A body is the last
   * reply's own, and a first answer must be a success to be returned.
   */
  predicate EndsAtLastReply(w: Wire, o: Outcome, n: nat) {
    && n <= 2
    && (n == 0 <==> w.token.Some?)
    && (n == 0 ==> o == Raise(w.token.value))
    && (n > 0 ==> match LastReply(w, n)
          case Transport(name) => o == Raise(Exc(name))
          case Response(status, stale, body) =>
            if status == 401 then
              if n == 1 && stale then w.refreshed.Some? && o == Raise(w.refreshed.value)
              else o == Raise(Exc("MSALAuthenticationError"))
            else if n == 2 || 200 <= status < 300 then o == Return(body)
            else o == Raise(Status(status)))
  }

  /** `_send_with_auth_retry`; `sent` is the header each request carried. */
  method SendWithAuthRetry(w: Wire) returns (o: Outcome, sent: seq<Bearer>)
    ensures o == SendOutcome(w) && |sent| == Sends(w)
    ensures |sent| <= 2
    ensures sent != [] ==> sent[0] == Cached
    ensures |sent| == 2 ==> sent[1] == Fresh && StaleToken(w.first)
    ensures EndsAtLastReply(w, o, |sent|)
  {
    sent := [];
    if w.token.Some? {
      return Raise(w.token.value), sent;
    }
    sent := sent + [Cached];
    if w.first.Transport? {
      return Raise(Exc(w.first.name)), sent;
    }
    if w.first.status == 401 {
      if w.first.invalidToken {
        if w.refreshed.Some? {
          return Raise(w.refreshed.value), sent;
        }
        sent := sent + [Fresh];
        if w.second.Transport? {
          return Raise(Exc(w.second.name)), sent;
        }
        if w.second.status == 401 {
          return Raise(AUTH_ERROR), sent;
        }
        return Return(w.second.body), sent;
      }
      return Raise(AUTH_ERROR), sent;
    }
    if !IsSuccess(w.first.status) {
      return Raise(Status(w.first.status)), sent;
    }
    return Return(w.first.body), sent;
  }

  function SendOutcome(w: Wire): Outcome {
    if w.token.Some? then Raise(w.token.value)
    else match w.first
      case Transport(name) => Raise(Exc(name))
      case Response(status, _, body) =>
        if status != 401 then if IsSuccess(status) then Return(body) else Raise(Status(status))
        else if !w.first.invalidToken then Raise(AUTH_ERROR)
        else if w.refreshed.Some? then Raise(w.refreshed.value)
        else match w.second
          case Transport(name) => Raise(Exc(name))
          case Response(status2, _, body2) => if status2 == 401 then Raise(AUTH_ERROR) else Return(body2)
  }

  function Sends(w: Wire): nat {
    if w.token.Some? then 0 else if StaleToken(w.first) && w.refreshed.None? then 2 else 1
  }

  /** One request or two, the second exactly after a stale token and a fresh one, and the last step decides. */
  lemma OutcomeIsLastReply(w: Wire)
    ensures EndsAtLastReply(w, SendOutcome(w), Sends(w))
    ensures Sends(w) == 2 <==> w.token.None? && w.first.Response? && w.first.status == 401 && w.first.invalidToken
                               && w.refreshed.None?
  {
  }

  function Tries(wires: nat -> Wire): nat -> Outcome { (i: nat) => SendOutcome(wires(i)) }

  /** Sends over the first n attempts. */
  function TotalSends(wires: nat -> Wire, n: nat): nat {
    if n == 0 then 0 else TotalSends(wires, n - 1) + Sends(wires(n - 1))
  }

  lemma {:induction false} TwicePerAttempt(wires: nat -> Wire, n: nat)
    ensures TotalSends(wires, n) <= 2 * n
  {
    if n == 0 {
    } else {
      TwicePerAttempt(wires, n - 1);
    }
  }

  /** The attempts that got a token, and those that also sent a second request. */
  function Sending(wires: nat -> Wire, n: nat): set<nat> { set i: nat | i < n && wires(i).token.None? }

  function Refreshing(wires: nat -> Wire, n: nat): set<nat> {
    set i: nat | i < n && wires(i).token.None? && StaleToken(wires(i).first) && wires(i).refreshed.None?
  }

  lemma OneMore(some: set<nat>, n: nat, more: bool)
    requires n !in some
    ensures |some + if more then {n} else {}| == |some| + if more then 1 else 0
  {
    if !more {
      assert some + {} == some;
    }
  }

  lemma SendingAdds(wires: nat -> Wire, n: nat)
    ensures |Sending(wires, n + 1)| == |Sending(wires, n)| + if wires(n).token.None? then 1 else 0
  {
    var more := wires(n).token.None?;
    assert Sending(wires, n + 1) == Sending(wires, n) + if more then {n} else {};
    OneMore(Sending(wires, n), n, more);
  }

  lemma RefreshingAdds(wires: nat -> Wire, n: nat)
    ensures |Refreshing(wires, n + 1)|
         == |Refreshing(wires, n)|
            + if wires(n).token.None? && StaleToken(wires(n).first) && wires(n).refreshed.None? then 1 else 0
  {
    var more := wires(n).token.None? && StaleToken(wires(n).first) && wires(n).refreshed.None?;
    assert Refreshing(wires, n + 1) == Refreshing(wires, n) + if more then {n} else {};
    OneMore(Refreshing(wires, n), n, more);
  }

  /** The sends of n attempts: one for each that got a token and one more for each refreshed one. */
  lemma {:induction false} SendsAreCounted(wires: nat -> Wire, n: nat)
    ensures TotalSends(wires, n) == |Sending(wires, n)| + |Refreshing(wires, n)|
  {
    if n == 0 {
      assert Sending(wires, 0) == {} && Refreshing(wires, 0) == {};
    } else {
      hide Sending, Refreshing, StaleToken;
      SendsAreCounted(wires, n - 1);
      SendingAdds(wires, n - 1);
      RefreshingAdds(wires, n - 1);
    }
  }

  /**
   * A retrying call: at most twice as many sends as attempts allowed, none when the breaker
   * rejects, and exactly the one breaker update its final outcome calls for.
   */
  method RetryingCall(breaker: CircuitBreaker, policy: RetryPolicy, wires: nat -> Wire, arrive: real, finish: real)
    returns (o: Outcome, sends: nat)
    modifies breaker
    ensures sends <= 2 * Max(1, policy.maxAttempts)
    ensures Judge(old(breaker.State()), arrive).Rejected? ==> sends == 0 && o == Raise(BreakerOpen)
    ensures !Judge(old(breaker.State()), arrive).Rejected? ==>
      o == Final(policy, Tries(wires)) && sends == TotalSends(wires, Attempts(policy, Tries(wires)))
    ensures breaker.State() == AfterGuarded(breaker.cfg, old(breaker.State()), policy, Tries(wires), arrive, finish)
  {
    hide AttemptsFrom;
    ghost var tries := Tries(wires);
    sends := 0;
    var v := breaker.Acquire(arrive);
    if v.Rejected? {
      return Raise(BreakerOpen), 0;
    }
    var n := 1;
    var sent: seq<Bearer>;
    o, sent := SendWithAuthRetry(wires(0));
    sends := |sent|;
    while WantsRetry(o, policy) && n < policy.maxAttempts
      invariant 1 <= n <= Max(1, policy.maxAttempts)
      invariant o == tries(n - 1) && sends == TotalSends(wires, n)
      invariant Attempts(policy, tries) == AttemptsFrom(policy, tries, n)
      invariant breaker.State() == AfterJudge(old(breaker.State()), arrive)
      decreases policy.maxAttempts - n
    {
      AttemptsStep(policy, tries, n);
      o, sent := SendWithAuthRetry(wires(n));
      sends := sends + |sent|;
      n := n + 1;
    }
    AttemptsStep(policy, tries, n);
    TwicePerAttempt(wires, n);
    assert Attempts(policy, tries) == n && Final(policy, Tries(wires)) == o;
    match UpdateFor(policy, o) {
      case Success => breaker.RecordSuccess();
      case Failure => breaker.RecordFailure(finish);
      case Untouched =>
    }
    breaker.Release(v);
  }

  /** The subclasses of httpx.TransportError the client names. */
  const TRANSPORT_ERRORS := {
    "ConnectError", "ConnectTimeout", "ReadTimeout", "ReadError", "WriteTimeout", "WriteError", "CloseError",
    "PoolTimeout", "RemoteProtocolError", "LocalProtocolError", "ProxyError", "UnsupportedProtocol"}

  /** The accounting of `_post_no_retry`. */
  function UpdateNoRetry(o: Outcome): Update {
    match o
    case Return(_) => Success
    case Raise(Status(code)) => if code in {408, 425, 429, 500, 502, 503, 504} then Failure else Untouched
    case Raise(Exc(name)) => if name in TRANSPORT_ERRORS then Failure else Untouched
    case Raise(_) => Untouched
  }

  /** `post(retry_safe=False)`: at most two sends, the second only after a stale token, and one update. */
  method PostNoRetry(breaker: CircuitBreaker, w: Wire, arrive: real, finish: real) returns (o: Outcome, sends: nat)
    modifies breaker
    ensures sends <= 2 && (sends == 2 ==> StaleToken(w.first))
    ensures Judge(old(breaker.State()), arrive).Rejected? ==>
      sends == 0 && o == Raise(BreakerOpen) && breaker.State() == old(breaker.State())
    ensures !Judge(old(breaker.State()), arrive).Rejected? ==> o == SendOutcome(w) && sends == Sends(w)
    ensures !Judge(old(breaker.State()), arrive).Rejected? ==>
      var after :=
          AfterUpdate(breaker.cfg, AfterJudge(old(breaker.State()), arrive), UpdateNoRetry(SendOutcome(w)), finish);
      breaker.State() == if Judge(old(breaker.State()), arrive).AdmittedAsProbe? then AfterProbeExit(after) else after
  {
    var v := breaker.Acquire(arrive);
    if v.Rejected? {
      return Raise(BreakerOpen), 0;
    }
    var sent: seq<Bearer>;
    o, sent := SendWithAuthRetry(w);
    sends := |sent|;
    match UpdateNoRetry(o) {
      case Success => breaker.RecordSuccess();
      case Failure => breaker.RecordFailure(finish);
      case Untouched =>
    }
    breaker.Release(v);
  }

  /**
   * The two paths do not count alike: the non-retrying path also charges the breaker for the
   * transport errors the retry policy does not list. For faults of the wire they differ exactly there.
   */
  lemma AccountingDiffersExactly(o: Outcome)
    requires o.Raise? ==> !o.fault.BreakerOpen?
    ensures UpdateNoRetry(o) != UpdateFor(DEFAULT_HTTP_RETRY_POLICY, o)
       <==> o.Raise? && o.fault.Exc?
            && o.fault.name in {"ReadError", "WriteError", "CloseError", "LocalProtocolError", "ProxyError",
                "UnsupportedProtocol"}
  {
  }

  /** The status of the answer whose body is returned. */
  function AnswerStatus(w: Wire): int {
    var reply := if StaleToken(w.first) then w.second else w.first;
    if reply.Response? then reply.status else 0
  }

  /**
   * A body is handed back as a result although the server answered with an error exactly after a
   * token refresh: the status of the second answer is only compared with 401. Such a call also
   * counts as a success for the breaker.
   */
  lemma ErrorReturnedExactly(w: Wire, policy: RetryPolicy)
    ensures SendOutcome(w).Return? && !IsSuccess(AnswerStatus(w))
       <==> && w.token.None? && StaleToken(w.first) && w.refreshed.None?
            && w.second.Response? && w.second.status != 401 && !IsSuccess(w.second.status)
    ensures SendOutcome(w).Return? ==>
        UpdateFor(policy, SendOutcome(w)).Success? && UpdateNoRetry(SendOutcome(w)).Success?
  {
  }

  /** Faults the non-retrying path charges to the breaker. */
  predicate Charged(f: Fault) {
    match f
    case Status(code) => code in {408, 425, 429, 500, 502, 503, 504}
    case Exc(name) => name in TRANSPORT_ERRORS
    case _ => false
  }

  /**
   * An exchange that ends in a fault which says nothing about the backend's availability, told by what
   * was met on the way.
   */
  predicate SaysNothing(w: Wire) {
    if w.token.Some? then !Charged(w.token.value)
    else match w.first
      case Transport(name) => name !in TRANSPORT_ERRORS
      case Response(status, _, _) =>
        if status != 401 then !IsSuccess(status) && !Charged(Status(status))
        else if !w.first.invalidToken then true
        else if w.refreshed.Some? then !Charged(w.refreshed.value)
        else match w.second
          case Transport(name) => name !in TRANSPORT_ERRORS
          case Response(status2, _, _) => status2 == 401
  }

  /**
   * A lone probe sent without retries leaves the breaker half-open, where it rejects every later
   * caller, exactly when the exchange says nothing about availability: a status such as 404, a 401
   * that a fresh token does not mend, or a fault of the token source.
   */
  lemma NoRetryProbeWedgesExactly(cfg: Config, b: Breaker, w: Wire, arrive: real, finish: real)
    requires Judge(b, arrive).AdmittedAsProbe?
    ensures var after := AfterProbeExit(AfterUpdate(cfg, AfterJudge(b, arrive), UpdateNoRetry(SendOutcome(w)), finish));
      && (after.mode.HalfOpen? <==> SaysNothing(w))
      && (SaysNothing(w) ==> forall t :: Judge(after, t).Rejected?)
  {
  }
}

/** Following `@odata.nextLink` (core/graph_client.py `paginate`). */
module GraphPages {
  import opened Prelude
  import opened Resilience

  datatype Url = Url(scheme: string, host: string, rest: string)

  /** `link` is absent when the page has no usable nextLink. */
  datatype Page = Page(payload: int, link: Option<Url>)

  /** The answer to the k-th fetch; it may change from one fetch of a URL to the next. */
  type Server = (nat, Url) -> Result<Page, Fault>

  datatype End = Complete | CeilingExceeded | InvalidRedirect | FetchFailed(fault: Fault)

  function Lower(s: string): string {
    if s == "" then "" else [if 'A' <= s[0] <= 'Z' then s[0] + ' ' else s[0]] + Lower(s[1..])
  }

  /** `_validate_redirect_target` accepts. */
  predicate Trusted(hosts: set<string>, u: Url) {
    u.scheme == "https" && Lower(u.host) in set h | h in hosts :: Lower(h)
  }

  /** Equal up to the case of ASCII letters. */
  predicate SameLetter(a: char, b: char) {
    a == b || ('A' <= a <= 'Z' && b == a + ' ') || ('A' <= b <= 'Z' && a == b + ' ')
  }

  predicate SameHost(a: string, b: string) {
    |a| == |b| && forall i :: 0 <= i < |a| ==> SameLetter(a[i], b[i])
  }

  /** An https URL whose host is one of the trusted ones, in any case. */
  predicate HttpsOnHost(hosts: set<string>, u: Url) {
    u.scheme == "https" && exists h :: h in hosts && SameHost(h, u.host)
  }

  lemma {:induction false} SameLowerExactly(a: string, b: string)
    ensures Lower(a) == Lower(b) <==> SameHost(a, b)
  {
    if a == "" || b == "" {
    } else {
      SameLowerExactly(a[1..], b[1..]);
      assert Lower(a) == Lower(a)[..1] + Lower(a[1..]) && Lower(b) == Lower(b)[..1] + Lower(b[1..]);
      assert SameHost(a, b) <==> SameLetter(a[0], b[0]) && SameHost(a[1..], b[1..]) by {
        assert |a| == |b| ==> forall i :: 1 <= i < |a| ==> a[i] == a[1..][i - 1] && b[i] == b[1..][i - 1];
      }
    }
  }

  lemma TrustedExactly(hosts: set<string>, u: Url)
    ensures Trusted(hosts, u) <==> HttpsOnHost(hosts, u)
  {
    forall h | h in hosts ensures Lower(h) == Lower(u.host) <==> SameHost(h, u.host) {
      SameLowerExactly(h, u.host);
    }
  }

  /** The k-th URL of the link chain, whatever its length and whoever it points to. */
  function UrlAt(server: Server, first: Url, k: nat): Option<Url> {
    if k == 0 then Some(first)
    else match UrlAt(server, first, k - 1)
      case None => None
      case Some(u) => (match server(k - 1, u) case Err(_) => None case Ok(page) => page.link)
  }

  predicate LinksTrusted(server: Server, hosts: set<string>, first: Url, n: nat) {
    forall k :: 1 <= k <= n ==> UrlAt(server, first, k).Some? && Trusted(hosts, UrlAt(server, first, k).value)
  }

  /** The chain has exactly n pages: the n-th is fetched and has no link. */
  predicate ChainEndsAfter(server: Server, first: Url, n: nat) {
    && n >= 1 && UrlAt(server, first, n - 1).Some?
    && var r := server(n - 1, UrlAt(server, first, n - 1).value);
    r.Ok? && r.value.link.None?
  }

  lemma {:induction false} ChainIsPrefixClosed(server: Server, first: Url, k: nat, n: nat)
    requires k <= n && UrlAt(server, first, n).Some?
    ensures UrlAt(server, first, k).Some?
    decreases n - k
  {
    if k < n {
      ChainIsPrefixClosed(server, first, k, n - 1);
    }
  }

  /** The ceiling error is due: every link up to the ceiling exists and is trusted. */
  predicate CeilingDue(server: Server, hosts: set<string>, first: Url, ceiling: int) {
    ceiling <= 0 || LinksTrusted(server, hosts, first, ceiling)
  }

  /** The chain ends within the ceiling and every link on it is trusted. */
  ghost predicate FitsCeiling(server: Server, hosts: set<string>, first: Url, ceiling: int) {
    exists n :: 1 <= n <= ceiling && ChainEndsAfter(server, first, n) && LinksTrusted(server, hosts, first, n - 1)
  }

  /** A chain that goes on past n did not end by n. */
  lemma GoesOn(server: Server, first: Url, m: nat, n: nat)
    requires 1 <= m <= n && UrlAt(server, first, n).Some?
    ensures !ChainEndsAfter(server, first, m)
  {
    ChainIsPrefixClosed(server, first, m, n);
  }

  lemma AtCeiling(server: Server, hosts: set<string>, first: Url, ceiling: int, n: nat)
    requires n >= ceiling && UrlAt(server, first, n).Some? && LinksTrusted(server, hosts, first, n)
    ensures CeilingDue(server, hosts, first, ceiling) && !FitsCeiling(server, hosts, first, ceiling)
  {
    forall m | 1 <= m <= ceiling ensures !ChainEndsAfter(server, first, m) { GoesOn(server, first, m, n); }
  }

  /** After a fetch that led nowhere the chain has stopped: it fits exactly when that page was its last. */
  lemma AtStop(server: Server, hosts: set<string>, first: Url, ceiling: int, n: nat)
    requires n < ceiling && UrlAt(server, first, n).Some? && LinksTrusted(server, hosts, first, n)
    requires UrlAt(server, first, n + 1).None?
    ensures !CeilingDue(server, hosts, first, ceiling)
    ensures FitsCeiling(server, hosts, first, ceiling) <==> ChainEndsAfter(server, first, n + 1)
  {
    forall m | 1 <= m <= ceiling && m != n + 1 ensures !ChainEndsAfter(server, first, m) {
      if m <= n {
        GoesOn(server, first, m, n);
      } else if UrlAt(server, first, m - 1).Some? {
        ChainIsPrefixClosed(server, first, n + 1, m - 1);
      }
    }
  }

  lemma AtUntrusted(server: Server, hosts: set<string>, first: Url, ceiling: int, n: nat)
    requires n < ceiling && UrlAt(server, first, n + 1).Some? && !Trusted(hosts, UrlAt(server, first, n + 1).value)
    ensures !CeilingDue(server, hosts, first, ceiling) && !FitsCeiling(server, hosts, first, ceiling)
  {
    forall m | 1 <= m <= ceiling && ChainEndsAfter(server, first, m)
      ensures !LinksTrusted(server, hosts, first, m - 1)
    {
      if m <= n + 1 { GoesOn(server, first, m, n + 1); }
    }
  }

  /** What was fetched and yielded follows the chain, and every URL after the first was checked. */
  predicate FollowsChain(server: Server, hosts: set<string>, first: Url, pages: seq<Page>, fetched: seq<Url>) {
    && |pages| <= |fetched| <= |pages| + 1
    && (forall k :: 0 <= k < |fetched| ==> UrlAt(server, first, k) == Some(fetched[k]))
    && (forall k :: 0 <= k < |pages| ==> server(k, fetched[k]) == Ok(pages[k]))
    && (forall k :: 1 <= k < |fetched| ==> HttpsOnHost(hosts, fetched[k]))
  }

  /** In plain terms: the first URL, and then each page's own link. */
  lemma ChainIsLinked(server: Server, hosts: set<string>, first: Url, pages: seq<Page>, fetched: seq<Url>)
    requires FollowsChain(server, hosts, first, pages, fetched)
    ensures fetched != [] ==> fetched[0] == first
    ensures forall k :: 1 <= k < |fetched| ==> pages[k - 1].link == Some(fetched[k])
  {
    hide HttpsOnHost;
    assert fetched != [] ==> UrlAt(server, first, 0) == Some(fetched[0]);
    forall k | 1 <= k < |fetched| ensures pages[k - 1].link == Some(fetched[k]) {
      assert UrlAt(server, first, k - 1) == Some(fetched[k - 1]) && UrlAt(server, first, k) == Some(fetched[k]);
      assert server(k - 1, fetched[k - 1]) == Ok(pages[k - 1]);
    }
  }

  /**
   * `paginate` run to its end: pages in yield order, URLs in fetch order. It ends on every chain,
   * cyclic ones included. It yields the first pages of the chain in order; only the first URL is
   * ever fetched without being https on a trusted host; the ceiling error is raised exactly when the
   * chain is longer than the ceiling and every link up to there is trusted; and it completes
   * exactly when the chain ends within the ceiling, after yielding all of it.
   */
  method Paginate(server: Server, hosts: set<string>, first: Url, ceiling: int)
    returns (pages: seq<Page>, fetched: seq<Url>, end: End)
    ensures FollowsChain(server, hosts, first, pages, fetched) && |pages| <= Max(ceiling, 0)
    ensures ceiling > 0 ==> fetched != []
    ensures |fetched| == |pages| + (if end.FetchFailed? then 1 else 0)
    ensures end.CeilingExceeded? <==> CeilingDue(server, hosts, first, ceiling)
    ensures end.Complete? <==> FitsCeiling(server, hosts, first, ceiling)
    ensures end.CeilingExceeded? ==> |pages| == Max(ceiling, 0)
    ensures end.Complete? ==> ChainEndsAfter(server, first, |pages|)
    ensures end.InvalidRedirect? ==>
        UrlAt(server, first, |pages|).Some? && !HttpsOnHost(hosts, UrlAt(server, first, |pages|).value)
    ensures end.FetchFailed? ==> server(|pages|, fetched[|pages|]) == Err(end.fault)
  {
    hide FitsCeiling, CeilingDue, Lower, Trusted, HttpsOnHost;
    pages, fetched := [], [];
    var next := first;
    while true
      invariant |pages| == |fetched| <= Max(ceiling, 0)
      invariant UrlAt(server, first, |pages|) == Some(next)
      invariant LinksTrusted(server, hosts, first, |pages|)
      invariant FollowsChain(server, hosts, first, pages, fetched)
      decreases ceiling - |pages|
    {
      ghost var n := |pages|;
      if |pages| >= ceiling {
        AtCeiling(server, hosts, first, ceiling, n);
        return pages, fetched, CeilingExceeded;
      }
      assert n >= 1 ==> HttpsOnHost(hosts, next) by { TrustedExactly(hosts, next); }
      fetched := fetched + [next];
      var reply := server(|pages|, next);
      if reply.Err? {
        AtStop(server, hosts, first, ceiling, n);
        return pages, fetched, FetchFailed(reply.error);
      }
      pages := pages + [reply.value];
      if reply.value.link.None? {
        AtStop(server, hosts, first, ceiling, n);
        return pages, fetched, Complete;
      }
      next := reply.value.link.value;
      if !Trusted(hosts, next) {
        TrustedExactly(hosts, next);
        AtUntrusted(server, hosts, first, ceiling, n);
        return pages, fetched, InvalidRedirect;
      }
    }
  }
}
