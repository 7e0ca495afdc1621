/** Streaming downloads into temporary files (core/graph_client.py `get_bytes`). */
module GraphDownload {
  import opened Prelude
  import opened Resilience
  import opened GraphSend

  type Bytes = seq<int>

  /** How a response body ends: completely, or after the delivered chunks with an exception or a cancellation. */
  datatype BodyEnd = Whole | Broken(name: string) | Stopped

  /** What one streamed request meets. */
  datatype Stream =
    | OpenFault(fault: Fault)
    | Answer(status: int, invalidToken: bool, location: string, chunks: seq<Bytes>, end: BodyEnd)

  /** Everything one download attempt can meet. */
  datatype Attempt = Attempt(token: Option<Fault>, refreshed: Option<Fault>, streams: nat -> Stream)

  datatype Sent = Sent(url: string, authorized: bool)

  datatype Download = Saved(file: nat, size: nat) | Failed(fault: Fault)

  predicate IsHttps(url: string) { |url| >= 8 && url[..8] == "https://" }

  const SIZE_EXCEEDED := Status(599)  // a GraphAPIError without a response carries a synthetic 599

  predicate IsRedirect(s: Stream) { s.Answer? && s.status in {302, 307} }

  predicate IsStale(s: Stream) { s.Answer? && s.status == 401 && s.invalidToken }

  /**
   * The i-th request of an attempt: the bearer goes out with the original URL and stays behind at the
   * first redirect.
   */
  function Request(url: string, a: Attempt, i: nat): Sent {
    if i == 0 then Sent(url, true)
    else if IsRedirect(a.streams(i - 1)) then Sent(a.streams(i - 1).location, false)
    else Request(url, a, i - 1)
  }

  function Requests(url: string, a: Attempt, n: nat): seq<Sent> { seq(n, i requires 0 <= i => Request(url, a, i)) }

  /**
   * How an attempt gets from one request to the next: one refresh after a stale token, then one hop to
   * an https target.
   */
  predicate Continues(a: Attempt, n: nat) {
    && n <= 3
    && (n == 2 ==> IsStale(a.streams(0)) || Followable(a.streams(0)))
    && (n == 3 ==> IsStale(a.streams(0)) && Followable(a.streams(1)))
  }

  /** How many requests an attempt makes once it has a token. */
  function Hops(a: Attempt): nat {
    if IsStale(a.streams(0)) then if a.refreshed.Some? then 1 else if Followable(a.streams(1)) then 3 else 2
    else if Followable(a.streams(0)) then 2 else 1
  }

  /** An https URL in a redirect with a status the download follows. */
  ghost predicate PointsOn(s: Stream) {
    s.Answer? && (s.status == 302 || s.status == 307) && exists rest :: s.location == "https://" + rest
  }

  predicate AsksForFresh(s: Stream) { s.Answer? && s.status == 401 && s.invalidToken }

  /** One request, and one more for a stale token that is refreshed and for the first redirect to an https URL. */
  lemma HopsExactly(a: Attempt)
    ensures var refreshed := AsksForFresh(a.streams(0)) && a.refreshed.None?;
      Hops(a) == 1 + (if refreshed then 1 else 0) + (if PointsOn(a.streams(if refreshed then 1 else 0)) then 1 else 0)
  {
    forall s: Stream ensures Followable(s) <==> PointsOn(s) {
      if Followable(s) {
        assert s.location == "https://" + s.location[8..];
      }
    }
  }

  /**
   * What n requests come to is decided by the last: the fault it opened with, the failed refresh after
   * a stale token, the answer if it is a success, and otherwise its status.
   */
  predicate EndsAtLastStream(a: Attempt, n: nat, r: Result<Stream, Fault>) {
    && n > 0
    && match a.streams(n - 1)
       case OpenFault(f) => r == Err(f)
       case Answer(status, stale, _, _, _) =>
         if n == 1 && status == 401 && stale then a.refreshed.Some? && r == Err(a.refreshed.value)
         else if 200 <= status < 300 then r == Ok(a.streams(n - 1))
         else r == Err(Status(status))
  }

  predicate Delivers(s: Stream) { s.Answer? && IsSuccess(s.status) && s.end.Whole? }

  predicate Followable(s: Stream) { IsRedirect(s) && IsHttps(s.location) }

  lemma OneMoreRequest(url: string, a: Attempt, n: nat)
    ensures Requests(url, a, n + 1) == Requests(url, a, n) + [Request(url, a, n)]
  {
  }

  /** The bearer goes to the original URL, and goes out exactly as long as no redirect has been answered. */
  lemma {:induction false} BearerStopsAtRedirect(url: string, a: Attempt, i: nat)
    ensures Request(url, a, i).authorized <==> forall j :: 0 <= j < i ==> !IsRedirect(a.streams(j))
    ensures Request(url, a, i).authorized ==> Request(url, a, i).url == url
  {
    if i == 0 {
    } else {
      BearerStopsAtRedirect(url, a, i - 1);
    }
  }

  /** No request carries the bearer anywhere but to this URL. */
  predicate BearerOnlyTo(sent: seq<Sent>, url: string) { forall s :: s in sent && s.authorized ==> s.url == url }

  lemma BearerAdds(first: seq<Sent>, second: seq<Sent>, url: string)
    requires BearerOnlyTo(first, url) && BearerOnlyTo(second, url)
    ensures BearerOnlyTo(first + second, url)
  {
  }

  lemma BearerGoesToOriginal(url: string, a: Attempt, n: nat)
    ensures BearerOnlyTo(Requests(url, a, n), url)
  {
    forall i: nat ensures Request(url, a, i).authorized ==> Request(url, a, i).url == url {
      BearerStopsAtRedirect(url, a, i);
    }
  }

  /** `except` clauses see every fault but a cancellation. */
  predicate Caught(f: Fault) { !f.Cancelled? }

  /** What becomes of a body: too long is noticed before its end is. */
  function BodyOutcome(chunks: seq<Bytes>, end: BodyEnd, maxBytes: int): Result<Bytes, Fault> {
    if chunks != [] && |Join(chunks)| > maxBytes then Err(SIZE_EXCEEDED)
    else match end
      case Whole => Ok(Join(chunks))
      case Broken(name) => Err(Exc(name))
      case Stopped => Err(Cancelled)
  }

  /** Which answer an attempt ends up reading, or the fault it meets before. */
  function Settled(a: Attempt, refreshes: nat, redirects: nat): Result<Stream, Fault>
    requires refreshes <= 1 && redirects <= 1
    decreases 2 - refreshes - redirects
  {
    var s := a.streams(refreshes + redirects);
    if s.OpenFault? then Err(s.fault)
    else if IsStale(s) && refreshes == 0 && redirects == 0 then
      if a.refreshed.Some? then Err(a.refreshed.value) else Settled(a, 1, 0)
    else if IsRedirect(s) && redirects == 0 then
      if IsHttps(s.location) then Settled(a, refreshes, 1) else Err(Status(s.status))
    else if IsSuccess(s.status) then Ok(s)
    else Err(Status(s.status))
  }

  /** An attempt reads, or fails with, what the last of its requests met. */
  lemma SettledAtLastStream(a: Attempt)
    ensures EndsAtLastStream(a, Hops(a), Settled(a, 0, 0))
  {
    if IsStale(a.streams(0)) && a.refreshed.None? {
      assert Settled(a, 0, 0) == Settled(a, 1, 0);
      if Followable(a.streams(1)) {
        assert Settled(a, 1, 0) == Settled(a, 1, 1);
      }
    } else if Followable(a.streams(0)) {
      assert Settled(a, 0, 0) == Settled(a, 0, 1);
    }
  }

  /** The bytes an attempt would save, or its fault. */
  function AttemptOutcome(a: Attempt, maxBytes: int): Result<Bytes, Fault> {
    if a.token.Some? then Err(a.token.value)
    else match Settled(a, 0, 0)
      case Err(f) => Err(f)
      case Ok(s) => if s.Answer? then BodyOutcome(s.chunks, s.end, maxBytes) else Err(Cancelled)
  }

  predicate TooLong(chunks: seq<Bytes>, maxBytes: int) { chunks != [] && |Join(chunks)| > maxBytes }

  /**
   * What an attempt comes to: the token's fault; the fault of the last request; a size error for a body
   * that outgrew the limit, however it went on; the fault that broke it off; or else all its bytes.
   */
  lemma AttemptAtLastStream(a: Attempt, maxBytes: int)
    ensures var last, settled, out := a.streams(Hops(a) - 1), Settled(a, 0, 0), AttemptOutcome(a, maxBytes);
      && EndsAtLastStream(a, Hops(a), settled)
      && if a.token.Some? then out == Err(a.token.value)
         else if settled.Err? then out == Err(settled.error)
         else if !last.Answer? then false
         else if TooLong(last.chunks, maxBytes) then out == Err(Status(599))
         else match last.end
           case Whole => out == Ok(Join(last.chunks))
           case Broken(name) => out == Err(Exc(name))
           case Stopped => out == Err(Cancelled)
  {
    hide Settled, Hops;
    SettledAtLastStream(a);
  }

  /** What a caller finds among the files after a download. */
  ghost predicate Settles(r: Download, before: map<nat, Bytes>, after: map<nat, Bytes>, maxBytes: int) {
    match r
    case Saved(file, size) =>
      file !in before && file in after && after - {file} == before && |after[file]| == size <= Max(maxBytes, 0)
    case Failed(f) => if Caught(f) then after == before else exists left :: after - {left} == before
  }

  lemma RetryableLeavesNothing(r: Download, before: map<nat, Bytes>, after: map<nat, Bytes>, maxBytes: int)
    requires Settles(r, before, after, maxBytes) && r.Failed? && IsRetryable(r.fault, DEFAULT_HTTP_RETRY_POLICY)
    ensures after == before
  {
  }

  /** What a download amounts to, read off the files. */
  function Delivered(r: Download, files: map<nat, Bytes>): Result<Bytes, Fault> {
    match r
    case Saved(file, _) => if file in files then Ok(files[file]) else Ok([])
    case Failed(f) => Err(f)
  }

  function AsOutcome(r: Result<Bytes, Fault>): Outcome {
    match r
    case Ok(bytes) => Return(|bytes|)
    case Err(f) => Raise(f)
  }

  function DownloadTries(attempts: nat -> Attempt, maxBytes: int): nat -> Outcome {
    (i: nat) => AsOutcome(AttemptOutcome(attempts(i), maxBytes))
  }

  class Downloader {
    var files: map<nat, Bytes>  // temporary files that exist
    var nextFile: nat
    var sent: seq<Sent>

    ghost predicate Valid()
      reads this
    {
      forall f :: f in files ==> f < nextFile
    }

    constructor ()
      ensures Valid() && files == map[] && sent == []
    {
      files, nextFile, sent := map[], 0, [];
    }

    /** Writes the body until it ends, breaks or grows past the limit; `cumulative` counts what was read. */
    method StreamBody(tmp: nat, chunks: seq<Bytes>, end: BodyEnd, maxBytes: int)
      returns (r: Result<nat, Fault>, cumulative: nat)
      requires Valid() && tmp in files
      modifies this`files
      ensures Valid()
      ensures r.Ok? ==> files == old(files)[tmp := Join(chunks)] && r.value == |Join(chunks)|
      ensures r.Ok? ==> BodyOutcome(chunks, end, maxBytes) == Ok(Join(chunks))
      ensures r.Err? ==> BodyOutcome(chunks, end, maxBytes) == Err(r.error)
      ensures r.Err? && r.error.Status? ==> r.error == SIZE_EXCEEDED && files == old(files) - {tmp}
      ensures r.Err? && !r.error.Status? ==> tmp in files && files - {tmp} == old(files) - {tmp}
    {
      files := files[tmp := []];
      cumulative := 0;
      for i := 0 to |chunks|
        invariant files == old(files)[tmp := Join(chunks[..i])]
        invariant cumulative == |Join(chunks[..i])|
        invariant i > 0 ==> cumulative <= maxBytes
      {
        assert chunks[..i + 1][..i] == chunks[..i];
        cumulative := cumulative + |chunks[i]|;
        if cumulative > maxBytes {
          files := files - {tmp};
          JoinGrows(chunks, i + 1);
          return Err(SIZE_EXCEEDED), cumulative;
        }
        files := files[tmp := files[tmp] + chunks[i]];
      }
      assert chunks[..|chunks|] == chunks;
      match end {
        case Whole => return Ok(cumulative), cumulative;
        case Broken(name) => return Err(Exc(name)), cumulative;
        case Stopped => return Err(Cancelled), cumulative;
      }
    }

    /**
     * The request loop of an attempt, up to an answer whose body is to be read. At most three
     * requests: a second one only after a stale token or a redirect, a third only after both, and
     * the bearer token only on those before the redirect.
     */
    method Fetch(url: string, a: Attempt) returns (r: Result<Stream, Fault>)
      modifies this`sent
      ensures old(sent) <= sent && var n := |sent| - |old(sent)|;
        && n == Hops(a) && sent == old(sent) + Requests(url, a, n) && Continues(a, n)
        && EndsAtLastStream(a, n, r)
        && r == Settled(a, 0, 0)
            && (r.Ok? ==> r.value == a.streams(n - 1) && r.value.Answer? && IsSuccess(r.value.status))
    {
      var target, authorized := url, true;
      var refreshes, redirects := 0, 0;
      while true
        invariant 0 <= refreshes <= 1 && 0 <= redirects <= 1
        invariant sent == old(sent) + Requests(url, a, refreshes + redirects)
        invariant Sent(target, authorized) == Request(url, a, refreshes + redirects)
        invariant refreshes == 1 ==> IsStale(a.streams(0)) && a.refreshed.None?
        invariant redirects == 1 ==> refreshes == 1 || !IsStale(a.streams(0))
        invariant redirects == 1 ==> Followable(a.streams(refreshes))
        invariant Settled(a, 0, 0) == Settled(a, refreshes, redirects)
        decreases 2 - refreshes - redirects
      {
        var stream := a.streams(refreshes + redirects);
        sent := sent + [Sent(target, authorized)];
        OneMoreRequest(url, a, refreshes + redirects);
        if stream.OpenFault? {
          return Err(stream.fault);
        }
        if stream.status == 401 && refreshes == 0 && redirects == 0 && stream.invalidToken {
          refreshes := refreshes + 1;
          if a.refreshed.Some? {
            return Err(a.refreshed.value);
          }
          authorized := true;
        } else if (stream.status == 302 || stream.status == 307) && redirects == 0 {
          if !IsHttps(stream.location) {
            return Err(Status(stream.status));
          }
          redirects := redirects + 1;
          target := stream.location;
          authorized := false;
        } else if !IsSuccess(stream.status) {
          return Err(Status(stream.status));
        } else {
          return Ok(stream);
        }
      }
    }

    /**
     * One attempt. On success exactly one new file exists, it holds the whole body of the last
     * answer, and its length is the reported size, within the limit; otherwise the attempt's own
     * fault is raised, and no file remains if it was caught; after a cancellation one file remains
     * exactly when the first token had been obtained.
     */
    method GetBytesInner(url: string, a: Attempt, maxBytes: int) returns (r: Download)
      requires Valid()
      modifies this
      ensures Valid()
      ensures old(sent) <= sent && var n := |sent| - |old(sent)|;
        && n == (if a.token.Some? then 0 else Hops(a))
        && sent == old(sent) + Requests(url, a, n) && Continues(a, n)
        && (r.Saved? ==>
            n > 0 && Delivers(a.streams(n - 1)) && r.file in files && files[r.file] == Join(a.streams(n - 1).chunks))
      ensures AttemptOutcome(a, maxBytes) == Delivered(r, files)
      ensures r.Saved? ==> r.file !in old(files) && r.file in files && r.size <= Max(maxBytes, 0)
      ensures r.Saved? ==> files - {r.file} == old(files) && |files[r.file]| == r.size
      ensures r.Failed? && Caught(r.fault) ==> files == old(files)
      ensures r.Failed? && !Caught(r.fault) ==> (files == old(files) <==> a.token.Some?)
      ensures r.Failed? ==> exists f :: files - {f} == old(files)
    {
      if a.token.Some? {
        assert files - {nextFile} == old(files);
        return Failed(a.token.value);
      }
      var tmp := nextFile;
      nextFile := nextFile + 1;
      files := files[tmp := []];
      assert files - {tmp} == old(files);
      var answer := Fetch(url, a);
      if answer.Err? {
        CleanUp(tmp, answer.error, 0);
        return Failed(answer.error);
      }
      var body, cumulative := StreamBody(tmp, answer.value.chunks, answer.value.end, maxBytes);
      if body.Err? {
        CleanUp(tmp, body.error, cumulative);
        return Failed(body.error);
      }
      return Saved(tmp, body.value);
    }

    /** The three `except` clauses: only a GraphAPIError after data was read is left to whoever raised it. */
    method CleanUp(tmp: nat, fault: Fault, cumulative: nat)
      requires Valid()
      modifies this`files
      ensures Valid()
      ensures files - {tmp} == old(files) - {tmp}
      ensures files == if Caught(fault) && (fault.Status? ==> cumulative == 0) then old(files) - {tmp} else old(files)
    {
      match fault {
        case Cancelled =>
        case Status(_) => if cumulative == 0 { files := files - {tmp}; }
        case _ => files := files - {tmp};
      }
    }

    /** One attempt, as the retry loop sees it. */
    method AttemptOnce(url: string, a: Attempt, maxBytes: int) returns (r: Download)
      requires Valid()
      modifies this
      ensures Valid() && Settles(r, old(files), files, maxBytes)
      ensures old(sent) <= sent && |sent| <= |old(sent)| + 3
      ensures BearerOnlyTo(sent[|old(sent)|..], url)
      ensures AttemptOutcome(a, maxBytes) == Delivered(r, files)
    {
      hide AttemptOutcome, Requests, BearerOnlyTo;
      r := GetBytesInner(url, a, maxBytes);
      ghost var n := |sent| - |old(sent)|;
      assert sent[|old(sent)|..] == Requests(url, a, n);
      BearerGoesToOriginal(url, a, n);
    }

    /** The retry loop around the attempts: it stops where the retry policy says. */
    method Attempted(url: string, attempts: nat -> Attempt, maxBytes: int) returns (r: Download)
      requires Valid()
      modifies this
      ensures Valid() && Settles(r, old(files), files, maxBytes)
      ensures old(sent) <= sent && |sent| <= |old(sent)| + 3 * DEFAULT_HTTP_RETRY_POLICY.maxAttempts
      ensures BearerOnlyTo(sent[|old(sent)|..], url)
      ensures var n := Attempts(DEFAULT_HTTP_RETRY_POLICY, DownloadTries(attempts, maxBytes));
        AttemptOutcome(attempts(n - 1), maxBytes) == Delivered(r, files)
    {
      hide AttemptOutcome, Settles, BearerOnlyTo, AttemptsFrom;
      ghost var tries := DownloadTries(attempts, maxBytes);
      var n := 1;
      r := AttemptOnce(url, attempts(0), maxBytes);
      while r.Failed? && IsRetryable(r.fault, DEFAULT_HTTP_RETRY_POLICY) && n < DEFAULT_HTTP_RETRY_POLICY.maxAttempts
        invariant Valid() && 1 <= n <= 3 && Settles(r, old(files), files, maxBytes)
        invariant old(sent) <= sent && |sent| <= |old(sent)| + 3 * n
        invariant BearerOnlyTo(sent[|old(sent)|..], url)
        invariant AttemptOutcome(attempts(n - 1), maxBytes) == Delivered(r, files)
        invariant Attempts(DEFAULT_HTTP_RETRY_POLICY, tries) == AttemptsFrom(DEFAULT_HTTP_RETRY_POLICY, tries, n)
        decreases 3 - n
      {
        ghost var before := sent;
        RetryableLeavesNothing(r, old(files), files, maxBytes);
        AttemptsStep(DEFAULT_HTTP_RETRY_POLICY, tries, n);
        r := AttemptOnce(url, attempts(n), maxBytes);
        assert sent[|old(sent)|..] == before[|old(sent)|..] + sent[|before|..];
        BearerAdds(before[|old(sent)|..], sent[|before|..], url);
        n := n + 1;
      }
      AttemptsStep(DEFAULT_HTTP_RETRY_POLICY, tries, n);
    }

    /**
     * `get_bytes`: the attempts behind the breaker, retried by the default policy. The answer is
     * that of the attempt the retry loop stops at, and the breaker takes its one update. On success
     * exactly one new file exists and holds that attempt's bytes; on a caught fault none, however
     * many attempts were made.
     */
    method GetBytes(breaker: CircuitBreaker, url: string, attempts: nat -> Attempt, maxBytes: int, arrive: real,
        finish: real)
      returns (r: Download)
      requires Valid()
      modifies this, breaker
      ensures Valid() && Settles(r, old(files), files, maxBytes)
      ensures old(sent) <= sent && |sent| <= |old(sent)| + 3 * DEFAULT_HTTP_RETRY_POLICY.maxAttempts
      ensures BearerOnlyTo(sent[|old(sent)|..], url)
      ensures var tries := DownloadTries(attempts, maxBytes);
        && breaker.State()
            == AfterGuarded(breaker.cfg, old(breaker.State()), DEFAULT_HTTP_RETRY_POLICY, tries, arrive, finish)
        && var last := Attempts(DEFAULT_HTTP_RETRY_POLICY, tries) - 1;
           if Judge(old(breaker.State()), arrive).Rejected? then sent == old(sent) && r == Failed(BreakerOpen)
           else AttemptOutcome(attempts(last), maxBytes) == Delivered(r, files)
    {
      hide AttemptOutcome;
      var v := breaker.Acquire(arrive);
      if v.Rejected? {
        return Failed(BreakerOpen);
      }
      r := Attempted(url, attempts, maxBytes);
      if r.Saved? {
        breaker.RecordSuccess();
      } else if IsAvailabilityFailure(r.fault, DEFAULT_HTTP_RETRY_POLICY) {
        breaker.RecordFailure(finish);
      }
      breaker.Release(v);
    }
  }
}
