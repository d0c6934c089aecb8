/**
 * Downloading in bedrock-launcher.py: each client (requests, then urllib as fallback)
 * makes up to `max_retries` attempts with exponential backoff, and the installer walks
 * its mirror list until one download succeeds.
 *
 * The network is a sequence of attempt outcomes, consumed one per attempt in the order
 * the attempts are made; an attempt beyond the end of the sequence fails.
 */
module Download {
  import opened Wrappers
  import opened Disk
  import opened Trace

  /** The outcome of one HTTP attempt: the file arrived with `size` bytes, or an exception. */
  datatype Fetch = Fetched(size: nat) | Failed

  type Network = seq<Fetch>

  /** `CONFIG["max_retries"]`. */
  const MAX_RETRIES: nat := 5

  /** The outcome of the attempt with global number `i`. */
  function AttemptAt(net: Network, i: nat): Fetch {
    if i < |net| then net[i] else Failed
  }

  /** The first successful attempt among the attempts numbered `lo` up to but excluding `hi`. */
  function FirstSuccess(net: Network, lo: nat, hi: nat): (r: Option<nat>)
    ensures r.Some? ==> lo <= r.value < hi && AttemptAt(net, r.value).Fetched?
    ensures r.Some? ==> forall j :: lo <= j < r.value ==> AttemptAt(net, j).Failed?
    ensures r.None? <==> forall j :: lo <= j < hi ==> AttemptAt(net, j).Failed?
    decreases hi - lo
  {
    if lo >= hi then None
    else if AttemptAt(net, lo).Fetched? then Some(lo)
    else FirstSuccess(net, lo + 1, hi)
  }

  function Pow2(n: nat): (r: nat)
    ensures r >= 1
  {
    if n == 0 then 1 else 2 * Pow2(n - 1)
  }

  /** The seconds slept after the first `n` failed attempts: `2 ** attempt` each. */
  function Backoff(n: nat): (s: seq<nat>)
    ensures |s| == n && forall a :: 0 <= a < n ==> s[a] == Pow2(a)
  {
    seq(n, a requires 0 <= a < n => Pow2(a))
  }

  function Sum(s: seq<nat>): nat {
    if s == [] then 0 else Sum(s[..|s| - 1]) + s[|s| - 1]
  }

  /** The backoff after `n` failed attempts adds up to `2 ** n - 1` seconds. */
  lemma {:induction false} BackoffTotal(n: nat)
    ensures Sum(Backoff(n)) == Pow2(n) - 1
  {
    if n > 0 {
      BackoffTotal(n - 1);
      assert Backoff(n)[..n - 1] == Backoff(n - 1);
    }
  }

  /** The result of one download routine or of `download_file`. */
  datatype Transfer = Transfer(
    got: Option<nat>,     // the size of the downloaded file, or None when the routine returned False
    next: nat)            // the number of the next attempt on the network

  /** What one download routine returns, given its first attempt number. */
  function Retry(maxRetries: nat, net: Network, start: nat): (t: Transfer)
  {
    match FirstSuccess(net, start, start + maxRetries)
    case Some(j) => Transfer(Some(AttemptAt(net, j).size), j + 1)
    case None => Transfer(None, start + maxRetries)
  }

  /**
   * A download routine makes at most `maxRetries` attempts, stops at the first that
   * succeeds, and fails only when every one of them failed.
   */
  lemma RetryBounds(maxRetries: nat, net: Network, start: nat)
    ensures var t := Retry(maxRetries, net, start);
      && start <= t.next <= start + maxRetries
      && (t.got.Some? ==> t.next > start && AttemptAt(net, t.next - 1) == Fetched(t.got.value))
      && (forall j :: start <= j < t.next - 1 ==> AttemptAt(net, j).Failed?)
      && (t.got.None? <==> forall j :: start <= j < start + maxRetries ==> AttemptAt(net, j).Failed?)
  {
  }

  /**
   * `download_with_requests` / `download_with_urllib`: the two routines run the same
   * attempt loop. Returns the routine's outcome and the seconds it slept between attempts.
   */
  method DownloadWithRetries(maxRetries: nat, net: Network, start: nat)
    returns (got: Option<nat>, next: nat, sleeps: seq<nat>)
    ensures Transfer(got, next) == Retry(maxRetries, net, start)
    ensures got.Some? ==> sleeps == Backoff(next - start - 1)
    ensures got.None? && maxRetries > 0 ==> sleeps == Backoff(maxRetries - 1)
    ensures got.None? && maxRetries == 0 ==> sleeps == []
  {
    sleeps := [];
    var attempt := 0;
    while attempt < maxRetries
      invariant 0 <= attempt <= maxRetries
      invariant FirstSuccess(net, start, start + attempt).None?
      invariant sleeps == Backoff(attempt)
      invariant maxRetries > 0 ==> attempt < maxRetries
    {
      var fetch := AttemptAt(net, start + attempt);
      if fetch.Fetched? {
        assert FirstSuccess(net, start, start + maxRetries) == Some(start + attempt);
        return Some(fetch.size), start + attempt + 1, sleeps;
      }
      if attempt < maxRetries - 1 {
        sleeps := sleeps + [Pow2(attempt)];
      } else {
        assert FirstSuccess(net, start, start + maxRetries).None?;
        return None, start + maxRetries, sleeps;
      }
      attempt := attempt + 1;
    }
    return None, start + maxRetries, sleeps;
  }

  /** The HTTP client an attempt loop runs with. */
  datatype Client = Requests | Urllib

  /**
   * `download_file`: the requests routine when the module is available, then the urllib
   * routine unless requests succeeded. `clients` lists the routines run, in order.
   */
  function Fallback(requestsAvailable: bool, net: Network, start: nat): (r: (Transfer, seq<Client>))
  {
    if requestsAvailable then
      var t := Retry(MAX_RETRIES, net, start);
      if t.got.Some? then (t, [Requests]) else (Retry(MAX_RETRIES, net, t.next), [Requests, Urllib])
    else (Retry(MAX_RETRIES, net, start), [Urllib])
  }

  /**
   * urllib runs exactly when requests is unavailable or its routine returned False; it
   * always runs last; a successful requests download is the result, and otherwise the
   * result is urllib's.
   */
  lemma FallbackClients(requestsAvailable: bool, net: Network, start: nat)
    ensures var (t, clients) := Fallback(requestsAvailable, net, start);
      var viaRequests := Retry(MAX_RETRIES, net, start);
      && (Urllib in clients <==> !requestsAvailable || viaRequests.got.None?)
      && (Requests in clients <==> requestsAvailable)
      && clients != [] && (Urllib in clients ==> clients[|clients| - 1] == Urllib)
      && (requestsAvailable && viaRequests.got.Some? ==> t == viaRequests)
      && (Urllib in clients ==> exists u :: start <= u && t == Retry(MAX_RETRIES, net, u))
  {
    var (t, clients) := Fallback(requestsAvailable, net, start);
    var viaRequests := Retry(MAX_RETRIES, net, start);
    if requestsAvailable && viaRequests.got.None? {
      RetryBounds(MAX_RETRIES, net, start);
      assert t == Retry(MAX_RETRIES, net, viaRequests.next);
    } else if !requestsAvailable {
      assert t == Retry(MAX_RETRIES, net, start);
    }
  }

  /** `download_file` as the launcher runs it: one or two attempt loops. */
  method DownloadFile(requestsAvailable: bool, net: Network, start: nat)
    returns (t: Transfer, clients: seq<Client>)
    ensures (t, clients) == Fallback(requestsAvailable, net, start)
  {
    var next := start;
    clients := [];
    if requestsAvailable {
      var got, after, _ := DownloadWithRetries(MAX_RETRIES, net, start);
      clients := [Requests];
      if got.Some? {
        return Transfer(got, after), clients;
      }
      next := after;
    }
    var got, after, _ := DownloadWithRetries(MAX_RETRIES, net, next);
    clients := clients + [Urllib];
    t := Transfer(got, after);
    assert t == Retry(MAX_RETRIES, net, next);
    if requestsAvailable {
      assert clients == [Requests, Urllib];
      assert Fallback(requestsAvailable, net, start).1 == [Requests, Urllib];
      assert Fallback(requestsAvailable, net, start).0 == Retry(MAX_RETRIES, net, next);
    } else {
      assert clients == [Urllib];
    }
  }

  /** What the mirror loop did: the URLs it tried, in order, and the final download. */
  datatype MirrorRun = MirrorRun(tried: seq<string>, got: Option<nat>, next: nat)

  /** The installer's `for mirror in mirrors: if download_file(mirror + zip_name): break`. */
  function Mirrors(mirrors: seq<string>, zipName: string, requestsAvailable: bool, net: Network, pos: nat)
    : MirrorRun
    decreases |mirrors|
  {
    if mirrors == [] then MirrorRun([], None, pos)
    else
      var (t, _) := Fallback(requestsAvailable, net, pos);
      if t.got.Some? then MirrorRun([mirrors[0] + zipName], t.got, t.next)
      else
        var rest := Mirrors(mirrors[1..], zipName, requestsAvailable, net, t.next);
        MirrorRun([mirrors[0] + zipName] + rest.tried, rest.got, rest.next)
  }

  /**
   * The URLs tried are the first mirrors, in order, each followed by the file name; the
   * loop fails only after trying every mirror, and a success comes from the last mirror
   * tried. Attempt numbers only move forward.
   */
  lemma {:induction false} MirrorsShape(mirrors: seq<string>, zipName: string, requestsAvailable: bool,
                                        net: Network, pos: nat)
    ensures var r := Mirrors(mirrors, zipName, requestsAvailable, net, pos);
      && |r.tried| <= |mirrors| && pos <= r.next
      && (forall i :: 0 <= i < |r.tried| ==> r.tried[i] == mirrors[i] + zipName)
      && (r.got.None? ==> |r.tried| == |mirrors|)
      && (r.got.Some? ==> |r.tried| >= 1)
    decreases |mirrors|
  {
    if mirrors != [] {
      var (t, _) := Fallback(requestsAvailable, net, pos);
      RetryBounds(MAX_RETRIES, net, pos);
      RetryBounds(MAX_RETRIES, net, Retry(MAX_RETRIES, net, pos).next);
      if t.got.None? {
        MirrorsShape(mirrors[1..], zipName, requestsAvailable, net, t.next);
      }
    }
  }

  /** One turn of the mirror loop, at mirror `i`. */
  lemma MirrorsStep(mirrors: seq<string>, i: nat, zipName: string, requestsAvailable: bool, net: Network, pos: nat)
    requires i < |mirrors|
    ensures var t := Fallback(requestsAvailable, net, pos).0;
      var rest := Mirrors(mirrors[i + 1..], zipName, requestsAvailable, net, t.next);
      Mirrors(mirrors[i..], zipName, requestsAvailable, net, pos) ==
        if t.got.Some? then MirrorRun([mirrors[i] + zipName], t.got, t.next)
        else MirrorRun([mirrors[i] + zipName] + rest.tried, rest.got, rest.next)
  {
    assert mirrors[i..][0] == mirrors[i] && mirrors[i..][1..] == mirrors[i + 1..];
  }

  /**
   * The installer's mirror loop (`for mirror in mirrors: if download_file(...): break`,
   * with `else: return False`): returns the size of the downloaded file or `None` when
   * every mirror failed, the number of the next download attempt, and one `Request` step
   * per URL tried.
   */
  method DownloadFromMirrors(mirrors: seq<string>, zipName: string, requestsAvailable: bool, net: Network, pos: nat)
    returns (got: Option<nat>, next: nat, trace: seq<Step>)
    ensures var run := Mirrors(mirrors, zipName, requestsAvailable, net, pos);
      got == run.got && next == run.next && trace == RequestSteps(run.tried)
  {
    ghost var tried: seq<string> := [];
    next := pos;
    trace := [];
    for i := 0 to |mirrors|
      invariant
        var rest := Mirrors(mirrors[i..], zipName, requestsAvailable, net, next);
        Mirrors(mirrors, zipName, requestsAvailable, net, pos) == MirrorRun(tried + rest.tried, rest.got, rest.next)
      invariant trace == RequestSteps(tried)
    {
      var url := mirrors[i] + zipName;
      MirrorsStep(mirrors, i, zipName, requestsAvailable, net, next);
      RequestStepsAppend(tried, url);
      trace := trace + [Request(url)];
      var t, _ := DownloadFile(requestsAvailable, net, next);
      if t.got.Some? {
        tried := tried + [url];
        return t.got, t.next, trace;
      }
      ghost var rest := Mirrors(mirrors[i + 1..], zipName, requestsAvailable, net, t.next);
      assert tried + ([url] + rest.tried) == (tried + [url]) + rest.tried;
      tried := tried + [url];
      next := t.next;
    }
    assert mirrors[|mirrors|..] == [];
    return None, next, trace;
  }

  /** A mirror after a successful one is never tried: extra mirrors change nothing. */
  lemma {:induction false} MirrorsStopAtSuccess(mirrors: seq<string>, more: seq<string>, zipName: string,
                                                requestsAvailable: bool, net: Network, pos: nat)
    requires Mirrors(mirrors, zipName, requestsAvailable, net, pos).got.Some?
    ensures Mirrors(mirrors + more, zipName, requestsAvailable, net, pos)
      == Mirrors(mirrors, zipName, requestsAvailable, net, pos)
    decreases |mirrors|
  {
    var (t, _) := Fallback(requestsAvailable, net, pos);
    assert (mirrors + more)[0] == mirrors[0];
    if t.got.None? {
      assert (mirrors + more)[1..] == mirrors[1..] + more;
      MirrorsStopAtSuccess(mirrors[1..], more, zipName, requestsAvailable, net, t.next);
    }
  }
}
