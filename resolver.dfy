/** The session metadata resolver: a bounded retry loop over two remote reads,
    falling back to a cache of metadata seen earlier (ensureSessionMeta,
    js/wallet-app.js:119-154). */
module MetaResolver {
  import opened Wrappers
  import Text
  import Planner

  /** A remote read (`getRequest` or `getOffer`): its answer for a session id
      on a numbered attempt, None when it returned nothing or threw. */
  type Remote = (string, nat) -> Option<Planner.Meta>

  /** One `fetchOnce`: the preferred read, then the other read, then the cache. */
  function FetchOnce(sid: string, preferRequest: bool, getRequest: Remote, getOffer: Remote,
                     cached: Option<Planner.Meta>, n: nat): (r: Option<Planner.Meta>)
    ensures r.None? <==> getRequest(sid, n).None? && getOffer(sid, n).None? && cached.None?
    ensures preferRequest && getRequest(sid, n).Some? ==> r == getRequest(sid, n)
    ensures preferRequest && getRequest(sid, n).None? && getOffer(sid, n).Some? ==> r == getOffer(sid, n)
    ensures !preferRequest && getOffer(sid, n).Some? ==> r == getOffer(sid, n)
    ensures !preferRequest && getOffer(sid, n).None? && getRequest(sid, n).Some? ==> r == getRequest(sid, n)
    ensures getRequest(sid, n).None? && getOffer(sid, n).None? ==> r == cached
  {
    var first := if preferRequest then getRequest(sid, n) else getOffer(sid, n);
    var second := if preferRequest then getOffer(sid, n) else getRequest(sid, n);
    if first.Some? then first else if second.Some? then second else cached
  }

  /** The last attempt number the loop may reach: `retries`, or 0 when it is negative. */
  function LastAttempt(retries: int): nat {
    if retries < 0 then 0 else retries
  }

  /** The answer of the first attempt from `k` on, up to `last`, that found
      something; the answer of attempt `last` when none did. */
  function SearchFrom(sid: string, preferRequest: bool, getRequest: Remote, getOffer: Remote,
                      cached: Option<Planner.Meta>, k: nat, last: nat): Option<Planner.Meta>
    decreases last - k
  {
    var m := FetchOnce(sid, preferRequest, getRequest, getOffer, cached, k);
    if m.Some? || k >= last then m
    else SearchFrom(sid, preferRequest, getRequest, getOffer, cached, k + 1, last)
  }

  /** What ensureSessionMeta returns: nothing for a blank id, else the first
      attempt among 0 .. LastAttempt(retries) that found something. */
  function Resolved(id: string, preferRequest: bool, retries: int, getRequest: Remote, getOffer: Remote,
                    cache: map<string, Planner.Meta>): Option<Planner.Meta> {
    var sid := Text.Trim(id);
    if sid == "" then None
    else
      var cached := if sid in cache then Some(cache[sid]) else None;
      SearchFrom(sid, preferRequest, getRequest, getOffer, cached, 0, LastAttempt(retries))
  }

  /** The search yields the answer of the first attempt in range that found
      something, and nothing only when every attempt in range found nothing. */
  lemma {:induction false} SearchFromIsFirstHit(sid: string, preferRequest: bool, getRequest: Remote, getOffer: Remote,
                                                cached: Option<Planner.Meta>, k: nat, last: nat)
    requires k <= last
    ensures var r := SearchFrom(sid, preferRequest, getRequest, getOffer, cached, k, last);
      && (r.None? <==> forall j :: k <= j <= last ==> FetchOnce(sid, preferRequest, getRequest, getOffer, cached, j).None?)
      && (r.Some? ==> exists j :: k <= j <= last && r == FetchOnce(sid, preferRequest, getRequest, getOffer, cached, j)
                         && forall i :: k <= i < j ==> FetchOnce(sid, preferRequest, getRequest, getOffer, cached, i).None?)
    decreases last - k
  {
    var m := FetchOnce(sid, preferRequest, getRequest, getOffer, cached, k);
    if m.None? && k < last {
      SearchFromIsFirstHit(sid, preferRequest, getRequest, getOffer, cached, k + 1, last);
      var r := SearchFrom(sid, preferRequest, getRequest, getOffer, cached, k, last);
      if r.Some? {
        var j :| k + 1 <= j <= last && r == FetchOnce(sid, preferRequest, getRequest, getOffer, cached, j)
                 && forall i :: k + 1 <= i < j ==> FetchOnce(sid, preferRequest, getRequest, getOffer, cached, i).None?;
        assert forall i :: k <= i < j ==> FetchOnce(sid, preferRequest, getRequest, getOffer, cached, i).None?;
      }
    }
  }

  /** With metadata in the cache the first attempt always succeeds, so there
      is no retry; its answer is still the remote one when a read returns
      something (the preferred read first), and the cached one only when both
      reads are empty. */
  lemma CachedAnswersAtOnce(id: string, preferRequest: bool, retries: int, getRequest: Remote, getOffer: Remote,
                            cache: map<string, Planner.Meta>)
    requires Text.Trim(id) != "" && Text.Trim(id) in cache
    ensures var sid := Text.Trim(id);
      var r := Resolved(id, preferRequest, retries, getRequest, getOffer, cache);
      && r == FetchOnce(sid, preferRequest, getRequest, getOffer, Some(cache[sid]), 0)
      && (getRequest(sid, 0).None? && getOffer(sid, 0).None? ==> r == Some(cache[sid]))
      && (preferRequest && getRequest(sid, 0).Some? ==> r == getRequest(sid, 0))
      && (preferRequest && getRequest(sid, 0).None? && getOffer(sid, 0).Some? ==> r == getOffer(sid, 0))
      && (!preferRequest && getOffer(sid, 0).Some? ==> r == getOffer(sid, 0))
      && (!preferRequest && getOffer(sid, 0).None? && getRequest(sid, 0).Some? ==> r == getRequest(sid, 0))
  {
  }

  /** The cache of metadata by session id (`pendingMeta`). */
  class MetaCache {
    var pending: map<string, Planner.Meta>

    constructor ()
      ensures pending == map[]
    {
      pending := map[];
    }

    /** `pendingMeta.set(id, meta)`. */
    method Put(sid: string, meta: Planner.Meta)
      modifies this
      ensures pending == old(pending)[sid := meta]
    {
      pending := pending[sid := meta];
    }

    /** ensureSessionMeta: at most LastAttempt(retries) + 1 fetches, stopping at
        the first that finds something; a found answer is cached. */
    method EnsureSessionMeta(id: string, preferRequest: bool, retries: int, getRequest: Remote, getOffer: Remote)
      returns (r: Option<Planner.Meta>)
      modifies this
      ensures r == Resolved(id, preferRequest, retries, getRequest, getOffer, old(pending))
      ensures pending == if r.Some? then old(pending)[Text.Trim(id) := r.value] else old(pending)
    {
      var sid := Text.Trim(id);
      if sid == "" {
        return None;
      }
      var cached := if sid in pending then Some(pending[sid]) else None;
      var meta := FetchOnce(sid, preferRequest, getRequest, getOffer, cached, 0);
      var attempts := 0;
      while meta.None? && attempts < retries
        invariant 0 <= attempts <= LastAttempt(retries)
        invariant pending == old(pending)
        invariant meta == FetchOnce(sid, preferRequest, getRequest, getOffer, cached, attempts)
        invariant SearchFrom(sid, preferRequest, getRequest, getOffer, cached, 0, LastAttempt(retries))
               == SearchFrom(sid, preferRequest, getRequest, getOffer, cached, attempts, LastAttempt(retries))
        decreases retries - attempts
      {
        attempts := attempts + 1;
        meta := FetchOnce(sid, preferRequest, getRequest, getOffer, cached, attempts);
      }
      if meta.Some? {
        pending := pending[sid := meta.value];
      }
      r := meta;
    }
  }
}
