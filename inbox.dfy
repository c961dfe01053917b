/** The inbox of known sessions (js/wallet-app.js:277-369): an ordered list of
    entries keyed by session id, most recently touched first, at most twelve of
    them after an insertion, merged field by field on update and pruned by the
    time of their last activity. */
module Inbox {
  import opened Wrappers
  import Text
  import opened InboxStatus

  /** The number of entries an insertion truncates the list to. */
  const MaxEntries: nat := 12

  /** The default retention window of pruneInboxSessions: 24 hours in ms. */
  const DefaultTtlMs: int := 24 * 60 * 60 * 1000

  /** One known session. `completedAt` and `expiredAt` are None for null. */
  datatype Entry = Entry(
    id: string, intent: string, cardType: string, source: string, title: string,
    scenarioId: string, issuer: string, addedAt: int, updatedAt: int,
    completedAt: Option<int>, expiredAt: Option<int>, unread: bool,
    statusInfo: Option<StatusInfo>)

  /** The `data` argument of upsertInboxEntry; None stands for a field that is
      null or absent. `unread` is Some only when a boolean is given. */
  datatype Patch = Patch(
    intent: Option<string>, cardType: Option<string>, source: Option<string>,
    title: Option<string>, scenarioId: Option<string>, issuer: Option<string>,
    statusInfo: Option<StatusInfo>, completedAt: Option<int>, expiredAt: Option<int>,
    unread: Option<bool>)

  /** `(x || fallback).toString()` for an optional string. */
  function OrElse(x: Option<string>, fallback: string): string {
    if x.Some? && x.value != "" then x.value else fallback
  }

  /** The entry created for a session id seen for the first time. Completion
      and expiry of the patch are not taken over. */
  function NewEntry(key: string, p: Patch, now: int): Entry {
    Entry(key, OrElse(p.intent, ""), OrElse(p.cardType, ""), OrElse(p.source, "deeplink"),
          OrElse(p.title, ""), OrElse(p.scenarioId, ""), OrElse(p.issuer, ""),
          now, now, None, None, p.unread != Some(false), p.statusInfo)
  }

  /** The field-by-field update of an existing entry. */
  function Merge(e: Entry, p: Patch, now: int): Entry {
    e.(intent := p.intent.GetOr(e.intent),
       cardType := p.cardType.GetOr(e.cardType),
       source := p.source.GetOr(e.source),
       title := p.title.GetOr(e.title),
       scenarioId := p.scenarioId.GetOr(e.scenarioId),
       issuer := p.issuer.GetOr(e.issuer),
       statusInfo := if p.statusInfo.Some? then p.statusInfo else e.statusInfo,
       completedAt := if p.completedAt.Some? then p.completedAt else e.completedAt,
       expiredAt := if p.expiredAt.Some? then p.expiredAt else e.expiredAt,
       unread := p.unread.GetOr(e.unread),
       updatedAt := now)
  }

  // ---------------------------------------------------------------------------
  // List queries
  // ---------------------------------------------------------------------------

  /** `findIndex` by id: the first position holding `key`. */
  function IndexOf(s: seq<Entry>, key: string): (r: Option<nat>)
    ensures r.Some? ==> r.value < |s| && s[r.value].id == key
                        && forall j :: 0 <= j < r.value ==> s[j].id != key
    ensures r.None? ==> forall j :: 0 <= j < |s| ==> s[j].id != key
  {
    if s == [] then None
    else if s[0].id == key then Some(0)
    else match IndexOf(s[1..], key)
      case None => None
      case Some(i) => Some(i + 1)
  }

  predicate UniqueIds(s: seq<Entry>) {
    forall i, j :: 0 <= i < j < |s| ==> s[i].id != s[j].id
  }

  function Ids(s: seq<Entry>): seq<string> {
    seq(|s|, i requires 0 <= i < |s| => s[i].id)
  }

  /** The list bound every mutation keeps: ids unique, at most twelve entries. */
  predicate Bounded(s: seq<Entry>) {
    UniqueIds(s) && |s| <= MaxEntries
  }

  /** `filter((entry) => entry.id !== key)`. */
  function Without(s: seq<Entry>, key: string): (r: seq<Entry>)
    ensures |r| <= |s|
    ensures forall e :: e in r <==> e in s && e.id != key
  {
    if s == [] then [] else (if s[0].id == key then [] else [s[0]]) + Without(s[1..], key)
  }

  lemma {:induction false} WithoutConcat(a: seq<Entry>, b: seq<Entry>, key: string)
    ensures Without(a + b, key) == Without(a, key) + Without(b, key)
  {
    if a == [] {
      assert a + b == b;
    } else {
      assert (a + b)[1..] == a[1..] + b;
      WithoutConcat(a[1..], b, key);
    }
  }

  lemma {:induction false} WithoutAbsent(s: seq<Entry>, key: string)
    requires forall j :: 0 <= j < |s| ==> s[j].id != key
    ensures Without(s, key) == s
  {
    if s != [] {
      WithoutAbsent(s[1..], key);
    }
  }

  /** Removing an id keeps the list bounded. */
  lemma {:induction false} WithoutKeepsBounds(s: seq<Entry>, key: string)
    requires Bounded(s)
    ensures Bounded(Without(s, key))
  {
    if s != [] {
      WithoutKeepsBounds(s[1..], key);
      var t := Without(s[1..], key);
      forall e | e in t ensures e.id != s[0].id {
        var j :| 0 <= j < |s[1..]| && s[1..][j] == e;
        assert s[j + 1] == e;
      }
    }
  }

  // ---------------------------------------------------------------------------
  // upsertInboxEntry (js/wallet-app.js:301-344)
  // ---------------------------------------------------------------------------

  function Cap(s: seq<Entry>): seq<Entry> {
    if |s| > MaxEntries then s[..MaxEntries] else s
  }

  /** The list after upsertInboxEntry(key, p) at time `now`: an existing entry
      is merged and moved to the head, a new one is put at the head and the
      list is cut to twelve. */
  function Upserted(s: seq<Entry>, key: string, p: Patch, now: int): seq<Entry> {
    match IndexOf(s, key)
    case None => Cap([NewEntry(key, p, now)] + s)
    case Some(i) => [Merge(s[i], p, now)] + s[..i] + s[i + 1..]
  }

  /** The touched entry is at the head: the merged old entry, or a new one. */
  lemma UpsertedHead(s: seq<Entry>, key: string, p: Patch, now: int)
    ensures var r := Upserted(s, key, p, now);
      |r| > 0 && r[0].id == key
      && r[0] == (match IndexOf(s, key) case Some(i) => Merge(s[i], p, now) case None => NewEntry(key, p, now))
  {
  }

  /** A bounded list stays bounded: ids stay unique and the length stays at
      most twelve. */
  lemma UpsertedKeepsBounds(s: seq<Entry>, key: string, p: Patch, now: int)
    requires Bounded(s)
    ensures Bounded(Upserted(s, key, p, now))
  {
    var r := Upserted(s, key, p, now);
    match IndexOf(s, key)
    case None =>
      var t := [NewEntry(key, p, now)] + s;
      forall i, j | 0 <= i < j < |r| ensures r[i].id != r[j].id {
        assert r[i] == t[i] && r[j] == t[j];
        if i > 0 { assert t[i] == s[i - 1] && t[j] == s[j - 1]; }
      }
    case Some(k) =>
      var rest := s[..k] + s[k + 1..];
      assert r == [Merge(s[k], p, now)] + rest;
      forall i, j | 0 <= i < j < |r| ensures r[i].id != r[j].id {
        var si := if i - 1 < k then i - 1 else i;
        var sj := if j - 1 < k then j - 1 else j;
        if i == 0 {
          assert r[j] == s[sj] && sj != k;
        } else {
          assert r[i] == s[si] && r[j] == s[sj] && si < sj;
        }
      }
  }

  /** Touching an existing id keeps every other entry, in its relative order. */
  lemma UpsertedKeepsOthers(s: seq<Entry>, key: string, p: Patch, now: int)
    requires UniqueIds(s) && IndexOf(s, key).Some?
    ensures var r := Upserted(s, key, p, now);
      |r| == |s| && Without(r, key) == Without(s, key)
  {
    var k := IndexOf(s, key).value;
    var pre, post := s[..k], s[k + 1..];
    assert Upserted(s, key, p, now) == [Merge(s[k], p, now)] + (pre + post);
    WithoutAroundKey(s, k, key);
    WithoutHead(Merge(s[k], p, now), pre + post, key);
  }

  /** A head entry with the id is dropped by Without. */
  lemma WithoutHead(e: Entry, rest: seq<Entry>, key: string)
    requires e.id == key
    ensures Without([e] + rest, key) == Without(rest, key)
  {
    assert Without([e], key) == [];
    WithoutConcat([e], rest, key);
  }

  /** With unique ids, removing the id held at `k` leaves the entries before
      and after it. */
  lemma WithoutAroundKey(s: seq<Entry>, k: nat, key: string)
    requires UniqueIds(s) && k < |s| && s[k].id == key
    ensures var pre, post := s[..k], s[k + 1..];
      Without(s, key) == pre + post && Without(pre + post, key) == pre + post
  {
    var pre, post := s[..k], s[k + 1..];
    assert forall j :: 0 <= j < |pre| ==> pre[j].id != key by {
      forall j | 0 <= j < |pre| ensures pre[j].id != key {
        assert pre[j] == s[j];
      }
    }
    WithoutAbsent(pre, key);
    assert forall j :: 0 <= j < |post| ==> post[j].id != key by {
      forall j | 0 <= j < |post| ensures post[j].id != key {
        assert post[j] == s[k + 1 + j];
      }
    }
    WithoutAbsent(post, key);
    WithoutConcat(pre, post, key);
    SplitAt(s, k);
    WithoutHead(s[k], post, key);
    WithoutConcat(pre, [s[k]] + post, key);
  }

  lemma SplitAt<T>(s: seq<T>, k: nat)
    requires k < |s|
    ensures s == s[..k] + ([s[k]] + s[k + 1..])
  {
  }

  /** Inserting a new id on a full list evicts the tail entry and keeps the
      others in order behind the new head. */
  lemma UpsertedNewEvictsTail(s: seq<Entry>, key: string, p: Patch, now: int)
    requires IndexOf(s, key).None? && |s| == MaxEntries
    ensures var r := Upserted(s, key, p, now);
      |r| == MaxEntries && r[0] == NewEntry(key, p, now) && r[1..] == s[..MaxEntries - 1]
  {
  }

  /** The merge changes exactly the fields the patch gives a value for, and
      sets `updatedAt` to now; the id and `addedAt` are never changed. */
  lemma MergeOnlyGivenFields(e: Entry, p: Patch, now: int)
    ensures var m := Merge(e, p, now);
      && m.id == e.id && m.addedAt == e.addedAt && m.updatedAt == now
      && (p.intent.None? ==> m.intent == e.intent) && (p.intent.Some? ==> m.intent == p.intent.value)
      && (p.cardType.None? ==> m.cardType == e.cardType) && (p.cardType.Some? ==> m.cardType == p.cardType.value)
      && (p.source.None? ==> m.source == e.source) && (p.source.Some? ==> m.source == p.source.value)
      && (p.title.None? ==> m.title == e.title) && (p.title.Some? ==> m.title == p.title.value)
      && (p.scenarioId.None? ==> m.scenarioId == e.scenarioId) && (p.scenarioId.Some? ==> m.scenarioId == p.scenarioId.value)
      && (p.issuer.None? ==> m.issuer == e.issuer) && (p.issuer.Some? ==> m.issuer == p.issuer.value)
      && (p.statusInfo.None? ==> m.statusInfo == e.statusInfo) && (p.statusInfo.Some? ==> m.statusInfo == p.statusInfo)
      && (p.completedAt.None? ==> m.completedAt == e.completedAt) && (p.completedAt.Some? ==> m.completedAt == p.completedAt)
      && (p.expiredAt.None? ==> m.expiredAt == e.expiredAt) && (p.expiredAt.Some? ==> m.expiredAt == p.expiredAt)
      && (p.unread.None? ==> m.unread == e.unread) && (p.unread.Some? ==> m.unread == p.unread.value)
  {
  }

  /** Applying the same patch twice is the same as applying it once (at the
      later time). */
  lemma MergeIdempotent(e: Entry, p: Patch, t1: int, t2: int)
    ensures Merge(Merge(e, p, t1), p, t2) == Merge(e, p, t2)
  {
  }

  // ---------------------------------------------------------------------------
  // markInboxEntryRead (js/wallet-app.js:361-369)
  // ---------------------------------------------------------------------------

  /** The list after markInboxEntryRead(key): an unread entry with that id is
      marked read and its `updatedAt` set; nothing moves. */
  function MarkedRead(s: seq<Entry>, key: string, now: int): seq<Entry> {
    match IndexOf(s, key)
    case None => s
    case Some(i) => if !s[i].unread then s else s[i := s[i].(unread := false, updatedAt := now)]
  }

  /** Marking read keeps every id in place, so the list stays bounded, and the
      entry with that id is read afterwards. */
  lemma MarkedReadKeepsIds(s: seq<Entry>, key: string, now: int)
    ensures var r := MarkedRead(s, key, now);
      Ids(r) == Ids(s) && (Bounded(s) ==> Bounded(r))
      && (IndexOf(s, key).Some? ==> !r[IndexOf(s, key).value].unread)
  {
  }

  /** A second markInboxEntryRead of the same id changes nothing. */
  lemma MarkedReadIdempotent(s: seq<Entry>, key: string, t1: int, t2: int)
    ensures MarkedRead(MarkedRead(s, key, t1), key, t2) == MarkedRead(s, key, t1)
  {
    var r := MarkedRead(s, key, t1);
    match IndexOf(s, key)
    case None =>
    case Some(i) =>
      assert IndexOf(r, key) == Some(i) by {
        var k := IndexOf(r, key);
        assert r[i].id == key;
        if k.Some? { assert k.value >= i; }
      }
  }

  // ---------------------------------------------------------------------------
  // pruneInboxSessions (js/wallet-app.js:277-283)
  // ---------------------------------------------------------------------------

  /** `entry.completedAt || entry.updatedAt || entry.addedAt`; 0 when all are falsy. */
  function LastActivity(e: Entry): int {
    if Truthy(e.completedAt) then e.completedAt.value
    else if e.updatedAt != 0 then e.updatedAt
    else e.addedAt
  }

  /** `Date.now() - Math.max(0, ttlMs)`. */
  function Cutoff(now: int, ttlMs: int): int {
    now - (if ttlMs > 0 then ttlMs else 0)
  }

  /** The filter guard: no activity time at all, or one at or after the cutoff. */
  predicate Retains(e: Entry, cutoff: int) {
    LastActivity(e) == 0 || LastActivity(e) >= cutoff
  }

  /** The entries pruneInboxSessions keeps, in their original order. */
  function Retained(s: seq<Entry>, cutoff: int): (r: seq<Entry>)
    ensures |r| <= |s|
    ensures forall e :: e in r <==> e in s && Retains(e, cutoff)
  {
    if s == [] then [] else (if Retains(s[0], cutoff) then [s[0]] else []) + Retained(s[1..], cutoff)
  }

  /** Pruning works entry by entry: the order of what is kept is the order of
      the input. */
  lemma {:induction false} RetainedConcat(a: seq<Entry>, b: seq<Entry>, cutoff: int)
    ensures Retained(a + b, cutoff) == Retained(a, cutoff) + Retained(b, cutoff)
  {
    if a == [] {
      assert a + b == b;
    } else {
      assert (a + b)[1..] == a[1..] + b;
      RetainedConcat(a[1..], b, cutoff);
    }
  }

  /** A list whose every entry is recent enough is kept whole. */
  lemma {:induction false} RetainedAllRecent(s: seq<Entry>, cutoff: int)
    requires forall e :: e in s ==> Retains(e, cutoff)
    ensures Retained(s, cutoff) == s
  {
    if s != [] {
      RetainedAllRecent(s[1..], cutoff);
    }
  }

  /** Pruning twice with the same cutoff is pruning once. */
  lemma RetainedIdempotent(s: seq<Entry>, cutoff: int)
    ensures Retained(Retained(s, cutoff), cutoff) == Retained(s, cutoff)
  {
    RetainedAllRecent(Retained(s, cutoff), cutoff);
  }

  /** Pruning keeps a bounded list bounded. */
  lemma {:induction false} RetainedKeepsBounds(s: seq<Entry>, cutoff: int)
    requires Bounded(s)
    ensures Bounded(Retained(s, cutoff))
  {
    if s != [] {
      RetainedKeepsBounds(s[1..], cutoff);
      var t := Retained(s[1..], cutoff);
      forall e | e in t ensures e.id != s[0].id {
        var j :| 0 <= j < |s[1..]| && s[1..][j] == e;
        assert s[j + 1] == e;
      }
    }
  }

  /** The boundary of the retention window: an entry last active exactly at the
      cutoff is kept, one a millisecond earlier is removed (unless that time is
      0, which counts as no activity at all). */
  lemma PruneBoundary(e: Entry, now: int, ttlMs: int)
    ensures LastActivity(e) == Cutoff(now, ttlMs) ==> Retained([e], Cutoff(now, ttlMs)) == [e]
    ensures LastActivity(e) == Cutoff(now, ttlMs) - 1 != 0 ==> Retained([e], Cutoff(now, ttlMs)) == []
  {
    assert [e][1..] == [];
  }

  // ---------------------------------------------------------------------------
  // The list itself
  // ---------------------------------------------------------------------------

  /** The module-level `inboxSessions` array together with the functions that
      mutate it. Persistence, re-rendering and polling are left out. */
  class InboxList {
    var sessions: seq<Entry>

    /** The list as loaded from storage. */
    constructor (loaded: seq<Entry>)
      ensures sessions == loaded
    {
      sessions := loaded;
    }

    /** findInboxEntry: the first entry with the trimmed id; none for a blank id. */
    function Find(id: string): (r: Option<Entry>)
      reads this
      ensures var key := Text.Trim(id);
        && (r.Some? ==> key != "" && r.value in sessions && r.value.id == key)
        && (r.Some? ==> exists i :: 0 <= i < |sessions| && sessions[i] == r.value
                                    && forall j :: 0 <= j < i ==> sessions[j].id != key)
        && (r.None? ==> key == "" || forall e :: e in sessions ==> e.id != key)
    {
      var key := Text.Trim(id);
      if key == "" then None
      else match IndexOf(sessions, key)
        case None => None
        case Some(i) => Some(sessions[i])
    }

    /** upsertInboxEntry. Returns the touched entry, none for a blank id. */
    method Upsert(id: string, patch: Patch, now: int) returns (r: Option<Entry>)
      modifies this
      ensures var key := Text.Trim(id);
        if key == "" then r.None? && sessions == old(sessions)
        else sessions == Upserted(old(sessions), key, patch, now) && r == Some(sessions[0])
      ensures old(Bounded(sessions)) ==> Bounded(sessions)
    {
      var key := Text.Trim(id);
      if key == "" {
        return None;
      }
      ghost var before := sessions;
      match IndexOf(sessions, key)
      case None =>
        var entry := NewEntry(key, patch, now);
        sessions := [entry] + sessions;
        if |sessions| > MaxEntries {
          sessions := sessions[..MaxEntries];
        }
        r := Some(entry);
      case Some(i) =>
        var entry := Merge(sessions[i], patch, now);
        sessions := sessions[i := entry];
        if i > 0 {
          sessions := sessions[..i] + sessions[i + 1..];
          sessions := [entry] + sessions;
        }
        r := Some(entry);
        assert sessions == [entry] + before[..i] + before[i + 1..];
      if Bounded(before) {
        UpsertedKeepsBounds(before, key, patch, now);
      }
    }

    /** removeInboxEntry: drops every entry with the trimmed id. */
    method Remove(id: string)
      modifies this
      ensures var key := Text.Trim(id);
        sessions == if key == "" then old(sessions) else Without(old(sessions), key)
      ensures old(Bounded(sessions)) ==> Bounded(sessions)
    {
      var key := Text.Trim(id);
      if key == "" {
        return;
      }
      if Bounded(sessions) {
        WithoutKeepsBounds(sessions, key);
      }
      sessions := Without(sessions, key);
    }

    /** markInboxEntryRead. */
    method MarkRead(id: string, now: int)
      modifies this
      ensures var key := Text.Trim(id);
        sessions == if key == "" then old(sessions) else MarkedRead(old(sessions), key, now)
      ensures old(Bounded(sessions)) ==> Bounded(sessions)
    {
      var key := Text.Trim(id);
      if key == "" {
        return;
      }
      MarkedReadKeepsIds(sessions, key, now);
      match IndexOf(sessions, key)
      case None =>
      case Some(i) =>
        if !sessions[i].unread {
          return;
        }
        sessions := sessions[i := sessions[i].(unread := false, updatedAt := now)];
    }

    /** pruneInboxSessions with retention window `ttlMs` at time `now`. */
    method Prune(now: int, ttlMs: int := DefaultTtlMs)
      modifies this
      ensures sessions == Retained(old(sessions), Cutoff(now, ttlMs))
      ensures old(Bounded(sessions)) ==> Bounded(sessions)
    {
      var cutoff := Cutoff(now, ttlMs);
      if Bounded(sessions) {
        RetainedKeepsBounds(sessions, cutoff);
      }
      sessions := Retained(sessions, cutoff);
    }
  }
}
