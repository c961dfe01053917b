/** The share flow: choosing the candidate cards for a request
    (launchShareFlow), the pending share with its per-card selections, the
    one-shot not-found report (renderShareView) and the confirm handler with
    its guards, js/wallet-app.js:155-180 and 1337-1566. Remote writes and the
    expiry notification are recorded in an event log. */
module ShareFlow {
  import opened Wrappers
  import Text
  import opened Planner
  import MetaResolver

  // ---------------------------------------------------------------------------
  // Candidate cards (launchShareFlow)
  // ---------------------------------------------------------------------------

  /** The cards whose canonical type is `reqType`, in wallet order: one card
      is kept exactly when it has that type, and `MatchingCardsConcat` says
      the cards are tried one by one, in order. */
  function MatchingCards(cards: seq<Card>, reqType: string): (r: seq<Card>)
    ensures |r| <= |cards|
    ensures forall c :: c in r <==> c in cards && Text.CanonicalType(c.cardType) == reqType
    ensures |cards| == 1 ==> r == (if Text.CanonicalType(cards[0].cardType) == reqType then cards else [])
    decreases |cards|
  {
    if cards == [] then []
    else
      var rest := MatchingCards(cards[1..], reqType);
      assert forall c :: c in cards <==> c == cards[0] || c in cards[1..];
      if Text.CanonicalType(cards[0].cardType) == reqType then [cards[0]] + rest else rest
  }

  /** Filtering keeps the wallet order: the matches of a concatenation are
      the matches of the first part followed by those of the second. */
  lemma {:induction false} MatchingCardsConcat(a: seq<Card>, b: seq<Card>, reqType: string)
    ensures MatchingCards(a + b, reqType) == MatchingCards(a, reqType) + MatchingCards(b, reqType)
    decreases |a|
  {
    if a == [] {
      assert a + b == b;
    } else {
      assert (a + b)[0] == a[0];
      assert (a + b)[1..] == a[1..] + b;
      MatchingCardsConcat(a[1..], b, reqType);
    }
  }

  /** The type the candidates are chosen by: the canonical type of the
      request, else the canonical root type of the session ("" when the
      session has none). */
  function RequestCardType(meta: Meta, rootType: Option<string>): (r: string)
    ensures Text.IsCanonical(r)
    ensures Text.CanonicalType(meta.cardType) != "" ==> r == Text.CanonicalType(meta.cardType)
    ensures Text.CanonicalType(meta.cardType) == "" ==> r == Text.CanonicalType(rootType.GetOr(""))
  {
    var t := Text.CanonicalType(meta.cardType);
    Text.CanonicalTypeShape(meta.cardType);
    Text.CanonicalTypeShape(rootType.GetOr(""));
    if t != "" then t else Text.CanonicalType(rootType.GetOr(""))
  }

  /** The candidate cards: the cards of the requested type, except that a
      wallet holding exactly one card offers it when no type is known and
      nothing matched. */
  function Candidates(cards: seq<Card>, reqType: string): seq<Card> {
    var matching := MatchingCards(cards, reqType);
    if reqType == "" && matching == [] && |cards| == 1 then [cards[0]] else matching
  }

  /** A card is a candidate exactly when its canonical type is the requested
      one, but for the single-card fallback. */
  lemma CandidatesExact(cards: seq<Card>, reqType: string)
    ensures var r := Candidates(cards, reqType);
      && (reqType != "" || |cards| != 1 || MatchingCards(cards, reqType) != [] ==>
            forall c :: c in r <==> c in cards && Text.CanonicalType(c.cardType) == reqType)
      && (reqType == "" && |cards| == 1 && MatchingCards(cards, reqType) == [] ==> r == cards)
      && (forall c :: c in r ==> c in cards)
  {
  }

  /** The fallback only fires for a lone card of a type that is not empty once
      canonical: with a known requested type, a card of another type is never
      a candidate. */
  lemma NoForeignCandidate(cards: seq<Card>, reqType: string, c: Card)
    requires reqType != "" && c in Candidates(cards, reqType)
    ensures Text.CanonicalType(c.cardType) == reqType
  {
  }

  // ---------------------------------------------------------------------------
  // What the flow writes
  // ---------------------------------------------------------------------------

  /** The record written with `setShared`. */
  datatype Shared =
    | SharedCard(cardType: string, issuer: string, payload: seq<Field>, version: int)
    | SharedError(error: string, requestedType: string, version: int)

  /** The record written with `setResponse`. */
  datatype Response =
    | OkResponse(cardType: string, issuer: string, payload: seq<Field>, selectedFields: seq<string>, version: int)
    | NotFoundResponse(requestedType: string, version: int)
  {
    function Outcome(): string {
      if OkResponse? then "ok" else "not_found"
    }
  }

  /** What the share flow does to or receives from the session backend. */
  datatype Event =
    | SetShared(sid: string, shared: Shared)
    | SetResponse(sid: string, response: Response)
    | MarkCompleted(sid: string)
    | ExpiryNotice

  /** `card.payload` restricted to the selected keys, in selection order. */
  function FilterPayload(payload: seq<Field>, selected: seq<string>): (r: seq<Field>)
    ensures forall k :: k in Keys(r) <==> k in selected && k in Keys(payload)
    ensures forall i :: 0 <= i < |r| ==> Lookup(payload, r[i].key) == Some(r[i].value)
    ensures |r| <= |selected|
    decreases |selected|
  {
    if selected == [] then []
    else
      var rest := FilterPayload(payload, selected[1..]);
      assert forall k :: k in selected <==> k == selected[0] || k in selected[1..];
      match Lookup(payload, selected[0])
      case None => rest
      case Some(v) =>
        KeysCons(Field(selected[0], v), rest);
        [Field(selected[0], v)] + rest
  }

  /** Putting one field in front of a payload puts its key in front of the
      payload's keys. */
  lemma KeysCons(f: Field, rest: seq<Field>)
    ensures Keys([f] + rest) == [f.key] + Keys(rest)
  {
    var a, b := Keys([f] + rest), [f.key] + Keys(rest);
    assert |a| == |b|;
    forall i | 0 <= i < |a|
      ensures a[i] == b[i]
    {
      if i > 0 {
        assert ([f] + rest)[i] == rest[i - 1];
      }
    }
  }

  /** When every selected key is in the payload, the shared payload has
      exactly the selected keys, in the same order. */
  lemma {:induction false} FilterPayloadKeys(payload: seq<Field>, selected: seq<string>)
    requires forall k :: k in selected ==> k in Keys(payload)
    ensures Keys(FilterPayload(payload, selected)) == selected
    decreases |selected|
  {
    if selected != [] {
      FilterPayloadKeys(payload, selected[1..]);
      var rest := FilterPayload(payload, selected[1..]);
      KeysCons(Field(selected[0], Lookup(payload, selected[0]).value), rest);
      assert selected == [selected[0]] + selected[1..];
    }
  }

  /** The requested type of a not-found report: the request's type upper-cased
      and trimmed, else the session's root type treated the same way. */
  function ReportedType(meta: Meta, rootType: Option<string>): (r: string)
    ensures r == Text.Trim(r)
    ensures Text.Trim(Text.Upper(meta.cardType)) != "" ==> r == Text.Trim(Text.Upper(meta.cardType))
    ensures Text.Trim(Text.Upper(meta.cardType)) == "" ==> r == Text.Trim(Text.Upper(rootType.GetOr("")))
  {
    var t := Text.Trim(Text.Upper(meta.cardType));
    Text.TrimIdempotent(Text.Upper(meta.cardType));
    if t != "" then t
    else if rootType.Some? then (Text.TrimIdempotent(Text.Upper(rootType.value)); Text.Trim(Text.Upper(rootType.value)))
    else ""
  }

  /** The report names the type the candidates were chosen by, before its
      runs of separators are collapsed: both come from the request's type,
      else from the session's root type. */
  lemma ReportedTypeIsRequestType(meta: Meta, rootType: Option<string>)
    ensures Text.CollapseSeparators(ReportedType(meta, rootType)) == RequestCardType(meta, rootType)
  {
    Text.TrimUpper(meta.cardType);
    Text.TrimUpper(rootType.GetOr(""));
  }

  /** The not-found report: an error record, a not-found response, and the
      session marked completed. */
  function NotFoundWrites(sid: string, requestedType: string): seq<Event> {
    [SetShared(sid, SharedError("not_found", requestedType, 1)),
     SetResponse(sid, NotFoundResponse(requestedType, 1)),
     MarkCompleted(sid)]
  }

  /** The writes of a confirmed share: the card's type and issuer with the
      payload restricted to the selection, the ok response that also lists
      the selected fields, and the session marked completed. */
  function ShareWrites(sid: string, card: Card, selected: seq<string>): seq<Event> {
    var p := FilterPayload(card.payload, selected);
    [SetShared(sid, SharedCard(card.cardType, card.issuer, p, 1)),
     SetResponse(sid, OkResponse(card.cardType, card.issuer, p, selected, 1)),
     MarkCompleted(sid)]
  }

  predicate IsNotFoundReport(e: Event) { e.SetShared? && e.shared.SharedError? }

  predicate IsCardShare(e: Event) { e.SetShared? && e.shared.SharedCard? }

  /** How many not-found reports the log holds. */
  function NotFoundCount(log: seq<Event>): nat {
    if log == [] then 0 else NotFoundCount(log[..|log| - 1]) + (if IsNotFoundReport(log[|log| - 1]) then 1 else 0)
  }

  lemma NotFoundCountSnoc(s: seq<Event>, e: Event)
    ensures NotFoundCount(s + [e]) == NotFoundCount(s) + (if IsNotFoundReport(e) then 1 else 0)
  {
    assert (s + [e])[..|s|] == s;
  }

  /** A log of three events counts each of them. */
  lemma NotFoundCountThree(e0: Event, e1: Event, e2: Event)
    ensures NotFoundCount([e0, e1, e2]) ==
      (if IsNotFoundReport(e0) then 1 else 0) + (if IsNotFoundReport(e1) then 1 else 0) + (if IsNotFoundReport(e2) then 1 else 0)
  {
    NotFoundCountSnoc([], e0);
    NotFoundCountSnoc([e0], e1);
    NotFoundCountSnoc([e0, e1], e2);
    assert [] + [e0] == [e0];
    assert [e0] + [e1] == [e0, e1];
    assert [e0, e1] + [e2] == [e0, e1, e2];
  }

  lemma {:induction false} NotFoundCountAppend(a: seq<Event>, b: seq<Event>)
    ensures NotFoundCount(a + b) == NotFoundCount(a) + NotFoundCount(b)
    decreases |b|
  {
    if b == [] {
      assert a + b == a;
    } else {
      assert (a + b)[..|a + b| - 1] == a + b[..|b| - 1];
      NotFoundCountAppend(a, b[..|b| - 1]);
    }
  }

  /** No card is shared after the expiry notice. */
  predicate NoShareAfterExpiry(log: seq<Event>) {
    forall i, j :: 0 <= i < j < |log| && log[i].ExpiryNotice? ==> !IsCardShare(log[j])
  }

  /** A shared card record is part of card `c`: same type and issuer, and
      each value is the card's value for that key. */
  predicate PartOf(shared: Shared, c: Card) {
    && shared.SharedCard?
    && c.cardType == shared.cardType && c.issuer == shared.issuer
    && forall i :: 0 <= i < |shared.payload| ==> Lookup(c.payload, shared.payload[i].key) == Some(shared.payload[i].value)
  }

  /** A shared card record, if `e` is one, is a non-empty part of a candidate. */
  predicate FromCandidate(e: Event, candidates: seq<Card>) {
    IsCardShare(e) ==> e.shared.payload != [] && exists c :: c in candidates && PartOf(e.shared, c)
  }

  /** Every shared card record is a non-empty part of a candidate card. */
  predicate SharesFromCandidates(log: seq<Event>, candidates: seq<Card>) {
    forall e :: e in log ==> FromCandidate(e, candidates)
  }

  /** The log invariants distribute over appending. */
  lemma LogAppend(a: seq<Event>, b: seq<Event>, candidates: seq<Card>)
    ensures NotFoundCount(a + b) == NotFoundCount(a) + NotFoundCount(b)
    ensures SharesFromCandidates(a, candidates) && SharesFromCandidates(b, candidates) ==> SharesFromCandidates(a + b, candidates)
    ensures NoShareAfterExpiry(a) && NoShareAfterExpiry(b) && (ExpiryNotice in a ==> forall e :: e in b ==> !IsCardShare(e))
            ==> NoShareAfterExpiry(a + b)
    ensures ExpiryNotice in a + b <==> ExpiryNotice in a || ExpiryNotice in b
  {
    NotFoundCountAppend(a, b);
    if NoShareAfterExpiry(a) && NoShareAfterExpiry(b) && (ExpiryNotice in a ==> forall e :: e in b ==> !IsCardShare(e)) {
      forall i, j | 0 <= i < j < |a + b| && (a + b)[i].ExpiryNotice?
        ensures !IsCardShare((a + b)[j])
      {
        if j >= |a| {
          if i < |a| {
            assert a[i] == ExpiryNotice;
            assert (a + b)[j] in b;
          } else {
            assert b[i - |a|] == (a + b)[i] && b[j - |a|] == (a + b)[j];
          }
        }
      }
    }
  }

  /** The not-found report counts once, holds no card and no expiry. */
  lemma NotFoundWritesFacts(sid: string, t: string, candidates: seq<Card>)
    ensures var w := NotFoundWrites(sid, t);
      NotFoundCount(w) == 1 && SharesFromCandidates(w, candidates) && NoShareAfterExpiry(w) && ExpiryNotice !in w
  {
    var w := NotFoundWrites(sid, t);
    NotFoundCountThree(w[0], w[1], w[2]);
  }

  /** A confirmed share is a non-empty part of the card and counts no report. */
  lemma ShareWritesFacts(sid: string, card: Card, selected: seq<string>, candidates: seq<Card>)
    requires card in candidates && selected != []
    requires forall k :: k in selected ==> k in Keys(card.payload)
    ensures var w := ShareWrites(sid, card, selected);
      NotFoundCount(w) == 0 && SharesFromCandidates(w, candidates) && NoShareAfterExpiry(w) && ExpiryNotice !in w
      && IsCardShare(w[0])
  {
    var w := ShareWrites(sid, card, selected);
    FilterPayloadKeys(card.payload, selected);
    NotFoundCountThree(w[0], w[1], w[2]);
    assert PartOf(w[0].shared, card);
  }

  /** The expiry notice alone. */
  lemma ExpiryFacts(candidates: seq<Card>)
    ensures NotFoundCount([ExpiryNotice]) == 0 && SharesFromCandidates([ExpiryNotice], candidates)
    ensures NoShareAfterExpiry([ExpiryNotice])
  {
    assert [ExpiryNotice][..0] == [];
  }

  // ---------------------------------------------------------------------------
  // The pending share
  // ---------------------------------------------------------------------------

  /** The message the share view shows under the card. */
  datatype Notice = NoNotice | ExpiredNotice | SelectAtLeastOne | MissingRequired(fields: seq<string>)

  /** What the plan of a card is built from: the UI schemas and the attribute
      table with its configurations. */
  datatype Env = Env(ui: map<string, Schema>, byKey: map<TableKey, Attrs>, configs: seq<ScenarioConfig>)

  function PlanFor(env: Env, card: Card, meta: Meta): Plan {
    BuildAttributePlan(card, meta, env.ui, env.byKey, env.configs)
  }

  /** The key of a card's stored selection: the card id, else one made from
      the share id, the plan type and the order length. */
  function SelectionKey(shareId: string, card: Card, plan: Plan): string {
    if card.id != "" then card.id
    else (if shareId != "" then shareId else "share") + "-" + (if plan.planType != "" then plan.planType else "generic")
         + "-" + Text.NatToString(|plan.order|)
  }

  function Stored(m: map<string, seq<string>>, key: string): Option<seq<string>> {
    if key in m then Some(m[key]) else None
  }

  /** `Array.from(required).filter(key => !available.includes(key))`, where
      the available keys are those of `order` that the payload has. */
  function MissingFrom(required: seq<string>, order: seq<string>, keys: seq<string>): seq<string>
    decreases |required|
  {
    if required == [] then []
    else (if required[0] in order && required[0] in keys then [] else [required[0]]) + MissingFrom(required[1..], order, keys)
  }

  lemma {:induction false} MissingFromSpec(required: seq<string>, order: seq<string>, keys: seq<string>)
    ensures forall k :: k in MissingFrom(required, order, keys) <==> k in required && !(k in order && k in keys)
    ensures MissingFrom(required, order, keys) == [] <==> forall k :: k in required ==> k in order && k in keys
    decreases |required|
  {
    if required != [] {
      MissingFromSpec(required[1..], order, keys);
      assert forall k :: k in required <==> k == required[0] || k in required[1..];
    }
  }

  /** The required fields of the plan the card cannot show, in plan order. */
  function Missing(plan: Plan, card: Card): seq<string> {
    MissingFrom(plan.required, plan.order, Keys(card.payload))
  }

  /** On the card's own plan, the missing fields are exactly the required
      fields the payload lacks; so nothing is missing when no attributes are
      declared for the card. */
  lemma MissingIsAbsentRequired(env: Env, card: Card, meta: Meta)
    ensures var plan := PlanFor(env, card, meta);
      forall k :: k in Missing(plan, card) <==> k in plan.required && k !in Keys(card.payload)
    ensures ResolveAttributes(env.byKey, env.configs, meta, Text.CanonicalType(card.cardType)).None?
            ==> Missing(PlanFor(env, card, meta), card) == []
  {
    var plan := PlanFor(env, card, meta);
    PlanOrder(card, meta, env.ui, env.byKey, env.configs);
    MissingFromSpec(plan.required, plan.order, Keys(card.payload));
    if ResolveAttributes(env.byKey, env.configs, meta, Text.CanonicalType(card.cardType)).None? {
      PlanWithoutDeclarationRequiresAll(card, meta, env.ui, env.byKey, env.configs);
    }
  }

  /** `selection.has(key) ? delete : add`. */
  function Toggle(sel: seq<string>, key: string): (r: seq<string>)
    ensures forall y :: y != key ==> (y in r <==> y in sel)
    ensures key in r <==> key !in sel
    ensures Distinct(sel) ==> Distinct(r)
  {
    if key in sel then SetDelete(sel, key) else SetAdd(sel, key)
  }

  /** Toggling twice gives back the same set of fields. */
  lemma ToggleTwice(sel: seq<string>, key: string)
    ensures forall y :: y in Toggle(Toggle(sel, key), key) <==> y in sel
  {
  }

  /** Every stored selection is a set. */
  predicate AllDistinct(m: map<string, seq<string>>) {
    forall k :: k in m ==> Distinct(m[k])
  }

  lemma AllDistinctUpdate(m: map<string, seq<string>>, key: string, v: seq<string>)
    requires AllDistinct(m) && Distinct(v)
    ensures AllDistinct(m[key := v])
  {
  }

  /** `pendingShare`: the session being answered, its candidate cards, the
      state of the view and the log of what was sent. */
  class PendingShare {
    const id: string
    const meta: Meta
    const candidates: seq<Card>
    /** buildAttributePlan(card, meta) over the wallet's configuration, fixed
        when the flow starts. */
    const planOf: Card -> Plan
    var selectedIndex: int
    var fieldSelections: map<string, seq<string>>
    var selectedFields: seq<string>
    var expired: bool                 // `_expired`
    var reported: bool                // `_reported`
    var enabled: bool                 // whether the confirm button can be clicked
    var awaitingPin: bool             // the confirm handler waits for the PIN
    var notice: Notice
    var log: seq<Event>

    predicate SelectionsDistinct()
      reads this`fieldSelections
    {
      AllDistinct(fieldSelections)
    }

    /** The log matches the flags: the not-found report was sent once if
        `reported` is set and never otherwise, and only without candidates;
        the expiry was noticed exactly when `expired` is set; every shared
        card is part of a candidate. */
    predicate LogValid()
      reads this`log, this`reported, this`expired
    {
      && NotFoundCount(log) == (if reported then 1 else 0)
      && (reported ==> candidates == [])
      && (expired <==> ExpiryNotice in log)
      && SharesFromCandidates(log, candidates)
    }

    /** The index points at a candidate, and confirming needs one. */
    predicate ViewValid()
      reads this`selectedIndex, this`enabled, this`awaitingPin
    {
      && (candidates != [] ==> 0 <= selectedIndex < |candidates|)
      && (enabled || awaitingPin ==> candidates != [])
    }

    /** The invariant of the flow. */
    predicate Valid()
      reads this`fieldSelections, this`log, this`reported, this`expired, this`selectedIndex, this`enabled, this`awaitingPin
    {
      SelectionsDistinct() && LogValid() && ViewValid()
    }

    /** Nothing is shared once the session has expired. */
    predicate Safe()
      reads this`log
    {
      NoShareAfterExpiry(log)
    }

    constructor (sid: string, m: Meta, cs: seq<Card>, plans: Card -> Plan)
      ensures id == sid && meta == m && candidates == cs && planOf == plans
      ensures selectedIndex == 0 && fieldSelections == map[] && selectedFields == []
      ensures !expired && !reported && !enabled && !awaitingPin && notice == NoNotice && log == []
      ensures Valid() && Safe()
    {
      id, meta, candidates, planOf := sid, m, cs, plans;
      selectedIndex := 0;
      fieldSelections := map[];
      selectedFields := [];
      expired, reported, enabled, awaitingPin := false, false, false, false;
      notice := NoNotice;
      log := [];
    }

    /** ensureSelectionForCard: finds or creates the card's selection, adds the
        required payload fields and removes the fields the payload lacks, in
        place. */
    method EnsureSelection(card: Card, plan: Plan) returns (sel: seq<string>)
      requires SelectionsDistinct()
      modifies this`fieldSelections
      ensures var key := SelectionKey(id, card, plan);
        && sel == SelectionAfter(Stored(old(fieldSelections), key), plan, Keys(card.payload))
        && fieldSelections == old(fieldSelections)[key := sel]
      ensures Distinct(sel) && SelectionsDistinct()
    {
      var key := SelectionKey(id, card, plan);
      var keys := Keys(card.payload);
      var stored := Stored(fieldSelections, key);
      var start: seq<string>;
      if key in fieldSelections {
        start := fieldSelections[key];
        assert Distinct(start);
      } else {
        start := AddEach([], plan.order, plan.required, plan.required == [] && plan.optional == [], keys);
        fieldSelections := fieldSelections[key := start];
      }
      assert start == if stored.Some? then stored.value else InitialSelection(plan, keys);
      var cur := AddEach(start, plan.order, plan.required, false, keys);
      sel := DeleteAbsent(cur, keys);
      assert sel == SelectionAfter(stored, plan, keys);
      AllDistinctUpdate(old(fieldSelections), key, sel);
      fieldSelections := fieldSelections[key := sel];
      assert fieldSelections == old(fieldSelections)[key := sel];
    }

    /** The view shows the selected candidate: its selection as
        ensureSelectionForCard leaves it, starting from the selections
        `before`, and the button state and message that go with it. */
    predicate ShowsSelected(before: map<string, seq<string>>)
      reads this
    {
      0 <= selectedIndex < |candidates| &&
      var card := candidates[selectedIndex];
      var plan := planOf(card);
      var key := SelectionKey(id, card, plan);
      var missing := Missing(plan, card);
      && selectedFields == SelectionAfter(Stored(before, key), plan, Keys(card.payload))
      && fieldSelections == before[key := selectedFields]
      && enabled == (missing == [] && !expired)
      && notice == (if expired then ExpiredNotice else if missing != [] then MissingRequired(missing) else NoNotice)
    }

    /** The button state and message for a card with the `missing` required
        fields: the button stays disabled when something is missing, and the
        expiry message wins over the missing fields. */
    method ShowNotice(missing: seq<string>)
      modifies this`notice, this`enabled
      ensures enabled == (missing == [] && !expired)
      ensures notice == (if expired then ExpiredNotice else if missing != [] then MissingRequired(missing) else NoNotice)
    {
      if missing != [] {
        notice := MissingRequired(missing);
        enabled := false;
      } else if !expired {
        notice := NoNotice;
        enabled := true;
      }
      if expired {
        notice := ExpiredNotice;
        enabled := false;
      }
    }

    /** renderSelected: shows the selected candidate with its selection. */
    method RenderSelected()
      requires Valid() && candidates != []
      modifies this`fieldSelections, this`selectedFields, this`notice, this`enabled
      ensures Valid() && ShowsSelected(old(fieldSelections))
    {
      var card := candidates[selectedIndex];
      var plan := planOf(card);
      var sel := EnsureSelection(card, plan);
      selectedFields := sel;
      ShowNotice(Missing(plan, card));
    }

    /** renderShareView: without candidates, hides the button and sends the
        not-found report unless it was sent before; otherwise shows the
        selected candidate. */
    method Render(rootType: Option<string>)
      requires Valid()
      modifies this`selectedIndex, this`fieldSelections, this`selectedFields, this`notice, this`enabled, this`reported, this`log
      ensures Valid() && (old(Safe()) ==> Safe())
      ensures candidates == [] ==>
        && !enabled && notice == NoNotice && reported
        && log == old(log) + (if old(reported) then [] else NotFoundWrites(id, ReportedType(meta, rootType)))
        && fieldSelections == old(fieldSelections) && selectedFields == old(selectedFields)
      ensures candidates != [] ==>
        && ShowsSelected(old(fieldSelections))
        && reported == old(reported) && log == old(log) && selectedIndex == old(selectedIndex)
    {
      enabled := true;
      notice := NoNotice;
      if candidates == [] {
        enabled := false;
        ReportNotFound(rootType);
        return;
      }
      selectedIndex := if 0 <= selectedIndex < |candidates| then selectedIndex else 0;
      RenderSelected();
    }

    /** The not-found report of a view without candidates, sent once. */
    method ReportNotFound(rootType: Option<string>)
      requires Valid() && candidates == []
      modifies this`reported, this`log
      ensures Valid() && (old(Safe()) ==> Safe()) && reported
      ensures log == old(log) + (if old(reported) then [] else NotFoundWrites(id, ReportedType(meta, rootType)))
    {
      if !reported {
        reported := true;
        var w := NotFoundWrites(id, ReportedType(meta, rootType));
        NotFoundWritesFacts(id, ReportedType(meta, rootType), candidates);
        LogAppend(log, w, candidates);
        log := log + w;
      }
    }

    /** A click on a field row that is neither required nor expired: flips the
        field in the card's selection and shows the card again. The share view
        takes no clicks while the PIN dialog is open. */
    method ToggleField(key: string)
      requires Valid()
      modifies this`fieldSelections, this`selectedFields, this`notice, this`enabled
      ensures Valid() && log == old(log)
      ensures var on := !awaitingPin && candidates != [] && !expired;
        var card := if on then candidates[selectedIndex] else Card("", "", "", 0, 0, []);
        var plan := planOf(card);
        var sk := SelectionKey(id, card, plan);
        if on && sk in old(fieldSelections) && key !in plan.required && key in plan.order && key in Keys(card.payload)
        then ShowsSelected(old(fieldSelections)[sk := Toggle(old(fieldSelections)[sk], key)])
        else fieldSelections == old(fieldSelections) && selectedFields == old(selectedFields)
             && notice == old(notice) && enabled == old(enabled)
    {
      if awaitingPin || candidates == [] || expired {
        return;
      }
      var card := candidates[selectedIndex];
      var plan := planOf(card);
      var sk := SelectionKey(id, card, plan);
      if sk !in fieldSelections || key in plan.required || !(key in plan.order && key in Keys(card.payload)) {
        return;
      }
      var toggled := Toggle(fieldSelections[sk], key);
      AllDistinctUpdate(fieldSelections, sk, toggled);
      fieldSelections := fieldSelections[sk := toggled];
      RenderSelected();
    }

    /** A change of the card choice: selects candidate `i` and shows it. */
    method SelectCard(i: int)
      requires Valid()
      modifies this`selectedIndex, this`fieldSelections, this`selectedFields, this`notice, this`enabled
      ensures Valid() && log == old(log)
      ensures if !old(awaitingPin) && 0 <= i < |candidates|
              then selectedIndex == i && ShowsSelected(old(fieldSelections))
              else selectedIndex == old(selectedIndex) && fieldSelections == old(fieldSelections)
                   && selectedFields == old(selectedFields) && notice == old(notice) && enabled == old(enabled)
    {
      if awaitingPin || !(0 <= i < |candidates|) {
        return;
      }
      selectedIndex := i;
      RenderSelected();
    }

    /** The first half of the confirm handler, up to the PIN dialog: an
        expired request is refused; otherwise the button is disabled and the
        PIN is asked. A disabled button takes no clicks. */
    method BeginConfirm()
      requires Valid()
      modifies this`notice, this`enabled, this`awaitingPin
      ensures Valid() && log == old(log)
      ensures if old(enabled) && !old(awaitingPin) then
                !enabled && (awaitingPin <==> !expired) && (expired ==> notice == ExpiredNotice)
                && (!expired ==> notice == old(notice))
              else enabled == old(enabled) && awaitingPin == old(awaitingPin) && notice == old(notice)
    {
      if !enabled || awaitingPin {
        return;
      }
      if expired {
        notice := ExpiredNotice;
        enabled := false;
        return;
      }
      enabled := false;
      awaitingPin := true;
    }

    /** The second half of the confirm handler once the PIN dialog closes,
        with the expiry checked again: a cancelled dialog re-enables the
        button; an expired request is refused; an empty selection blocks the
        writes; otherwise the selected part of the card is shared. */
    method OnPinResult(ok: bool)
      requires Valid()
      modifies this`enabled, this`awaitingPin, this`notice, this`fieldSelections, this`log
      ensures Valid() && (old(Safe()) ==> Safe())
      ensures !awaitingPin
      ensures old(awaitingPin) && ok && !expired ==>
        var card := candidates[selectedIndex];
        var plan := planOf(card);
        var sel := SelectionAfter(Stored(old(fieldSelections), SelectionKey(id, card, plan)), plan, Keys(card.payload));
        && fieldSelections == old(fieldSelections)[SelectionKey(id, card, plan) := sel]
        && log == old(log) + (if sel == [] then [] else ShareWrites(id, card, sel))
        && (sel == [] ==> notice == SelectAtLeastOne && enabled)
      ensures !(old(awaitingPin) && ok && !expired) ==> log == old(log) && fieldSelections == old(fieldSelections)
      ensures old(awaitingPin) && !ok ==> enabled
      ensures old(awaitingPin) && ok && expired ==> notice == ExpiredNotice && !enabled
    {
      if !awaitingPin {
        return;
      }
      awaitingPin := false;
      if !ok {
        enabled := true;
        return;
      }
      if expired {
        notice := ExpiredNotice;
        enabled := false;
        return;
      }
      ShareCard();
    }

    /** The second half of the confirm handler as the wallet has it: the
        expiry flag is not looked at again after the PIN dialog. */
    method OnPinResultAsWritten(ok: bool)
      requires Valid()
      modifies this`enabled, this`awaitingPin, this`notice, this`fieldSelections, this`log
      ensures Valid() && !awaitingPin
      ensures old(awaitingPin) && ok ==>
        var card := candidates[selectedIndex];
        var plan := planOf(card);
        var sel := SelectionAfter(Stored(old(fieldSelections), SelectionKey(id, card, plan)), plan, Keys(card.payload));
        && fieldSelections == old(fieldSelections)[SelectionKey(id, card, plan) := sel]
        && log == old(log) + (if sel == [] then [] else ShareWrites(id, card, sel))
      ensures !(old(awaitingPin) && ok) ==> log == old(log) && fieldSelections == old(fieldSelections)
    {
      if !awaitingPin {
        return;
      }
      awaitingPin := false;
      if !ok {
        enabled := true;
        return;
      }
      ShareCard();
    }

    /** The writes of the confirm handler: the selection of the chosen card
        is brought up to date; an empty one blocks the writes. */
    method ShareCard()
      requires Valid() && candidates != [] && !awaitingPin
      modifies this`enabled, this`notice, this`fieldSelections, this`log
      ensures Valid()
      ensures !expired && old(Safe()) ==> Safe()
      ensures var card := candidates[selectedIndex];
        var plan := planOf(card);
        var sel := SelectionAfter(Stored(old(fieldSelections), SelectionKey(id, card, plan)), plan, Keys(card.payload));
        && fieldSelections == old(fieldSelections)[SelectionKey(id, card, plan) := sel]
        && log == old(log) + (if sel == [] then [] else ShareWrites(id, card, sel))
        && (sel == [] ==> notice == SelectAtLeastOne && enabled)
        && (sel != [] ==> notice == old(notice) && enabled == old(enabled))
    {
      var card := candidates[selectedIndex];
      var plan := planOf(card);
      var sel := EnsureSelection(card, plan);
      if sel == [] {
        notice := SelectAtLeastOne;
        enabled := true;
        return;
      }
      SelectionBounds(Stored(old(fieldSelections), SelectionKey(id, card, plan)), plan, Keys(card.payload));
      var w := ShareWrites(id, card, sel);
      ShareWritesFacts(id, card, sel, candidates);
      LogAppend(log, w, candidates);
      log := log + w;
    }

    /** The expiry callback: marks the request expired (once), disables the
        button and shows the selected candidate again. It is only subscribed
        when there are candidates. */
    method OnExpired()
      requires Valid()
      modifies this`expired, this`enabled, this`notice, this`log, this`fieldSelections, this`selectedFields
      ensures Valid() && (old(Safe()) ==> Safe())
      ensures if candidates != [] && !old(expired)
              then expired && !enabled && notice == ExpiredNotice && log == old(log) + [ExpiryNotice]
                   && ShowsSelected(old(fieldSelections))
              else expired == old(expired) && log == old(log) && fieldSelections == old(fieldSelections)
                   && selectedFields == old(selectedFields) && notice == old(notice) && enabled == old(enabled)
    {
      if candidates == [] || expired {
        return;
      }
      ExpireAndRender();
    }

    /** The expiry callback's work on a live share with candidates. */
    method ExpireAndRender()
      requires Valid() && candidates != [] && !expired
      modifies this`expired, this`enabled, this`notice, this`log, this`fieldSelections, this`selectedFields
      ensures Valid() && (old(Safe()) ==> Safe())
      ensures expired && !enabled && notice == ExpiredNotice && log == old(log) + [ExpiryNotice]
      ensures ShowsSelected(old(fieldSelections))
    {
      MarkExpired();
      RenderSelected();
    }

    /** The flag, the button, the message and the expiry notice of the
        expiry callback, before the card is shown again. */
    method MarkExpired()
      requires Valid() && !expired
      modifies this`expired, this`enabled, this`notice, this`log
      ensures Valid() && (old(Safe()) ==> Safe())
      ensures expired && !enabled && notice == ExpiredNotice && log == old(log) + [ExpiryNotice]
    {
      var before := log;
      ExpiryFacts(candidates);
      LogAppend(before, [ExpiryNotice], candidates);
      assert NotFoundCount(before + [ExpiryNotice]) == NotFoundCount(before);
      assert ExpiryNotice in before + [ExpiryNotice];
      assert NoShareAfterExpiry(before) ==> NoShareAfterExpiry(before + [ExpiryNotice]);
      expired := true;
      enabled := false;
      notice := ExpiredNotice;
      log := before + [ExpiryNotice];
    }
  }

  // ---------------------------------------------------------------------------
  // launchShareFlow
  // ---------------------------------------------------------------------------

  /** The metadata launchShareFlow works with: the given metadata, else the
      cached one, else what ensureSessionMeta finds with the request read
      first and ten retries; nothing for a blank id. */
  function LaunchMeta(sid: string, given: Option<Meta>, cache: map<string, Meta>,
                      getRequest: MetaResolver.Remote, getOffer: MetaResolver.Remote): Option<Meta> {
    if sid == "" then None
    else if given.Some? then given
    else if sid in cache then Some(cache[sid])
    else MetaResolver.Resolved(sid, true, 10, getRequest, getOffer, cache)
  }

  /** launchShareFlow: resolves the metadata of the trimmed id, caches it,
      picks the candidate cards of the requested type and shows the share
      view; null when there is no metadata. The root type is the session's
      `getType` answer, None when it has none. */
  method LaunchShareFlow(id: string, given: Option<Meta>, cache: MetaResolver.MetaCache, cards: seq<Card>,
                         getRequest: MetaResolver.Remote, getOffer: MetaResolver.Remote,
                         rootType: Option<string>, env: Env)
    returns (share: PendingShare?)
    modifies cache
    ensures var sid := Text.Trim(id);
      var m := LaunchMeta(sid, given, old(cache.pending), getRequest, getOffer);
      && (share == null <==> m.None?)
      && cache.pending == (if m.Some? then old(cache.pending)[sid := m.value] else old(cache.pending))
      && (share != null ==>
            && fresh(share) && share.Valid() && share.Safe()
            && share.id == sid && share.meta == m.value
            && share.candidates == Candidates(cards, RequestCardType(m.value, rootType))
            && (forall c :: share.planOf(c) == PlanFor(env, c, m.value))
            && (share.candidates == [] ==>
                  share.reported && !share.enabled && share.log == NotFoundWrites(sid, ReportedType(m.value, rootType)))
            && (share.candidates != [] ==>
                  share.selectedIndex == 0 && share.log == [] && share.ShowsSelected(map[])))
  {
    var sid := Text.Trim(id);
    if sid == "" {
      return null;
    }
    var m: Option<Meta>;
    if given.Some? {
      m := given;
      cache.Put(sid, given.value);
    } else if sid in cache.pending {
      m := Some(cache.pending[sid]);
      cache.Put(sid, m.value);
    } else {
      Text.TrimIdempotent(id);
      m := cache.EnsureSessionMeta(sid, true, 10, getRequest, getOffer);
    }
    if m.None? {
      return null;
    }
    share := OpenShare(sid, m.value, cards, rootType, env);
  }

  /** The pending share launchShareFlow creates for resolved metadata, shown
      once. */
  method OpenShare(sid: string, meta: Meta, cards: seq<Card>, rootType: Option<string>, env: Env)
    returns (share: PendingShare)
    ensures fresh(share) && share.Valid() && share.Safe()
    ensures share.id == sid && share.meta == meta
    ensures share.candidates == Candidates(cards, RequestCardType(meta, rootType))
    ensures forall c :: share.planOf(c) == PlanFor(env, c, meta)
    ensures share.candidates == [] ==>
      share.reported && !share.enabled && share.log == NotFoundWrites(sid, ReportedType(meta, rootType))
    ensures share.candidates != [] ==>
      share.selectedIndex == 0 && share.log == [] && share.ShowsSelected(map[])
  {
    share := new PendingShare(sid, meta, Candidates(cards, RequestCardType(meta, rootType)), c => PlanFor(env, c, meta));
    share.Render(rootType);
  }

  /** A one-field personal-data card and a request without declared
      attributes. */
  const PidCard := Card("c1", "PID", "", 0, 0, [Field("n", "v")])
  const PidRequest := Meta("PID", "", [], None, None, "")
  /** The plan of PidCard for PidRequest under an empty configuration. */
  const PidPlan := Plan(Text.CanonicalType("PID"), ["n"], ["n"], [])

  /** What the flow computes for PidCard: its plan orders and requires its
      one field, nothing is missing, the field is selected on the first and
      on a later render, and sharing it starts with the card. */
  lemma PidFacts()
    ensures Keys(PidCard.payload) == ["n"]
    ensures PlanFor(Env(map[], map[], []), PidCard, PidRequest) == PidPlan
    ensures SelectionKey("s", PidCard, PidPlan) == "c1"
    ensures Missing(PidPlan, PidCard) == []
    ensures SelectionAfter(None, PidPlan, ["n"]) == ["n"]
    ensures SelectionAfter(Some(["n"]), PidPlan, ["n"]) == ["n"]
    ensures var w := ShareWrites("s", PidCard, ["n"]); w != [] && IsCardShare(w[0])
  {
    OneFieldPlan(PidCard, PidRequest);
    OneFieldSelection(PidCard, PidPlan.planType);
  }

  /** The share view of PidCard as launchShareFlow opens it: the field is
      selected and the button enabled. */
  method ShownPid() returns (share: PendingShare)
    ensures fresh(share) && share.Valid() && !share.awaitingPin && share.enabled && !share.expired && share.log == []
    ensures share.id == "s" && share.candidates == [PidCard] && share.selectedIndex == 0
    ensures share.planOf(PidCard) == PidPlan
    ensures Stored(share.fieldSelections, "c1") == Some(["n"])
  {
    var env := Env(map[], map[], []);
    share := new PendingShare("s", PidRequest, [PidCard], c => PlanFor(env, c, PidRequest));
    share.Render(None);
    PidFacts();
    assert share.planOf(PidCard) == PidPlan;
    assert Stored(map[], "c1") == None;
  }

  /** The same view after the confirm button was clicked: the PIN dialog is
      open, the request has not expired and nothing is sent. */
  method AwaitingPin() returns (share: PendingShare)
    ensures fresh(share) && share.Valid() && share.awaitingPin && !share.expired && share.log == []
    ensures share.id == "s" && share.candidates == [PidCard] && share.selectedIndex == 0
    ensures share.planOf(PidCard) == PidPlan
    ensures Stored(share.fieldSelections, "c1") == Some(["n"])
  {
    share := ShownPid();
    share.BeginConfirm();
  }

  /** The same view once the expiry notice arrived during the PIN dialog. */
  method ExpiredWhileAwaitingPin() returns (share: PendingShare)
    ensures fresh(share) && share.Valid() && share.awaitingPin && share.expired && share.log == [ExpiryNotice]
    ensures share.id == "s" && share.candidates == [PidCard] && share.selectedIndex == 0
    ensures share.planOf(PidCard) == PidPlan
    ensures Stored(share.fieldSelections, "c1") == Some(["n"])
  {
    share := AwaitingPin();
    PidFacts();
    share.OnExpired();
  }

  /** An expiry that arrives while the PIN dialog is open: the confirm
      handler as written still shares the card after the expiry notice. */
  method ExpiryDuringPinStillShares() returns (share: PendingShare)
    ensures share.expired && ExpiryNotice in share.log && !share.Safe()
  {
    share := ExpiredWhileAwaitingPin();
    PidFacts();
    share.OnPinResultAsWritten(true);
    assert share.log == [ExpiryNotice] + ShareWrites("s", PidCard, ["n"]);
    assert share.log[1] == ShareWrites("s", PidCard, ["n"])[0];
  }

  /** The same scenario with the expiry checked again after the PIN dialog:
      nothing is shared and the request shows as expired. */
  method ExpiryDuringPinIsRefused() returns (share: PendingShare)
    ensures share.expired && share.log == [ExpiryNotice] && share.Safe()
    ensures share.notice == ExpiredNotice && !share.enabled
  {
    share := ExpiredWhileAwaitingPin();
    share.OnPinResult(true);
  }

  /** The plan of a one-field card under a request without declared
      attributes and an empty configuration: that field is the order and is
      required. */
  lemma OneFieldPlan(card: Card, meta: Meta)
    requires |card.payload| == 1
    requires meta.attributes.None? && meta.scopeAttributes.None? && meta.scenario == ""
    ensures var k := card.payload[0].key;
      && Keys(card.payload) == [k]
      && PlanFor(Env(map[], map[], []), card, meta) == Plan(Text.CanonicalType(card.cardType), [k], [k], [])
  {
    var t, k := Text.CanonicalType(card.cardType), card.payload[0].key;
    assert Keys(card.payload) == [k];
    assert SchemaOrder(map[], t) == [];
    assert Text.Upper("") == "";
    assert PlanAttrs(map[], [], meta, t) == Attrs(None, None);
    assert AddAbsent([], [k], []) == [k];
  }

  /** On that plan nothing is missing, and the selection is the one field
      whether or not the card had one stored. */
  lemma OneFieldSelection(card: Card, t: string)
    requires |card.payload| == 1
    ensures var k := card.payload[0].key;
      var plan := Plan(t, [k], [k], []);
      && Missing(plan, card) == []
      && SelectionAfter(None, plan, [k]) == [k]
      && SelectionAfter(Some([k]), plan, [k]) == [k]
  {
    var k := card.payload[0].key;
    var plan := Plan(t, [k], [k], []);
    assert Keys(card.payload) == [k];
    assert [k][1..] == [];
    assert SetAdd([], k) == [k];
    assert Wanted(k, [k], false, [k]);
    assert AddFields([], [k], [k], false, [k]) == AddFields([k], [], [k], false, [k]) == [k];
    assert InitialSelection(plan, [k]) == [k];
    assert AddFields([k], [k], [k], false, [k]) == [k];
    assert DropAbsent([k], [k]) == [k] + [];
    assert MissingFrom([k], [k], [k]) == [] + [];
  }

  /** `fields.forEach(f => { if (wanted) selection.add(f) })` on a selection. */
  method AddEach(sel: seq<string>, fields: seq<string>, required: seq<string>, all: bool, keys: seq<string>)
    returns (r: seq<string>)
    requires Distinct(sel)
    ensures r == AddFields(sel, fields, required, all, keys) && Distinct(r)
  {
    AddFieldsSpec(sel, fields, required, all, keys);
    r := sel;
    var i := 0;
    assert fields[0..] == fields;
    while i < |fields|
      invariant 0 <= i <= |fields|
      invariant AddFields(r, fields[i..], required, all, keys) == AddFields(sel, fields, required, all, keys)
      invariant Distinct(r)
    {
      var f := fields[i];
      assert fields[i..] == [f] + fields[i + 1..];
      if f in keys && (all || f in required) {
        r := SetAdd(r, f);
      }
      i := i + 1;
    }
  }

  /** `Array.from(selection).forEach(f => { if (!has(f)) selection.delete(f) })`. */
  method DeleteAbsent(sel: seq<string>, keys: seq<string>) returns (r: seq<string>)
    requires Distinct(sel)
    ensures r == DropAbsent(sel, keys) && Distinct(r)
  {
    DropAbsentSpec(sel, keys);
    r := sel;
    var i := 0;
    while i < |sel|
      invariant 0 <= i <= |sel|
      invariant r == DropAbsent(sel[..i], keys) + sel[i..]
    {
      if sel[i] !in keys {
        DeleteAbsentDrop(sel, i, keys);
        r := SetDelete(r, sel[i]);
      } else {
        DeleteAbsentKeep(sel, i, keys);
      }
      i := i + 1;
    }
    assert sel[..|sel|] == sel;
  }

  /** One turn of DeleteAbsent's loop on a field the payload has: it stays. */
  lemma DeleteAbsentKeep(sel: seq<string>, i: int, keys: seq<string>)
    requires 0 <= i < |sel| && sel[i] in keys
    ensures DropAbsent(sel[..i], keys) + sel[i..] == DropAbsent(sel[..i + 1], keys) + sel[i + 1..]
  {
    var f, pre, post := sel[i], sel[..i], sel[i + 1..];
    assert sel[..i + 1] == pre + [f];
    assert sel[i..] == [f] + post;
    DropAbsentSnoc(pre, f, keys);
    var done := DropAbsent(pre, keys);
    assert done + ([f] + post) == done + [f] + post;
  }

  /** One turn of DeleteAbsent's loop on a field the payload lacks: deleting
      it from the set removes its single occurrence. */
  lemma DeleteAbsentDrop(sel: seq<string>, i: int, keys: seq<string>)
    requires Distinct(sel) && 0 <= i < |sel| && sel[i] !in keys
    ensures SetDelete(DropAbsent(sel[..i], keys) + sel[i..], sel[i]) == DropAbsent(sel[..i + 1], keys) + sel[i + 1..]
  {
    var f, pre, post := sel[i], sel[..i], sel[i + 1..];
    var done := DropAbsent(pre, keys);
    assert DropAbsent(sel[..i + 1], keys) == done by {
      assert sel[..i + 1] == pre + [f];
      DropAbsentSnoc(pre, f, keys);
      assert done + [] == done;
    }
    assert f !in done by { DropAbsentSpec(pre, keys); }
    assert f !in post by { DistinctSplit(sel, i); }
    assert done + sel[i..] == done + [f] + post by {
      assert sel[i..] == [f] + post;
    }
    SetDeleteSplit(done, f, post);
  }

  /** In a sequence without duplicates, the element at `i` does not occur
      after position `i`. */
  lemma DistinctSplit(sel: seq<string>, i: int)
    requires Distinct(sel) && 0 <= i < |sel|
    ensures sel[i] !in sel[i + 1..]
  {
  }
}
