/** The status an inbox entry shows, derived from the raw fields of the remote
    session record by an ordered list of rules (deriveInboxStatus,
    js/wallet-app.js:250-276). */
module InboxStatus {
  import opened Wrappers
  import Text

  datatype Code = Expired | NotFound | Shared | Added | Scanned | PendingShare | PendingOffer

  /** What the inbox shows: a code, a Dutch caption (the `label` of the source) and sometimes a description. */
  datatype StatusInfo = StatusInfo(code: Code, caption: string, description: Option<string>)

  /** The timestamps of the remote `status` record. A missing field, or one
      that `Number` turns into NaN, is None. */
  datatype RemoteStatus = RemoteStatus(completedAt: Option<int>, scannedAt: Option<int>, expiredAt: Option<int>)

  /** JavaScript truthiness of a number: present and not zero. */
  predicate Truthy(t: Option<int>) { t.Some? && t.value != 0 }

  /** `status.expiredAt || expiresAt`: the record's own expiry time when it is
      truthy, else the separately stored expiry. */
  function EffectiveExpiry(status: RemoteStatus, expiresAt: Option<int>): Option<int> {
    if Truthy(status.expiredAt) then status.expiredAt else expiresAt
  }

  predicate IsShareIntent(intent: string) { Text.Lower(intent) == "use_card" }

  // The five rules, in the order the code tries them.

  predicate ExpiryReached(status: RemoteStatus, expiresAt: Option<int>, now: int) {
    var e := EffectiveExpiry(status, expiresAt);
    Truthy(e) && e.value <= now
  }

  predicate ReportedNotFound(outcome: string) { outcome == "not_found" }

  predicate Completed(status: RemoteStatus, outcome: string) {
    outcome == "ok" || (Truthy(status.completedAt) && status.completedAt.value > 0)
  }

  predicate ScannedOnly(status: RemoteStatus) {
    Truthy(status.scannedAt) && !Truthy(status.completedAt)
  }

  /** The rule list as data: each guard with the code it yields. */
  function Rules(intent: string, status: RemoteStatus, outcome: string, expiresAt: Option<int>, now: int): seq<(bool, Code)> {
    var share := IsShareIntent(intent);
    [ (ExpiryReached(status, expiresAt, now), Expired),
      (ReportedNotFound(outcome), NotFound),
      (Completed(status, outcome), if share then Shared else Added),
      (ScannedOnly(status), Scanned),
      (true, if share then PendingShare else PendingOffer) ]
  }

  /** The code of the first rule whose guard holds. */
  function FirstMatch(rules: seq<(bool, Code)>, fallback: Code): Code {
    if rules == [] then fallback
    else if rules[0].0 then rules[0].1
    else FirstMatch(rules[1..], fallback)
  }

  /** deriveInboxStatus. `outcome` is the `outcome` of the shared record ("" when
      there is none), `now` the current time. */
  function DeriveInboxStatus(intent: string, status: RemoteStatus, outcome: string, expiresAt: Option<int>, now: int): StatusInfo
  {
    var share := IsShareIntent(intent);
    if ExpiryReached(status, expiresAt, now) then
      StatusInfo(Expired, "Verlopen", Some("Verzoek verlopen; vraag een nieuwe QR-code aan."))
    else if outcome == "not_found" then
      StatusInfo(NotFound, "Niet gedeeld", Some("Geen gegevens gedeeld; de sessiecode werkt niet meer."))
    else if Completed(status, outcome) then
      if share then StatusInfo(Shared, "Gedeeld", Some("Verzoek verwerkt; de sessiecode is nu ongeldig."))
      else StatusInfo(Added, "Toegevoegd", Some("Verzoek gebruikt; de sessiecode werkt niet meer."))
    else if Truthy(status.scannedAt) && !Truthy(status.completedAt) then
      if share then StatusInfo(Scanned, "Bezig met delen", None)
      else StatusInfo(Scanned, "Bezig met toevoegen", None)
    else if share then StatusInfo(PendingShare, "Verzoek wacht op jou", None)
    else StatusInfo(PendingOffer, "Data staat klaar", None)
  }

  /** The derived code is the one of the first rule of Rules whose guard holds. */
  lemma FollowsRuleList(intent: string, status: RemoteStatus, outcome: string, expiresAt: Option<int>, now: int)
    ensures DeriveInboxStatus(intent, status, outcome, expiresAt, now).code
         == FirstMatch(Rules(intent, status, outcome, expiresAt, now), PendingOffer)
  {
    var rules := Rules(intent, status, outcome, expiresAt, now);
    assert FirstMatch(rules, PendingOffer) == (if rules[0].0 then rules[0].1 else FirstMatch(rules[1..], PendingOffer));
    assert FirstMatch(rules[1..], PendingOffer) == (if rules[1].0 then rules[1].1 else FirstMatch(rules[2..], PendingOffer));
    assert FirstMatch(rules[2..], PendingOffer) == (if rules[2].0 then rules[2].1 else FirstMatch(rules[3..], PendingOffer));
    assert FirstMatch(rules[3..], PendingOffer) == (if rules[3].0 then rules[3].1 else FirstMatch(rules[4..], PendingOffer));
    assert FirstMatch(rules[4..], PendingOffer) == rules[4].1;
  }

  /** The codes the inbox treats as final (`finalStatusCodes`). */
  predicate IsFinal(c: Code) { c == Added || c == Shared || c == NotFound || c == Expired }

  /** Rule 1 wins over everything: a reached expiry yields `expired` whatever
      the intent, outcome, completion and scan fields are. */
  lemma ExpiredWins(intent: string, status: RemoteStatus, outcome: string, expiresAt: Option<int>, now: int)
    requires ExpiryReached(status, expiresAt, now)
    ensures DeriveInboxStatus(intent, status, outcome, expiresAt, now).code == Expired
  {
  }

  /** Each code is produced exactly under its rule's guard and the negation of
      every earlier guard. */
  lemma PriorityOrder(intent: string, status: RemoteStatus, outcome: string, expiresAt: Option<int>, now: int)
    ensures var c := DeriveInboxStatus(intent, status, outcome, expiresAt, now).code;
      var x, n, d, s := ExpiryReached(status, expiresAt, now), ReportedNotFound(outcome),
                        Completed(status, outcome), ScannedOnly(status);
      && (c == Expired <==> x)
      && (c == NotFound <==> !x && n)
      && (c in {Shared, Added} <==> !x && !n && d)
      && (c == Scanned <==> !x && !n && !d && s)
      && (c in {PendingShare, PendingOffer} <==> !x && !n && !d && !s)
  {
  }

  /** Expiry is permanent: once the status is `expired` at some time, it is
      `expired` at every later time, whatever else the record says. */
  lemma ExpiredStaysExpired(intent: string, status: RemoteStatus, outcome: string, expiresAt: Option<int>, now: int, later: int)
    requires now <= later
    requires DeriveInboxStatus(intent, status, outcome, expiresAt, now).code == Expired
    ensures DeriveInboxStatus(intent, status, outcome, expiresAt, later).code == Expired
  {
  }

  /** Group of a code with the intent forgotten. */
  function Stage(c: Code): nat {
    match c
    case Expired => 0
    case NotFound => 1
    case Shared | Added => 2
    case Scanned => 3
    case PendingShare | PendingOffer => 4
  }

  /** The intent only chooses between the share and the offer flavour of a
      stage; `shared` and `pending-share` need the share intent, `added` and
      `pending-offer` need any other intent. */
  lemma IntentOnlyPicksFlavour(i1: string, i2: string, status: RemoteStatus, outcome: string, expiresAt: Option<int>, now: int)
    ensures Stage(DeriveInboxStatus(i1, status, outcome, expiresAt, now).code)
         == Stage(DeriveInboxStatus(i2, status, outcome, expiresAt, now).code)
    ensures var c := DeriveInboxStatus(i1, status, outcome, expiresAt, now).code;
      (c in {Shared, PendingShare} ==> IsShareIntent(i1)) && (c in {Added, PendingOffer} ==> !IsShareIntent(i1))
  {
    PriorityOrder(i1, status, outcome, expiresAt, now);
    PriorityOrder(i2, status, outcome, expiresAt, now);
  }

  /** A completed or not-found session is final, and a session that is not
      expired, not reported and not completed is never final. */
  lemma FinalIffSettled(intent: string, status: RemoteStatus, outcome: string, expiresAt: Option<int>, now: int)
    ensures IsFinal(DeriveInboxStatus(intent, status, outcome, expiresAt, now).code)
        <==> ExpiryReached(status, expiresAt, now) || ReportedNotFound(outcome) || Completed(status, outcome)
  {
  }
}
