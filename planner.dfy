/** Which fields of a card a share request asks for, and which of them the
    holder has selected: the attribute table built from the scenario
    configuration (setScenarioAttributes, resolveAttributesForMeta), the
    attribute plan of a card (buildAttributePlan) and the selection rules
    (ensureSelectionForCard), js/wallet-app.js:816-962. */
module Planner {
  import opened Wrappers
  import Text

  // ---------------------------------------------------------------------------
  // Data
  // ---------------------------------------------------------------------------

  /** One entry of a card's payload object. Values are opaque to the planner. */
  datatype Field = Field(key: string, value: string)

  /** A stored card: its id, declared type, issuer, timestamps and payload. */
  datatype Card = Card(id: string, cardType: string, issuer: string, issuedAt: int, expiresAt: int, payload: seq<Field>)

  /** `request.attributes`: lists of required and optional field names, each
      absent when not an array. */
  datatype Attrs = Attrs(required: Option<seq<string>>, optional: Option<seq<string>>)

  /** The `request` part of a scenario configuration. */
  datatype Request = Request(attributes: Option<Attrs>, typeRef: string, requestType: string)

  /** One entry `scenarioId: cfg` of the scenario configuration object; a
      configuration that is not an object, or has no request, has `request == None`. */
  datatype ScenarioConfig = ScenarioConfig(id: string, request: Option<Request>)

  /** The session metadata a share request carries. `scopeAttributes` is
      `meta.scope.attributes`. */
  datatype Meta = Meta(cardType: string, issuer: string, payload: seq<Field>,
                       attributes: Option<Attrs>, scopeAttributes: Option<Attrs>, scenario: string)

  /** The keys `scenario:<ID>` and `type:<TYPE>` of the attribute table. */
  datatype TableKey = ScenarioKey(scenarioId: string) | TypeKey(typeKey: string)

  /** The part of a card type's UI schema the planner reads. */
  datatype Schema = Schema(order: Option<seq<string>>)

  /** The payload's keys, in order. */
  function Keys(payload: seq<Field>): (r: seq<string>)
    ensures |r| == |payload|
    ensures forall i :: 0 <= i < |payload| ==> r[i] == payload[i].key
  {
    seq(|payload|, i requires 0 <= i < |payload| => payload[i].key)
  }

  /** `payload[key]`: the value of the first field with that key. */
  function Lookup(payload: seq<Field>, key: string): (r: Option<string>)
    ensures r.Some? <==> key in Keys(payload)
    ensures r.Some? ==> exists i :: 0 <= i < |payload| && payload[i] == Field(key, r.value)
  {
    if payload == [] then None
    else if payload[0].key == key then Some(payload[0].value)
    else
      var r := Lookup(payload[1..], key);
      assert Keys(payload) == [payload[0].key] + Keys(payload[1..]);
      assert r.Some? ==> exists i :: 0 <= i < |payload[1..]| && payload[1..][i] == Field(key, r.value);
      r
  }

  predicate Distinct(s: seq<string>) {
    forall i, j :: 0 <= i < j < |s| ==> s[i] != s[j]
  }

  // ---------------------------------------------------------------------------
  // The attribute table (setScenarioAttributes)
  // ---------------------------------------------------------------------------

  /** `cfg.request.attributes`, when present. */
  function RequestAttrs(c: ScenarioConfig): Option<Attrs> {
    if c.request.Some? then c.request.value.attributes else None
  }

  /** `cfg.request.typeRef || cfg.request.type`. */
  function RequestType(c: ScenarioConfig): string {
    if c.request.None? then ""
    else if c.request.value.typeRef != "" then c.request.value.typeRef
    else c.request.value.requestType
  }

  /** One pass of the loop over the configurations: a configuration with
      attributes is stored under its upper-cased scenario id (replacing an
      earlier one) and, unless the type key is taken, under its canonical
      request type. */
  function Register(m: map<TableKey, Attrs>, c: ScenarioConfig): map<TableKey, Attrs> {
    match RequestAttrs(c)
    case None => m
    case Some(a) =>
      var m1 := m[ScenarioKey(Text.Upper(c.id)) := a];
      var t := Text.CanonicalType(RequestType(c));
      if t != "" && TypeKey(t) !in m1 then m1[TypeKey(t) := a] else m1
  }

  /** The table after registering `cs` in order. */
  function Registered(cs: seq<ScenarioConfig>): map<TableKey, Attrs> {
    if cs == [] then map[] else Register(Registered(cs[..|cs| - 1]), cs[|cs| - 1])
  }

  /** Reference reading of a table entry: absent is None. */
  function Get(m: map<TableKey, Attrs>, k: TableKey): Option<Attrs> {
    if k in m then Some(m[k]) else None
  }

  /** The attributes of the LAST configuration with attributes whose
      upper-cased id is `id`. */
  function LastScenarioAttrs(cs: seq<ScenarioConfig>, id: string): Option<Attrs> {
    if cs == [] then None
    else
      var c := cs[|cs| - 1];
      if Text.Upper(c.id) == id && RequestAttrs(c).Some? then RequestAttrs(c)
      else LastScenarioAttrs(cs[..|cs| - 1], id)
  }

  /** The attributes of the FIRST configuration with attributes whose
      canonical request type is `t`. */
  function FirstTypeAttrs(cs: seq<ScenarioConfig>, t: string): Option<Attrs> {
    if cs == [] then None
    else if RequestAttrs(cs[0]).Some? && Text.CanonicalType(RequestType(cs[0])) == t then RequestAttrs(cs[0])
    else FirstTypeAttrs(cs[1..], t)
  }

  /** What one registration does to a scenario key. */
  lemma RegisterScenarioKey(m: map<TableKey, Attrs>, c: ScenarioConfig, id: string)
    ensures Get(Register(m, c), ScenarioKey(id))
         == if Text.Upper(c.id) == id && RequestAttrs(c).Some? then RequestAttrs(c) else Get(m, ScenarioKey(id))
  {
  }

  /** What one registration does to a type key. */
  lemma RegisterTypeKey(m: map<TableKey, Attrs>, c: ScenarioConfig, t: string)
    ensures Get(Register(m, c), TypeKey(t))
         == if TypeKey(t) in m then Some(m[TypeKey(t)])
            else if t != "" && RequestAttrs(c).Some? && Text.CanonicalType(RequestType(c)) == t then RequestAttrs(c)
            else None
  {
  }

  /** A scenario key holds the attributes of the last configuration with that
      (upper-cased) id: later configurations overwrite earlier ones. */
  lemma {:induction false} ScenarioKeyLastWins(cs: seq<ScenarioConfig>, id: string)
    ensures Get(Registered(cs), ScenarioKey(id)) == LastScenarioAttrs(cs, id)
  {
    if cs != [] {
      ScenarioKeyLastWins(cs[..|cs| - 1], id);
      RegisterScenarioKey(Registered(cs[..|cs| - 1]), cs[|cs| - 1], id);
    }
  }

  lemma {:induction false} FirstTypeAttrsSnoc(cs: seq<ScenarioConfig>, c: ScenarioConfig, t: string)
    ensures FirstTypeAttrs(cs + [c], t)
         == if FirstTypeAttrs(cs, t).Some? then FirstTypeAttrs(cs, t)
            else FirstTypeAttrs([c], t)
  {
    if cs != [] {
      assert (cs + [c])[1..] == cs[1..] + [c];
      FirstTypeAttrsSnoc(cs[1..], c, t);
    }
  }

  /** A type key holds the attributes of the first configuration whose
      canonical request type it is: later configurations never replace it;
      the empty type is never a key. */
  lemma {:induction false} TypeKeyFirstWins(cs: seq<ScenarioConfig>, t: string)
    ensures Get(Registered(cs), TypeKey(t)) == if t == "" then None else FirstTypeAttrs(cs, t)
  {
    if cs != [] {
      var init, c := cs[..|cs| - 1], cs[|cs| - 1];
      assert cs == init + [c];
      TypeKeyFirstWins(init, t);
      FirstTypeAttrsSnoc(init, c, t);
      RegisterTypeKey(Registered(init), c, t);
      assert FirstTypeAttrs([c], t) == if RequestAttrs(c).Some? && Text.CanonicalType(RequestType(c)) == t then RequestAttrs(c) else None by {
        assert [c][1..] == [];
      }
    }
  }

  /** The attribute table of the wallet: the configurations last installed and
      the entries derived from them. */
  class AttributeTable {
    var byKey: map<TableKey, Attrs>
    var configs: seq<ScenarioConfig>

    constructor ()
      ensures byKey == map[] && configs == []
    {
      byKey := map[];
      configs := [];
    }

    /** setScenarioAttributes: clears the table and registers every
        configuration in order. */
    method SetScenarioAttributes(cs: seq<ScenarioConfig>)
      modifies this
      ensures configs == cs && byKey == Registered(cs)
    {
      configs := cs;
      byKey := map[];
      var i := 0;
      while i < |cs|
        invariant 0 <= i <= |cs|
        invariant configs == cs
        invariant byKey == Registered(cs[..i])
      {
        var c := cs[i];
        assert cs[..i + 1][..i] == cs[..i];
        match RequestAttrs(c) {
          case None =>
          case Some(a) =>
            byKey := byKey[ScenarioKey(Text.Upper(c.id)) := a];
            var t := Text.CanonicalType(RequestType(c));
            if t != "" && TypeKey(t) !in byKey {
              byKey := byKey[TypeKey(t) := a];
            }
        }
        i := i + 1;
      }
      assert cs[..|cs|] == cs;
    }
  }

  // ---------------------------------------------------------------------------
  // Which attributes a request asks for (resolveAttributesForMeta)
  // ---------------------------------------------------------------------------

  /** `scenarioConfigs[id].request.attributes`, read by exact key: the last
      configuration with that id, as a JSON object keeps the last of
      duplicate keys. */
  function ConfigAttrs(cs: seq<ScenarioConfig>, id: string): Option<Attrs> {
    if cs == [] then None
    else if cs[|cs| - 1].id == id then RequestAttrs(cs[|cs| - 1])
    else ConfigAttrs(cs[..|cs| - 1], id)
  }

  /** resolveAttributesForMeta, on the table `byKey` and the configurations it
      came from. */
  function ResolveAttributes(byKey: map<TableKey, Attrs>, configs: seq<ScenarioConfig>, meta: Meta, cardType: string): Option<Attrs> {
    if meta.attributes.Some? then meta.attributes
    else if meta.scopeAttributes.Some? then meta.scopeAttributes
    else
      var sid := Text.Upper(meta.scenario);
      if sid != "" && ScenarioKey(sid) in byKey then Some(byKey[ScenarioKey(sid)])
      else if sid != "" && ConfigAttrs(configs, sid).Some? then ConfigAttrs(configs, sid)
      else
        var t := Text.CanonicalType(if cardType != "" then cardType else meta.cardType);
        if t != "" then Get(byKey, TypeKey(t)) else None
  }

  /** The precedence the resolution is meant to follow, stated on the
      configurations alone: the request's own attributes, then its scope's,
      then the last configuration of its scenario, then the first
      configuration of its card type, else none. */
  function Precedence(configs: seq<ScenarioConfig>, meta: Meta, cardType: string): Option<Attrs> {
    if meta.attributes.Some? then meta.attributes
    else if meta.scopeAttributes.Some? then meta.scopeAttributes
    else
      var sid := Text.Upper(meta.scenario);
      if sid != "" && LastScenarioAttrs(configs, sid).Some? then LastScenarioAttrs(configs, sid)
      else
        var t := Text.CanonicalType(if cardType != "" then cardType else meta.cardType);
        if t == "" then None else FirstTypeAttrs(configs, t)
  }

  /** An attribute list found under an exact, already upper-case id is also
      found through the upper-cased scenario key. */
  lemma {:induction false} ConfigAttrsCovered(cs: seq<ScenarioConfig>, id: string)
    requires Text.Upper(id) == id
    requires ConfigAttrs(cs, id).Some?
    ensures LastScenarioAttrs(cs, id).Some?
  {
    var c := cs[|cs| - 1];
    if c.id != id {
      ConfigAttrsCovered(cs[..|cs| - 1], id);
    }
  }

  /** With the table built from the same configurations, resolution follows
      the precedence; in particular the direct configuration lookup never
      finds anything the scenario key missed. */
  lemma ResolveFollowsPrecedence(configs: seq<ScenarioConfig>, meta: Meta, cardType: string)
    ensures ResolveAttributes(Registered(configs), configs, meta, cardType) == Precedence(configs, meta, cardType)
  {
    if meta.attributes.None? && meta.scopeAttributes.None? {
      var m := Registered(configs);
      var sid := Text.Upper(meta.scenario);
      ScenarioKeyLastWins(configs, sid);
      assert (ScenarioKey(sid) in m) == LastScenarioAttrs(configs, sid).Some?;
      if sid != "" && ConfigAttrs(configs, sid).Some? {
        Text.UpperIdempotent(meta.scenario);
        ConfigAttrsCovered(configs, sid);
      }
      var t := Text.CanonicalType(if cardType != "" then cardType else meta.cardType);
      TypeKeyFirstWins(configs, t);
    }
  }

  // ---------------------------------------------------------------------------
  // The attribute plan of a card (buildAttributePlan)
  // ---------------------------------------------------------------------------

  /** `key` with every `_` replaced by a space: no underscore is left, and a
      character changes only when it was an underscore and became a space. */
  function Spaced(key: string): (r: string)
    ensures |r| == |key|
    ensures forall i :: 0 <= i < |r| ==> r[i] != '_'
    ensures forall i :: 0 <= i < |key| && r[i] != key[i] ==> key[i] == '_' && r[i] == ' '
  {
    seq(|key|, i requires 0 <= i < |key| => if key[i] == '_' then ' ' else key[i])
  }

  /** schemaForType: the schema under the canonical type, else under that type
      with spaces for underscores. */
  function SchemaFor(ui: map<string, Schema>, cardType: string): (r: Option<Schema>)
    ensures r.Some? <==> Text.CanonicalType(cardType) in ui || Spaced(Text.CanonicalType(cardType)) in ui
    ensures Text.CanonicalType(cardType) in ui ==> r == Some(ui[Text.CanonicalType(cardType)])
    ensures Text.CanonicalType(cardType) !in ui && Spaced(Text.CanonicalType(cardType)) in ui ==>
              r == Some(ui[Spaced(Text.CanonicalType(cardType))])
  {
    var key := Text.CanonicalType(cardType);
    if key in ui then Some(ui[key])
    else if Spaced(key) in ui then Some(ui[Spaced(key)])
    else None
  }

  /** `keys.forEach(k => { if (!except.has(k)) target.add(k) })` with an
      insertion-ordered array or Set as the target: each key that is not in
      `except` and not yet in the target is appended, once, in key order. */
  function AddAbsent(acc: seq<string>, keys: seq<string>, except: seq<string>): seq<string>
    decreases |keys|
  {
    if keys == [] then acc
    else AddAbsent(if keys[0] in except then acc else SetAdd(acc, keys[0]), keys[1..], except)
  }

  /** `keys.filter(k => !s.includes(k))`: the keys not in `s`, in key order. */
  function Unlisted(keys: seq<string>, s: seq<string>): seq<string>
    decreases |keys|
  {
    if keys == [] then [] else (if keys[0] in s then [] else [keys[0]]) + Unlisted(keys[1..], s)
  }

  /** Which keys are unlisted depends only on which of them `s` holds. */
  lemma {:induction false} UnlistedSameMembers(keys: seq<string>, s: seq<string>, t: seq<string>)
    requires forall k :: k in keys ==> (k in s <==> k in t)
    ensures Unlisted(keys, s) == Unlisted(keys, t)
    decreases |keys|
  {
    if keys != [] {
      assert forall k :: k in keys[1..] ==> k in keys;
      UnlistedSameMembers(keys[1..], s, t);
    }
  }

  /** The tail of a sequence without repeats has none, and misses the head. */
  lemma DistinctTail(s: seq<string>)
    requires s != [] && Distinct(s)
    ensures Distinct(s[1..]) && s[0] !in s[1..]
  {
    forall i, j | 0 <= i < j < |s[1..]| ensures s[1..][i] != s[1..][j] {
      assert s[1..][i] == s[i + 1] && s[1..][j] == s[j + 1];
    }
  }

  /** On distinct keys (the keys of one object), AddAbsent appends the keys that
      are in neither the start nor the exceptions, in key order. */
  lemma {:induction false} AddAbsentOrder(acc: seq<string>, keys: seq<string>, except: seq<string>)
    requires Distinct(keys)
    ensures AddAbsent(acc, keys, except) == acc + Unlisted(keys, acc + except)
    decreases |keys|
  {
    if keys == [] {
      assert acc + [] == acc;
    } else {
      var k, tail := keys[0], keys[1..];
      DistinctTail(keys);
      if k in except || k in acc {
        AddAbsentOrder(acc, tail, except);
        AddAbsentSkip(acc, keys, except);
      } else {
        AddAbsentOrder(acc + [k], tail, except);
        AddAbsentTake(acc, keys, except);
      }
    }
  }

  /** A key that is excepted or already there is skipped. */
  lemma AddAbsentSkip(acc: seq<string>, keys: seq<string>, except: seq<string>)
    requires keys != [] && (keys[0] in except || keys[0] in acc)
    requires AddAbsent(acc, keys[1..], except) == acc + Unlisted(keys[1..], acc + except)
    ensures AddAbsent(acc, keys, except) == acc + Unlisted(keys, acc + except)
  {
    assert Unlisted(keys, acc + except) == Unlisted(keys[1..], acc + except) by {
      assert Unlisted(keys, acc + except) == [] + Unlisted(keys[1..], acc + except);
    }
  }

  /** A new key that does not come again is appended before the rest. */
  lemma AddAbsentTake(acc: seq<string>, keys: seq<string>, except: seq<string>)
    requires keys != [] && keys[0] !in except && keys[0] !in acc && keys[0] !in keys[1..]
    requires AddAbsent(acc + [keys[0]], keys[1..], except) == acc + [keys[0]] + Unlisted(keys[1..], acc + [keys[0]] + except)
    ensures AddAbsent(acc, keys, except) == acc + Unlisted(keys, acc + except)
  {
    var k, tail := keys[0], keys[1..];
    assert SetAdd(acc, k) == acc + [k];
    assert AddAbsent(acc, keys, except) == AddAbsent(acc + [k], tail, except);
    assert forall x :: x in tail ==> (x in acc + [k] + except <==> x in acc + except) by {
      forall x | x in tail
        ensures x in acc + [k] + except <==> x in acc + except
      {
        assert x != k;
        assert x in acc + [k] + except <==> x in acc || x in [k] || x in except;
      }
    }
    UnlistedSameMembers(tail, acc + [k] + except, acc + except);
    var rest := Unlisted(tail, acc + except);
    assert k !in acc + except;
    assert Unlisted(keys, acc + except) == [k] + rest;
    assert acc + [k] + rest == acc + ([k] + rest);
  }

  /** AddAbsent keeps its start as a prefix and appends exactly the keys that
      are not excepted and not already there, each once. */
  lemma {:induction false} AddAbsentShape(acc: seq<string>, keys: seq<string>, except: seq<string>)
    ensures var r := AddAbsent(acc, keys, except);
      && |acc| <= |r| && r[..|acc|] == acc
      && (forall k :: k in r <==> k in acc || (k in keys && k !in except))
      && (forall i :: |acc| <= i < |r| ==> r[i] !in acc)
      && (forall i, j :: |acc| <= i < j < |r| ==> r[i] != r[j])
      && (Distinct(acc) ==> Distinct(r))
    decreases |keys|
  {
    if keys != [] {
      var next := if keys[0] in except then acc else SetAdd(acc, keys[0]);
      AddAbsentShape(next, keys[1..], except);
      var r := AddAbsent(next, keys[1..], except);
      assert keys == [keys[0]] + keys[1..];
      assert r[..|acc|] == r[..|next|][..|acc|];
    }
  }

  /** AddAbsent keeps its start as a prefix and appends exactly the keys that
      are not excepted and not already there, each once; on distinct keys
      they come in key order. */
  lemma AddAbsentSpec(acc: seq<string>, keys: seq<string>, except: seq<string>)
    ensures var r := AddAbsent(acc, keys, except);
      && |acc| <= |r| && r[..|acc|] == acc
      && (forall k :: k in r <==> k in acc || (k in keys && k !in except))
      && (forall i :: |acc| <= i < |r| ==> r[i] !in acc)
      && (forall i, j :: |acc| <= i < j < |r| ==> r[i] != r[j])
      && (Distinct(acc) ==> Distinct(r))
      && (Distinct(keys) ==> r == acc + Unlisted(keys, acc + except))
    decreases |keys|
  {
    AddAbsentShape(acc, keys, except);
    if Distinct(keys) {
      AddAbsentOrder(acc, keys, except);
    }
  }

  /** `new Set(names.map(normalize).filter(Boolean))` added to `acc`. */
  function AddTrimmed(acc: seq<string>, names: seq<string>): seq<string>
    decreases |names|
  {
    if names == [] then acc
    else AddTrimmed(if Text.Trim(names[0]) != "" then SetAdd(acc, Text.Trim(names[0])) else acc, names[1..])
  }

  lemma {:induction false} AddTrimmedSpec(acc: seq<string>, names: seq<string>)
    ensures var r := AddTrimmed(acc, names);
      && (forall k :: k in r <==> k in acc || exists i :: 0 <= i < |names| && Text.Trim(names[i]) != "" && k == Text.Trim(names[i]))
      && (Distinct(acc) ==> Distinct(r))
    decreases |names|
  {
    if names != [] {
      var next := if Text.Trim(names[0]) != "" then SetAdd(acc, Text.Trim(names[0])) else acc;
      AddTrimmedSpec(next, names[1..]);
      var r := AddTrimmed(next, names[1..]);
      forall k | k in r ensures k in acc || exists i :: 0 <= i < |names| && Text.Trim(names[i]) != "" && k == Text.Trim(names[i]) {
        if k !in next {
          var i :| 0 <= i < |names[1..]| && Text.Trim(names[1..][i]) != "" && k == Text.Trim(names[1..][i]);
          assert names[1..][i] == names[i + 1];
        }
      }
      forall k | k !in acc && (exists i :: 0 <= i < |names| && Text.Trim(names[i]) != "" && k == Text.Trim(names[i]))
        ensures k in r
      {
        var i :| 0 <= i < |names| && Text.Trim(names[i]) != "" && k == Text.Trim(names[i]);
        if i > 0 {
          assert names[1..][i - 1] == names[i];
        }
      }
    }
  }

  /** The trimmed, non-empty names of an attribute list as a Set (`normalize`
      and `filter(Boolean)`), in the order they first appear. */
  function NormalizedKeys(names: Option<seq<string>>): seq<string> {
    match names
    case None => []
    case Some(xs) => AddTrimmed([], xs)
  }

  /** The normalized names are the trimmed non-empty names, each once; each
      of them is trimmed and not empty. */
  lemma NormalizedKeysSpec(names: Option<seq<string>>)
    ensures var r := NormalizedKeys(names);
      && Distinct(r)
      && (forall k :: k in r <==> names.Some? && exists i :: 0 <= i < |names.value| && Text.Trim(names.value[i]) != "" && k == Text.Trim(names.value[i]))
      && (forall k :: k in r ==> k != "" && Text.Trim(k) == k)
  {
    if names.Some? {
      var xs := names.value;
      AddTrimmedSpec([], xs);
      forall k | k in NormalizedKeys(names) ensures k != "" && Text.Trim(k) == k {
        var i :| 0 <= i < |xs| && Text.Trim(xs[i]) != "" && k == Text.Trim(xs[i]);
        Text.TrimIdempotent(xs[i]);
      }
    }
  }

  /** A card's attribute plan: its canonical type, the display order of its
      fields and the required and optional field names. */
  datatype Plan = Plan(planType: string, order: seq<string>, required: seq<string>, optional: seq<string>)

  /** The schema's field order, empty when there is no schema or no order. */
  function SchemaOrder(ui: map<string, Schema>, t: string): seq<string> {
    match SchemaFor(ui, t)
    case Some(Schema(Some(o))) => o
    case _ => []
  }

  /** The attributes the plan of a card of type `t` starts from. */
  function PlanAttrs(byKey: map<TableKey, Attrs>, configs: seq<ScenarioConfig>, meta: Meta, t: string): Attrs {
    ResolveAttributes(byKey, configs, meta, t).GetOr(Attrs(None, None))
  }

  /** buildAttributePlan. The order is the schema order with the payload keys
      it lacks appended; required and optional are Sets, kept here as
      sequences in insertion order. */
  function BuildAttributePlan(card: Card, meta: Meta, ui: map<string, Schema>,
                              byKey: map<TableKey, Attrs>, configs: seq<ScenarioConfig>): Plan {
    var t := Text.CanonicalType(card.cardType);
    var keys := Keys(card.payload);
    var order := AddAbsent(SchemaOrder(ui, t), keys, []);
    var attrs := PlanAttrs(byKey, configs, meta, t);
    var declared := NormalizedKeys(attrs.required);
    var optional := NormalizedKeys(attrs.optional);
    var required :=
      if declared == [] && optional == [] then AddAbsent(declared, keys, [])
      else if declared == [] then AddAbsent(declared, keys, optional)
      else declared;
    Plan(t, order, required, optional)
  }

  /** The plan's order is the schema order followed by the payload keys it
      does not list, each once, in payload order; every payload key is in it. */
  lemma PlanOrder(card: Card, meta: Meta, ui: map<string, Schema>,
                  byKey: map<TableKey, Attrs>, configs: seq<ScenarioConfig>)
    ensures var p := BuildAttributePlan(card, meta, ui, byKey, configs);
      var s := SchemaOrder(ui, Text.CanonicalType(card.cardType));
      && p.planType == Text.CanonicalType(card.cardType)
      && |s| <= |p.order| && p.order[..|s|] == s
      && (forall k :: k in Keys(card.payload) ==> k in p.order)
      && (forall k :: k in p.order ==> k in s || k in Keys(card.payload))
      && (forall i, j :: |s| <= i < j < |p.order| ==> p.order[i] != p.order[j])
      && (forall i :: |s| <= i < |p.order| ==> p.order[i] !in s)
      && (Distinct(Keys(card.payload)) ==> p.order == s + Unlisted(Keys(card.payload), s))
  {
    var s := SchemaOrder(ui, Text.CanonicalType(card.cardType));
    AddAbsentSpec(s, Keys(card.payload), []);
    assert s + [] == s;
  }

  /** The defaults for required fields: nothing declared makes every payload
      key required; only optional fields declared makes the other payload keys
      required; declared required fields are taken as they are. Optional is
      always what was declared, and both are Sets. */
  lemma PlanRequiredDefaults(card: Card, meta: Meta, ui: map<string, Schema>,
                             byKey: map<TableKey, Attrs>, configs: seq<ScenarioConfig>)
    ensures var p := BuildAttributePlan(card, meta, ui, byKey, configs);
      var a := PlanAttrs(byKey, configs, meta, Text.CanonicalType(card.cardType));
      var declared, optional := NormalizedKeys(a.required), NormalizedKeys(a.optional);
      && p.optional == optional
      && Distinct(p.required) && Distinct(p.optional)
      && (declared == [] && optional == [] ==> forall k :: k in p.required <==> k in Keys(card.payload))
      && (declared == [] && optional != [] ==> forall k :: k in p.required <==> k in Keys(card.payload) && k !in optional)
      && (declared != [] ==> p.required == declared)
  {
    var a := PlanAttrs(byKey, configs, meta, Text.CanonicalType(card.cardType));
    NormalizedKeysSpec(a.required);
    NormalizedKeysSpec(a.optional);
    AddAbsentSpec([], Keys(card.payload), []);
    AddAbsentSpec([], Keys(card.payload), NormalizedKeys(a.optional));
  }

  /** A plan with no declaration at all requires exactly the payload keys. */
  lemma PlanWithoutDeclarationRequiresAll(card: Card, meta: Meta, ui: map<string, Schema>,
                                          byKey: map<TableKey, Attrs>, configs: seq<ScenarioConfig>)
    requires ResolveAttributes(byKey, configs, meta, Text.CanonicalType(card.cardType)).None?
    ensures forall k :: k in BuildAttributePlan(card, meta, ui, byKey, configs).required <==> k in Keys(card.payload)
  {
    AddAbsentSpec([], Keys(card.payload), []);
  }

  // ---------------------------------------------------------------------------
  // The selection (ensureSelectionForCard)
  // ---------------------------------------------------------------------------

  /** `selection.add(x)` on an insertion-ordered Set: a new member goes at
      the end, a present one changes nothing. */
  function SetAdd(s: seq<string>, x: string): (r: seq<string>)
    ensures x in r && (forall y :: y in r <==> y in s || y == x)
    ensures Distinct(s) ==> Distinct(r)
    ensures x !in s ==> r == s + [x]
    ensures x in s ==> r == s
  {
    if x in s then s else s + [x]
  }

  /** `selection.delete(x)`. */
  function SetDelete(s: seq<string>, x: string): (r: seq<string>)
    ensures forall y :: y in r <==> y in s && y != x
    ensures Distinct(s) ==> Distinct(r)
    decreases |s|
  {
    if s == [] then []
    else
      var rest := SetDelete(s[1..], x);
      assert forall y :: y in s <==> y == s[0] || y in s[1..];
      assert Distinct(s) ==> Distinct(s[1..]) && s[0] !in s[1..];
      if s[0] == x then rest else [s[0]] + rest
  }

  /** Whether a field of the order is added: it is in the payload and either
      everything is added or it is required. */
  predicate Wanted(f: string, required: seq<string>, all: bool, keys: seq<string>) {
    f in keys && (all || f in required)
  }

  /** `fields.forEach(f => { if (wanted) selection.add(f) })`. */
  function AddFields(sel: seq<string>, fields: seq<string>, required: seq<string>, all: bool, keys: seq<string>): seq<string>
    decreases |fields|
  {
    if fields == [] then sel
    else AddFields(if Wanted(fields[0], required, all, keys) then SetAdd(sel, fields[0]) else sel,
                   fields[1..], required, all, keys)
  }

  /** `fields.filter(f => wanted(f))`. */
  function WantedFields(fields: seq<string>, required: seq<string>, all: bool, keys: seq<string>): seq<string>
    decreases |fields|
  {
    if fields == [] then []
    else (if Wanted(fields[0], required, all, keys) then [fields[0]] else []) + WantedFields(fields[1..], required, all, keys)
  }

  /** The wanted fields are exactly the fields of the order that are wanted. */
  lemma {:induction false} WantedFieldsSpec(fields: seq<string>, required: seq<string>, all: bool, keys: seq<string>)
    ensures forall f :: f in WantedFields(fields, required, all, keys) <==> f in fields && Wanted(f, required, all, keys)
    decreases |fields|
  {
    if fields != [] {
      WantedFieldsSpec(fields[1..], required, all, keys);
      assert forall f :: f in fields <==> f == fields[0] || f in fields[1..];
    }
  }

  /** Walking the order adds the wanted fields that are not yet selected, in
      the order's order, when the order lists each field once. */
  lemma {:induction false} AddFieldsOrder(sel: seq<string>, fields: seq<string>, required: seq<string>, all: bool, keys: seq<string>)
    requires Distinct(fields)
    ensures AddFields(sel, fields, required, all, keys) == sel + Unlisted(WantedFields(fields, required, all, keys), sel)
    decreases |fields|
  {
    if fields == [] {
      assert sel + [] == sel;
    } else {
      var f, tail := fields[0], fields[1..];
      var rest := WantedFields(tail, required, all, keys);
      assert Distinct(tail) by { DistinctTail(fields); }
      if !Wanted(f, required, all, keys) {
        calc {
          AddFields(sel, fields, required, all, keys);
          AddFields(sel, tail, required, all, keys);
          { AddFieldsOrder(sel, tail, required, all, keys); }
          sel + Unlisted(rest, sel);
          { assert WantedFields(fields, required, all, keys) == rest by {
              assert WantedFields(fields, required, all, keys) == [] + rest;
              assert [] + rest == rest;
            }
          }
          sel + Unlisted(WantedFields(fields, required, all, keys), sel);
        }
      } else {
        assert f !in rest by {
          DistinctTail(fields);
          WantedFieldsSpec(tail, required, all, keys);
        }
        var w := [f] + rest;
        assert WantedFields(fields, required, all, keys) == w;
        assert Unlisted(w, sel) == (if f in sel then [] else [f]) + Unlisted(rest, sel) by {
          assert w[0] == f && w[1..] == rest;
        }
        if f in sel {
          calc {
            AddFields(sel, fields, required, all, keys);
            AddFields(sel, tail, required, all, keys);
            { AddFieldsOrder(sel, tail, required, all, keys); }
            sel + Unlisted(rest, sel);
          }
        } else {
          calc {
            AddFields(sel, fields, required, all, keys);
            AddFields(sel + [f], tail, required, all, keys);
            { AddFieldsOrder(sel + [f], tail, required, all, keys); }
            sel + [f] + Unlisted(rest, sel + [f]);
            { UnlistedSameMembers(rest, sel + [f], sel); }
            sel + [f] + Unlisted(rest, sel);
            sel + ([f] + Unlisted(rest, sel));
          }
        }
      }
    }
  }

  /** AddFields only appends, adds exactly the wanted fields, and keeps a set
      a set. */
  lemma {:induction false} AddFieldsShape(sel: seq<string>, fields: seq<string>, required: seq<string>, all: bool, keys: seq<string>)
    ensures var r := AddFields(sel, fields, required, all, keys);
      && |sel| <= |r| && r[..|sel|] == sel
      && (forall f :: f in r <==> f in sel || (f in fields && Wanted(f, required, all, keys)))
      && (Distinct(sel) ==> Distinct(r))
    decreases |fields|
  {
    if fields != [] {
      var next := if Wanted(fields[0], required, all, keys) then SetAdd(sel, fields[0]) else sel;
      AddFieldsShape(next, fields[1..], required, all, keys);
      var r := AddFields(next, fields[1..], required, all, keys);
      assert fields == [fields[0]] + fields[1..];
      assert r[..|sel|] == r[..|next|][..|sel|];
    }
  }

  /** AddFields only appends, adds exactly the wanted fields, and keeps a set
      a set; on an order without repeats the fields come in the order's order. */
  lemma AddFieldsSpec(sel: seq<string>, fields: seq<string>, required: seq<string>, all: bool, keys: seq<string>)
    ensures var r := AddFields(sel, fields, required, all, keys);
      && |sel| <= |r| && r[..|sel|] == sel
      && (forall f :: f in r <==> f in sel || (f in fields && Wanted(f, required, all, keys)))
      && (Distinct(sel) ==> Distinct(r))
      && (Distinct(fields) ==> r == sel + Unlisted(WantedFields(fields, required, all, keys), sel))
  {
    AddFieldsShape(sel, fields, required, all, keys);
    if Distinct(fields) {
      AddFieldsOrder(sel, fields, required, all, keys);
    }
  }

  /** `Array.from(selection).forEach(f => { if (!has(f)) selection.delete(f) })`:
      the selection without the fields missing from the payload, in order. */
  function DropAbsent(sel: seq<string>, keys: seq<string>): seq<string>
    decreases |sel|
  {
    if sel == [] then []
    else if sel[0] in keys then [sel[0]] + DropAbsent(sel[1..], keys)
    else DropAbsent(sel[1..], keys)
  }

  /** DropAbsent keeps exactly the selected payload fields and keeps a set a set. */
  lemma {:induction false} DropAbsentSpec(sel: seq<string>, keys: seq<string>)
    ensures var r := DropAbsent(sel, keys);
      && (forall f :: f in r <==> f in sel && f in keys)
      && (Distinct(sel) ==> Distinct(r))
    decreases |sel|
  {
    if sel != [] {
      DropAbsentSpec(sel[1..], keys);
      assert forall y :: y in sel <==> y == sel[0] || y in sel[1..];
      assert Distinct(sel) ==> Distinct(sel[1..]) && sel[0] !in sel[1..];
    }
  }

  /** Deleting what is not there changes nothing. */
  lemma {:induction false} SetDeleteAbsent(s: seq<string>, x: string)
    requires x !in s
    ensures SetDelete(s, x) == s
    decreases |s|
  {
    if s != [] {
      SetDeleteAbsent(s[1..], x);
      assert s == [s[0]] + s[1..];
    }
  }

  /** Deleting the one occurrence of `x` from `a + [x] + b`. */
  lemma {:induction false} SetDeleteSplit(a: seq<string>, x: string, b: seq<string>)
    requires x !in a && x !in b
    ensures SetDelete(a + [x] + b, x) == a + b
    decreases |a|
  {
    if a == [] {
      assert [x] + b == [x] + b;
      assert ([x] + b)[1..] == b;
      SetDeleteAbsent(b, x);
    } else {
      assert (a + [x] + b)[0] == a[0];
      assert (a + [x] + b)[1..] == a[1..] + [x] + b;
      SetDeleteSplit(a[1..], x, b);
      assert a + b == [a[0]] + (a[1..] + b);
    }
  }

  /** DropAbsent one element at a time from the back. */
  lemma {:induction false} DropAbsentSnoc(p: seq<string>, x: string, keys: seq<string>)
    ensures DropAbsent(p + [x], keys) == DropAbsent(p, keys) + (if x in keys then [x] else [])
    decreases |p|
  {
    if p == [] {
      assert [x][1..] == [];
    } else {
      assert (p + [x])[0] == p[0];
      assert (p + [x])[1..] == p[1..] + [x];
      DropAbsentSnoc(p[1..], x, keys);
    }
  }

  /** The selection a card starts with the first time it is shown: the payload
      fields of the plan order that are required, or all of them when the plan
      declares neither required nor optional fields. */
  function InitialSelection(plan: Plan, keys: seq<string>): seq<string> {
    AddFields([], plan.order, plan.required, plan.required == [] && plan.optional == [], keys)
  }

  /** The selection ensureSelectionForCard leaves, given the card's stored
      selection (None when it has none yet): the required payload fields are
      added, then every field the payload lacks is removed. */
  function SelectionAfter(stored: Option<seq<string>>, plan: Plan, keys: seq<string>): seq<string> {
    var start := if stored.Some? then stored.value else InitialSelection(plan, keys);
    DropAbsent(AddFields(start, plan.order, plan.required, false, keys), keys)
  }

  /** The selection is exactly: payload fields that were stored (or start
      selected), plus the required payload fields of the plan order. It is
      always within the payload, and has no duplicates when the stored one
      has none. */
  lemma SelectionBounds(stored: Option<seq<string>>, plan: Plan, keys: seq<string>)
    ensures var r := SelectionAfter(stored, plan, keys);
      var start := if stored.Some? then stored.value else InitialSelection(plan, keys);
      && (forall f :: f in r <==> f in keys && (f in start || (f in plan.order && f in plan.required)))
      && (forall f :: f in r ==> f in keys)
      && (forall f :: f in plan.required && f in plan.order && f in keys ==> f in r)
      && (stored.None? || Distinct(stored.value) ==> Distinct(r))
  {
    var start := if stored.Some? then stored.value else InitialSelection(plan, keys);
    AddFieldsSpec([], plan.order, plan.required, plan.required == [] && plan.optional == [], keys);
    AddFieldsSpec(start, plan.order, plan.required, false, keys);
    DropAbsentSpec(AddFields(start, plan.order, plan.required, false, keys), keys);
  }

  lemma DropAbsentNoop(sel: seq<string>, keys: seq<string>)
    requires forall f :: f in sel ==> f in keys
    ensures DropAbsent(sel, keys) == sel
    decreases |sel|
  {
    if sel != [] {
      DropAbsentNoop(sel[1..], keys);
    }
  }

  lemma {:induction false} AddFieldsNoop(sel: seq<string>, fields: seq<string>, required: seq<string>, keys: seq<string>)
    requires forall f :: f in fields && Wanted(f, required, false, keys) ==> f in sel
    ensures AddFields(sel, fields, required, false, keys) == sel
    decreases |fields|
  {
    if fields != [] {
      assert fields == [fields[0]] + fields[1..];
      AddFieldsNoop(sel, fields[1..], required, keys);
    }
  }

  /** Showing a card again changes nothing: the selection left by one call is
      what the next call leaves. */
  lemma SelectionIdempotent(stored: Option<seq<string>>, plan: Plan, keys: seq<string>)
    ensures var r := SelectionAfter(stored, plan, keys);
      SelectionAfter(Some(r), plan, keys) == r
  {
    var r := SelectionAfter(stored, plan, keys);
    SelectionBounds(stored, plan, keys);
    AddFieldsNoop(r, plan.order, plan.required, keys);
    DropAbsentNoop(r, keys);
  }

  /** On a card's own plan, every required payload field ends up selected and
      nothing outside the payload does. */
  lemma PlannedSelectionCoversRequired(stored: Option<seq<string>>, card: Card, meta: Meta, ui: map<string, Schema>,
                                       byKey: map<TableKey, Attrs>, configs: seq<ScenarioConfig>)
    ensures var plan := BuildAttributePlan(card, meta, ui, byKey, configs);
      var r := SelectionAfter(stored, plan, Keys(card.payload));
      forall f :: (f in plan.required && f in Keys(card.payload) ==> f in r) && (f in r ==> f in Keys(card.payload))
  {
    PlanOrder(card, meta, ui, byKey, configs);
    SelectionBounds(stored, BuildAttributePlan(card, meta, ui, byKey, configs), Keys(card.payload));
  }
}
