/**
  The canonical catalogue: identities (hard key to canonical id), the serving rows
  `opportunities`, and the source lineage `opportunity_sources`. Complete's product write merges
  one observed record into all three; ReconcileSource and DeactivateSource retire lineage.
 */
module ProductStore {
  import opened Prelude

  type Time = int

  /** A value of a JSON object, a string or anything else. */
  datatype Json = Str(text: string) | Other(text: string)

  const PAYWALLED := "how_to_apply"

  /** One observed record; `seenAt` is the time of the call when the record carries none. */
  datatype Canonical = Canonical(
    candidateId: string, hardKey: string, kind: string, sourceId: string, externalId: string,
    title: string, description: string, howToApply: string, applyUrl: string, remote: bool,
    facts: Facts, amountMin: real, amountMax: real, seenAt: Time,
    attributes: map<string, Json>, crawlRunId: string)

  /** The columns that follow COALESCE(new, old); empty strings are stored as NULL. */
  datatype Facts = Facts(
    issuingEntity: Option<string>, country: Option<string>, region: Option<string>, city: Option<string>,
    currency: Option<string>, employmentType: Option<string>, seniority: Option<string>, geoScope: Option<string>,
    postedAt: Option<Time>, deadline: Option<Time>)

  datatype Opportunity = Opportunity(
    kind: string, sourceId: string, title: string, description: Option<string>, howToApply: Option<string>,
    applyUrl: string, remote: bool, facts: Facts, amountMin: Option<real>, amountMax: Option<real>,
    firstSeenAt: Time, lastSeenAt: Time, attributes: map<string, Json>,
    hidden: bool, hiddenReason: Option<string>)

  datatype LineageKey = LineageKey(canonicalId: string, sourceId: string, externalId: string)

  datatype Lineage = Lineage(
    applyUrl: string, contentHash: Option<string>, firstSeenAt: Time, lastSeenAt: Time,
    lastCrawlRunId: Option<string>, inactiveAfter: Option<Time>, active: bool)

  datatype Product = Product(
    identities: map<string, string>, opps: map<string, Opportunity>, lineage: map<LineageKey, Lineage>)

  const EMPTY_PRODUCT := Product(map[], map[], map[])

  const NOT_OBSERVED := "not observed in latest full crawl"

  // ---- The merge of one record ----

  function LongerText(offered: Option<string>, kept: Option<string>): Option<string> {
    if |Text(offered)| > |Text(kept)| then offered else kept
  }

  function Text(t: Option<string>): string { if t.Some? then t.value else "" }

  /** `COALESCE(amount, 0)`: an absent amount reads as zero. */
  function Amount(a: Option<real>): real { if a.Some? then a.value else 0.0 }

  function NullIfZero(a: real): Option<real> { if a == 0.0 then None else Some(a) }

  function Greatest(a: real, b: real): real { if a >= b then a else b }

  function MergeFacts(n: Facts, o: Facts): Facts {
    Facts(Coalesce(n.issuingEntity, o.issuingEntity), Coalesce(n.country, o.country), Coalesce(n.region, o.region),
          Coalesce(n.city, o.city), Coalesce(n.currency, o.currency), Coalesce(n.employmentType, o.employmentType),
          Coalesce(n.seniority, o.seniority), Coalesce(n.geoScope, o.geoScope),
          Coalesce(n.postedAt, o.postedAt), Coalesce(n.deadline, o.deadline))
  }

  /** The attributes without the application instructions, which only members may read. */
  function PublicAttributes(c: Canonical): map<string, Json> { c.attributes - {PAYWALLED} }

  function ContentHash(c: Canonical): Option<string> {
    if "content_hash" in c.attributes && c.attributes["content_hash"].Str?
    then NullIfEmpty(c.attributes["content_hash"].text) else None
  }

  function NewOpportunity(c: Canonical): Opportunity {
    Opportunity(c.kind, c.sourceId, c.title, NullIfEmpty(c.description), NullIfEmpty(c.howToApply), c.applyUrl,
                c.remote, c.facts, NullIfZero(c.amountMin), NullIfZero(c.amountMax), c.seenAt, c.seenAt,
                PublicAttributes(c), false, None)
  }

  /** The ON CONFLICT clause of the serving row. */
  function MergeOpportunity(c: Canonical, o: Opportunity): Opportunity {
    var howTo := NullIfEmpty(c.howToApply);
    o.(title := if c.title != "" then c.title else o.title,
       description := LongerText(NullIfEmpty(c.description), o.description),
       howToApply := if |Text(howTo)| > |Text(o.howToApply)| then howTo else Coalesce(howTo, o.howToApply),
       facts := MergeFacts(c.facts, o.facts), remote := c.remote,
       applyUrl := if c.applyUrl != "" then c.applyUrl else o.applyUrl,
       amountMin := Some(Greatest(Amount(NullIfZero(c.amountMin)), Amount(o.amountMin))),
       amountMax := Some(Greatest(Amount(NullIfZero(c.amountMax)), Amount(o.amountMax))),
       lastSeenAt := Max(c.seenAt, o.lastSeenAt),
       attributes := o.attributes + PublicAttributes(c), hidden := false, hiddenReason := None)
  }

  function NewLineage(c: Canonical): Lineage {
    Lineage(c.applyUrl, ContentHash(c), c.seenAt, c.seenAt, NullIfEmpty(c.crawlRunId), None, true)
  }

  /** The ON CONFLICT clause of the lineage row: an observation older than the reconcile that
      retired the row does not bring it back. */
  function MergeLineage(c: Canonical, l: Lineage): Lineage {
    var current := l.inactiveAfter.None? || c.seenAt >= l.inactiveAfter.value;
    Lineage(c.applyUrl, Coalesce(ContentHash(c), l.contentHash), l.firstSeenAt,
            Max(c.seenAt, l.lastSeenAt),
            if c.seenAt >= l.lastSeenAt then NullIfEmpty(c.crawlRunId) else l.lastCrawlRunId,
            if current then None else l.inactiveAfter,
            current || l.active)
  }

  // ---- Transactions ----

  datatype WriteError = MissingFields | BlankApplyUrl | CanonicalIdTaken

  predicate Blank(s: string) { forall i :: 0 <= i < |s| ==> s[i] == ' ' }

  /** What the identity upsert returns for a record, or why it fails. */
  function Resolve(p: Product, c: Canonical): Result<string, WriteError> {
    if c.candidateId == "" || c.hardKey == "" || c.kind == "" || c.title == "" || c.applyUrl == ""
    then Err(MissingFields)
    else if Blank(c.applyUrl) then Err(BlankApplyUrl)
    else if c.hardKey in p.identities then Ok(p.identities[c.hardKey])
    else if c.candidateId in p.identities.Values then Err(CanonicalIdTaken)
    else Ok(c.candidateId)
  }

  function KeyOf(cid: string, c: Canonical): LineageKey { LineageKey(cid, c.sourceId, c.externalId) }

  predicate HasActive(lineage: map<LineageKey, Lineage>, cid: string) {
    exists k :: k in lineage && k.canonicalId == cid && lineage[k].active
  }

  function WithVisibility(o: Opportunity, visible: bool): Opportunity {
    o.(hidden := !visible, hiddenReason := if visible then None else Some(NOT_OBSERVED))
  }

  function WriteAs(p: Product, cid: string, c: Canonical): Product {
    var k := KeyOf(cid, c);
    var lineage := p.lineage[k := if k in p.lineage then MergeLineage(c, p.lineage[k]) else NewLineage(c)];
    var merged := if cid in p.opps then MergeOpportunity(c, p.opps[cid]) else NewOpportunity(c);
    Product(p.identities[c.hardKey := cid],
            p.opps[cid := WithVisibility(merged, HasActive(lineage, cid))],
            lineage)
  }

  function WriteStep(p: Product, c: Canonical): Product {
    var id := Resolve(p, c);
    if id.Ok? then WriteAs(p, id.value, c) else p
  }

  predicate TouchedBy(lineage: map<LineageKey, Lineage>, cid: string, source: string) {
    exists k :: k in lineage && k.canonicalId == cid && k.sourceId == source
  }

  /** Hides the canonicals the source touches that have no active lineage left; never unhides. */
  function HideOrphans(p: Product, source: string, reason: string): map<string, Opportunity> {
    map cid | cid in p.opps ::
      if TouchedBy(p.lineage, cid, source) && !HasActive(p.lineage, cid)
      then p.opps[cid].(hidden := true, hiddenReason := Some(reason)) else p.opps[cid]
  }

  function Retired(l: Lineage, startedAt: Time): Lineage {
    l.(active := false, inactiveAfter := Some(startedAt))
  }

  function ReconcileStep(p: Product, source: string, startedAt: Time): Product {
    var p' := p.(lineage := map k | k in p.lineage ::
                   if k.sourceId == source && p.lineage[k].lastSeenAt < startedAt
                   then Retired(p.lineage[k], startedAt) else p.lineage[k]);
    p'.(opps := HideOrphans(p', source, NOT_OBSERVED))
  }

  function DeactivateStep(p: Product, source: string, reason: string): Product {
    var p' := p.(lineage := map k | k in p.lineage ::
                   if k.sourceId == source then p.lineage[k].(active := false) else p.lineage[k]);
    p'.(opps := HideOrphans(p', source, reason))
  }

  datatype Step =
    | Write(c: Canonical)
    | Reconcile(source: string, startedAt: Time)
    | Deactivate(source: string, reason: string)

  function Apply(p: Product, s: Step): Product {
    match s
    case Write(c) => WriteStep(p, c)
    case Reconcile(source, startedAt) => ReconcileStep(p, source, startedAt)
    case Deactivate(source, reason) => DeactivateStep(p, source, reason)
  }

  /** The catalogue after a sequence of transactions on an empty one. */
  function Exec(steps: seq<Step>): Product {
    if steps == [] then EMPTY_PRODUCT else Apply(Exec(steps[..|steps| - 1]), steps[|steps| - 1])
  }

  // ---- `hidden` is a derived index ----

  ghost predicate HiddenExact(p: Product) {
    && (forall cid :: cid in p.opps ==>
          && (p.opps[cid].hidden <==> !HasActive(p.lineage, cid))
          && (p.opps[cid].hidden <==> p.opps[cid].hiddenReason.Some?))
    && (forall k :: k in p.lineage ==> k.canonicalId in p.opps)
  }

  /** A write is accepted exactly for a complete record with a link, whose hard key is known or
      whose candidate id is free. */
  lemma WriteAcceptedIff(p: Product, c: Canonical)
    ensures Resolve(p, c).Ok? <==>
            && c.candidateId != "" && c.hardKey != "" && c.kind != "" && c.title != ""
            && (exists i :: 0 <= i < |c.applyUrl| && c.applyUrl[i] != ' ')
            && (c.hardKey in p.identities || forall k :: k in p.identities ==> p.identities[k] != c.candidateId)
    ensures Resolve(p, c).Ok? && c.hardKey !in p.identities ==> Resolve(p, c).value == c.candidateId
  {
  }

  lemma ContentHashIff(c: Canonical, h: string)
    ensures ContentHash(c) == Some(h) <==>
            "content_hash" in c.attributes && c.attributes["content_hash"] == Str(h) && h != ""
  {
  }

  /** Retiring a source's lineage gives its reason to every opportunity the source had a part in and
      that has no active source left, and touches no other. */
  lemma HidingGivesReason(p: Product, source: string, at: Time, reason: string, cid: string)
    requires cid in p.opps
    ensures var p' := ReconcileStep(p, source, at);
            cid in p'.opps && Concerned(p, p', source, cid, NOT_OBSERVED)
    ensures var p' := DeactivateStep(p, source, reason);
            cid in p'.opps && Concerned(p, p', source, cid, reason)
  {
    var one, two := ReconcileStep(p, source, at), DeactivateStep(p, source, reason);
    assert TouchedBy(one.lineage, cid, source) && !HasActive(one.lineage, cid) ==>
           one.opps[cid] == p.opps[cid].(hidden := true, hiddenReason := Some(NOT_OBSERVED));
    assert TouchedBy(two.lineage, cid, source) && !HasActive(two.lineage, cid) ==>
           two.opps[cid] == p.opps[cid].(hidden := true, hiddenReason := Some(reason));
  }

  predicate Concerned(p: Product, p': Product, source: string, cid: string, reason: string)
    requires cid in p.opps && cid in p'.opps
  {
    if (exists k :: k in p'.lineage && k.canonicalId == cid && k.sourceId == source)
       && (forall k :: k in p'.lineage && k.canonicalId == cid ==> !p'.lineage[k].active)
    then p'.opps[cid].hidden && p'.opps[cid].hiddenReason == Some(reason)
    else p'.opps[cid] == p.opps[cid]
  }

  lemma OthersKeepActive(p: Product, c: Canonical, id: string, cid: string)
    requires cid != id
    ensures HasActive(WriteAs(p, id, c).lineage, cid) <==> HasActive(p.lineage, cid)
  {
    hide MergeLineage, NewLineage, MergeOpportunity, NewOpportunity, WithVisibility;
    var lineage := WriteAs(p, id, c).lineage;
    assert forall k: LineageKey :: k.canonicalId == cid ==> (k in p.lineage <==> k in lineage);
    assert forall k: LineageKey :: k.canonicalId == cid && k in p.lineage ==> lineage[k] == p.lineage[k];
  }

  lemma WriteKeepsHidden(p: Product, c: Canonical)
    requires HiddenExact(p)
    ensures HiddenExact(WriteStep(p, c))
  {
    hide HasActive, MergeLineage, NewLineage, MergeOpportunity, NewOpportunity, Resolve;
    var id := Resolve(p, c);
    if id.Ok? {
      var p' := WriteAs(p, id.value, c);
      forall cid | cid in p'.opps && cid != id.value
        ensures HasActive(p'.lineage, cid) <==> HasActive(p.lineage, cid)
      {
        OthersKeepActive(p, c, id.value, cid);
      }
    }
  }

  lemma RetiringKeepsHidden(p: Product, lineage: map<LineageKey, Lineage>, source: string, reason: string)
    requires HiddenExact(p) && lineage.Keys == p.lineage.Keys
    requires forall k :: k in lineage && k.sourceId != source ==> lineage[k] == p.lineage[k]
    requires forall k :: k in lineage && lineage[k].active ==> p.lineage[k].active
    ensures var p' := p.(lineage := lineage); HiddenExact(p'.(opps := HideOrphans(p', source, reason)))
  {
    forall cid | cid in p.opps
      ensures !TouchedBy(lineage, cid, source) ==> (HasActive(lineage, cid) <==> HasActive(p.lineage, cid))
      ensures HasActive(lineage, cid) ==> HasActive(p.lineage, cid)
    {
      if HasActive(p.lineage, cid) && !TouchedBy(lineage, cid, source) {
        var k :| k in p.lineage && k.canonicalId == cid && p.lineage[k].active;
        assert lineage[k].active;
      }
    }
  }

  lemma ReconcileKeepsHidden(p: Product, source: string, startedAt: Time)
    ensures HiddenExact(p) ==> HiddenExact(ReconcileStep(p, source, startedAt))
  {
    if HiddenExact(p) {
      RetiringKeepsHidden(p, ReconcileStep(p, source, startedAt).lineage, source, NOT_OBSERVED);
    }
  }

  lemma DeactivateKeepsHidden(p: Product, source: string, reason: string)
    ensures HiddenExact(p) ==> HiddenExact(DeactivateStep(p, source, reason))
  {
    if HiddenExact(p) {
      RetiringKeepsHidden(p, DeactivateStep(p, source, reason).lineage, source, reason);
    }
  }

  /** After any sequence of Complete, ReconcileSource and DeactivateSource an opportunity is
      hidden exactly when it has no active lineage, and carries a reason exactly when hidden. */
  lemma {:induction false} HiddenMeansNoActiveSource(steps: seq<Step>)
    ensures HiddenExact(Exec(steps))
  {
    if steps != [] {
      var p, s := Exec(steps[..|steps| - 1]), steps[|steps| - 1];
      HiddenMeansNoActiveSource(steps[..|steps| - 1]);
      match s
      case Write(c) => WriteKeepsHidden(p, c);
      case Reconcile(source, startedAt) => ReconcileKeepsHidden(p, source, startedAt);
      case Deactivate(source, reason) => DeactivateKeepsHidden(p, source, reason);
    }
  }
}
