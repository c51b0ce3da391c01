/** Laws of the catalogue over whole sequences of transactions. */
module ProductRuns {
  import opened Prelude
  import opened ProductStore

  // ---- Repeating a write ----

  /** Equal up to reading an absent amount as zero. */
  ghost predicate SameUpToAbsentAmounts(p: Product, q: Product) {
    && p.identities == q.identities && p.lineage == q.lineage && p.opps.Keys == q.opps.Keys
    && forall cid :: cid in p.opps ==>
         && Amount(p.opps[cid].amountMin) == Amount(q.opps[cid].amountMin)
         && Amount(p.opps[cid].amountMax) == Amount(q.opps[cid].amountMax)
         && p.opps[cid].(amountMin := None, amountMax := None) == q.opps[cid].(amountMin := None, amountMax := None)
  }

  lemma MergeLineageTwice(c: Canonical, l: Lineage)
    ensures MergeLineage(c, MergeLineage(c, l)) == MergeLineage(c, l)
    ensures MergeLineage(c, NewLineage(c)) == NewLineage(c)
  {
  }

  lemma MergeOpportunityTwice(c: Canonical, o: Opportunity, visible: bool)
    ensures MergeOpportunity(c, WithVisibility(MergeOpportunity(c, o), visible)) == MergeOpportunity(c, o)
  {
    assert o.attributes + PublicAttributes(c) + PublicAttributes(c) == o.attributes + PublicAttributes(c);
  }

  lemma MergeNewOpportunity(c: Canonical, visible: bool)
    requires c.title != "" && c.applyUrl != ""
    ensures var again := MergeOpportunity(c, WithVisibility(NewOpportunity(c), visible));
            && again == NewOpportunity(c).(amountMin := Some(c.amountMin), amountMax := Some(c.amountMax))
  {
    assert PublicAttributes(c) + PublicAttributes(c) == PublicAttributes(c);
  }

  lemma WriteResolvesAgain(p: Product, c: Canonical)
    requires Resolve(p, c).Ok?
    ensures Resolve(WriteStep(p, c), c) == Resolve(p, c)
  {
  }

  /** Redelivery right after a product commit changes nothing but absent amounts becoming zero. */
  lemma RepeatedWriteChangesNothing(p: Product, c: Canonical)
    ensures SameUpToAbsentAmounts(WriteStep(WriteStep(p, c), c), WriteStep(p, c))
  {
    hide WriteAs;
    if Resolve(p, c).Ok? {
      WriteResolvesAgain(p, c);
      var cid := Resolve(p, c).value;
      RepeatedWriteShape(p, cid, c);
      RepeatedWriteOpportunity(p, cid, c);
      if cid !in p.opps { FirstAmounts(p, cid, c); }
    }
  }

  lemma FirstAmounts(p: Product, cid: string, c: Canonical)
    requires cid !in p.opps
    ensures var o := WriteAs(p, cid, c).opps[cid];
            o.amountMin == NullIfZero(c.amountMin) && o.amountMax == NullIfZero(c.amountMax)
  {
  }

  lemma RepeatedWriteShape(p: Product, cid: string, c: Canonical)
    ensures var once := WriteAs(p, cid, c);
            var twice := WriteAs(once, cid, c);
            && twice.identities == once.identities && twice.lineage == once.lineage
            && cid in once.opps && twice.opps == once.opps[cid := twice.opps[cid]]
  {
    var k := KeyOf(cid, c);
    if k in p.lineage { MergeLineageTwice(c, p.lineage[k]); } else { MergeLineageTwice(c, NewLineage(c)); }
  }

  lemma RepeatedWriteOpportunity(p: Product, cid: string, c: Canonical)
    requires c.title != "" && c.applyUrl != ""
    ensures var once := WriteAs(p, cid, c);
            var twice := WriteAs(once, cid, c);
            if cid in p.opps then twice.opps[cid] == once.opps[cid]
            else twice.opps[cid] == once.opps[cid].(amountMin := Some(c.amountMin), amountMax := Some(c.amountMax))
  {
    var once := WriteAs(p, cid, c);
    RepeatedWriteShape(p, cid, c);
    var visible := HasActive(once.lineage, cid);
    if cid in p.opps { MergeOpportunityTwice(c, p.opps[cid], visible); } else { MergeNewOpportunity(c, visible); }
  }

  /** The repeat is an exact no-op precisely when the opportunity already existed or neither
      amount is zero. */
  lemma RepeatedWriteIsExactIff(p: Product, c: Canonical)
    requires Resolve(p, c).Ok?
    ensures WriteStep(WriteStep(p, c), c) == WriteStep(p, c)
            <==> Resolve(p, c).value in p.opps || (c.amountMin != 0.0 && c.amountMax != 0.0)
  {
    hide WriteAs;
    var cid := Resolve(p, c).value;
    WriteResolvesAgain(p, c);
    RepeatedWriteShape(p, cid, c);
    RepeatedWriteOpportunity(p, cid, c);
    var once := WriteAs(p, cid, c);
    assert once.opps == once.opps[cid := once.opps[cid]];
    if cid !in p.opps { FirstAmounts(p, cid, c); }
  }

  // ---- Identity ----

  /** No two hard keys share a canonical id, and the ids are exactly those of the serving rows. */
  ghost predicate IdsUnique(p: Product) {
    && (forall a, b :: a in p.identities && b in p.identities && p.identities[a] == p.identities[b] ==> a == b)
    && (forall a :: a in p.identities ==> p.identities[a] in p.opps)
    && (forall cid :: cid in p.opps ==> cid in p.identities.Values)
  }

  lemma WriteKeepsIds(p: Product, c: Canonical)
    requires IdsUnique(p)
    ensures IdsUnique(WriteStep(p, c))
    ensures forall a :: a in p.identities ==>
              a in WriteStep(p, c).identities && WriteStep(p, c).identities[a] == p.identities[a]
  {
    if Resolve(p, c).Ok? {
      var p' := WriteStep(p, c);
      forall cid | cid in p'.opps ensures cid in p'.identities.Values {
        if cid in p.opps {
          var a :| a in p.identities && p.identities[a] == cid;
          assert p'.identities[a] == cid;
        } else {
          assert p'.identities[c.hardKey] == cid;
        }
      }
    }
  }

  lemma StepKeepsIds(p: Product, s: Step)
    requires IdsUnique(p)
    ensures IdsUnique(Apply(p, s))
    ensures forall a :: a in p.identities ==>
              a in Apply(p, s).identities && Apply(p, s).identities[a] == p.identities[a]
  {
    if s.Write? {
      WriteKeepsIds(p, s.c);
    } else {
      assert Apply(p, s).identities == p.identities && Apply(p, s).opps.Keys == p.opps.Keys;
    }
  }

  /** A hard key keeps the canonical id it first resolved to, and no two hard keys share one. */
  lemma {:induction false} IdentityIsStable(steps: seq<Step>, k: nat, hardKey: string)
    requires k <= |steps|
    ensures IdsUnique(Exec(steps))
    ensures hardKey in Exec(steps[..k]).identities ==>
              && hardKey in Exec(steps).identities
              && Exec(steps).identities[hardKey] == Exec(steps[..k]).identities[hardKey]
  {
    if steps == [] {
      assert steps[..k] == steps;
    } else {
      hide Apply, IdsUnique;
      var init := steps[..|steps| - 1];
      if k < |steps| {
        IdentityIsStable(init, k, hardKey);
        assert init[..k] == steps[..k];
      } else {
        IdentityIsStable(init, |init|, hardKey);
        assert steps[..k] == steps;
      }
      StepKeepsIds(Exec(init), steps[|steps| - 1]);
    }
  }

  /** Every write of a hard key, whatever candidate id it carries, lands on the same canonical id. */
  lemma WritesOfAKeyAgree(steps: seq<Step>, i: nat, j: nat)
    requires i <= j < |steps| && steps[i].Write? && steps[j].Write? && steps[i].c.hardKey == steps[j].c.hardKey
    requires Resolve(Exec(steps[..i]), steps[i].c).Ok? && Resolve(Exec(steps[..j]), steps[j].c).Ok?
    ensures Resolve(Exec(steps[..j]), steps[j].c) == Resolve(Exec(steps[..i]), steps[i].c)
  {
    if i < j {
      var key := steps[i].c.hardKey;
      IdentityIsStable(steps[..j], i + 1, key);
      assert steps[..j][..i + 1] == steps[..i + 1];
      assert steps[..i + 1][..i] == steps[..i];
      assert key in Exec(steps[..i + 1]).identities;
    }
  }

  // ---- Maxima ----

  /** The records of a hard key that were merged, in order. */
  function Offers(steps: seq<Step>, hardKey: string): seq<Canonical> {
    if steps == [] then []
    else
      var init, s := steps[..|steps| - 1], steps[|steps| - 1];
      if s.Write? && s.c.hardKey == hardKey && Resolve(Exec(init), s.c).Ok? then Offers(init, hardKey) + [s.c]
      else Offers(init, hardKey)
  }

  ghost predicate GreatestOf(o: Opportunity, offers: seq<Canonical>) {
    && (forall i :: 0 <= i < |offers| ==>
          && offers[i].seenAt <= o.lastSeenAt && offers[i].amountMin <= Amount(o.amountMin)
          && offers[i].amountMax <= Amount(o.amountMax) && |offers[i].description| <= |Text(o.description)|)
    && (exists i :: 0 <= i < |offers| && offers[i].seenAt == o.lastSeenAt)
    && (exists i :: 0 <= i < |offers| && offers[i].amountMin == Amount(o.amountMin))
    && (exists i :: 0 <= i < |offers| && offers[i].amountMax == Amount(o.amountMax))
    && (exists i :: 0 <= i < |offers| && offers[i].description == Text(o.description))
  }

  lemma MergedMaxima(c: Canonical, o: Opportunity, visible: bool)
    ensures var o' := WithVisibility(MergeOpportunity(c, o), visible);
            && o'.lastSeenAt == Max(c.seenAt, o.lastSeenAt)
            && Amount(o'.amountMin) == Greatest(c.amountMin, Amount(o.amountMin))
            && Amount(o'.amountMax) == Greatest(c.amountMax, Amount(o.amountMax))
            && Text(o'.description) ==
               if |c.description| > |Text(o.description)| then c.description else Text(o.description)
  {
  }

  lemma GreatestAfterMerge(c: Canonical, o: Opportunity, offers: seq<Canonical>, visible: bool)
    requires GreatestOf(o, offers)
    ensures GreatestOf(WithVisibility(MergeOpportunity(c, o), visible), offers + [c])
  {
    hide MergeOpportunity, WithVisibility, Amount, Text;
    MergedMaxima(c, o, visible);
    var o', all := WithVisibility(MergeOpportunity(c, o), visible), offers + [c];
    assert all[|offers|] == c;
    assert forall i :: 0 <= i < |offers| ==> all[i] == offers[i];
    var i :| 0 <= i < |offers| && offers[i].seenAt == o.lastSeenAt;
    assert all[i].seenAt == o.lastSeenAt;
    var j :| 0 <= j < |offers| && offers[j].amountMin == Amount(o.amountMin);
    assert all[j].amountMin == Amount(o.amountMin);
    var k :| 0 <= k < |offers| && offers[k].amountMax == Amount(o.amountMax);
    assert all[k].amountMax == Amount(o.amountMax);
    var l :| 0 <= l < |offers| && offers[l].description == Text(o.description);
    assert all[l].description == Text(o.description);
  }

  lemma RetiringKeepsOpportunity(p: Product, s: Step, cid: string)
    requires !s.Write? && cid in p.opps
    ensures cid in Apply(p, s).opps
    ensures Apply(p, s).opps[cid].(hidden := false, hiddenReason := None)
            == p.opps[cid].(hidden := false, hiddenReason := None)
  {
  }

  lemma RetiringKeepsMaxima(p: Product, s: Step, cid: string, offers: seq<Canonical>)
    requires !s.Write? && cid in p.opps && GreatestOf(p.opps[cid], offers)
    ensures cid in Apply(p, s).opps && GreatestOf(Apply(p, s).opps[cid], offers)
  {
    hide Apply;
    RetiringKeepsOpportunity(p, s, cid);
  }

  /** The row behind a hard key, when there is one, holds the maxima of what was offered for it. */
  ghost predicate HoldsMaxima(p: Product, hardKey: string, offers: seq<Canonical>) {
    && (hardKey in p.identities <==> offers != [])
    && (hardKey in p.identities ==>
          && p.identities[hardKey] in p.opps
          && GreatestOf(p.opps[p.identities[hardKey]], offers))
  }

  /** After any sequence of transactions the row of a hard key carries the latest sighting, the
      greatest amounts and the longest description among the records merged into it. */
  lemma {:induction false} MergedRowHoldsMaxima(steps: seq<Step>, hardKey: string)
    ensures HoldsMaxima(Exec(steps), hardKey, Offers(steps, hardKey))
  {
    if steps != [] {
      hide GreatestOf, IdsUnique, WriteAs, Resolve, ReconcileStep, DeactivateStep;
      var init, s := steps[..|steps| - 1], steps[|steps| - 1];
      var p := Exec(init);
      MergedRowHoldsMaxima(init, hardKey);
      IdentityIsStable(init, |init|, hardKey);
      if s.Write? {
        WriteKeepsMaxima(p, s.c, hardKey, Offers(init, hardKey));
      } else if hardKey in p.identities {
        RetiringKeepsMaxima(p, s, p.identities[hardKey], Offers(init, hardKey));
        StepKeepsIds(p, s);
      } else {
        RetiringKeepsIdentities(p, s);
      }
    }
  }

  lemma RetiringKeepsIdentities(p: Product, s: Step)
    requires !s.Write?
    ensures Apply(p, s).identities == p.identities
  {
  }

  lemma NewRowHoldsMaxima(c: Canonical, visible: bool)
    ensures GreatestOf(WithVisibility(NewOpportunity(c), visible), [c])
  {
    assert [c][0] == c;
  }

  lemma WriteOfKeyKeepsMaxima(p: Product, c: Canonical, offers: seq<Canonical>)
    requires IdsUnique(p) && HoldsMaxima(p, c.hardKey, offers) && Resolve(p, c).Ok?
    ensures HoldsMaxima(WriteStep(p, c), c.hardKey, offers + [c])
  {
    hide GreatestOf, MergeOpportunity, NewOpportunity, WithVisibility, HasActive, MergeLineage, NewLineage;
    var cid := Resolve(p, c).value;
    var visible := HasActive(WriteAs(p, cid, c).lineage, cid);
    if c.hardKey in p.identities {
      GreatestAfterMerge(c, p.opps[cid], offers, visible);
    } else {
      assert offers + [c] == [c];
      assert cid !in p.opps;
      NewRowHoldsMaxima(c, visible);
    }
  }

  lemma WriteKeepsMaxima(p: Product, c: Canonical, hardKey: string, offers: seq<Canonical>)
    requires IdsUnique(p) && HoldsMaxima(p, hardKey, offers)
    ensures HoldsMaxima(WriteStep(p, c), hardKey,
                        if c.hardKey == hardKey && Resolve(p, c).Ok? then offers + [c] else offers)
  {
    if c.hardKey == hardKey && Resolve(p, c).Ok? {
      hide GreatestOf, IdsUnique, WriteStep;
      WriteOfKeyKeepsMaxima(p, c, offers);
    } else {
      hide GreatestOf, MergeOpportunity, NewOpportunity, WithVisibility, HasActive, MergeLineage, NewLineage;
      assert Resolve(p, c).Ok? && hardKey in p.identities ==> p.identities[hardKey] != Resolve(p, c).value;
    }
  }

  /** The same records merged in any order, between any other transactions, leave the same latest
      sighting, amounts and description length behind their hard key. */
  lemma MaximaIgnoreOrder(a: seq<Step>, b: seq<Step>, hardKey: string)
    requires multiset(Offers(a, hardKey)) == multiset(Offers(b, hardKey)) && Offers(a, hardKey) != []
    ensures hardKey in Exec(a).identities && hardKey in Exec(b).identities
    ensures Exec(a).identities[hardKey] in Exec(a).opps && Exec(b).identities[hardKey] in Exec(b).opps
    ensures var x := Exec(a).opps[Exec(a).identities[hardKey]];
            var y := Exec(b).opps[Exec(b).identities[hardKey]];
            && x.lastSeenAt == y.lastSeenAt && |Text(x.description)| == |Text(y.description)|
            && Amount(x.amountMin) == Amount(y.amountMin) && Amount(x.amountMax) == Amount(y.amountMax)
  {
    MergedRowHoldsMaxima(a, hardKey);
    MergedRowHoldsMaxima(b, hardKey);
    var xs, ys := Offers(a, hardKey), Offers(b, hardKey);
    assert |multiset(xs)| == |xs| && |multiset(ys)| == |ys|;
    var x := Exec(a).opps[Exec(a).identities[hardKey]];
    var y := Exec(b).opps[Exec(b).identities[hardKey]];
    GreatestBounds(x, xs, y, ys);
    GreatestBounds(y, ys, x, xs);
  }

  lemma GreatestBounds(x: Opportunity, xs: seq<Canonical>, y: Opportunity, ys: seq<Canonical>)
    requires GreatestOf(x, xs) && GreatestOf(y, ys) && multiset(xs) == multiset(ys)
    ensures x.lastSeenAt <= y.lastSeenAt && |Text(x.description)| <= |Text(y.description)|
    ensures Amount(x.amountMin) <= Amount(y.amountMin) && Amount(x.amountMax) <= Amount(y.amountMax)
  {
    forall c | c in xs ensures c in ys {
      assert c in multiset(xs);
    }
    var i :| 0 <= i < |xs| && xs[i].seenAt == x.lastSeenAt;
    assert xs[i] in ys;
    var j :| 0 <= j < |xs| && xs[j].amountMin == Amount(x.amountMin);
    assert xs[j] in ys;
    var k :| 0 <= k < |xs| && xs[k].amountMax == Amount(x.amountMax);
    assert xs[k] in ys;
    var l :| 0 <= l < |xs| && xs[l].description == Text(x.description);
    assert xs[l] in ys;
  }

  /** And on the way no transaction ever lowers any of them. */
  lemma StepNeverLowers(p: Product, s: Step, cid: string)
    requires cid in p.opps
    ensures cid in Apply(p, s).opps
    ensures var o, o' := p.opps[cid], Apply(p, s).opps[cid];
            && o.lastSeenAt <= o'.lastSeenAt && |Text(o.description)| <= |Text(o'.description)|
            && Amount(o.amountMin) <= Amount(o'.amountMin) && Amount(o.amountMax) <= Amount(o'.amountMax)
  {
    if !s.Write? { RetiringKeepsOpportunity(p, s, cid); }
  }

  // ---- The latest record ----

  function LastInstructions(offers: seq<Canonical>): Option<string> {
    if offers == [] then None
    else Coalesce(NullIfEmpty(offers[|offers| - 1].howToApply), LastInstructions(offers[..|offers| - 1]))
  }

  /** The last value any record gave for an optional fact. */
  function LastGiven<T>(offers: seq<Canonical>, get: Facts -> Option<T>): Option<T> {
    if offers == [] then None
    else Coalesce(get(offers[|offers| - 1].facts), LastGiven(offers[..|offers| - 1], get))
  }

  lemma LastGivenAfter<T>(offers: seq<Canonical>, c: Canonical, get: Facts -> Option<T>)
    ensures LastGiven(offers + [c], get) == Coalesce(get(c.facts), LastGiven(offers, get))
  {
    assert (offers + [c])[..|offers|] == offers;
  }

  ghost predicate FactsAreLast(f: Facts, offers: seq<Canonical>) {
    && f.issuingEntity == LastGiven(offers, (x: Facts) => x.issuingEntity)
    && f.country == LastGiven(offers, (x: Facts) => x.country)
    && f.region == LastGiven(offers, (x: Facts) => x.region)
    && f.city == LastGiven(offers, (x: Facts) => x.city)
    && f.currency == LastGiven(offers, (x: Facts) => x.currency)
    && f.employmentType == LastGiven(offers, (x: Facts) => x.employmentType)
    && f.seniority == LastGiven(offers, (x: Facts) => x.seniority)
    && f.geoScope == LastGiven(offers, (x: Facts) => x.geoScope)
    && f.postedAt == LastGiven(offers, (x: Facts) => x.postedAt)
    && f.deadline == LastGiven(offers, (x: Facts) => x.deadline)
  }

  lemma MergedFactsAreLast(c: Canonical, f: Facts, offers: seq<Canonical>)
    requires FactsAreLast(f, offers)
    ensures FactsAreLast(MergeFacts(c.facts, f), offers + [c])
  {
    hide LastGiven;
    LastGivenAfter(offers, c, (x: Facts) => x.issuingEntity);
    LastGivenAfter(offers, c, (x: Facts) => x.country);
    LastGivenAfter(offers, c, (x: Facts) => x.region);
    LastGivenAfter(offers, c, (x: Facts) => x.city);
    LastGivenAfter(offers, c, (x: Facts) => x.currency);
    LastGivenAfter(offers, c, (x: Facts) => x.employmentType);
    LastGivenAfter(offers, c, (x: Facts) => x.seniority);
    LastGivenAfter(offers, c, (x: Facts) => x.geoScope);
    LastGivenAfter(offers, c, (x: Facts) => x.postedAt);
    LastGivenAfter(offers, c, (x: Facts) => x.deadline);
  }

  const NO_FACTS := Facts(None, None, None, None, None, None, None, None, None, None)

  lemma NewFactsAreLast(c: Canonical)
    ensures FactsAreLast(c.facts, [c])
  {
    hide FactsAreLast, MergeFacts;
    NoFactsYet();
    MergedFactsAreLast(c, NO_FACTS, []);
    FactsOverNone(c.facts);
    assert [] + [c] == [c];
  }

  lemma NoFactsYet()
    ensures FactsAreLast(NO_FACTS, [])
  {
  }

  lemma FactsOverNone(f: Facts)
    ensures MergeFacts(f, NO_FACTS) == f
  {
  }

  /** The value the last record that carries a key gave it. */
  function LastAttribute(offers: seq<Canonical>, key: string): Option<Json> {
    if offers == [] then None
    else if key in offers[|offers| - 1].attributes then Some(offers[|offers| - 1].attributes[key])
    else LastAttribute(offers[..|offers| - 1], key)
  }

  function AttributeOf(attributes: map<string, Json>, key: string): Option<Json> {
    if key in attributes then Some(attributes[key]) else None
  }

  /** Every key any record carried, with its last value, the paywalled one apart. */
  ghost predicate AttributesAreLast(attributes: map<string, Json>, offers: seq<Canonical>) {
    forall key :: AttributeOf(attributes, key) == if key == PAYWALLED then None else LastAttribute(offers, key)
  }

  lemma MergedAttributesAreLast(c: Canonical, o: Opportunity, offers: seq<Canonical>)
    requires AttributesAreLast(o.attributes, offers)
    ensures AttributesAreLast(MergeOpportunity(c, o).attributes, offers + [c])
  {
    var merged := MergeOpportunity(c, o).attributes;
    forall key
      ensures AttributeOf(merged, key) == if key == PAYWALLED then None else LastAttribute(offers + [c], key)
    {
      assert (offers + [c])[..|offers|] == offers;
      assert AttributeOf(o.attributes, key) == if key == PAYWALLED then None else LastAttribute(offers, key);
    }
  }

  lemma NewAttributesAreLast(c: Canonical)
    ensures AttributesAreLast(NewOpportunity(c).attributes, [c])
  {
    forall key
      ensures AttributeOf(NewOpportunity(c).attributes, key) ==
              if key == PAYWALLED then None else LastAttribute([c], key)
    {
      assert [c][..0] == [] && LastAttribute([], key) == None;
    }
  }

  /** The row keeps the first record's kind, source and first sighting. It shows the last record's
      title, link and remote flag, every optional fact and attribute as last given, and the last
      application instructions any record carried, however short. */
  ghost predicate FollowsLast(o: Opportunity, offers: seq<Canonical>) {
    && offers != [] && o.howToApply == LastInstructions(offers)
    && FactsAreLast(o.facts, offers) && AttributesAreLast(o.attributes, offers)
    && o.kind == offers[0].kind && o.sourceId == offers[0].sourceId && o.firstSeenAt == offers[0].seenAt
    && var last := offers[|offers| - 1];
       o.title == last.title && o.applyUrl == last.applyUrl && o.remote == last.remote
  }

  ghost predicate RowFollowsLast(p: Product, hardKey: string, offers: seq<Canonical>) {
    && (hardKey in p.identities <==> offers != [])
    && (hardKey in p.identities ==>
          p.identities[hardKey] in p.opps && FollowsLast(p.opps[p.identities[hardKey]], offers))
  }

  lemma MergeFollowsLast(c: Canonical, o: Opportunity, offers: seq<Canonical>, visible: bool)
    requires FollowsLast(o, offers) && c.title != "" && c.applyUrl != ""
    ensures FollowsLast(WithVisibility(MergeOpportunity(c, o), visible), offers + [c])
  {
    hide FactsAreLast, MergeFacts, AttributesAreLast;
    MergedFactsAreLast(c, o.facts, offers);
    MergedAttributesAreLast(c, o, offers);
    assert (offers + [c])[..|offers|] == offers;
  }

  lemma NewRowFollowsLast(c: Canonical, visible: bool)
    ensures FollowsLast(WithVisibility(NewOpportunity(c), visible), [c])
  {
    hide FactsAreLast, AttributesAreLast;
    NewFactsAreLast(c);
    NewAttributesAreLast(c);
    assert LastInstructions([c][..0]) == None;
  }

  lemma WriteOfKeyFollowsLast(p: Product, c: Canonical, offers: seq<Canonical>)
    requires IdsUnique(p) && RowFollowsLast(p, c.hardKey, offers) && Resolve(p, c).Ok?
    ensures RowFollowsLast(WriteStep(p, c), c.hardKey, offers + [c])
  {
    hide FollowsLast, MergeOpportunity, NewOpportunity, WithVisibility, HasActive, MergeLineage, NewLineage;
    var cid := Resolve(p, c).value;
    var visible := HasActive(WriteAs(p, cid, c).lineage, cid);
    if c.hardKey in p.identities {
      MergeFollowsLast(c, p.opps[cid], offers, visible);
    } else {
      assert offers + [c] == [c];
      assert cid !in p.opps;
      NewRowFollowsLast(c, visible);
    }
  }

  lemma OtherStepFollowsLast(p: Product, s: Step, hardKey: string, offers: seq<Canonical>)
    requires IdsUnique(p) && RowFollowsLast(p, hardKey, offers)
    requires s.Write? ==> s.c.hardKey != hardKey || Resolve(p, s.c).Err?
    ensures RowFollowsLast(Apply(p, s), hardKey, offers)
  {
    if s.Write? {
      hide FollowsLast, MergeOpportunity, NewOpportunity, WithVisibility, HasActive, MergeLineage, NewLineage;
      assert Resolve(p, s.c).Ok? && hardKey in p.identities ==> p.identities[hardKey] != Resolve(p, s.c).value;
    } else {
      RetiringKeepsIdentities(p, s);
      if hardKey in p.identities { RetiringKeepsOpportunity(p, s, p.identities[hardKey]); }
    }
  }

  /** After any sequence of transactions the row of a hard key follows the last record merged into
      it. For the application instructions the comparison of lengths never decides anything: a
      shorter text replaces a longer one. */
  lemma {:induction false} MergedRowFollowsLast(steps: seq<Step>, hardKey: string)
    ensures RowFollowsLast(Exec(steps), hardKey, Offers(steps, hardKey))
  {
    if steps != [] {
      hide FollowsLast, IdsUnique, RowFollowsLast, WriteAs, Resolve, ReconcileStep, DeactivateStep;
      var init, s := steps[..|steps| - 1], steps[|steps| - 1];
      MergedRowFollowsLast(init, hardKey);
      IdentityIsStable(init, |init|, hardKey);
      if s.Write? && s.c.hardKey == hardKey && Resolve(Exec(init), s.c).Ok? {
        WriteOfKeyFollowsLast(Exec(init), s.c, Offers(init, hardKey));
      } else {
        OtherStepFollowsLast(Exec(init), s, hardKey, Offers(init, hardKey));
      }
    } else {
      assert EMPTY_PRODUCT.identities == map[];
    }
  }

  ghost predicate InstructionsHeldBack(p: Product) {
    forall cid :: cid in p.opps ==> PAYWALLED !in p.opps[cid].attributes
  }

  lemma StepHoldsBack(p: Product, s: Step)
    requires InstructionsHeldBack(p)
    ensures InstructionsHeldBack(Apply(p, s))
  {
    if !s.Write? {
      forall cid | cid in Apply(p, s).opps ensures PAYWALLED !in Apply(p, s).opps[cid].attributes {
        assert cid in p.opps;
        RetiringKeepsOpportunity(p, s, cid);
      }
    }
  }

  /** Whatever attributes the records carry, no serving row ever exposes application instructions
      among its public attributes. */
  lemma {:induction false} InstructionsNeverLeak(steps: seq<Step>)
    ensures InstructionsHeldBack(Exec(steps))
  {
    if steps != [] {
      hide Apply;
      InstructionsNeverLeak(steps[..|steps| - 1]);
      StepHoldsBack(Exec(steps[..|steps| - 1]), steps[|steps| - 1]);
    }
  }

  // ---- Reconciliation ----

  /** What happened to a lineage row: the greatest time it was seen, the start of the last reconcile
      of its source, the start of the last one that began after everything seen until then, and
      whether its source was deactivated since its last write. */
  datatype History = History(seen: Option<Time>, reconciled: Option<Time>, retired: Option<Time>, closed: bool)

  predicate Hits(p: Product, c: Canonical, k: LineageKey) {
    Resolve(p, c).Ok? && KeyOf(Resolve(p, c).value, c) == k
  }

  function Later(seen: Option<Time>, at: Time): Option<Time> { Some(if seen.None? then at else Max(seen.value, at)) }

  function Observe(h: History, p: Product, s: Step, k: LineageKey): History {
    match s
    case Write(c) => if Hits(p, c, k) then h.(seen := Later(h.seen, c.seenAt), closed := false) else h
    case Reconcile(source, at) =>
      if source != k.sourceId || h.seen.None? then h
      else h.(reconciled := Some(at), retired := if h.seen.value < at then Some(at) else h.retired)
    case Deactivate(source, _) =>
      if source != k.sourceId || h.seen.None? then h else h.(closed := true)
  }

  function HistoryOf(steps: seq<Step>, k: LineageKey): History {
    if steps == [] then History(None, None, None, false)
    else
      var init := steps[..|steps| - 1];
      Observe(HistoryOf(init, k), Exec(init), steps[|steps| - 1], k)
  }

  predicate Unretired(h: History) {
    h.retired.None? || (h.seen.Some? && h.seen.value >= h.retired.value)
  }

  /** The row as its history leaves it; a retired row remembers which reconcile retired it. */
  predicate Settled(l: Lineage, h: History) {
    && h.seen == Some(l.lastSeenAt)
    && l.inactiveAfter == (if Unretired(h) then None else h.retired)
    && (l.active <==> Unretired(h) && !h.closed)
  }

  predicate RowSettled(p: Product, k: LineageKey, h: History) {
    && (k in p.lineage <==> h.seen.Some?)
    && (k in p.lineage ==> Settled(p.lineage[k], h))
    // a reconcile that began after everything seen is a retiring one
    && (h.reconciled.Some? && h.seen.Some? && h.seen.value < h.reconciled.value ==> h.retired == h.reconciled)
    && (h.seen.None? ==> h.reconciled.None? && h.retired.None? && !h.closed)
    && (h.retired.Some? ==> h.reconciled.Some?)
  }

  lemma WriteSettles(p: Product, c: Canonical, k: LineageKey, h: History)
    requires RowSettled(p, k, h)
    ensures RowSettled(WriteStep(p, c), k, Observe(h, p, Write(c), k))
  {
    hide HasActive, MergeOpportunity, NewOpportunity;
  }

  lemma ReconcileSettles(p: Product, source: string, at: Time, k: LineageKey, h: History)
    requires RowSettled(p, k, h)
    ensures RowSettled(ReconcileStep(p, source, at), k, Observe(h, p, Reconcile(source, at), k))
  {
    hide HideOrphans;
  }

  lemma DeactivateSettles(p: Product, source: string, reason: string, k: LineageKey, h: History)
    requires RowSettled(p, k, h)
    ensures RowSettled(DeactivateStep(p, source, reason), k, Observe(h, p, Deactivate(source, reason), k))
  {
    hide HideOrphans;
  }

  lemma {:induction false} LineageSettles(steps: seq<Step>, k: LineageKey)
    ensures RowSettled(Exec(steps), k, HistoryOf(steps, k))
  {
    if steps != [] {
      hide RowSettled, Observe, WriteStep, ReconcileStep, DeactivateStep;
      var init, h := steps[..|steps| - 1], HistoryOf(steps[..|steps| - 1], k);
      LineageSettles(init, k);
      match steps[|steps| - 1]
      case Write(c) => WriteSettles(Exec(init), c, k, h);
      case Reconcile(source, at) => ReconcileSettles(Exec(init), source, at, k, h);
      case Deactivate(source, reason) => DeactivateSettles(Exec(init), source, reason, k, h);
    }
  }

  /** After any sequence of writes, reconciles and deactivations, in any order and however late, a
      lineage row is active exactly when it was seen at or after the start of the last reconcile
      that retired it, and written since its source was last deactivated. */
  lemma LineageIsActiveIff(steps: seq<Step>, k: LineageKey)
    ensures var h := HistoryOf(steps, k);
            && (k in Exec(steps).lineage <==> h.seen.Some?)
            && (k in Exec(steps).lineage ==>
                  && h.seen == Some(Exec(steps).lineage[k].lastSeenAt)
                  && (Exec(steps).lineage[k].active <==> Unretired(h) && !h.closed))
  {
    LineageSettles(steps, k);
  }

  /** The rule "active exactly when seen at or after the start of the last reconcile". */
  predicate LastReconcileDecides(p: Product, k: LineageKey, h: History)
    requires k in p.lineage
  {
    p.lineage[k].active <==> h.reconciled.None? || (h.seen.Some? && h.seen.value >= h.reconciled.value)
  }

  /** The rule is broken for a row exactly when its last sighting passes the last reconcile but
      not an earlier one that started later, or passes but precedes a deactivation. */
  lemma LastReconcileDecidesIff(steps: seq<Step>, k: LineageKey)
    requires k in Exec(steps).lineage
    ensures var h := HistoryOf(steps, k);
            && h.seen.Some?
            && (LastReconcileDecides(Exec(steps), k, h) <==>
                  !(&& (h.reconciled.None? || h.reconciled.value <= h.seen.value)
                    && (h.closed || (h.retired.Some? && h.seen.value < h.retired.value))))
  {
    LineageSettles(steps, k);
  }

  predicate SameSource(a: Step, b: Step) { a.Reconcile? && b.Reconcile? && a.source == b.source }

  /** Full crawls of a source are reconciled in the order they started, and none is deactivated. */
  ghost predicate Orderly(steps: seq<Step>) {
    && (forall i :: 0 <= i < |steps| ==> !steps[i].Deactivate?)
    && (forall i, j :: 0 <= i < j < |steps| && SameSource(steps[i], steps[j]) ==>
          steps[i].startedAt <= steps[j].startedAt)
  }

  predicate ReconcileOf(s: Step, k: LineageKey, at: Time) {
    s.Reconcile? && s.source == k.sourceId && s.startedAt == at
  }

  lemma {:induction false} OrderlyHistory(steps: seq<Step>, k: LineageKey)
    requires Orderly(steps)
    ensures var h := HistoryOf(steps, k);
            && !h.closed
            && (h.reconciled.Some? ==> exists i :: 0 <= i < |steps| && ReconcileOf(steps[i], k, h.reconciled.value))
            && (h.retired.Some? ==> h.reconciled.Some? && h.retired.value <= h.reconciled.value)
  {
    if steps != [] {
      hide Exec, Hits;
      var init, s := steps[..|steps| - 1], steps[|steps| - 1];
      assert forall i :: 0 <= i < |init| ==> init[i] == steps[i];
      OrderlyHistory(init, k);
      var before, h := HistoryOf(init, k), HistoryOf(steps, k);
      if before.reconciled.Some? {
        var i :| 0 <= i < |init| && ReconcileOf(init[i], k, before.reconciled.value);
        assert ReconcileOf(steps[i], k, before.reconciled.value);
        assert s.Reconcile? && s.source == k.sourceId ==> SameSource(steps[i], s);
      }
      if h.reconciled != before.reconciled {
        assert ReconcileOf(steps[|init|], k, h.reconciled.value);
      }
    }
  }

  /** In particular the rule holds when reconciles come in the order their crawls started and
      nothing is deactivated, however late or reordered the writes are. */
  lemma ReconciledLineageIsActiveIffSeen(steps: seq<Step>, k: LineageKey)
    requires Orderly(steps) && k in Exec(steps).lineage
    ensures LastReconcileDecides(Exec(steps), k, HistoryOf(steps, k))
  {
    hide Orderly;
    OrderlyHistory(steps, k);
    LastReconcileDecidesIff(steps, k);
  }

  /** Deactivation leaves no mark a write respects: the next write of the row brings it back
      unless a reconcile retired it after that sighting, even when the sighting is older than the
      deactivation. */
  lemma WriteRevivesIff(p: Product, c: Canonical, reason: string)
    requires Resolve(p, c).Ok? && KeyOf(Resolve(p, c).value, c) in p.lineage
    ensures var cid := Resolve(p, c).value;
            var k := KeyOf(cid, c);
            var p' := WriteStep(DeactivateStep(p, c.sourceId, reason), c);
            && k in p'.lineage && cid in p'.opps
            && (p'.lineage[k].active <==>
                  p.lineage[k].inactiveAfter.None? || c.seenAt >= p.lineage[k].inactiveAfter.value)
            && (p'.lineage[k].active ==> !p'.opps[cid].hidden)
  {
    hide MergeOpportunity, NewOpportunity, HideOrphans;
    var k := KeyOf(Resolve(p, c).value, c);
    assert Resolve(DeactivateStep(p, c.sourceId, reason), c) == Resolve(p, c);
    var p' := WriteStep(DeactivateStep(p, c.sourceId, reason), c);
    assert p'.lineage[k].active ==> HasActive(p'.lineage, k.canonicalId);
  }

  /** The latest sighting written to a lineage row; among equally late ones the last written. */
  function LatestSighting(steps: seq<Step>, k: LineageKey): Option<Canonical> {
    if steps == [] then None
    else
      var init, s := steps[..|steps| - 1], steps[|steps| - 1];
      var before := LatestSighting(init, k);
      if s.Write? && Hits(Exec(init), s.c, k) && (before.None? || s.c.seenAt >= before.value.seenAt)
      then Some(s.c) else before
  }

  ghost predicate CreditsCrawl(p: Product, k: LineageKey, latest: Option<Canonical>) {
    && (k in p.lineage <==> latest.Some?)
    && (k in p.lineage ==>
          && p.lineage[k].lastSeenAt == latest.value.seenAt
          && p.lineage[k].lastCrawlRunId == NullIfEmpty(latest.value.crawlRunId))
  }

  lemma WriteCredits(p: Product, c: Canonical, k: LineageKey, latest: Option<Canonical>)
    requires CreditsCrawl(p, k, latest)
    ensures var newer := Hits(p, c, k) && (latest.None? || c.seenAt >= latest.value.seenAt);
            CreditsCrawl(WriteStep(p, c), k, if newer then Some(c) else latest)
  {
    hide HasActive, MergeOpportunity, NewOpportunity;
  }

  lemma RetiringCredits(p: Product, s: Step, k: LineageKey, latest: Option<Canonical>)
    requires CreditsCrawl(p, k, latest) && !s.Write?
    ensures CreditsCrawl(Apply(p, s), k, latest)
  {
    hide HideOrphans;
  }

  /** Through any writes, reconciles and deactivations, however late, a lineage row credits the
      crawl run of its latest sighting. */
  lemma {:induction false} LineageCreditsLatestCrawl(steps: seq<Step>, k: LineageKey)
    ensures CreditsCrawl(Exec(steps), k, LatestSighting(steps, k))
  {
    if steps != [] {
      hide CreditsCrawl, Resolve, WriteStep, ReconcileStep, DeactivateStep;
      var init, s := steps[..|steps| - 1], steps[|steps| - 1];
      LineageCreditsLatestCrawl(init, k);
      if s.Write? {
        WriteCredits(Exec(init), s.c, k, LatestSighting(init, k));
      } else {
        RetiringCredits(Exec(init), s, k, LatestSighting(init, k));
      }
    } else {
      assert EMPTY_PRODUCT.lineage == map[];
    }
  }

  /** An accepted write leaves a lineage row under its canonical id, source and external id, and
      creates no other. */
  lemma WriteRecordsLineage(p: Product, c: Canonical)
    requires Resolve(p, c).Ok?
    ensures WriteStep(p, c).lineage.Keys ==
            p.lineage.Keys + {LineageKey(Resolve(p, c).value, c.sourceId, c.externalId)}
    ensures WriteStep(p, c).opps.Keys == p.opps.Keys + {Resolve(p, c).value}
  {
  }

  /** The records written to a lineage row, in order. */
  function WritesTo(steps: seq<Step>, k: LineageKey): seq<Canonical> {
    if steps == [] then []
    else
      var init, s := steps[..|steps| - 1], steps[|steps| - 1];
      if s.Write? && Hits(Exec(init), s.c, k) then WritesTo(init, k) + [s.c] else WritesTo(init, k)
  }

  function LastHash(writes: seq<Canonical>): Option<string> {
    if writes == [] then None
    else Coalesce(ContentHash(writes[|writes| - 1]), LastHash(writes[..|writes| - 1]))
  }

  /** The row keeps its first sighting and shows the last record's link and the last hash given. */
  ghost predicate LineageFollows(p: Product, k: LineageKey, writes: seq<Canonical>) {
    && (k in p.lineage <==> writes != [])
    && (k in p.lineage ==>
          && p.lineage[k].firstSeenAt == writes[0].seenAt
          && p.lineage[k].applyUrl == writes[|writes| - 1].applyUrl
          && p.lineage[k].contentHash == LastHash(writes))
  }

  lemma LineageAfterWrite(p: Product, c: Canonical)
    requires Resolve(p, c).Ok?
    ensures var k := KeyOf(Resolve(p, c).value, c);
            WriteStep(p, c).lineage ==
            p.lineage[k := if k in p.lineage then MergeLineage(c, p.lineage[k]) else NewLineage(c)]
  {
  }

  lemma OthersAfterWrite(p: Product, c: Canonical, k: LineageKey)
    requires !Hits(p, c, k)
    ensures k in WriteStep(p, c).lineage <==> k in p.lineage
    ensures k in p.lineage ==> WriteStep(p, c).lineage[k] == p.lineage[k]
  {
  }

  lemma WriteFollows(p: Product, c: Canonical, k: LineageKey, writes: seq<Canonical>)
    requires LineageFollows(p, k, writes)
    ensures LineageFollows(WriteStep(p, c), k, if Hits(p, c, k) then writes + [c] else writes)
  {
    hide WriteStep, ContentHash;
    if Hits(p, c, k) { LineageAfterWrite(p, c); } else { OthersAfterWrite(p, c, k); }
    var all := writes + [c];
    assert all[..|all| - 1] == writes && all[|all| - 1] == c && all[0] == if writes == [] then c else writes[0];
    assert LastHash(all) == Coalesce(ContentHash(c), LastHash(writes));
    assert writes == [] ==> LastHash(writes) == None;
  }

  lemma RetiringFollows(p: Product, s: Step, k: LineageKey, writes: seq<Canonical>)
    requires LineageFollows(p, k, writes) && !s.Write?
    ensures LineageFollows(Apply(p, s), k, writes)
  {
    hide HideOrphans;
  }

  /** Through any writes, reconciles and deactivations a lineage row keeps its first sighting and
      shows the link of its last write and the last content hash any write gave. */
  lemma {:induction false} LineageFollowsWrites(steps: seq<Step>, k: LineageKey)
    ensures LineageFollows(Exec(steps), k, WritesTo(steps, k))
  {
    if steps != [] {
      hide LineageFollows, Hits, WriteStep, ReconcileStep, DeactivateStep;
      var init, s := steps[..|steps| - 1], steps[|steps| - 1];
      LineageFollowsWrites(init, k);
      if s.Write? {
        WriteFollows(Exec(init), s.c, k, WritesTo(init, k));
      } else {
        RetiringFollows(Exec(init), s, k, WritesTo(init, k));
      }
    } else {
      assert EMPTY_PRODUCT.lineage == map[];
    }
  }

  /** The order of reconciles matters: reconciling an earlier crawl last leaves a row inactive
      that was seen after that crawl started. */
  lemma LateReconcileOfEarlierCrawl(c: Canonical)
    requires Resolve(EMPTY_PRODUCT, c).Ok? && c.seenAt == 5
    ensures var steps := [Write(c), Reconcile(c.sourceId, 10), Reconcile(c.sourceId, 3)];
            var k := KeyOf(c.candidateId, c);
            && HistoryOf(steps, k) == History(Some(5), Some(3), Some(10), false)
            && k in Exec(steps).lineage && !Exec(steps).lineage[k].active
  {
    var k := KeyOf(c.candidateId, c);
    var one, two := [Write(c)], [Write(c), Reconcile(c.sourceId, 10)];
    var steps := [Write(c), Reconcile(c.sourceId, 10), Reconcile(c.sourceId, 3)];
    assert one[..0] == [] && two[..1] == one && steps[..2] == two;
    assert HistoryOf([], k) == History(None, None, None, false) && Exec([]) == EMPTY_PRODUCT;
    hide Exec;
    assert HistoryOf(one, k) == History(Some(5), None, None, false);
    assert HistoryOf(two, k) == History(Some(5), Some(10), Some(10), false);
    LineageIsActiveIff(steps, k);
  }
}
