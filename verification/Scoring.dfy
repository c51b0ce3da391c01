/** The match score, over exact reals. */
module Scoring {
  import opened Prelude
  import opened FrontierBackoff

  type Time = int

  datatype Weights = Weights(cosine: real, skills: real, geo: real, salary: real, stale: real)

  const DEFAULT_WEIGHTS := Weights(0.82, 0.08, 0.06, 0.04, 0.05)
  const NO_WEIGHTS := Weights(0.0, 0.0, 0.0, 0.0, 0.0)

  const DAY: int := 86_400 * SECOND

  function CosineFromPGDistance(distance: real): real {
    var c := 1.0 - distance / 2.0;
    if c < 0.0 then 0.0 else if c > 1.0 then 1.0 else c
  }

  function BlendFromCosine(cosine: real, weights: Weights): real {
    var w := if weights == NO_WEIGHTS then DEFAULT_WEIGHTS else weights;
    var c := if cosine < 0.0 then 0.0 else if cosine > 1.0 then 1.0 else cosine;
    var total := w.cosine * c + w.skills + w.geo + w.salary;
    if total < 0.0 then 0.0 else total
  }

  function LowerChar(c: char): char {
    if 'A' <= c <= 'Z' then (c as int + 32) as char else c
  }

  function Lower(s: string): string { seq(|s|, i requires 0 <= i < |s| => LowerChar(s[i])) }

  /** The candidate's skill is among the opportunity's, whatever the case. */
  predicate Named(skill: string, opp: seq<string>) { exists s :: s in opp && Lower(s) == Lower(skill) }

  function SharedSkills(cand: seq<string>, opp: seq<string>): nat {
    if cand == [] then 0
    else SharedSkills(cand[..|cand| - 1], opp)
         + (if Named(cand[|cand| - 1], opp) then 1 else 0)
  }

  function SkillsOverlap(cand: seq<string>, opp: seq<string>): real {
    if |cand| == 0 || |opp| == 0 then 1.0 else SharedSkills(cand, opp) as real / |cand| as real
  }

  predicate Accepts(country: string, oppCountry: string) {
    Lower(country) == Lower(oppCountry) || Lower(country) == Lower("remote")
  }

  function GeoMatch(countries: seq<string>, oppCountry: string): real {
    if |countries| == 0 || oppCountry == "" || exists c :: c in countries && Accepts(c, oppCountry) then 1.0 else 0.0
  }

  function SalaryFit(floor: Option<int>, max: Option<int>): real {
    if floor.None? || max.None? || max.value >= floor.value then 1.0 else 0.0
  }

  function StalePenalty(firstSeen: Option<Time>, now: Time): real {
    if firstSeen.None? then 0.0
    else
      var age := now - firstSeen.value;
      if age <= 7 * DAY then 0.0
      else if age >= 60 * DAY then 1.0
      else (age - 7 * DAY) as real / (53 * DAY) as real
  }

  method ComputeSkillsOverlap(cand: seq<string>, opp: seq<string>) returns (r: real)
    ensures r == SkillsOverlap(cand, opp)
  {
    if |cand| == 0 || |opp| == 0 { return 1.0; }
    var want := set s | s in opp :: Lower(s);
    var hits := 0;
    for i := 0 to |cand|
      invariant hits == SharedSkills(cand[..i], opp)
    {
      assert cand[..i + 1][..i] == cand[..i];
      if Lower(cand[i]) in want { hits := hits + 1; }
    }
    assert cand[..|cand|] == cand;
    r := hits as real / |cand| as real;
  }

  method ComputeGeoMatch(countries: seq<string>, oppCountry: string) returns (r: real)
    ensures r == GeoMatch(countries, oppCountry)
  {
    if |countries| == 0 || oppCountry == "" { return 1.0; }
    for i := 0 to |countries|
      invariant forall j :: 0 <= j < i ==> !Accepts(countries[j], oppCountry)
    {
      if Accepts(countries[i], oppCountry) { return 1.0; }
    }
    return 0.0;
  }

  // ---- What the terms mean ----

  /** Similarity falls in a straight line from 1 at distance 0 through a half at 1 to 0 at 2, and is
      held at the ends beyond. */
  lemma CosineIsLinear(distance: real)
    ensures 0.0 <= distance <= 2.0 ==> 2.0 * CosineFromPGDistance(distance) + distance == 2.0
    ensures distance <= 0.0 ==> CosineFromPGDistance(distance) == 1.0
    ensures distance >= 2.0 ==> CosineFromPGDistance(distance) == 0.0
  {
  }

  /** No penalty for a week or without a date, the full penalty from sixty days on, and in between a
      straight line over the fifty-three days, so without a jump at either end. */
  lemma PenaltyIsLinear(seen: Time, now: Time)
    ensures StalePenalty(None, now) == 0.0
    ensures now - seen <= 7 * DAY ==> StalePenalty(Some(seen), now) == 0.0
    ensures now - seen >= 60 * DAY ==> StalePenalty(Some(seen), now) == 1.0
    ensures 7 * DAY <= now - seen <= 60 * DAY ==>
              StalePenalty(Some(seen), now) * (53 * DAY) as real == (now - seen) as real - (7 * DAY) as real
  {
  }

  /** The same letter in the other case. */
  predicate OtherCase(a: char, b: char) {
    ('A' <= a <= 'Z' && b as int == a as int + 32) || ('A' <= b <= 'Z' && a as int == b as int + 32)
  }

  /** Labels are compared letter by letter without regard to case. */
  lemma FoldsCaseIff(a: string, b: string)
    ensures Lower(a) == Lower(b) <==> |a| == |b| && forall i :: 0 <= i < |a| ==> a[i] == b[i] || OtherCase(a[i], b[i])
  {
    if |a| == |b| {
      forall i | 0 <= i < |a| ensures Lower(a)[i] == Lower(b)[i] <==> a[i] == b[i] || OtherCase(a[i], b[i]) {
      }
    } else {
      assert |Lower(a)| != |Lower(b)|;
    }
  }

  /** A country misses exactly when both sides are known, none of the candidate's countries is the
      opportunity's, and none is the word for anywhere. */
  lemma GeoMissesIff(countries: seq<string>, oppCountry: string)
    ensures GeoMatch(countries, oppCountry) == 0.0 <==>
            && countries != [] && oppCountry != ""
            && forall c :: c in countries ==> Lower(c) != Lower(oppCountry) && Lower(c) != "remote"
    ensures GeoMatch(countries, oppCountry) == 0.0 || GeoMatch(countries, oppCountry) == 1.0
  {
    assert Lower("remote") == "remote";
  }

  /** Missing data is neutral; a known salary below the floor scores nothing. */
  lemma SalaryMissesIff(floor: Option<int>, max: Option<int>)
    ensures SalaryFit(floor, max) == 0.0 <==> floor.Some? && max.Some? && max.value < floor.value
    ensures SalaryFit(floor, max) == 0.0 || SalaryFit(floor, max) == 1.0
  {
  }

  lemma {:induction false} SharedEnds(cand: seq<string>, opp: seq<string>)
    ensures SharedSkills(cand, opp) <= |cand|
    ensures SharedSkills(cand, opp) == |cand| <==> forall s :: s in cand ==> Named(s, opp)
    ensures SharedSkills(cand, opp) == 0 <==> forall s :: s in cand ==> !Named(s, opp)
  {
    if cand != [] {
      var init, s := cand[..|cand| - 1], cand[|cand| - 1];
      SharedEnds(init, opp);
      assert cand == init + [s];
    }
  }

  /** The overlap is full exactly when a side is missing or every skill of the candidate is named,
      and nothing exactly when both are there and none is. */
  lemma OverlapEnds(cand: seq<string>, opp: seq<string>)
    ensures SkillsOverlap(cand, opp) == 1.0 <==> cand == [] || opp == [] || forall s :: s in cand ==> Named(s, opp)
    ensures SkillsOverlap(cand, opp) == 0.0 <==> cand != [] && opp != [] && forall s :: s in cand ==> !Named(s, opp)
  {
    hide SharedSkills, Named;
    SharedEnds(cand, opp);
    if cand != [] && opp != [] { ShareInUnit(SharedSkills(cand, opp), |cand|); }
  }

  lemma ShareInUnit(part: nat, whole: nat)
    requires part <= whole && whole > 0
    ensures 0.0 <= part as real / whole as real <= 1.0
    ensures part as real / whole as real == 1.0 <==> part == whole
    ensures part as real / whole as real == 0.0 <==> part == 0
  {
    var q := part as real / whole as real;
    assert q * whole as real == part as real;
    if part < whole { assert part as real < whole as real; }
  }

  // ---- The two paths ----

  /** What the match index knows of a candidate. */
  datatype Candidate = Candidate(
    id: string, enabled: bool, kinds: seq<string>, countries: seq<string>, skills: seq<string>,
    salaryFloor: Option<int>, minScore: real, dailyCap: int, weeklyCap: int)

  datatype Opening = Opening(
    id: string, kind: string, country: string, salaryMax: Option<int>, firstSeenAt: Option<Time>, skills: seq<string>)

  function Total(w: Weights, cosine: real, skills: real, geo: real, salary: real, stale: real): real {
    var total := w.cosine * cosine + w.skills * skills + w.geo * geo + w.salary * salary - w.stale * stale;
    if total < 0.0 then 0.0 else total
  }

  /** Each term carries its own weight: alone at its full value it scores exactly that weight, and
      staleness alone takes the score to zero. */
  lemma TermsCarryTheirWeights(w: Weights)
    requires NonNegative(w)
    ensures Total(w, 1.0, 0.0, 0.0, 0.0, 0.0) == w.cosine && Total(w, 0.0, 1.0, 0.0, 0.0, 0.0) == w.skills
    ensures Total(w, 0.0, 0.0, 1.0, 0.0, 0.0) == w.geo && Total(w, 0.0, 0.0, 0.0, 1.0, 0.0) == w.salary
    ensures Total(w, 0.0, 0.0, 0.0, 0.0, 1.0) == 0.0
    ensures w.stale <= w.cosine ==> Total(w, 1.0, 0.0, 0.0, 0.0, 1.0) == w.cosine - w.stale
  {
  }

  /** Fan-out scores without the candidate's skills. */
  function FanTotal(c: Candidate, o: Opening, distance: real, w: Weights, now: Time): real {
    Total(w, CosineFromPGDistance(distance), SkillsOverlap([], o.skills), GeoMatch(c.countries, o.country),
          SalaryFit(c.salaryFloor, o.salaryMax), StalePenalty(o.firstSeenAt, now))
  }

  /** Gap-fill scores without the opportunity's skills and salary. */
  function GapTotal(c: Candidate, o: Opening, distance: real, w: Weights, now: Time): real {
    Total(w, CosineFromPGDistance(distance), SkillsOverlap(c.skills, []), GeoMatch(c.countries, o.country),
          SalaryFit(c.salaryFloor, None), StalePenalty(o.firstSeenAt, now))
  }

  /** The WHERE clause of the fan-out query. */
  predicate PassesFanOutFilter(c: Candidate, o: Opening) {
    && c.enabled && o.kind in c.kinds
    && (o.country == "" || |c.countries| == 0 || o.country in c.countries || "remote" in c.countries)
    && (o.salaryMax.None? || c.salaryFloor.None? || c.salaryFloor.value <= o.salaryMax.value)
  }

  predicate NonNegative(w: Weights) {
    w.cosine >= 0.0 && w.skills >= 0.0 && w.geo >= 0.0 && w.salary >= 0.0 && w.stale >= 0.0
  }

  /** For a pair the fan-out query lets through, both paths give the same total, and it is the
      legacy blend of the same cosine less the staleness term, clamped at zero. */
  lemma PathsAgree(c: Candidate, o: Opening, distance: real, w: Weights, now: Time)
    requires PassesFanOutFilter(c, o) && NonNegative(w) && w != NO_WEIGHTS
    ensures FanTotal(c, o, distance, w, now) == GapTotal(c, o, distance, w, now)
    ensures var blended := BlendFromCosine(CosineFromPGDistance(distance), w)
                           - w.stale * StalePenalty(o.firstSeenAt, now);
            FanTotal(c, o, distance, w, now) == if blended < 0.0 then 0.0 else blended
  {
    if o.country in c.countries { assert Accepts(o.country, o.country); }
    if "remote" in c.countries { assert Accepts("remote", o.country); }
    assert GeoMatch(c.countries, o.country) == 1.0 && SalaryFit(c.salaryFloor, o.salaryMax) == 1.0;
    assert w.cosine * CosineFromPGDistance(distance) >= 0.0;
  }

  /** The paths agree exactly when the salary fits, carries no weight, or the total is clamped to
      zero anyway: gap-fill never sees the salary, and nothing else tells them apart. */
  lemma PathsAgreeIff(c: Candidate, o: Opening, distance: real, w: Weights, now: Time)
    requires NonNegative(w)
    ensures FanTotal(c, o, distance, w, now) == GapTotal(c, o, distance, w, now)
            <==> || SalaryFit(c.salaryFloor, o.salaryMax) == 1.0 || w.salary == 0.0
                 || GapTotal(c, o, distance, w, now) == 0.0
    ensures FanTotal(c, o, distance, w, now) <= GapTotal(c, o, distance, w, now)
  {
    assert SalaryFit(c.salaryFloor, o.salaryMax) == 1.0 || SalaryFit(c.salaryFloor, o.salaryMax) == 0.0;
  }

  /** With the default weights they agree exactly when the salary fits, at any distance and age. */
  lemma DefaultPathsAgreeIff(c: Candidate, o: Opening, distance: real, now: Time)
    ensures FanTotal(c, o, distance, DEFAULT_WEIGHTS, now) == GapTotal(c, o, distance, DEFAULT_WEIGHTS, now)
            <==> SalaryFit(c.salaryFloor, o.salaryMax) == 1.0
  {
    PenaltyInUnit(o.firstSeenAt, now);
  }

  lemma PenaltyInUnit(firstSeen: Option<Time>, now: Time)
    ensures 0.0 <= StalePenalty(firstSeen, now) <= 1.0
  {
  }

  lemma PenaltyGrowsWithAge(firstSeen: Option<Time>, now: Time, later: Time)
    requires now <= later
    ensures StalePenalty(firstSeen, now) <= StalePenalty(firstSeen, later)
  {
    PenaltyInUnit(firstSeen, now);
    PenaltyInUnit(firstSeen, later);
  }

  lemma OverlapInUnit(cand: seq<string>, opp: seq<string>)
    ensures 0.0 <= SkillsOverlap(cand, opp) <= 1.0
  {
    hide SharedSkills, Named;
    if |cand| > 0 && |opp| > 0 {
      SharedEnds(cand, opp);
      ShareInUnit(SharedSkills(cand, opp), |cand|);
    }
  }

  /** With the default weights a score lies in [0, 1] and never rises with distance or age,
      whatever the other features are. */
  lemma DefaultScoreIsMonotone(c: Candidate, o: Opening, near: real, far: real, now: Time, later: Time)
    requires near <= far && now <= later
    ensures 0.0 <= FanTotal(c, o, far, DEFAULT_WEIGHTS, later) <= FanTotal(c, o, near, DEFAULT_WEIGHTS, now) <= 1.0
    ensures 0.0 <= GapTotal(c, o, far, DEFAULT_WEIGHTS, later) <= GapTotal(c, o, near, DEFAULT_WEIGHTS, now) <= 1.0
  {
    PenaltyInUnit(o.firstSeenAt, now);
    PenaltyGrowsWithAge(o.firstSeenAt, now, later);
    assert CosineFromPGDistance(far) <= CosineFromPGDistance(near) <= 1.0;
  }

  /** Both features present, the score still lies in [0, 1] for every similarity in [0, 1]. */
  lemma DefaultScoreInUnit(c: Candidate, o: Opening, cosine: real, now: Time)
    requires 0.0 <= cosine <= 1.0
    ensures 0.0 <= Total(DEFAULT_WEIGHTS, cosine, SkillsOverlap(c.skills, o.skills), GeoMatch(c.countries, o.country),
                         SalaryFit(c.salaryFloor, o.salaryMax), StalePenalty(o.firstSeenAt, now)) <= 1.0
  {
    OverlapInUnit(c.skills, o.skills);
    PenaltyInUnit(o.firstSeenAt, now);
  }
}
