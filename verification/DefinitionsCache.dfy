/**
  The definitions loader: a cache keyed by type and name, refreshed from the object store by
  comparing ETags, patched by push invalidations, and announcing every change to subscribers.
  One refresh is one atomic step. ETags and the timestamp versions that invalidation makes up
  are different things, so they are different constructors.
 */
module DefinitionsCache {
  import opened Prelude

  datatype Kind = KindDef | PromptDef | ConnectorDef | SeedDef

  datatype Version = ETag(tag: string) | Stamp(at: int)

  datatype Key = Key(kind: Kind, name: string)

  datatype Entry = Entry(version: Version, body: string)

  /** One object of a listing; `name` is its base name without extension. */
  datatype Object = Object(name: string, etag: string, body: string)

  /** What a subscriber is told: a new version, or that the definition is gone. */
  datatype Notice = Updated(key: Key, version: Version) | Deleted(key: Key)

  type Cache = map<Key, Entry>

  datatype State = State(cache: Cache, log: seq<Notice>)

  // ---- One refresh of a type ----

  predicate UpToDate(cache: Cache, k: Key, o: Object) {
    k in cache && cache[k].version == ETag(o.etag)
  }

  /** Fetch and store one listed object, unless it is unnamed, current, or cannot be fetched. */
  function StoreOne(s: State, kind: Kind, o: Object, unfetchable: set<string>): State {
    var k := Key(kind, o.name);
    if o.name == "" || UpToDate(s.cache, k, o) || o.name in unfetchable then s
    else State(s.cache[k := Entry(ETag(o.etag), o.body)], s.log + [Updated(k, ETag(o.etag))])
  }

  function StoreListed(s: State, kind: Kind, listing: seq<Object>, unfetchable: set<string>): State {
    if listing == [] then s
    else
      var before := StoreListed(s, kind, listing[..|listing| - 1], unfetchable);
      StoreOne(before, kind, listing[|listing| - 1], unfetchable)
  }

  predicate Listed(listing: seq<Object>, name: string) {
    name != "" && exists i :: 0 <= i < |listing| && listing[i].name == name
  }

  function Missing(cache: Cache, kind: Kind, listing: seq<Object>): set<Key> {
    set k | k in cache && k.kind == kind && !Listed(listing, k.name)
  }

  function Evicted(keys: seq<Key>): seq<Notice> {
    seq(|keys|, i requires 0 <= i < |keys| => Deleted(keys[i]))
  }

  ghost predicate Enumerates(order: seq<Key>, keys: set<Key>) {
    && (forall k :: k in order <==> k in keys)
    && (forall i, j :: 0 <= i < j < |order| ==> order[i] != order[j])
  }

  /** A refresh whose listing breaks off stores what it saw and deletes nothing; one that reaches
      the end also evicts what is no longer listed, in any order. */
  ghost predicate Refreshes(s: State, kind: Kind, listing: seq<Object>, whole: bool, unfetchable: set<string>,
                            s': State) {
    var mid := StoreListed(s, kind, listing, unfetchable);
    if !whole then s' == mid
    else
      var gone := Missing(mid.cache, kind, listing);
      s'.cache == mid.cache - gone &&
      exists order :: Enumerates(order, gone) && s'.log == mid.log + Evicted(order)
  }

  /** What fetching one object meets. */
  datatype Fetch = Body(text: string) | NotFound | Unreachable

  /** A push invalidation: any failed fetch evicts. */
  function InvalidateStep(s: State, k: Key, fetched: Fetch, now: int): State {
    match fetched
    case NotFound => State(s.cache - {k}, s.log + [Deleted(k)])
    case Unreachable => State(s.cache - {k}, s.log + [Deleted(k)])
    case Body(body) => State(s.cache[k := Entry(Stamp(now), body)], s.log + [Updated(k, Stamp(now))])
  }

  // ---- A complete refresh mirrors the store ----

  /** Equal ETags mean equal bodies: there is one body per tag. */
  ghost predicate Faithful(cache: Cache, content: string -> string) {
    forall k :: k in cache && cache[k].version.ETag? ==> cache[k].body == content(cache[k].version.tag)
  }

  ghost predicate FaithfulListing(listing: seq<Object>, content: string -> string) {
    forall i :: 0 <= i < |listing| ==> listing[i].body == content(listing[i].etag)
  }

  ghost predicate DistinctNames(listing: seq<Object>) {
    forall i, j :: 0 <= i < j < |listing| ==> listing[i].name != listing[j].name
  }

  predicate Holds(cache: Cache, kind: Kind, o: Object) {
    Key(kind, o.name) in cache && cache[Key(kind, o.name)] == Entry(ETag(o.etag), o.body)
  }

  /** The cache holds exactly the named objects of a listing, with their tags and bodies. */
  ghost predicate Mirrors(cache: Cache, kind: Kind, listing: seq<Object>) {
    && (forall i :: 0 <= i < |listing| && listing[i].name != "" ==> Holds(cache, kind, listing[i]))
    && (forall k :: k in cache && k.kind == kind ==> Listed(listing, k.name))
  }

  ghost predicate SameEntry(c: Cache, c': Cache, k: Key) {
    (k in c <==> k in c') && (k in c ==> c[k] == c'[k])
  }

  lemma {:induction false} StoreListedKeepsFaithful(s: State, kind: Kind, listing: seq<Object>,
                                                    unfetchable: set<string>, content: string -> string)
    requires Faithful(s.cache, content) && FaithfulListing(listing, content)
    ensures Faithful(StoreListed(s, kind, listing, unfetchable).cache, content)
  {
    if listing != [] {
      StoreListedKeepsFaithful(s, kind, listing[..|listing| - 1], unfetchable, content);
    }
  }

  lemma StoreOneHolds(s: State, kind: Kind, o: Object, content: string -> string)
    requires Faithful(s.cache, content) && o.body == content(o.etag) && o.name != ""
    ensures Holds(StoreOne(s, kind, o, {}).cache, kind, o)
  {
  }

  lemma StoreOneSpares(s: State, kind: Kind, o: Object, unfetchable: set<string>, k: Key)
    requires k != Key(kind, o.name) || o.name == ""
    ensures SameEntry(StoreOne(s, kind, o, unfetchable).cache, s.cache, k)
  {
  }

  lemma {:induction false} StoreListedHolds(s: State, kind: Kind, listing: seq<Object>, content: string -> string,
                                            i: nat)
    requires Faithful(s.cache, content) && FaithfulListing(listing, content) && DistinctNames(listing)
    requires i < |listing| && listing[i].name != ""
    ensures Holds(StoreListed(s, kind, listing, {}).cache, kind, listing[i])
  {
    hide Faithful, StoreOne;
    var init, o := listing[..|listing| - 1], listing[|listing| - 1];
    StoreListedKeepsFaithful(s, kind, init, {}, content);
    if i < |init| {
      StoreListedHolds(s, kind, init, content, i);
      assert listing[i].name != o.name;
      StoreOneSpares(StoreListed(s, kind, init, {}), kind, o, {}, Key(kind, listing[i].name));
    } else {
      StoreOneHolds(StoreListed(s, kind, init, {}), kind, o, content);
    }
  }

  lemma {:induction false} StoreListedSpares(s: State, kind: Kind, listing: seq<Object>, unfetchable: set<string>,
                                             k: Key)
    requires k.kind != kind || !Listed(listing, k.name)
    ensures SameEntry(StoreListed(s, kind, listing, unfetchable).cache, s.cache, k)
  {
    hide StoreOne;
    if listing != [] {
      var init, o := listing[..|listing| - 1], listing[|listing| - 1];
      assert Listed(init, k.name) ==> Listed(listing, k.name);
      StoreListedSpares(s, kind, init, unfetchable, k);
      assert o.name != "" ==> Listed(listing, o.name);
      StoreOneSpares(StoreListed(s, kind, init, unfetchable), kind, o, unfetchable, k);
    }
  }

  /** After a refresh in which the listing and every fetch succeed, the cache holds exactly the
      listed names of that type, each with its current ETag and body, and the other types as
      they were. */
  lemma CompleteRefreshMirrorsStore(s: State, kind: Kind, listing: seq<Object>, s': State, content: string -> string)
    requires Faithful(s.cache, content) && FaithfulListing(listing, content) && DistinctNames(listing)
    requires Refreshes(s, kind, listing, true, {}, s')
    ensures Faithful(s'.cache, content) && Mirrors(s'.cache, kind, listing)
    ensures forall k: Key :: k.kind != kind ==> SameEntry(s'.cache, s.cache, k)
  {
    hide StoreListed, Faithful, FaithfulListing, DistinctNames;
    RefreshKeepsFaithful(s, kind, listing, true, {}, s', content);
    forall i | 0 <= i < |listing| && listing[i].name != "" ensures Holds(s'.cache, kind, listing[i]) {
      StoreListedHolds(s, kind, listing, content, i);
      assert Listed(listing, listing[i].name);
    }
    forall k: Key | k.kind != kind ensures SameEntry(s'.cache, s.cache, k) {
      StoreListedSpares(s, kind, listing, {}, k);
    }
  }

  lemma RefreshKeepsFaithful(s: State, kind: Kind, listing: seq<Object>, whole: bool, unfetchable: set<string>,
                             s': State, content: string -> string)
    requires Faithful(s.cache, content) && FaithfulListing(listing, content)
    requires Refreshes(s, kind, listing, whole, unfetchable, s')
    ensures Faithful(s'.cache, content)
  {
    StoreListedKeepsFaithful(s, kind, listing, unfetchable, content);
  }

  /** However a refresh goes wrong, it never drops a definition that is still listed. */
  lemma {:induction false} ListedIsNeverDropped(s: State, kind: Kind, listing: seq<Object>, whole: bool,
                                                unfetchable: set<string>, s': State, name: string)
    requires Refreshes(s, kind, listing, whole, unfetchable, s')
    requires Listed(listing, name) && Key(kind, name) in s.cache
    ensures Key(kind, name) in s'.cache
  {
    StoreListedOnlyAdds(s, kind, listing, unfetchable, Key(kind, name));
  }

  lemma {:induction false} StoreListedOnlyAdds(s: State, kind: Kind, listing: seq<Object>, unfetchable: set<string>,
                                               k: Key)
    requires k in s.cache
    ensures k in StoreListed(s, kind, listing, unfetchable).cache
  {
    if listing != [] { StoreListedOnlyAdds(s, kind, listing[..|listing| - 1], unfetchable, k); }
  }

  // ---- Notifications rebuild the cache ----

  function Told(m: map<Key, Version>, n: Notice): map<Key, Version> {
    if n.Updated? then m[n.key := n.version] else m - {n.key}
  }

  /** What a subscriber that keeps the latest version per name has after a sequence of notices. */
  function Replay(log: seq<Notice>): map<Key, Version> {
    if log == [] then map[] else Told(Replay(log[..|log| - 1]), log[|log| - 1])
  }

  function Versions(cache: Cache): map<Key, Version> { map k | k in cache :: cache[k].version }

  lemma ReplayAppend(log: seq<Notice>, n: Notice)
    ensures Replay(log + [n]) == Told(Replay(log), n)
  {
    assert (log + [n])[..|log|] == log;
  }

  lemma {:induction false} ReplayEvictions(log: seq<Notice>, order: seq<Key>)
    ensures Replay(log + Evicted(order)) == Replay(log) - SetOf(order)
  {
    if order == [] {
      assert log + Evicted(order) == log;
    } else {
      var init, k := order[..|order| - 1], order[|order| - 1];
      ReplayEvictions(log, init);
      assert Evicted(order) == Evicted(init) + [Deleted(k)];
      assert log + Evicted(order) == (log + Evicted(init)) + [Deleted(k)];
      ReplayAppend(log + Evicted(init), Deleted(k));
      assert SetOf(order) == SetOf(init) + {k};
    }
  }

  lemma {:induction false} StoreListedAnnounces(s: State, kind: Kind, listing: seq<Object>, unfetchable: set<string>)
    requires Replay(s.log) == Versions(s.cache)
    ensures var s' := StoreListed(s, kind, listing, unfetchable); Replay(s'.log) == Versions(s'.cache)
  {
    if listing != [] {
      var init, o := listing[..|listing| - 1], listing[|listing| - 1];
      StoreListedAnnounces(s, kind, init, unfetchable);
      ReplayAppend(StoreListed(s, kind, init, unfetchable).log, Updated(Key(kind, o.name), ETag(o.etag)));
    }
  }

  lemma RefreshAnnounces(s: State, kind: Kind, listing: seq<Object>, whole: bool, unfetchable: set<string>, s': State)
    requires Replay(s.log) == Versions(s.cache) && Refreshes(s, kind, listing, whole, unfetchable, s')
    ensures Replay(s'.log) == Versions(s'.cache)
  {
    StoreListedAnnounces(s, kind, listing, unfetchable);
    if whole {
      var mid := StoreListed(s, kind, listing, unfetchable);
      var gone := Missing(mid.cache, kind, listing);
      var order :| Enumerates(order, gone) && s'.log == mid.log + Evicted(order);
      ReplayEvictions(mid.log, order);
      assert SetOf(order) == gone;
      assert Versions(mid.cache - gone) == Versions(mid.cache) - gone;
    }
  }

  lemma InvalidateAnnounces(s: State, k: Key, fetched: Fetch, now: int)
    requires Replay(s.log) == Versions(s.cache)
    ensures var s' := InvalidateStep(s, k, fetched, now); Replay(s'.log) == Versions(s'.cache)
  {
    var s' := InvalidateStep(s, k, fetched, now);
    ReplayAppend(s.log, s'.log[|s.log|]);
  }

  datatype Action =
    | Refresh(kind: Kind, listing: seq<Object>, whole: bool, unfetchable: set<string>)
    | Invalidate(key: Key, fetched: Fetch, now: int)

  ghost predicate Next(s: State, a: Action, s': State) {
    match a
    case Refresh(kind, listing, whole, unfetchable) => Refreshes(s, kind, listing, whole, unfetchable, s')
    case Invalidate(k, fetched, now) => s' == InvalidateStep(s, k, fetched, now)
  }

  ghost predicate Run(states: seq<State>, acts: seq<Action>) {
    && |states| == |acts| + 1 && states[0] == State(map[], [])
    && forall i :: 0 <= i < |acts| ==> Next(states[i], acts[i], states[i + 1])
  }

  /** Over every serialised run, whatever listings and fetches fail, replaying the notices from
      empty gives exactly the cache's name-to-version map. */
  lemma {:induction false} NoticesRebuildCache(states: seq<State>, acts: seq<Action>, k: nat)
    requires Run(states, acts) && k < |states|
    ensures Replay(states[k].log) == Versions(states[k].cache)
  {
    hide Next;
    if k == 0 {
      assert Replay([]) == Versions(map[]);
    } else {
      NoticesRebuildCache(states, acts, k - 1);
      NoticesStep(states[k - 1], acts[k - 1], states[k]);
    }
  }

  lemma NoticesStep(s: State, a: Action, s': State)
    requires Replay(s.log) == Versions(s.cache) && Next(s, a, s')
    ensures Replay(s'.log) == Versions(s'.cache)
  {
    hide Refreshes, InvalidateStep, Replay, Versions;
    match a
    case Refresh(kind, listing, whole, unfetchable) => RefreshAnnounces(s, kind, listing, whole, unfetchable, s');
    case Invalidate(key, fetched, now) => InvalidateAnnounces(s, key, fetched, now);
  }

  // ---- Faithful caches, and what an invalidation does to the names ----

  lemma InvalidateKeepsFaithful(s: State, k: Key, fetched: Fetch, now: int, content: string -> string)
    requires Faithful(s.cache, content)
    ensures Faithful(InvalidateStep(s, k, fetched, now).cache, content)
  {
  }

  /** Every listing a run sees comes from a store in which equal tags mean equal bodies. */
  ghost predicate FaithfulActs(acts: seq<Action>, content: string -> string) {
    forall i :: 0 <= i < |acts| && acts[i].Refresh? ==> FaithfulListing(acts[i].listing, content)
  }

  lemma {:induction false} RunKeepsFaithful(states: seq<State>, acts: seq<Action>, content: string -> string, k: nat)
    requires Run(states, acts) && FaithfulActs(acts, content) && k < |states|
    ensures Faithful(states[k].cache, content)
  {
    hide Refreshes, InvalidateStep, FaithfulListing;
    if k > 0 {
      RunKeepsFaithful(states, acts, content, k - 1);
      var s, s' := states[k - 1], states[k];
      assert Next(s, acts[k - 1], s');
      match acts[k - 1]
      case Refresh(kind, listing, whole, unfetchable) =>
        RefreshKeepsFaithful(s, kind, listing, whole, unfetchable, s', content);
      case Invalidate(key, fetched, now) => InvalidateKeepsFaithful(s, key, fetched, now, content);
    }
  }

  /** Whatever refreshes and invalidations came before, and whatever failed in them, one complete
      refresh leaves the cache mirroring the store. */
  lemma RefreshAfterAnyRunMirrors(states: seq<State>, acts: seq<Action>, content: string -> string, k: nat)
    requires Run(states, acts) && FaithfulActs(acts, content) && k < |acts|
    requires acts[k].Refresh? && acts[k].whole && acts[k].unfetchable == {} && DistinctNames(acts[k].listing)
    ensures Mirrors(states[k + 1].cache, acts[k].kind, acts[k].listing)
  {
    RunKeepsFaithful(states, acts, content, k);
    assert Next(states[k], acts[k], states[k + 1]);
    CompleteRefreshMirrorsStore(states[k], acts[k].kind, acts[k].listing, states[k + 1], content);
  }

  // ---- What is served under one name ----

  function EntryOf(cache: Cache, k: Key): Option<Entry> { if k in cache then Some(cache[k]) else None }

  /** One listed object, seen from one name: an object of another name, an unchanged tag or a failed
      fetch leave the entry; otherwise the fetched body is served under the object's tag. */
  function AfterObject(e: Option<Entry>, k: Key, o: Object, unfetchable: set<string>): Option<Entry> {
    if o.name != k.name || k.name == "" || k.name in unfetchable then e
    else if e.Some? && e.value.version == ETag(o.etag) then e
    else Some(Entry(ETag(o.etag), o.body))
  }

  function AfterObjects(e: Option<Entry>, k: Key, listing: seq<Object>, unfetchable: set<string>): Option<Entry> {
    if listing == [] then e
    else AfterObject(AfterObjects(e, k, listing[..|listing| - 1], unfetchable), k, listing[|listing| - 1], unfetchable)
  }

  /** One action, seen from one name. A whole listing without the name drops it; an invalidation of
      the name serves what it fetched, or drops it. */
  function AfterAction(e: Option<Entry>, k: Key, a: Action): Option<Entry> {
    match a
    case Refresh(kind, listing, whole, unfetchable) =>
      if kind != k.kind then e
      else if whole && forall i :: 0 <= i < |listing| ==> listing[i].name != k.name || k.name == "" then None
      else AfterObjects(e, k, listing, unfetchable)
    case Invalidate(key, fetched, now) =>
      if key != k then e else if fetched.Body? then Some(Entry(Stamp(now), fetched.text)) else None
  }

  /** The entry one name is served after a sequence of actions, whatever happens to other names. */
  function Served(acts: seq<Action>, k: Key): Option<Entry> {
    if acts == [] then None else AfterAction(Served(acts[..|acts| - 1], k), k, acts[|acts| - 1])
  }

  lemma {:induction false} StoreListedPerName(s: State, kind: Kind, listing: seq<Object>, unfetchable: set<string>,
                                              k: Key)
    ensures EntryOf(StoreListed(s, kind, listing, unfetchable).cache, k) ==
            if kind == k.kind then AfterObjects(EntryOf(s.cache, k), k, listing, unfetchable) else EntryOf(s.cache, k)
  {
    if listing != [] {
      StoreListedPerName(s, kind, listing[..|listing| - 1], unfetchable, k);
    }
  }

  lemma NextPerName(s: State, a: Action, s': State, k: Key)
    requires Next(s, a, s')
    ensures EntryOf(s'.cache, k) == AfterAction(EntryOf(s.cache, k), k, a)
  {
    if a.Refresh? { StoreListedPerName(s, a.kind, a.listing, a.unfetchable, k); }
  }

  /** Over every run the cache serves, name by name, exactly the body and version that the last
      action to store that name obtained. */
  lemma {:induction false} CacheServesLastObtained(states: seq<State>, acts: seq<Action>, k: Key)
    requires Run(states, acts)
    ensures EntryOf(states[|acts|].cache, k) == Served(acts, k)
  {
    if acts != [] {
      hide Next, AfterAction;
      var n := |acts| - 1;
      CacheServesLastObtained(states[..|states| - 1], acts[..n], k);
      NextPerName(states[n], acts[n], states[n + 1], k);
    }
  }

  /** The cached names of a type are the listed ones. */
  ghost predicate NamesAgree(cache: Cache, kind: Kind, listing: seq<Object>) {
    forall name :: Key(kind, name) in cache <==> Listed(listing, name)
  }

  /** An invalidation keeps the cached names right exactly when it fetches a body for a definition
      that is in the store and fails for one that is not; an outage evicts a live definition. */
  lemma InvalidateKeepsNamesIff(s: State, k: Key, fetched: Fetch, now: int, listing: seq<Object>)
    requires NamesAgree(s.cache, k.kind, listing)
    ensures NamesAgree(InvalidateStep(s, k, fetched, now).cache, k.kind, listing)
            <==> (fetched.Body? <==> Listed(listing, k.name))
  {
    var c' := InvalidateStep(s, k, fetched, now).cache;
    assert Key(k.kind, k.name) == k;
    assert Key(k.kind, k.name) in c' <==> fetched.Body?;
    forall name | name != k.name ensures Key(k.kind, name) in c' <==> Listed(listing, name) {
      assert Key(k.kind, name) != k;
      assert Key(k.kind, name) in s.cache <==> Listed(listing, name);
    }
  }

  // ---- The loader ----

  const KINDS: seq<Kind> := [KindDef, PromptDef, ConnectorDef, SeedDef]

  lemma EveryKindIsRefreshed(kind: Kind)
    ensures kind in KINDS
  {
    assert KINDS[0] == KindDef && KINDS[1] == PromptDef && KINDS[2] == ConnectorDef && KINDS[3] == SeedDef;
  }

  class Loader {
    var cache: Cache
    var log: seq<Notice>

    ghost function St(): State
      reads this
    {
      State(cache, log)
    }

    constructor ()
      ensures St() == State(map[], [])
    {
      cache, log := map[], [];
    }

    method FireSubs(n: Notice)
      modifies this`log
      ensures log == old(log) + [n]
    {
      log := log + [n];
    }

    /** `whole` is false when the listing breaks off after the given objects. */
    method RefreshType(kind: Kind, listing: seq<Object>, whole: bool, unfetchable: set<string>) returns (ok: bool)
      modifies this
      ensures ok == whole
      ensures Refreshes(old(St()), kind, listing, whole, unfetchable, St())
    {
      var seen: set<string> := {};
      for i := 0 to |listing|
        invariant St() == StoreListed(old(St()), kind, listing[..i], unfetchable)
        invariant forall name :: name in seen <==> Listed(listing[..i], name)
      {
        assert listing[..i + 1][..i] == listing[..i];
        var o := listing[i];
        if o.name != "" {
          SeenGrows(listing, i);
          seen := seen + {o.name};
          var k := Key(kind, o.name);
          if !UpToDate(cache, k, o) && o.name !in unfetchable {
            cache := cache[k := Entry(ETag(o.etag), o.body)];
            FireSubs(Updated(k, ETag(o.etag)));
          }
        } else {
          SeenGrows(listing, i);
        }
      }
      assert listing[..|listing|] == listing;
      if !whole { return false; }
      EvictMissing(kind, listing, seen);
      return true;
    }

    lemma SeenGrows(listing: seq<Object>, i: nat)
      requires i < |listing|
      ensures forall name :: Listed(listing[..i + 1], name) <==>
                Listed(listing[..i], name) || (name != "" && name == listing[i].name)
    {
      forall name
        ensures Listed(listing[..i + 1], name) <==>
                Listed(listing[..i], name) || (name != "" && name == listing[i].name)
      {
        var a, b := listing[..i], listing[..i + 1];
        assert b == a + [listing[i]];
        assert b[i] == listing[i];
        assert forall j :: 0 <= j < i ==> b[j] == a[j];
      }
    }

    method EvictMissing(kind: Kind, listing: seq<Object>, seen: set<string>)
      requires forall name :: name in seen <==> Listed(listing, name)
      modifies this
      ensures cache == old(cache) - Missing(old(cache), kind, listing)
      ensures exists order :: Enumerates(order, Missing(old(cache), kind, listing)) && log == old(log) + Evicted(order)
    {
      var todo := set k | k in cache && k.kind == kind && k.name !in seen;
      ghost var gone, order: seq<Key> := Missing(cache, kind, listing), [];
      assert todo == gone;
      while todo != {}
        invariant todo <= gone && cache == old(cache) - (gone - todo)
        invariant Enumerates(order, gone - todo) && log == old(log) + Evicted(order)
        decreases |todo|
      {
        var k :| k in todo;
        cache := cache - {k};
        FireSubs(Deleted(k));
        assert Evicted(order + [k]) == Evicted(order) + [Deleted(k)];
        order := order + [k];
        todo := todo - {k};
      }
      assert gone - todo == gone;
    }

    method Invalidate(k: Key, fetched: Fetch, now: int)
      modifies this
      ensures St() == InvalidateStep(old(St()), k, fetched, now)
      ensures fetched.Body? ==> k in cache && cache[k] == Entry(Stamp(now), fetched.text)
      ensures !fetched.Body? ==> k !in cache
      ensures forall other :: other != k ==> EntryOf(cache, other) == EntryOf(old(cache), other)
    {
      if !fetched.Body? {
        cache := cache - {k};
        FireSubs(Deleted(k));
        return;
      }
      cache := cache[k := Entry(Stamp(now), fetched.text)];
      FireSubs(Updated(k, Stamp(now)));
    }

    /** The four types in turn, up to the first whose listing fails. When none does and every
        fetch succeeds, the cache afterwards is the store's content, type by type. */
    method Refresh(remote: map<Kind, seq<Object>>, whole: set<Kind>, unfetchable: set<string>,
                   ghost content: string -> string)
      returns (ok: bool)
      requires (forall kind: Kind :: kind in remote) && Faithful(cache, content)
      requires forall kind :: kind in remote ==> DistinctNames(remote[kind]) && FaithfulListing(remote[kind], content)
      modifies this
      ensures ok <==> forall kind: Kind :: kind in whole
      ensures Faithful(cache, content)
      ensures ok && unfetchable == {} ==> forall kind :: kind in remote ==> Mirrors(cache, kind, remote[kind])
    {
      hide Mirrors, Faithful, FaithfulListing, DistinctNames, Refreshes;
      for n := 0 to |KINDS|
        invariant Faithful(cache, content)
        invariant forall k :: 0 <= k < n ==> KINDS[k] in whole
        invariant unfetchable == {} ==> forall k :: 0 <= k < n ==> Mirrors(cache, KINDS[k], remote[KINDS[k]])
      {
        ghost var before := St();
        var kind := KINDS[n];
        var listed := RefreshType(kind, remote[kind], kind in whole, unfetchable);
        RefreshKeepsFaithful(before, kind, remote[kind], kind in whole, unfetchable, St(), content);
        if !listed { return false; }
        if unfetchable == {} {
          CompleteRefreshMirrorsStore(before, kind, remote[kind], St(), content);
          forall k | 0 <= k < n ensures Mirrors(cache, KINDS[k], remote[KINDS[k]]) {
            OtherKindsMirror(before.cache, cache, KINDS[k], remote[KINDS[k]]);
          }
        }
      }
      forall kind: Kind
        ensures kind in whole && (unfetchable == {} ==> Mirrors(cache, kind, remote[kind]))
      {
        EveryKindIsRefreshed(kind);
        var k :| 0 <= k < |KINDS| && KINDS[k] == kind;
      }
      return true;
    }

    lemma OtherKindsMirror(c: Cache, c': Cache, kind: Kind, listing: seq<Object>)
      requires Mirrors(c, kind, listing) && forall k: Key :: k.kind == kind ==> SameEntry(c', c, k)
      ensures Mirrors(c', kind, listing)
    {
      forall i | 0 <= i < |listing| && listing[i].name != "" ensures Holds(c', kind, listing[i]) {
        assert SameEntry(c', c, Key(kind, listing[i].name));
      }
    }
  }
}
