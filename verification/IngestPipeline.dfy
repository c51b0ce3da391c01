/**
  Complete across two databases: the product transaction commits first, the queue
  acknowledgement second, and a worker may die between them. `open` is the ghost state of
  Complete calls whose product write has committed and whose acknowledgement has not; `acked`
  remembers the ones that finished.
 */
module IngestPipeline {
  import opened Prelude
  import opened IngestQueue
  import opened ProductStore
  import Runs = IngestRuns

  datatype Commit = Commit(item: Item, canonicalId: string, key: LineageKey)

  datatype Sys = Sys(crawl: Runs.Sys, product: Product, open: set<Commit>, acked: set<Commit>)

  datatype Action =
    | OnQueue(a: Runs.Action)
    | ProductCommit(item: Item, c: Canonical)
    | QueueAck(commit: Commit)
    | Crash(commit: Commit)
    | Reconciled(source: string, startedAt: ProductStore.Time)

  ghost predicate Enabled(s: Sys, act: Action) {
    match act
    case OnQueue(a) => !a.Ack? && Runs.Enabled(s.crawl, a)
    case QueueAck(commit) => commit in s.open
    case _ => true
  }

  function Apply(s: Sys, act: Action): Sys {
    match act
    case OnQueue(a) => s.(crawl := Runs.Apply(s.crawl, a))
    case ProductCommit(item, c) =>
      var id := Resolve(s.product, c);
      if id.Err? then s
      else s.(product := WriteStep(s.product, c), open := s.open + {Commit(item, id.value, KeyOf(id.value, c))})
    case QueueAck(commit) =>
      var res := AckStep(s.crawl.q, commit.item, commit.canonicalId);
      if res.None? then s.(open := s.open - {commit})
      else s.(crawl := s.crawl.(q := res.value), open := s.open - {commit}, acked := s.acked + {commit})
    case Crash(commit) => s.(open := s.open - {commit})
    case Reconciled(source, startedAt) => s.(product := ReconcileStep(s.product, source, startedAt))
  }

  datatype Trace = Trace(states: seq<Sys>, acts: seq<Action>)

  ghost predicate Run(tr: Trace) {
    && |tr.states| == |tr.acts| + 1
    && tr.states[0].crawl.q == EMPTY_QUEUE && tr.states[0].product == EMPTY_PRODUCT
    && tr.states[0].open == {} && tr.states[0].acked == {}
    && forall i :: 0 <= i < |tr.acts| ==>
         Enabled(tr.states[i], tr.acts[i]) && tr.states[i + 1] == Apply(tr.states[i], tr.acts[i])
  }

  predicate Stored(p: Product, commit: Commit) {
    commit.canonicalId in p.opps && commit.key in p.lineage && commit.key.canonicalId == commit.canonicalId
  }

  /** The commit that justifies a processed row: stored in the catalogue, and on the ledger. */
  predicate Justifies(s: Sys, id: string, commit: Commit) {
    && commit in s.acked && commit.item.id == id && Stored(s.product, commit)
    && Event(id, WasProcessed, commit.item.attempt, commit.canonicalId) in s.crawl.q.ledger
  }

  ghost predicate Inv(s: Sys) {
    && (forall commit :: commit in s.open || commit in s.acked ==> Stored(s.product, commit))
    && (forall id :: id in s.crawl.q.jobs && s.crawl.q.jobs[id].status == Processed ==>
          exists commit :: Justifies(s, id, commit))
  }

  lemma StoredStays(s: Sys, act: Action, commit: Commit)
    requires Stored(s.product, commit)
    ensures Stored(Apply(s, act).product, commit)
  {
  }

  lemma QueueStepMakesNoProcessed(s: Runs.Sys, a: Runs.Action, id: string)
    requires !a.Ack? && id in Runs.Apply(s, a).q.jobs && Runs.Apply(s, a).q.jobs[id].status == Processed
    ensures id in s.q.jobs && s.q.jobs[id].status == Processed
  {
  }

  lemma LedgerOnlyGrows(s: Sys, act: Action, e: Event)
    requires e in s.crawl.q.ledger
    ensures e in Apply(s, act).crawl.q.ledger
  {
  }

  lemma StepKeepsInv(s: Sys, act: Action)
    requires Inv(s) && Enabled(s, act)
    ensures Inv(Apply(s, act))
  {
    var s' := Apply(s, act);
    forall commit | commit in s'.open || commit in s'.acked ensures Stored(s'.product, commit) {
      if commit in s.open || commit in s.acked {
        StoredStays(s, act, commit);
      }
    }
    forall id | id in s'.crawl.q.jobs && s'.crawl.q.jobs[id].status == Processed
      ensures exists commit :: Justifies(s', id, commit)
    {
      if act.OnQueue? { QueueStepMakesNoProcessed(s.crawl, act.a, id); }
      if act.QueueAck? && act.commit.item.id == id
         && AckStep(s.crawl.q, act.commit.item, act.commit.canonicalId).Some? {
        assert Justifies(s', id, act.commit);
      } else {
        var commit :| Justifies(s, id, commit);
        StoredStays(s, act, commit);
        LedgerOnlyGrows(s, act, Event(id, WasProcessed, commit.item.attempt, commit.canonicalId));
        assert Justifies(s', id, commit);
      }
    }
  }

  /** With a crash possible between the two commits, at every moment a queue row marked processed
      has its canonical opportunity and its lineage in the product store. */
  lemma {:induction false} ProcessedIsStored(tr: Trace, k: nat, id: string)
    requires Run(tr) && k < |tr.states|
    ensures Inv(tr.states[k])
    ensures var s := tr.states[k];
            id in s.crawl.q.jobs && s.crawl.q.jobs[id].status == Processed ==>
              exists commit :: Justifies(s, id, commit)
  {
    if k > 0 {
      ProcessedIsStored(tr, k - 1, id);
      StepKeepsInv(tr.states[k - 1], tr.acts[k - 1]);
    }
  }

  /** Two-database Complete: the product write stays whatever becomes of the acknowledgement. */
  function CompleteInTwo(q: Queue, p: Product, item: Item, c: Canonical, dies: bool): (Queue, Product) {
    var id := Resolve(p, c);
    if id.Err? then (q, p)
    else (if dies then q else AfterAck(q, item, id.value), WriteStep(p, c))
  }

  /** Single-database Complete: one transaction, so a failed acknowledgement undoes the write. */
  function CompleteInOne(q: Queue, p: Product, item: Item, c: Canonical): (Queue, Product) {
    var id := Resolve(p, c);
    if id.Err? || AckStep(q, item, id.value).None? then (q, p)
    else (AfterAck(q, item, id.value), WriteStep(p, c))
  }

  /** A two-database Complete is a product commit followed by an acknowledgement or a crash, so
      the runs above cover it; and when it is not cut short it does what the single transaction
      does, except that a failed acknowledgement leaves the product write behind. */
  lemma CompleteIsCommitThenAck(s: Sys, item: Item, c: Canonical, dies: bool)
    requires Resolve(s.product, c).Ok?
    // the single transaction is all or nothing
    ensures AckStep(s.crawl.q, item, Resolve(s.product, c).value).None? ==>
              CompleteInOne(s.crawl.q, s.product, item, c) == (s.crawl.q, s.product)
    ensures var commit := Commit(item, Resolve(s.product, c).value, KeyOf(Resolve(s.product, c).value, c));
            var mid := Apply(s, ProductCommit(item, c));
            var end := Apply(mid, if dies then Crash(commit) else QueueAck(commit));
            && Enabled(mid, QueueAck(commit))
            && (end.crawl.q, end.product) == CompleteInTwo(s.crawl.q, s.product, item, c, dies)
            && (!dies && AckStep(s.crawl.q, item, commit.canonicalId).Some? ==>
                  (end.crawl.q, end.product) == CompleteInOne(s.crawl.q, s.product, item, c))
  {
  }
}
