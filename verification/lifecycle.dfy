/**
 * The publication state of a product: its `status` and `published_at`
 * fields, and the two places that change them, `Product.publish` and the
 * back-fill in `Product.save`. `timezone.now()` is the `now` parameter.
 */
module Lifecycle {
  import opened Records

  datatype PubState = PubState(status: Status, publishedAt: Option<Timestamp>)

  /** A published product carries the moment it was published. */
  predicate Consistent(s: PubState) {
    s.status == Published ==> s.publishedAt.Some?
  }

  /**
   * The field assignments of `publish`: a product that is not yet
   * published becomes published, keeping an existing `published_at` and
   * taking `now` only when there is none. A published product is left as is.
   */
  function Publish(s: PubState, now: Timestamp): (r: PubState)
    ensures r.status == Published
    ensures s.status == Published ==> r == s
    ensures s.status != Published ==> r.publishedAt == (if s.publishedAt.Some? then s.publishedAt else Some(now))
    ensures Consistent(s) ==> Consistent(r)
  {
    if s.status != Published then
      PubState(Published, if s.publishedAt.Some? then s.publishedAt else Some(now))
    else s
  }

  /** The back-fill of `save`: a published product without a timestamp gets `now`. */
  function Backfill(s: PubState, now: Timestamp): (r: PubState)
    ensures r.status == s.status
    ensures Consistent(r)
    ensures s.status != Published ==> r.publishedAt == s.publishedAt
    ensures s.publishedAt.Some? ==> r == s
    ensures s.status == Published && s.publishedAt.None? ==> r.publishedAt == Some(now)
  {
    if s.status == Published && s.publishedAt.None? then PubState(s.status, Some(now)) else s
  }

  /**
   * `publish` ends in `save`, and that save's back-fill never fires: the
   * timestamp `publish` chose is the one that is kept.
   */
  lemma SaveInsidePublishKeepsTimestamp(s: PubState, now: Timestamp, later: Timestamp)
    requires s.status != Published
    ensures Backfill(Publish(s, now), later) == Publish(s, now)
  {
  }

  /** Publishing twice is publishing once; the second clock reading is never used. */
  lemma PublishIdempotent(s: PubState, now: Timestamp, later: Timestamp)
    ensures Publish(Publish(s, now), later) == Publish(s, now)
  {
  }

  /** The operations of the source that touch the publication state. */
  datatype Op = PublishOp(now: Timestamp) | SaveOp(now: Timestamp)

  /**
   * One call on the instance. A publish ends in a save whose back-fill
   * never fires, so the step is `Publish` alone.
   */
  function Step(s: PubState, op: Op): (r: PubState)
    ensures op.PublishOp? ==> r == Publish(s, op.now)
    ensures Consistent(s) ==> Consistent(r)
  {
    match op
    case PublishOp(now) => if s.status != Published then Backfill(Publish(s, now), now) else s
    case SaveOp(now) => Backfill(s, now)
  }

  /**
   * A sequence of calls, in order. Runs never lose consistency, never
   * change a set `published_at`, and change the status only to published.
   */
  function Run(s: PubState, ops: seq<Op>): (r: PubState)
    ensures Consistent(s) ==> Consistent(r)
    ensures s.publishedAt.Some? ==> r.publishedAt == s.publishedAt
    ensures r.status == s.status || r.status == Published
    decreases |ops|
  {
    if ops == [] then s else Run(Step(s, ops[0]), ops[1..])
  }

  /**
   * Publishes and saves keep a consistent product consistent, and a run
   * that starts with a save makes any product consistent.
   */
  lemma RunKeepsConsistent(s: PubState, ops: seq<Op>)
    requires Consistent(s) || (ops != [] && ops[0].SaveOp?)
    ensures Consistent(Run(s, ops))
  {
  }

  /**
   * Repeated `publish` calls keep the clock reading of the first one:
   * the whole run is that single publish.
   */
  lemma {:induction false} PublishesCollapse(s: PubState, ops: seq<Op>)
    requires ops != [] && forall i :: 0 <= i < |ops| ==> ops[i].PublishOp?
    ensures Run(s, ops) == Publish(s, ops[0].now)
    decreases |ops|
  {
    if |ops| > 1 {
      var t := Step(s, ops[0]);
      PublishesCollapse(t, ops[1..]);
      PublishIdempotent(s, ops[0].now, ops[1].now);
    }
  }
}
