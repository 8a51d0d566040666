/** Delivery through a consumer group: what reading with `>` hands out over a whole run of
    additions, deletions, trims, reads, acknowledgements and claims. */
module Delivery {
  import opened Bytes
  import opened StreamId
  import opened Stream
  import opened Pending
  import opened ConsumerGroup

  function IdsOf(es: seq<Entry>): (ids: seq<Id>)
    ensures |ids| == |es| && forall i :: 0 <= i < |es| ==> ids[i] == es[i].id
  {
    seq(|es|, i requires 0 <= i < |es| => es[i].id)
  }

  /** The group and its stream, with everything that has been handed out, in order, and the ranges that
      SETID has skipped: above the first id, up to the second. */
  datatype State = State(entries: seq<Entry>, lastId: Id, lastDelivered: Id, delivered: seq<Id>, skips: seq<(Id, Id)>)

  const START: State := State([], 0, 0, [], [])

  datatype Step =
    | Add(id: Id, fields: Fields)
    | AddAuto(autoFields: Fields, clock: nat, first: bool, second: bool)
    | Delete(ids: seq<Id>)
    | TrimToCount(max: nat)
    | TrimBelow(min: Id)
    | Read(name: Name, count: Option<nat>, now: nat)
    | Acknowledge(acked: seq<Id>)
    | SetId(newId: Id)
    | CreateConsumer(created: Name, seen: nat)
    | DeleteConsumer(deleted: Name)
    | AutoClaim(auto: Name, idle: nat, start: Id, most: nat, now1: nat, now2: nat, times: nat -> nat)
    | Claim(claimer: Name, minIdle: nat, claimed: seq<Id>, force: bool, at: nat, later: nat -> nat)

  /** What a read takes: the entries after an id, at most `count`. */
  function Batch(es: seq<Entry>, after: Id, lastId: Id, count: Option<nat>): seq<Entry> {
    Take(Between(es, after + 1, lastId), count)
  }

  ghost function Next(s: State, step: Step): State
    requires s.lastId <= MAX_ID
  {
    match step
    case Add(id, fields) => if id > s.lastId then s.(entries := s.entries + [Entry(id, fields)], lastId := id) else s
    case AddAuto(fields, now, first, second) =>
      var id := Generate(Millis(s.lastId), Seq(s.lastId), now % WORD, first, second).id;
      s.(entries := s.entries + [Entry(id, fields)], lastId := id)
    case Delete(ids) => s.(entries := Without(s.entries, IdSet(ids)))
    case TrimToCount(max) => s.(entries := if |s.entries| <= max then s.entries else s.entries[|s.entries| - max..])
    case TrimBelow(min) => s.(entries := Between(s.entries, min, s.lastId))
    case Read(_, count, _) =>
      var batch := Batch(s.entries, s.lastDelivered, s.lastId, count);
      if batch == [] then s
      else s.(lastDelivered := batch[|batch| - 1].id, delivered := s.delivered + IdsOf(batch))
    case SetId(id) => s.(lastDelivered := id, skips := s.skips + [(s.lastDelivered, id)])
    case _ => s
  }

  /** What the guarantees ask of a step: ids of 128 bits, no generated id where the sequence is at its
      end, no SETID backwards. */
  ghost predicate Fits(s: State, step: Step) {
    match step
    case Add(id, _) => id <= MAX_ID
    case AddAuto(_, now, first, second) => now < WORD && CanGrow(Millis(s.lastId), Seq(s.lastId), now, first, second)
    case SetId(id) => id >= s.lastDelivered
    case _ => true
  }

  ghost predicate Ascending(ids: seq<Id>) {
    forall i, j :: 0 <= i < j < |ids| ==> ids[i] < ids[j]
  }

  ghost predicate Skipped(skips: seq<(Id, Id)>, id: Id) {
    exists i :: 0 <= i < |skips| && skips[i].0 < id <= skips[i].1
  }

  /** Every stored entry up to the last delivered id was delivered or skipped. */
  ghost predicate Covered(entries: seq<Entry>, last: Id, delivered: seq<Id>, skips: seq<(Id, Id)>) {
    forall i :: 0 <= i < |entries| && entries[i].id <= last ==> entries[i].id in delivered || Skipped(skips, entries[i].id)
  }

  /** Nothing delivered is ahead of the last delivered id, and nothing delivered was skipped. */
  ghost predicate Behind(last: Id, delivered: seq<Id>, skips: seq<(Id, Id)>) {
    && (forall i :: 0 <= i < |delivered| ==> delivered[i] <= last && !Skipped(skips, delivered[i]))
    && (forall i :: 0 <= i < |skips| ==> skips[i].1 <= last)
  }

  /** What SETID has reached beyond the end of the stream is skipped. */
  ghost predicate BeyondSkipped(lastId: Id, last: Id, skips: seq<(Id, Id)>) {
    forall x :: lastId < x <= last ==> Skipped(skips, x)
  }

  ghost predicate Inv(s: State) {
    && Increasing(s.entries) && Bounded(s.entries, s.lastId) && s.lastId <= MAX_ID
    && Ascending(s.delivered) && Behind(s.lastDelivered, s.delivered, s.skips)
    && Covered(s.entries, s.lastDelivered, s.delivered, s.skips)
    && BeyondSkipped(s.lastId, s.lastDelivered, s.skips)
  }

  ghost predicate AllAbove(es: seq<Entry>, floor: int) {
    forall i :: 0 <= i < |es| ==> floor < es[i].id
  }

  lemma ConsIncreasing(e: Entry, es: seq<Entry>, floor: int)
    requires Increasing(es) && AllAbove(es, e.id) && floor < e.id
    ensures Increasing([e] + es) && AllAbove([e] + es, floor) && AllAbove(es, floor)
  {
  }

  lemma {:induction false} BetweenIncreasing(es: seq<Entry>, lo: int, hi: int, floor: int)
    requires Increasing(es) && AllAbove(es, floor)
    ensures Increasing(Between(es, lo, hi)) && AllAbove(Between(es, lo, hi), floor)
  {
    if es != [] {
      assert Increasing(es[1..]) && AllAbove(es[1..], es[0].id) && floor < es[0].id;
      hide Increasing, AllAbove;
      BetweenIncreasing(es[1..], lo, hi, es[0].id);
      ConsIncreasing(es[0], Between(es[1..], lo, hi), floor);
      assert [] + Between(es[1..], lo, hi) == Between(es[1..], lo, hi);
    }
  }

  /** A selection from sorted entries is sorted and selects. */
  lemma {:induction false} BetweenProps(es: seq<Entry>, lo: int, hi: int)
    requires Increasing(es)
    ensures Increasing(Between(es, lo, hi))
    ensures forall e :: e in Between(es, lo, hi) <==> e in es && lo <= e.id <= hi
  {
    BetweenSelects(es, lo, hi);
    BetweenIncreasing(es, lo, hi, -1);
  }

  lemma {:induction false} BetweenSelects(es: seq<Entry>, lo: int, hi: int)
    ensures forall e :: e in Between(es, lo, hi) <==> e in es && lo <= e.id <= hi
  {
    if es != [] {
      BetweenSelects(es[1..], lo, hi);
      HeadAndTail(es);
      assert forall e :: e in es <==> e == es[0] || e in es[1..];
    }
  }

  /** A batch is a beginning of what lies ahead. */
  lemma BatchBegins(es: seq<Entry>, after: Id, lastId: Id, count: Option<nat>)
    ensures var ahead, batch := Between(es, after + 1, lastId), Batch(es, after, lastId, count);
      batch <= ahead && (count.None? ==> batch == ahead)
  {
    hide Between;
  }

  lemma BeginningIncreasing(batch: seq<Entry>, ahead: seq<Entry>)
    requires Increasing(ahead) && batch <= ahead
    ensures Ascending(IdsOf(batch)) && forall e :: e in batch ==> e in ahead
  {
  }

  lemma NonePassedOver(batch: seq<Entry>, ahead: seq<Entry>, e: Entry)
    requires Increasing(ahead) && batch <= ahead && e in ahead
    requires batch == ahead || (batch != [] && e.id <= batch[|batch| - 1].id)
    ensures e.id in IdsOf(batch)
  {
    var j :| 0 <= j < |ahead| && ahead[j] == e;
    assert j < |batch|;
    assert IdsOf(batch)[j] == e.id;
  }

  /** A batch is ascending, lies ahead, and passes nothing over. */
  lemma BatchProps(es: seq<Entry>, after: Id, lastId: Id, count: Option<nat>)
    requires Increasing(es) && forall i :: 0 <= i < |es| ==> es[i].id <= lastId
    ensures var batch := Batch(es, after, lastId, count);
      var ids := IdsOf(batch);
      && Ascending(ids) && (forall i :: 0 <= i < |ids| ==> after < ids[i] <= lastId)
      && (forall i :: 0 <= i < |es| && es[i].id > after && (count.None? || (ids != [] && es[i].id <= ids[|ids| - 1])) ==> es[i].id in ids)
  {
    hide Between, Batch, Increasing, Ascending;
    var ahead := Between(es, after + 1, lastId);
    var batch := Batch(es, after, lastId, count);
    var ids := IdsOf(batch);
    BetweenProps(es, after + 1, lastId);
    BatchBegins(es, after, lastId, count);
    BeginningIncreasing(batch, ahead);
    forall i | 0 <= i < |ids| ensures after < ids[i] <= lastId {
      assert batch[i] in batch;
    }
    forall i | 0 <= i < |es| && es[i].id > after && (count.None? || (ids != [] && es[i].id <= ids[|ids| - 1]))
      ensures es[i].id in ids
    {
      assert es[i] in es;
      NonePassedOver(batch, ahead, es[i]);
    }
  }

  lemma AppendAscending(a: seq<Id>, b: seq<Id>, last: Id)
    requires Ascending(a) && Ascending(b)
    requires (forall i :: 0 <= i < |a| ==> a[i] <= last) && forall i :: 0 <= i < |b| ==> last < b[i]
    ensures Ascending(a + b)
  {
  }

  lemma ReadKeeps(s: State, count: Option<nat>, name: Name, now: nat)
    requires Inv(s)
    ensures Inv(Next(s, Read(name, count, now)))
  {
    hide Batch, Increasing, Skipped, BeyondSkipped;
    var batch := Batch(s.entries, s.lastDelivered, s.lastId, count);
    var ids := IdsOf(batch);
    BatchProps(s.entries, s.lastDelivered, s.lastId, count);
    if batch != [] {
      var last := ids[|ids| - 1];
      AppendAscending(s.delivered, ids, s.lastDelivered);
      forall i | 0 <= i < |ids| ensures ids[i] <= last && !Skipped(s.skips, ids[i]) {
        NotSkippedAhead(s, ids[i]);
      }
      NothingBeyond(s, last);
    }
  }

  lemma NotSkippedAhead(s: State, id: Id)
    requires Behind(s.lastDelivered, s.delivered, s.skips) && id > s.lastDelivered
    ensures !Skipped(s.skips, id)
  {
  }

  lemma NothingBeyond(s: State, last: Id)
    requires last <= s.lastId
    ensures BeyondSkipped(s.lastId, last, s.skips)
  {
  }

  lemma ShrinkKeeps(s: State, entries: seq<Entry>)
    requires Inv(s) && Increasing(entries) && forall e :: e in entries ==> e in s.entries
    ensures Inv(s.(entries := entries))
  {
    hide Skipped, BeyondSkipped, Behind;
    forall i | 0 <= i < |entries| ensures entries[i] in s.entries {
      assert entries[i] in entries;
    }
  }

  lemma StepKeeps(s: State, step: Step)
    requires Inv(s) && Fits(s, step)
    ensures Inv(Next(s, step))
  {
    hide Batch, Without, Between, Inv, CanGrow, Generate;
    match step
    case Add(id, fields) => if id > s.lastId { AddKeeps(s, Entry(id, fields)); }
    case AddAuto(fields, now, first, second) => AddAutoKeeps(s, fields, now, first, second);
    case Delete(ids) => DeleteKeeps(s, IdSet(ids));
    case TrimBelow(min) => TrimBelowKeeps(s, min);
    case TrimToCount(max) => TrimToCountKeeps(s, max);
    case Read(name, count, now) => ReadKeeps(s, count, name, now);
    case SetId(id) => SetIdKeeps(s, id);
    case _ =>
  }

  /** A new entry is ahead of the last delivered id, unless SETID has gone beyond it. */
  lemma AddKeeps(s: State, e: Entry)
    requires Inv(s) && s.lastId < e.id <= MAX_ID
    ensures Inv(s.(entries := s.entries + [e], lastId := e.id))
  {
    hide Skipped, Behind;
    AppendIncreasing(s.entries, e);
  }

  lemma AddAutoKeeps(s: State, fields: Fields, now: nat, first: bool, second: bool)
    requires Inv(s) && Fits(s, AddAuto(fields, now, first, second))
    ensures Inv(Next(s, AddAuto(fields, now, first, second)))
  {
    Repack(s.lastId);
    GeneratedIsLarger(Millis(s.lastId), Seq(s.lastId), now, first, second);
    var g := Generate(Millis(s.lastId), Seq(s.lastId), now, first, second);
    Unpack(g.millis, g.seq_);
    hide Inv, Generate, CanGrow;
    AddKeeps(s, Entry(g.id, fields));
  }

  lemma SetIdKeeps(s: State, id: Id)
    requires Inv(s) && id >= s.lastDelivered
    ensures Inv(Next(s, SetId(id)))
  {
    var skips' := s.skips + [(s.lastDelivered, id)];
    forall x: Id ensures Skipped(skips', x) <==> Skipped(s.skips, x) || s.lastDelivered < x <= id {
      SkippedMore(s.skips, (s.lastDelivered, id), x);
    }
    hide Skipped, Increasing;
    assert Behind(id, s.delivered, skips') && Covered(s.entries, id, s.delivered, skips') && BeyondSkipped(s.lastId, id, skips');
  }

  lemma SkippedMore(skips: seq<(Id, Id)>, range: (Id, Id), x: Id)
    ensures Skipped(skips + [range], x) <==> Skipped(skips, x) || range.0 < x <= range.1
  {
    var skips' := skips + [range];
    assert skips'[|skips|] == range;
    if i :| 0 <= i < |skips| && skips[i].0 < x <= skips[i].1 {
      assert skips'[i] == skips[i];
    }
    if i :| 0 <= i < |skips'| && skips'[i].0 < x <= skips'[i].1 {
      if i < |skips| { assert skips[i] == skips'[i]; }
    }
  }

  lemma TrimBelowKeeps(s: State, min: Id)
    requires Inv(s)
    ensures Inv(Next(s, TrimBelow(min)))
  {
    BetweenProps(s.entries, min, s.lastId);
    hide Inv, Increasing;
    ShrinkKeeps(s, Between(s.entries, min, s.lastId));
  }

  lemma TrimToCountKeeps(s: State, max: nat)
    requires Inv(s)
    ensures Inv(Next(s, TrimToCount(max)))
  {
    var k := if |s.entries| <= max then 0 else |s.entries| - max;
    assert s.entries[0..] == s.entries;
    SuffixProps(s.entries, k);
    hide Inv, Increasing;
    ShrinkKeeps(s, s.entries[k..]);
  }

  lemma SuffixProps(es: seq<Entry>, k: nat)
    requires Increasing(es) && k <= |es|
    ensures Increasing(es[k..]) && forall e :: e in es[k..] ==> e in es
  {
  }

  lemma DeleteKeeps(s: State, ids: set<Id>)
    requires Inv(s)
    ensures Inv(s.(entries := Without(s.entries, ids)))
  {
    WithoutIncreasing(s.entries, ids);
    forall e | e in Without(s.entries, ids) ensures e in s.entries {
      WithoutIds(s.entries, ids, e);
    }
    hide Without, Inv, Increasing;
    ShrinkKeeps(s, Without(s.entries, ids));
  }

  // ----- Whole runs -----

  /** The state after a run whose every step fits the state it meets. */
  ghost function After(steps: seq<Step>): (s: State)
    requires FitRun(steps)
    ensures Inv(s)
    decreases |steps|, 1
  {
    if steps == [] then StartInv(); START
    else
      var init, last := steps[..|steps| - 1], steps[|steps| - 1];
      StepKeeps(After(init), last);
      Next(After(init), last)
  }

  ghost predicate FitRun(steps: seq<Step>)
    decreases |steps|, 0
  {
    steps != [] ==>
      var init := steps[..|steps| - 1];
      FitRun(init) && Fits(After(init), steps[|steps| - 1])
  }

  lemma StartInv()
    ensures Inv(START)
  {
  }

  /** Over every run: the ids handed out form one strictly increasing sequence, so none is handed
      out twice; and an entry that is still stored has been handed out exactly when its id is not
      above the group's last delivered id and SETID has not skipped it, so none is passed over. */
  lemma DeliveredOnceAndInOrder(steps: seq<Step>)
    requires FitRun(steps)
    ensures var s := After(steps);
      && Ascending(s.delivered)
      && forall i :: 0 <= i < |s.entries| ==>
           (s.entries[i].id in s.delivered <==> s.entries[i].id <= s.lastDelivered && !Skipped(s.skips, s.entries[i].id))
  {
    var s := After(steps);
    hide After, Skipped;
    forall i | 0 <= i < |s.entries| && s.entries[i].id in s.delivered
      ensures s.entries[i].id <= s.lastDelivered && !Skipped(s.skips, s.entries[i].id)
    {
      var j :| 0 <= j < |s.delivered| && s.delivered[j] == s.entries[i].id;
    }
  }

  /** Without SETID nothing is skipped. */
  lemma {:induction false} NothingSkipped(steps: seq<Step>)
    requires FitRun(steps) && forall i :: 0 <= i < |steps| ==> !steps[i].SetId?
    ensures After(steps).skips == []
    decreases |steps|
  {
    if steps != [] {
      hide Next, Fits, Inv;
      var init, last := steps[..|steps| - 1], steps[|steps| - 1];
      NothingSkipped(init);
      SkipsOnlyBySetId(After(init), last);
    }
  }

  lemma SkipsOnlyBySetId(s: State, step: Step)
    requires s.lastId <= MAX_ID && !step.SetId?
    ensures Next(s, step).skips == s.skips
  {
    hide Batch, Without, Between, Generate;
  }

  /** A read without a limit catches up completely. */
  lemma UnlimitedReadCatchesUp(steps: seq<Step>, name: Name, now: nat)
    requires FitRun(steps)
    ensures var s := Next(After(steps), Read(name, None, now));
      forall i :: 0 <= i < |s.entries| ==> s.entries[i].id in s.delivered || Skipped(s.skips, s.entries[i].id)
  {
    var s := After(steps);
    BatchProps(s.entries, s.lastDelivered, s.lastId, None);
    hide Batch, After, Skipped;
  }

  lemma BatchIs(es: seq<Entry>, after: Id, lastId: Id, count: Option<nat>)
    ensures Batch(es, after, lastId, count) == Take(Between(es, after + 1, lastId), count)
  {
  }

  /** None of a batch is pending yet, and its last id is ahead. */
  lemma BatchIsNew(es: seq<Entry>, after: Id, lastId: Id, count: Option<nat>, m: ById)
    requires Increasing(es) && (forall i :: 0 <= i < |es| ==> es[i].id <= lastId) && forall id :: id in m ==> id <= after
    ensures var ids := IdsOf(Batch(es, after, lastId, count));
      && Rising(ids) && NoneIn(ids, m) && (ids != [] ==> ids[|ids| - 1] > after)
  {
    BatchProps(es, after, lastId, count);
  }

  /** XREADGROUP with `>`: what lies after the group's last delivered id, at most `count`, becomes
      pending for the consumer and is returned. */
  method ReadGroup(stream: Stream, group: ConsumerGroup, name: Name, count: Option<nat>, now: nat) returns (result: seq<Entry>)
    requires stream.Valid() && group.Valid()
    modifies group`lastDelivered, group`consumers, group`consumerCount, group`totalPending, group.pending
    ensures group.Valid()
    ensures result == Batch(stream.entries, old(group.lastDelivered), stream.lastId, count)
    ensures group.lastDelivered == if result == [] then old(group.lastDelivered) else result[|result| - 1].id
    ensures AddedTo(old(group.pending.byId), group.pending.byId, name, IdsOf(result), now)
  {
    var last := group.lastDelivered;
    BatchIsNew(stream.entries, last, stream.lastId, count, group.pending.byId);
    BatchIs(stream.entries, last, stream.lastId, count);
    hide Batch, Take, Between, Inverse, Extremes, ConsumersExact, AddedTo, Rising, NoneIn, Bounded, NewLast;
    hide Stream.Valid, ConsumerGroup.Valid, PendingEntryList.Valid;
    result := stream.RangeAfter(last, count);
    var ids := IdsOf(result);
    if result != [] {
      LastOf(result, last);
      RisingIds(ids, last);
      group.AddPending(name, ids, now);
    } else {
      AddedNothing(group.pending.byId, name, now);
    }
  }

  lemma LastOf(es: seq<Entry>, last: Id)
    requires es != [] && es[|es| - 1].id > last
    ensures NewLast(last, IdsOf(es)) == es[|es| - 1].id
  {
  }

  /** The code, run step by step from scratch, is that state machine; and after every run the pending
      indexes are inverse to each other and all counters are right. */
  method Run(steps: seq<Step>) returns (stream: Stream, group: ConsumerGroup, delivered: seq<Id>)
    requires FitRun(steps)
    ensures stream.Valid() && group.Valid()
    ensures After(steps) == State(stream.entries, stream.lastId, group.lastDelivered, delivered, After(steps).skips)
  {
    stream := new Stream();
    group := new ConsumerGroup();
    delivered := [];
    assert steps[..0] == [];
    for n := 0 to |steps|
      invariant fresh(stream) && fresh(group) && fresh(group.pending)
      invariant stream.Valid() && group.Valid() && FitRun(steps[..n])
      invariant After(steps[..n]) == State(stream.entries, stream.lastId, group.lastDelivered, delivered, After(steps[..n]).skips)
    {
      hide Next, Fits, Inv;
      FitPrefix(steps, n + 1);
      RunMore(steps, n);
      delivered := Apply(stream, group, delivered, steps[n], After(steps[..n]));
    }
    assert steps[..|steps|] == steps;
  }

  lemma {:induction false} FitPrefix(steps: seq<Step>, n: nat)
    requires FitRun(steps) && n <= |steps|
    ensures FitRun(steps[..n])
    decreases |steps|
  {
    if n == |steps| {
      assert steps[..n] == steps;
    } else {
      FitPrefix(steps[..|steps| - 1], n);
      assert steps[..|steps| - 1][..n] == steps[..n];
    }
  }

  lemma RunMore(steps: seq<Step>, n: nat)
    requires n < |steps| && FitRun(steps[..n + 1])
    ensures FitRun(steps[..n]) && Fits(After(steps[..n]), steps[n])
    ensures After(steps[..n + 1]) == Next(After(steps[..n]), steps[n])
  {
    assert steps[..n + 1][..n] == steps[..n];
  }

  method Apply(stream: Stream, group: ConsumerGroup, delivered0: seq<Id>, step: Step, ghost s: State) returns (delivered: seq<Id>)
    requires stream.Valid() && group.Valid() && s.lastId <= MAX_ID && Fits(s, step)
    requires s == State(stream.entries, stream.lastId, group.lastDelivered, delivered0, s.skips)
    modifies stream, group, group.pending
    ensures stream.Valid() && group.Valid()
    ensures Next(s, step) == State(stream.entries, stream.lastId, group.lastDelivered, delivered, Next(s, step).skips)
  {
    hide Between, Batch, Without, Generate, CanGrow, Stream.Valid, ConsumerGroup.Valid;
    if step.Read? {
      var result := ReadGroup(stream, group, step.name, step.count, step.now);
      delivered := delivered0 + IdsOf(result);
    } else {
      ApplyToStream(stream, step, s);
      ApplyToGroup(group, step, s);
      delivered := delivered0;
    }
  }

  method ApplyToStream(stream: Stream, step: Step, ghost s: State)
    requires stream.Valid() && s.lastId <= MAX_ID && Fits(s, step) && s.entries == stream.entries && s.lastId == stream.lastId
    modifies stream
    ensures stream.Valid() && Next(s, step).entries == stream.entries && Next(s, step).lastId == stream.lastId
  {
    hide Between, Batch, Without, Increasing, Generate, CanGrow, Bounded;
    match step
    case Add(id, fields) => var r := stream.AddWithId(id, fields);
    case AddAuto(fields, now, first, second) =>
      Unpack(stream.lastMillis, stream.lastSeq);
      var r := stream.AddAuto(fields, now, first, second);
    case Delete(ids) => var r := stream.Delete(ids);
    case TrimToCount(max) => var r := stream.TrimByCount(max);
    case TrimBelow(min) => var r := stream.TrimByMinId(min);
    case _ =>
  }

  method ApplyToGroup(group: ConsumerGroup, step: Step, ghost s: State)
    requires group.Valid() && !step.Read? && s.lastId <= MAX_ID && Fits(s, step) && s.lastDelivered == group.lastDelivered
    modifies group, group.pending
    ensures group.Valid()
    ensures Next(s, step).lastDelivered == group.lastDelivered && Next(s, step).delivered == s.delivered
  {
    hide Between, Without, Generate, ConsumerGroup.Valid, ClaimMap, ClaimList, FirstIdle, IdSet;
    match step
    case Acknowledge(ids) => var r := group.Acknowledge(ids);
    case SetId(id) => group.SetId(id);
    case CreateConsumer(name, now) => var r := group.CreateConsumer(name, now);
    case DeleteConsumer(name) => var r := group.DeleteConsumer(name);
    case AutoClaim(name, minIdle, start, count, now, now2, later) =>
      var claimed, next, ids := group.AutoClaim(name, minIdle, start, count, now, now2, later);
    case Claim(name, minIdle, ids, force, at, later) => var r := group.ClaimMessages(name, minIdle, ids, force, at, later);
    case _ =>
  }
}
