/**
 * The ordered delivery buffer of `CorrelationProxyControl`: an insertion-ordered
 * map from capture-thread handle to pending transaction, of which only the
 * leading run of completed transactions is ever handed on.
 *
 * The map is a sequence of records; its key order is the sequence order. The
 * buffer methods are `synchronized`, so an arbitrary interleaving of calls is
 * a sequence of calls (`Run`). Handing a record on (`deliverCompletedProxy`)
 * is appending it to the delivery trace.
 */
module DeliveryBuffer {
  import opened Wrappers
  import opened Samples
  import opened Sequences

  /** The identity of a capture thread (the map key). */
  type Handle = nat

  /** A `PendingProxy`: what one capture thread has reported so far. */
  datatype Pending = Pending(
    handle: Handle,
    target: nat,
    sampler: Option<Sampler>,
    elements: seq<nat>,
    result: Option<SampleResult>,
    complete: bool)

  /** The record `startedProxy` creates: no request, no result, not complete. */
  function Fresh(h: Handle, target: nat): Pending {
    Pending(h, target, None, [], None, false)
  }

  function Handles(b: seq<Pending>): (r: seq<Handle>)
    ensures |r| == |b|
    ensures forall i :: 0 <= i < |b| ==> r[i] == b[i].handle
  {
    seq(|b|, i requires 0 <= i < |b| => b[i].handle)
  }

  lemma HandlesAppend(a: seq<Pending>, b: seq<Pending>)
    ensures Handles(a + b) == Handles(a) + Handles(b)
  {
  }

  /** `LinkedHashMap.get`: the position of the record for `h`, if any. */
  function Find(b: seq<Pending>, h: Handle): (r: Option<nat>)
    ensures r.None? <==> h !in Handles(b)
    ensures r.Some? ==> r.value < |b| && b[r.value].handle == h
    ensures r.Some? ==> forall j :: 0 <= j < r.value ==> b[j].handle != h
  {
    if |b| == 0 then None
    else if b[0].handle == h then Some(0)
    else match Find(b[1..], h)
      case None => None
      case Some(i) => Some(i + 1)
  }

  /** The records whose handle is not `h`, in order (reference definition of a removal). */
  function Without(b: seq<Pending>, h: Handle): (r: seq<Pending>)
  {
    if |b| == 0 then []
    else if b[0].handle == h then Without(b[1..], h)
    else [b[0]] + Without(b[1..], h)
  }

  /** Every record for `h` marked complete (reference definition of `setComplete(true)`). */
  function MarkComplete(b: seq<Pending>, h: Handle): (r: seq<Pending>)
  {
    seq(|b|, i requires 0 <= i < |b| => if b[i].handle == h then b[i].(complete := true) else b[i])
  }

  /** `startedProxy(h)`: `put` a fresh record for `h`. */
  function StartedProxy(b: seq<Pending>, h: Handle, target: nat): (r: seq<Pending>)
    ensures h !in Handles(b) ==> |r| == |b| + 1 && r[|b|] == Fresh(h, target)
    ensures h in Handles(b) ==> |r| == |b|
    ensures forall j :: 0 <= j < |b| && b[j].handle != h ==> r[j] == b[j]
    ensures Distinct(Handles(b)) ==> Distinct(Handles(r))
    ensures Distinct(Handles(b)) ==>
              forall j :: 0 <= j < |r| && r[j].handle == h ==> r[j] == Fresh(h, target)
  {
    match Find(b, h)
    case None => b + [Fresh(h, target)]
    case Some(i) => b[i := Fresh(h, target)]
  }

  /**
   * `deliverSampler`: the calling thread's record takes the request, its
   * auxiliary elements and the result. The source dereferences the map entry
   * without a null check, so the handle must be present.
   */
  function DeliverSampler(
    b: seq<Pending>, h: Handle, sampler: Option<Sampler>, elements: seq<nat>, result: Option<SampleResult>
  ): (r: seq<Pending>)
    requires h in Handles(b)
    ensures Handles(r) == Handles(b)
    ensures forall j :: 0 <= j < |b| ==> r[j].complete == b[j].complete && r[j].target == b[j].target
    ensures forall j :: 0 <= j < |b| && b[j].handle != h ==> r[j] == b[j]
    ensures Distinct(Handles(b)) ==>
              forall j :: 0 <= j < |r| && r[j].handle == h ==>
                r[j].sampler == sampler && r[j].elements == elements && r[j].result == result
  {
    var i := Find(b, h).value;
    b[i := b[i].(sampler := sampler, elements := elements, result := result)]
  }

  datatype Drained = Drained(delivered: seq<Pending>, remaining: seq<Pending>)

  /**
   * `deliverPendingCompletedRequests`: hands on the longest run of complete
   * records at the front, in order, and keeps the rest untouched.
   */
  function DeliverPendingCompletedRequests(b: seq<Pending>): (r: Drained)
    ensures r.delivered + r.remaining == b
    ensures forall i :: 0 <= i < |r.delivered| ==> r.delivered[i].complete
    ensures r.remaining == [] || !r.remaining[0].complete
  {
    if |b| == 0 || !b[0].complete then Drained([], b)
    else
      var rest := DeliverPendingCompletedRequests(b[1..]);
      ConsRegroup(b, rest.delivered, rest.remaining);
      Drained([b[0]] + rest.delivered, rest.remaining)
  }

  lemma ConsRegroup(b: seq<Pending>, d: seq<Pending>, r: seq<Pending>)
    requires |b| > 0 && d + r == b[1..]
    ensures [b[0]] + d + r == b
  {
    assert [b[0]] + d + r == [b[0]] + (d + r);
  }

  /** The buffer before the drain of `endedProxy`, for a known handle. */
  function Settle(b: seq<Pending>, h: Handle): seq<Pending>
    requires h in Handles(b)
  {
    var i := Find(b, h).value;
    if b[i].result.None? then b[..i] + b[i + 1..] else b[i := b[i].(complete := true)]
  }

  datatype Ended = Ended(buffer: seq<Pending>, delivered: seq<Pending>)

  /**
   * `endedProxy(h)`: an unknown handle is ignored outright. Otherwise a record
   * without a result is removed and never handed on, a record with a result is
   * marked complete, and the buffer is drained.
   */
  function EndedProxy(b: seq<Pending>, h: Handle): (r: Ended)
    ensures h !in Handles(b) ==> r.buffer == b && r.delivered == []
    ensures h in Handles(b) ==>
              && (forall i :: 0 <= i < |r.delivered| ==> r.delivered[i].complete)
              && (r.buffer == [] || !r.buffer[0].complete)
    ensures h in Handles(b) ==> r.delivered + r.buffer == Settle(b, h)
  {
    match Find(b, h)
    case None => Ended(b, [])
    case Some(i) =>
      var d := DeliverPendingCompletedRequests(Settle(b, h));
      Ended(d.remaining, d.delivered)
  }

  /**
   * With one record per handle, `endedProxy` of a record without a result
   * removes it for good, and of a record with a result marks it complete;
   * either way the other records, handed on or kept, are unchanged and in order.
   */
  lemma EndedProxyOutcome(b: seq<Pending>, h: Handle)
    requires Distinct(Handles(b)) && h in Handles(b)
    ensures var r := EndedProxy(b, h);
      b[Find(b, h).value].result.None? ==>
        r.delivered + r.buffer == Without(b, h) &&
        h !in Handles(r.delivered) && h !in Handles(r.buffer)
    ensures var r := EndedProxy(b, h);
      b[Find(b, h).value].result.Some? ==> r.delivered + r.buffer == MarkComplete(b, h)
  {
    var r := EndedProxy(b, h);
    SettleSpec(b, h);
    HandlesAppend(r.delivered, r.buffer);
  }

  /** Removing the records of a handle that only position `i` holds is deleting position `i`. */
  lemma {:induction false} WithoutOnly(b: seq<Pending>, h: Handle, i: nat)
    requires i < |b| && b[i].handle == h
    requires forall j :: 0 <= j < |b| && j != i ==> b[j].handle != h
    ensures Without(b, h) == b[..i] + b[i + 1..]
    decreases |b|
  {
    var t := b[1..];
    if i > 0 {
      WithoutOnly(t, h, i - 1);
      assert t[..i - 1] + t[i..] == b[1..i] + b[i + 1..];
      assert b[..i] + b[i + 1..] == [b[0]] + (b[1..i] + b[i + 1..]);
    } else {
      WithoutNone(t, h);
      assert b[..0] + b[1..] == t;
    }
  }

  /** Removing the records of a handle nobody holds changes nothing. */
  lemma {:induction false} WithoutNone(b: seq<Pending>, h: Handle)
    requires forall j :: 0 <= j < |b| ==> b[j].handle != h
    ensures Without(b, h) == b
    decreases |b|
  {
    if |b| > 0 {
      WithoutNone(b[1..], h);
      assert [b[0]] + b[1..] == b;
    }
  }

  lemma OnlyHolder(b: seq<Pending>, i: nat)
    requires Distinct(Handles(b)) && i < |b|
    ensures forall j :: 0 <= j < |b| && j != i ==> b[j].handle != b[i].handle
  {
    forall j | 0 <= j < |b| && j != i
      ensures b[j].handle != b[i].handle
    {
      assert Handles(b)[j] == b[j].handle && Handles(b)[i] == b[i].handle;
    }
  }

  lemma SettleSpec(b: seq<Pending>, h: Handle)
    requires h in Handles(b)
    ensures var i := Find(b, h).value;
      Distinct(Handles(b)) ==>
        (b[i].result.None? ==> Settle(b, h) == Without(b, h) && h !in Handles(Settle(b, h))) &&
        (b[i].result.Some? ==> Settle(b, h) == MarkComplete(b, h))
  {
    var i := Find(b, h).value;
    if Distinct(Handles(b)) {
      if b[i].result.None? {
        OnlyHolder(b, i);
        WithoutOnly(b, h, i);
        var s := Settle(b, h);
        forall j | 0 <= j < |s|
          ensures s[j].handle != h
        {
          if j < i {
            assert s[j] == b[j];
          } else {
            assert s[j] == b[j + 1];
          }
        }
      }
    }
  }

  /** One `synchronized` call into the buffer. */
  datatype Call =
    | Start(h: Handle, target: nat)
    | Deliver(h: Handle, sampler: Option<Sampler>, elements: seq<nat>, result: Option<SampleResult>)
    | End(h: Handle)

  /** A call may be made: `deliverSampler` needs its record to exist. */
  predicate Allowed(b: seq<Pending>, c: Call) {
    c.Deliver? ==> c.h in Handles(b)
  }

  datatype Step = Step(buffer: seq<Pending>, delivered: seq<Pending>)

  function Apply(b: seq<Pending>, c: Call): Step
    requires Allowed(b, c)
  {
    match c
    case Start(h, target) => Step(StartedProxy(b, h, target), [])
    case Deliver(h, s, e, res) => Step(DeliverSampler(b, h, s, e, res), [])
    case End(h) =>
      var e := EndedProxy(b, h);
      Step(e.buffer, e.delivered)
  }

  /**
   * The outcome of a sequence of calls: the buffer, every record handed on
   * (in order), and the handles whose `endedProxy` found a record without a
   * result.
   */
  datatype Outcome = Outcome(buffer: seq<Pending>, trace: seq<Pending>, dropped: seq<Handle>)

  /** Every call of `calls` is allowed in the state it is made in. */
  predicate Admissible(b: seq<Pending>, calls: seq<Call>)
    decreases |calls|, 0
  {
    |calls| == 0 ||
    (Admissible(b, calls[..|calls| - 1]) &&
     Allowed(Run(b, calls[..|calls| - 1]).buffer, calls[|calls| - 1]))
  }

  function Run(b: seq<Pending>, calls: seq<Call>): Outcome
    requires Admissible(b, calls)
    decreases |calls|, 1
  {
    if |calls| == 0 then Outcome(b, [], [])
    else
      Next(Run(b, calls[..|calls| - 1]), calls[|calls| - 1])
  }

  /** One more call: its records handed on are appended to the trace. */
  function Next(o: Outcome, c: Call): Outcome
    requires Allowed(o.buffer, c)
  {
    var s := Apply(o.buffer, c);
    Outcome(s.buffer, o.trace + s.delivered, o.dropped + Dropped(o.buffer, c))
  }

  /** The handle a call removes without handing it on: an `endedProxy` finding no result. */
  function Dropped(b: seq<Pending>, c: Call): seq<Handle> {
    if c.End? && c.h in Handles(b) && b[Find(b, c.h).value].result.None? then [c.h] else []
  }

  /** The handles of the `startedProxy` calls, in call order. */
  function StartLog(calls: seq<Call>): seq<Handle>
  {
    if |calls| == 0 then []
    else StartLog(calls[..|calls| - 1]) +
         (if calls[|calls| - 1].Start? then [calls[|calls| - 1].h] else [])
  }

  /** The buffer a call leaves before its drain: what it hands on followed by what it keeps. */
  function Mid(b: seq<Pending>, c: Call): seq<Pending>
    requires Allowed(b, c)
  {
    match c
    case Start(h, target) => StartedProxy(b, h, target)
    case Deliver(h, s, e, res) => DeliverSampler(b, h, s, e, res)
    case End(h) => if h in Handles(b) then Settle(b, h) else b
  }

  lemma ApplyMid(b: seq<Pending>, c: Call)
    requires Allowed(b, c)
    ensures Apply(b, c).delivered + Apply(b, c).buffer == Mid(b, c)
  {
    var s := Apply(b, c);
    match c
    case Start(h, t) =>
      assert s == Step(StartedProxy(b, h, t), []);
      EmptyPrefix(StartedProxy(b, h, t));
    case Deliver(h, sm, el, res) =>
      assert s == Step(DeliverSampler(b, h, sm, el, res), []);
      EmptyPrefix(DeliverSampler(b, h, sm, el, res));
    case End(h) =>
      if h !in Handles(b) {
        assert s == Step(b, []);
        EmptyPrefix(b);
      }
  }

  lemma EmptyPrefix(b: seq<Pending>)
    ensures [] + b == b
  {
  }

  /**
   * The handles of what one call hands on, followed by the buffer after it,
   * are the buffer's handles before it with at most one change: a new handle
   * at the end (`startedProxy` of an unknown handle) or the ended handle
   * removed (`endedProxy` of a record without result).
   */
  lemma MidHandles(b: seq<Pending>, c: Call)
    requires Allowed(b, c)
    ensures c.Start? ==> Handles(Mid(b, c)) == Handles(b) + (if c.h in Handles(b) then [] else [c.h])
    ensures c.Deliver? ==> Handles(Mid(b, c)) == Handles(b)
    ensures c.End? && c.h in Handles(b) && b[Find(b, c.h).value].result.None? ==>
              Handles(Mid(b, c)) ==
                Handles(b)[..Find(b, c.h).value] + Handles(b)[Find(b, c.h).value + 1..]
    ensures c.End? && !(c.h in Handles(b) && b[Find(b, c.h).value].result.None?) ==>
              Handles(Mid(b, c)) == Handles(b)
  {
    match c
    case Start(h, t) =>
      StartedHandles(b, h, t);
    case Deliver(h, _, _, _) =>
    case End(h) =>
      if h in Handles(b) {
        SettleHandles(b, h);
      }
  }

  lemma StartedHandles(b: seq<Pending>, h: Handle, t: nat)
    ensures Handles(StartedProxy(b, h, t)) == Handles(b) + (if h in Handles(b) then [] else [h])
  {
    if h !in Handles(b) {
      HandlesAppend(b, [Fresh(h, t)]);
    }
  }

  lemma SettleHandles(b: seq<Pending>, h: Handle)
    requires h in Handles(b)
    ensures var i := Find(b, h).value;
      Handles(Settle(b, h)) ==
        if b[i].result.None? then Handles(b)[..i] + Handles(b)[i + 1..] else Handles(b)
  {
    var i := Find(b, h).value;
    if b[i].result.None? {
      SettleRemoves(b, h);
    } else {
      SettleMarks(b, h);
    }
  }

  lemma SettleRemoves(b: seq<Pending>, h: Handle)
    requires h in Handles(b) && b[Find(b, h).value].result.None?
    ensures Handles(Settle(b, h)) == Handles(b)[..Find(b, h).value] + Handles(b)[Find(b, h).value + 1..]
  {
    var i := Find(b, h).value;
    assert Settle(b, h) == b[..i] + b[i + 1..];
    HandlesDelete(b, i);
  }

  lemma SettleMarks(b: seq<Pending>, h: Handle)
    requires h in Handles(b) && b[Find(b, h).value].result.Some?
    ensures Handles(Settle(b, h)) == Handles(b)
  {
    var i := Find(b, h).value;
    assert Settle(b, h) == b[i := b[i].(complete := true)];
    HandlesUpdate(b, i, b[i].(complete := true));
  }

  lemma HandlesDelete(b: seq<Pending>, i: nat)
    requires i < |b|
    ensures Handles(b[..i] + b[i + 1..]) == Handles(b)[..i] + Handles(b)[i + 1..]
  {
    HandlesAppend(b[..i], b[i + 1..]);
    assert Handles(b[..i]) == Handles(b)[..i];
    assert Handles(b[i + 1..]) == Handles(b)[i + 1..];
  }

  lemma HandlesUpdate(b: seq<Pending>, i: nat, p: Pending)
    requires i < |b| && p.handle == b[i].handle
    ensures Handles(b[i := p]) == Handles(b)
  {
  }

  /** `Run` unfolded once: the last call applied to the state the earlier calls left. */
  lemma RunLast(b: seq<Pending>, calls: seq<Call>)
    requires |calls| > 0 && Admissible(b, calls)
    ensures var prev := Run(b, calls[..|calls| - 1]);
      var c := calls[|calls| - 1];
      && Allowed(prev.buffer, c)
      && Run(b, calls).buffer == Apply(prev.buffer, c).buffer
      && Run(b, calls).trace == prev.trace + Apply(prev.buffer, c).delivered
      && Run(b, calls).dropped == prev.dropped + Dropped(prev.buffer, c)
      && StartLog(calls) == StartLog(calls[..|calls| - 1]) + (if c.Start? then [c.h] else [])
  {
  }

  /** The handles handed on and kept by one call are those of its pre-drain buffer. */
  lemma StepHandles(trace: seq<Pending>, buf: seq<Pending>, c: Call)
    requires Allowed(buf, c)
    ensures Handles(trace + Apply(buf, c).delivered) + Handles(Apply(buf, c).buffer) ==
            Handles(trace) + Handles(Mid(buf, c))
  {
    ApplyMid(buf, c);
    HandlesRegroup(trace, Apply(buf, c).delivered, Apply(buf, c).buffer, Mid(buf, c));
  }

  lemma HandlesRegroup(t: seq<Pending>, d: seq<Pending>, rest: seq<Pending>, m: seq<Pending>)
    requires d + rest == m
    ensures Handles(t + d) + Handles(rest) == Handles(t) + Handles(m)
  {
    HandlesAppend(t, d);
    HandlesAppend(d, rest);
  }

  /** The pre-drain buffer of one call keeps the handles a subsequence of the start log. */
  lemma MidKeepsStartOrder(th: seq<Handle>, buf: seq<Pending>, c: Call, log: seq<Handle>)
    requires Allowed(buf, c)
    requires IsSubseq(th + Handles(buf), log)
    ensures IsSubseq(th + Handles(Mid(buf, c)), log + (if c.Start? then [c.h] else []))
  {
    EffectHandles(buf, c);
    var ext := if c.Start? then [c.h] else [];
    EffectKeepsOrder(th, Handles(buf), EffectOf(buf, c), log, ext);
  }

  /** `MidKeepsStartOrder` on plain handle sequences, for each effect. */
  lemma EffectKeepsOrder(th: seq<Handle>, hb: seq<Handle>, e: Effect, log: seq<Handle>, ext: seq<Handle>)
    requires e.Remove? ==> e.i < |hb|
    requires e.Add? ==> ext == [e.h]
    requires e.Remove? ==> ext == []
    requires |ext| <= 1
    requires IsSubseq(th + hb, log)
    ensures IsSubseq(th + Affect(hb, e), log + ext)
  {
    match e
    case Keep =>
      if ext == [] {
        assert log + ext == log;
      } else {
        SubseqExtendRight(th + hb, log, ext[0]);
        assert log + ext == log + [ext[0]];
      }
    case Add(h) =>
      assert th + Affect(hb, e) == (th + hb) + [h];
      SubseqExtendBoth(th + hb, log, h);
    case Remove(i) =>
      ConcatDelete(th, hb, i);
      SubseqDelete(th + hb, log, |th| + i);
      assert log + ext == log;
  }

  /** One call keeps the handed-on-then-buffered handles a subsequence of the start log. */
  lemma StepKeepsStartOrder(trace: seq<Pending>, buf: seq<Pending>, c: Call, log: seq<Handle>)
    requires Allowed(buf, c)
    requires IsSubseq(Handles(trace) + Handles(buf), log)
    ensures IsSubseq(Handles(trace + Apply(buf, c).delivered) + Handles(Apply(buf, c).buffer),
                     log + (if c.Start? then [c.h] else []))
  {
    StepHandles(trace, buf, c);
    MidKeepsStartOrder(Handles(trace), buf, c, log);
  }

  /** Deleting position `i` of `m` is deleting position `|t| + i` of `t + m`. */
  lemma ConcatDelete(t: seq<Handle>, m: seq<Handle>, i: nat)
    requires i < |m|
    ensures t + (m[..i] + m[i + 1..]) == (t + m)[..|t| + i] + (t + m)[|t| + i + 1..]
  {
    assert (t + m)[..|t| + i] == t + m[..i];
    assert (t + m)[|t| + i + 1..] == m[i + 1..];
  }

  /**
   * Whatever the interleaving, the handed-on records followed by the records
   * still buffered keep the order of the `startedProxy` calls (after whatever
   * was buffered at the start).
   */
  lemma {:induction false} RunKeepsStartOrder(b: seq<Pending>, calls: seq<Call>)
    requires Admissible(b, calls)
    ensures IsSubseq(Handles(Run(b, calls).trace) + Handles(Run(b, calls).buffer),
                     Handles(b) + StartLog(calls))
    decreases |calls|
  {
    if |calls| == 0 {
      RunEmpty(b, calls);
      SubseqRefl(Handles(b));
    } else {
      var pre := calls[..|calls| - 1];
      var c := calls[|calls| - 1];
      var prev := Run(b, pre);
      RunKeepsStartOrder(b, pre);
      RunLast(b, calls);
      StepKeepsStartOrder(prev.trace, prev.buffer, c, Handles(b) + StartLog(pre));
      AppendAssoc(Handles(b), StartLog(pre), if c.Start? then [c.h] else []);
    }
  }

  /** No calls: nothing handed on, nothing dropped, the buffer as it was. */
  lemma RunEmpty(b: seq<Pending>, calls: seq<Call>)
    requires |calls| == 0
    ensures Admissible(b, calls)
    ensures Run(b, calls) == Outcome(b, [], [])
    ensures StartLog(calls) == []
    ensures Handles(Run(b, calls).trace) + Handles(Run(b, calls).buffer) == Handles(b)
    ensures Handles(b) + StartLog(calls) == Handles(b)
  {
  }

  lemma AppendAssoc(a: seq<Handle>, b: seq<Handle>, c: seq<Handle>)
    ensures a + (b + c) == a + b + c
  {
  }

  /** Handed-on records always come in the order their threads started. */
  lemma DeliveryFollowsStartOrder(calls: seq<Call>)
    requires Admissible([], calls)
    ensures IsSubseq(Handles(Run([], calls).trace), StartLog(calls))
  {
    var r := Run([], calls);
    RunKeepsStartOrder([], calls);
    assert Handles([]) + StartLog(calls) == StartLog(calls);
    SubseqPrefix(Handles(r.trace) + Handles(r.buffer), StartLog(calls), |r.trace|);
    assert (Handles(r.trace) + Handles(r.buffer))[..|r.trace|] == Handles(r.trace);
  }

  lemma DistinctPrefix(a: seq<Handle>, n: nat)
    requires Distinct(a) && n <= |a|
    ensures Distinct(a[..n])
  {
  }

  lemma LastNotEarlier(a: seq<Handle>, x: Handle)
    requires Distinct(a + [x])
    ensures x !in a
  {
    forall j | 0 <= j < |a|
      ensures a[j] != x
    {
      assert (a + [x])[j] == a[j] && (a + [x])[|a|] == x;
    }
  }

  /** A new handle, absent from the log so far, keeps the invariant of `MidKeepsDistinct`. */
  lemma AppendKeepsDistinct(before: seq<Handle>, log: seq<Handle>, h: Handle, dropped: seq<Handle>)
    requires Distinct(log + [h])
    requires forall x :: x in before ==> x in log
    requires Distinct(before)
    requires forall x :: x in dropped ==> x !in before && x in log
    ensures Distinct(before + [h])
    ensures forall x :: x in dropped ==> x !in before + [h] && x in log + [h]
  {
    LastNotEarlier(log, h);
  }

  /** Deleting a handle keeps the invariant of `MidKeepsDistinct` and adds it to the dropped ones. */
  lemma DeleteKeepsDistinct(before: seq<Handle>, k: nat, log: seq<Handle>, dropped: seq<Handle>)
    requires k < |before|
    requires forall x :: x in before ==> x in log
    requires Distinct(before)
    requires forall x :: x in dropped ==> x !in before && x in log
    ensures Distinct(before[..k] + before[k + 1..])
    ensures forall x :: x in dropped + [before[k]] ==>
              x !in before[..k] + before[k + 1..] && x in log
  {
    DeleteDistinct(before, k);
  }

  /** Removing one position of a duplicate-free sequence removes that value entirely. */
  lemma DeleteDistinct(a: seq<Handle>, k: nat)
    requires Distinct(a) && k < |a|
    ensures Distinct(a[..k] + a[k + 1..])
    ensures a[k] !in a[..k] + a[k + 1..]
    ensures forall x :: x in a[..k] + a[k + 1..] ==> x in a
  {
    var d := a[..k] + a[k + 1..];
    forall j | 0 <= j < |d|
      ensures d[j] == a[if j < k then j else j + 1]
    {
    }
  }

  /**
   * One call, at the level of handles: with duplicate-free starts, the handed
   * on and buffered handles stay duplicate-free, and a dropped handle leaves
   * them for good.
   */
  lemma MidKeepsDistinct(
    th: seq<Handle>, buf: seq<Pending>, c: Call, log: seq<Handle>, dropped: seq<Handle>)
    requires Allowed(buf, c)
    requires Distinct(log + (if c.Start? then [c.h] else []))
    requires IsSubseq(th + Handles(buf), log)
    requires Distinct(th + Handles(buf))
    requires forall x :: x in dropped ==> x !in th + Handles(buf) && x in log
    ensures Distinct(th + Handles(Mid(buf, c)))
    ensures forall x :: x in dropped + Dropped(buf, c) ==>
              x !in th + Handles(Mid(buf, c)) && x in log + (if c.Start? then [c.h] else [])
  {
    var e := EffectOf(buf, c);
    EffectHandles(buf, c);
    SubseqMembers(th + Handles(buf), log);
    EffectKeepsDistinct(th, Handles(buf), e, log, if c.Start? then [c.h] else [], dropped);
  }

  /** What one call does to the buffered handles before the drain. */
  datatype Effect = Keep | Add(h: Handle) | Remove(i: nat)

  function EffectOf(b: seq<Pending>, c: Call): Effect
    requires Allowed(b, c)
  {
    if c.Start? && c.h !in Handles(b) then Add(c.h)
    else if c.End? && c.h in Handles(b) && b[Find(b, c.h).value].result.None? then Remove(Find(b, c.h).value)
    else Keep
  }

  function Affect(hs: seq<Handle>, e: Effect): seq<Handle>
    requires e.Remove? ==> e.i < |hs|
  {
    match e
    case Keep => hs
    case Add(h) => hs + [h]
    case Remove(i) => hs[..i] + hs[i + 1..]
  }

  lemma EffectHandles(b: seq<Pending>, c: Call)
    requires Allowed(b, c)
    ensures EffectOf(b, c).Remove? ==> EffectOf(b, c).i < |b|
    ensures Handles(Mid(b, c)) == Affect(Handles(b), EffectOf(b, c))
    ensures Dropped(b, c) == if EffectOf(b, c).Remove? then [Handles(b)[EffectOf(b, c).i]] else []
    ensures EffectOf(b, c).Add? ==> c.Start? && c.h == EffectOf(b, c).h && c.h !in Handles(b)
  {
    MidAffect(b, c);
  }

  lemma MidAffect(b: seq<Pending>, c: Call)
    requires Allowed(b, c)
    requires EffectOf(b, c).Remove? ==> EffectOf(b, c).i < |b|
    ensures Handles(Mid(b, c)) == Affect(Handles(b), EffectOf(b, c))
  {
    match c
    case Start(h, t) =>
      StartedHandles(b, h, t);
    case Deliver(h, _, _, _) =>
    case End(h) =>
      if h in Handles(b) {
        var i := Find(b, h).value;
        if b[i].result.None? {
          assert EffectOf(b, c) == Remove(i);
          SettleRemoves(b, h);
        } else {
          assert EffectOf(b, c) == Keep;
          SettleMarks(b, h);
        }
      }
  }

  /** The invariant of `DroppedNeverDelivered`, for one effect on plain handle sequences. */
  lemma EffectKeepsDistinct(
    th: seq<Handle>, hb: seq<Handle>, e: Effect, log: seq<Handle>, ext: seq<Handle>, dropped: seq<Handle>)
    requires e.Remove? ==> e.i < |hb|
    requires e.Add? ==> ext == [e.h] && e.h !in hb
    requires Distinct(log + ext)
    requires forall x :: x in th + hb ==> x in log
    requires Distinct(th + hb)
    requires forall x :: x in dropped ==> x !in th + hb && x in log
    ensures Distinct(th + Affect(hb, e))
    ensures forall x :: x in dropped + (if e.Remove? then [hb[e.i]] else []) ==>
              x !in th + Affect(hb, e) && x in log + ext
  {
    var before := th + hb;
    match e
    case Keep =>
      KeepKeepsDistinct(before, log, ext, dropped);
    case Add(h) =>
      assert th + Affect(hb, e) == before + [h];
      AppendKeepsDistinct(before, log, h, dropped);
    case Remove(i) =>
      ConcatDelete(th, hb, i);
      assert before[|th| + i] == hb[i];
      DeleteKeepsDistinct(before, |th| + i, log, dropped);
  }

  lemma KeepKeepsDistinct(before: seq<Handle>, log: seq<Handle>, ext: seq<Handle>, dropped: seq<Handle>)
    requires Distinct(before)
    requires forall x :: x in dropped ==> x !in before && x in log
    ensures forall x :: x in dropped ==> x !in before && x in log + ext
  {
  }

  /**
   * When every thread handle is started at most once, a record whose end
   * found no result is never handed on, and the handed-on and buffered records
   * never share a handle.
   */
  lemma {:induction false} DroppedNeverDelivered(b: seq<Pending>, calls: seq<Call>)
    requires Admissible(b, calls)
    requires Distinct(Handles(b) + StartLog(calls))
    ensures Distinct(Handles(Run(b, calls).trace) + Handles(Run(b, calls).buffer))
    ensures forall h :: h in Run(b, calls).dropped ==>
              h !in Handles(Run(b, calls).trace) + Handles(Run(b, calls).buffer) &&
              h in Handles(b) + StartLog(calls)
    decreases |calls|
  {
    if |calls| == 0 {
      RunEmpty(b, calls);
    } else {
      var pre := calls[..|calls| - 1];
      var c := calls[|calls| - 1];
      var prev := Run(b, pre);
      var log := Handles(b) + StartLog(pre);
      var ext := if c.Start? then [c.h] else [];
      RunLast(b, calls);
      AppendAssoc(Handles(b), StartLog(pre), ext);
      DistinctPrefix(Handles(b) + StartLog(calls), |log|);
      assert (Handles(b) + StartLog(calls))[..|log|] == log;
      DroppedNeverDelivered(b, pre);
      RunKeepsStartOrder(b, pre);
      StepHandles(prev.trace, prev.buffer, c);
      MidKeepsDistinct(Handles(prev.trace), prev.buffer, c, log, prev.dropped);
    }
  }

  /** A call's effect: the drain runs only for an `endedProxy` of a known handle. */
  lemma ApplyDrain(b: seq<Pending>, c: Call)
    requires Allowed(b, c)
    ensures c.End? && c.h in Handles(b) ==>
              Apply(b, c) == Step(DeliverPendingCompletedRequests(Mid(b, c)).remaining,
                                  DeliverPendingCompletedRequests(Mid(b, c)).delivered)
    ensures !(c.End? && c.h in Handles(b)) ==> Apply(b, c) == Step(Mid(b, c), [])
  {
  }

  /**
   * The record of a call that neither adds nor removes a handle keeps its
   * handle, and an incomplete record stays incomplete unless its own thread ends.
   */
  lemma KeepRecord(b: seq<Pending>, c: Call, q: nat)
    requires Allowed(b, c) && EffectOf(b, c).Keep?
    requires q < |b| && !b[q].complete
    requires c.End? ==> c.h != b[q].handle
    ensures |Mid(b, c)| == |b| && Handles(Mid(b, c)) == Handles(b)
    ensures Mid(b, c)[q].handle == b[q].handle && !Mid(b, c)[q].complete
  {
    EffectHandles(b, c);
    match c
    case Start(g, t) =>
      var j := Find(b, g).value;
      assert Mid(b, c) == b[j := Fresh(g, t)];
    case Deliver(g, sm, el, res) =>
    case End(g) =>
      if g in Handles(b) {
        var j := Find(b, g).value;
        assert j != q;
        assert Mid(b, c) == b[j := b[j].(complete := true)];
      }
  }

  /** An `endedProxy` removing a record ahead of position `q` moves it one place forward. */
  lemma RemoveRecord(b: seq<Pending>, c: Call, q: nat)
    requires Allowed(b, c) && EffectOf(b, c).Remove?
    requires q < |b| && (c.End? ==> c.h != b[q].handle)
    ensures EffectOf(b, c).i != q
    ensures EffectOf(b, c).i < q ==>
              Mid(b, c)[q - 1] == b[q] && Mid(b, c)[..q - 1] == b[..EffectOf(b, c).i] + b[EffectOf(b, c).i + 1..q]
    ensures EffectOf(b, c).i > q ==> Mid(b, c)[q] == b[q] && Mid(b, c)[..q] == b[..q]
  {
    var j := EffectOf(b, c).i;
    assert Mid(b, c) == b[..j] + b[j + 1..];
  }

  /** An appended record leaves every earlier position alone. */
  lemma AddRecord(b: seq<Pending>, c: Call, q: nat)
    requires Allowed(b, c) && EffectOf(b, c).Add?
    requires q < |b|
    ensures Mid(b, c)[q] == b[q] && Mid(b, c)[..q] == b[..q]
  {
    assert Mid(b, c) == b + [Fresh(c.h, c.target)];
  }

  /**
   * Before the drain: the blocking record is still there, incomplete, and the
   * handles ahead of it are a subsequence of those ahead of it before.
   */
  lemma MidKeepsBlocked(th: seq<Handle>, buf: seq<Pending>, c: Call, q: nat, prefix: seq<Handle>)
    returns (mq: nat)
    requires Allowed(buf, c)
    requires q < |buf| && !buf[q].complete && buf[q].handle !in Handles(buf[..q])
    requires c.End? ==> c.h != buf[q].handle
    requires IsSubseq(th + Handles(buf[..q]), prefix)
    ensures mq < |Mid(buf, c)| && Mid(buf, c)[mq].handle == buf[q].handle && !Mid(buf, c)[mq].complete
    ensures buf[q].handle !in Handles(Mid(buf, c)[..mq])
    ensures IsSubseq(th + Handles(Mid(buf, c)[..mq]), prefix)
  {
    EffectHandles(buf, c);
    if EffectOf(buf, c).Remove? && EffectOf(buf, c).i < q {
      mq := q - 1;
      BlockedAfterRemoveAhead(th, buf, c, q, prefix);
    } else {
      mq := q;
      if EffectOf(buf, c).Keep? {
        BlockedAfterKeep(th, buf, c, q, prefix);
      } else if EffectOf(buf, c).Add? {
        BlockedAfterAdd(th, buf, c, q, prefix);
      } else {
        BlockedAfterRemoveBehind(th, buf, c, q, prefix);
      }
    }
  }

  lemma BlockedAfterRemoveAhead(th: seq<Handle>, buf: seq<Pending>, c: Call, q: nat, prefix: seq<Handle>)
    requires Allowed(buf, c)
    requires q < |buf| && !buf[q].complete && buf[q].handle !in Handles(buf[..q])
    requires c.End? ==> c.h != buf[q].handle
    requires IsSubseq(th + Handles(buf[..q]), prefix)
    requires EffectOf(buf, c).Remove? && EffectOf(buf, c).i < q
    ensures q - 1 < |Mid(buf, c)| && Mid(buf, c)[q - 1].handle == buf[q].handle && !Mid(buf, c)[q - 1].complete
    ensures buf[q].handle !in Handles(Mid(buf, c)[..q - 1])
    ensures IsSubseq(th + Handles(Mid(buf, c)[..q - 1]), prefix)
  {
    EffectHandles(buf, c);
    RemoveRecord(buf, c, q);
    RemoveAhead(th, buf, EffectOf(buf, c).i, q, Mid(buf, c), prefix);
  }

  lemma BlockedAfterRemoveBehind(th: seq<Handle>, buf: seq<Pending>, c: Call, q: nat, prefix: seq<Handle>)
    requires Allowed(buf, c)
    requires q < |buf| && !buf[q].complete && buf[q].handle !in Handles(buf[..q])
    requires c.End? ==> c.h != buf[q].handle
    requires IsSubseq(th + Handles(buf[..q]), prefix)
    requires EffectOf(buf, c).Remove? && EffectOf(buf, c).i >= q
    ensures q < |Mid(buf, c)| && Mid(buf, c)[q].handle == buf[q].handle && !Mid(buf, c)[q].complete
    ensures buf[q].handle !in Handles(Mid(buf, c)[..q])
    ensures IsSubseq(th + Handles(Mid(buf, c)[..q]), prefix)
  {
    EffectHandles(buf, c);
    RemoveRecord(buf, c, q);
  }

  lemma BlockedAfterKeep(th: seq<Handle>, buf: seq<Pending>, c: Call, q: nat, prefix: seq<Handle>)
    requires Allowed(buf, c)
    requires q < |buf| && !buf[q].complete && buf[q].handle !in Handles(buf[..q])
    requires c.End? ==> c.h != buf[q].handle
    requires IsSubseq(th + Handles(buf[..q]), prefix)
    requires EffectOf(buf, c).Keep?
    ensures q < |Mid(buf, c)| && Mid(buf, c)[q].handle == buf[q].handle && !Mid(buf, c)[q].complete
    ensures buf[q].handle !in Handles(Mid(buf, c)[..q])
    ensures IsSubseq(th + Handles(Mid(buf, c)[..q]), prefix)
  {
    KeepRecord(buf, c, q);
    KeepAhead(buf, q, Mid(buf, c));
  }

  lemma BlockedAfterAdd(th: seq<Handle>, buf: seq<Pending>, c: Call, q: nat, prefix: seq<Handle>)
    requires Allowed(buf, c)
    requires q < |buf| && !buf[q].complete && buf[q].handle !in Handles(buf[..q])
    requires c.End? ==> c.h != buf[q].handle
    requires IsSubseq(th + Handles(buf[..q]), prefix)
    requires EffectOf(buf, c).Add?
    ensures q < |Mid(buf, c)| && Mid(buf, c)[q].handle == buf[q].handle && !Mid(buf, c)[q].complete
    ensures buf[q].handle !in Handles(Mid(buf, c)[..q])
    ensures IsSubseq(th + Handles(Mid(buf, c)[..q]), prefix)
  {
    AddRecord(buf, c, q);
  }

  lemma KeepAhead(buf: seq<Pending>, q: nat, m: seq<Pending>)
    requires q <= |buf| && Handles(m) == Handles(buf)
    ensures Handles(m[..q]) == Handles(buf[..q])
  {
    assert Handles(m[..q]) == Handles(m)[..q];
    assert Handles(buf[..q]) == Handles(buf)[..q];
  }

  lemma RemoveAhead(th: seq<Handle>, buf: seq<Pending>, j: nat, q: nat, m: seq<Pending>, prefix: seq<Handle>)
    requires j < q <= |buf|
    requires |m| >= q - 1 && m[..q - 1] == buf[..j] + buf[j + 1..q]
    requires IsSubseq(th + Handles(buf[..q]), prefix)
    ensures IsSubseq(th + Handles(m[..q - 1]), prefix)
    ensures forall x :: x in Handles(m[..q - 1]) ==> x in Handles(buf[..q])
  {
    var hq := Handles(buf[..q]);
    assert Handles(m[..q - 1]) == hq[..j] + hq[j + 1..] by {
      HandlesAppend(buf[..j], buf[j + 1..q]);
      assert Handles(buf[..j]) == hq[..j];
      assert Handles(buf[j + 1..q]) == hq[j + 1..];
    }
    ConcatDelete(th, hq, j);
    SubseqDelete(th + hq, prefix, |th| + j);
  }

  /**
   * The drain stops at an incomplete record: what it hands on is a prefix of
   * what was ahead of it, and the record stays buffered.
   */
  lemma DrainStopsAt(m: seq<Pending>, mq: nat) returns (p: nat)
    requires mq < |m| && !m[mq].complete
    ensures var d := DeliverPendingCompletedRequests(m);
      && p < |d.remaining| && d.remaining[p] == m[mq]
      && d.delivered + d.remaining[..p] == m[..mq]
  {
    var d := DeliverPendingCompletedRequests(m);
    DrainBound(m, mq);
    p := mq - |d.delivered|;
    assert (d.delivered + d.remaining)[mq] == d.remaining[p];
    assert m[..mq] == (d.delivered + d.remaining)[..mq];
  }

  /** The drain never passes an incomplete record. */
  lemma DrainBound(b: seq<Pending>, i: nat)
    requires i < |b| && !b[i].complete
    ensures |DeliverPendingCompletedRequests(b).delivered| <= i
  {
    var d := DeliverPendingCompletedRequests(b);
    forall j | 0 <= j < |d.delivered|
      ensures b[j].complete
    {
      assert b[j] == (d.delivered + d.remaining)[j] == d.delivered[j];
    }
  }

  /** The drain of `endedProxy` keeps the blocking record, at its new position. */
  lemma DrainKeepsBlocked(th: seq<Handle>, m: seq<Pending>, mq: nat, prefix: seq<Handle>)
    returns (p: nat)
    requires mq < |m| && !m[mq].complete && m[mq].handle !in Handles(m[..mq])
    requires IsSubseq(th + Handles(m[..mq]), prefix)
    ensures var d := DeliverPendingCompletedRequests(m);
      && p < |d.remaining| && d.remaining[p] == m[mq]
      && m[mq].handle !in Handles(d.remaining[..p])
      && IsSubseq(th + Handles(d.delivered) + Handles(d.remaining[..p]), prefix)
  {
    p := DrainStopsAt(m, mq);
    var d := DeliverPendingCompletedRequests(m);
    HandlesAppend(d.delivered, d.remaining[..p]);
    assert th + Handles(d.delivered) + Handles(d.remaining[..p]) == th + Handles(m[..mq]);
  }

  /** One call keeps the blocking record in place (`IncompleteRecordBlocks`, one step). */
  lemma StepKeepsBlocked(trace: seq<Pending>, buf: seq<Pending>, c: Call, q: nat, prefix: seq<Handle>)
    returns (p: nat)
    requires Allowed(buf, c)
    requires q < |buf| && !buf[q].complete && buf[q].handle !in Handles(buf[..q])
    requires c.End? ==> c.h != buf[q].handle
    requires IsSubseq(Handles(trace) + Handles(buf[..q]), prefix)
    ensures var s := Apply(buf, c);
      && p < |s.buffer| && s.buffer[p].handle == buf[q].handle && !s.buffer[p].complete
      && buf[q].handle !in Handles(s.buffer[..p])
      && IsSubseq(Handles(trace + s.delivered) + Handles(s.buffer[..p]), prefix)
  {
    var mq := MidKeepsBlocked(Handles(trace), buf, c, q, prefix);
    var m := Mid(buf, c);
    ApplyDrain(buf, c);
    if c.End? && c.h in Handles(buf) {
      p := DrainKeepsBlocked(Handles(trace), m, mq, prefix);
      HandlesAppend(trace, DeliverPendingCompletedRequests(m).delivered);
    } else {
      p := mq;
      assert trace + [] == trace;
    }
  }

  /**
   * An incomplete record blocks everything behind it: as long as its thread
   * does not end, it stays buffered and incomplete, and the only records
   * handed on are those that were ahead of it, in their order.
   */
  lemma {:induction false} IncompleteRecordBlocks(b: seq<Pending>, k: nat, calls: seq<Call>)
    returns (p: nat)
    requires Distinct(Handles(b))
    requires k < |b| && !b[k].complete
    requires Admissible(b, calls)
    requires forall i :: 0 <= i < |calls| ==> calls[i] != End(b[k].handle)
    ensures p < |Run(b, calls).buffer|
    ensures Run(b, calls).buffer[p].handle == b[k].handle
    ensures !Run(b, calls).buffer[p].complete
    ensures b[k].handle !in Handles(Run(b, calls).buffer[..p])
    ensures IsSubseq(Handles(Run(b, calls).trace) + Handles(Run(b, calls).buffer[..p]), Handles(b[..k]))
    decreases |calls|
  {
    if |calls| == 0 {
      RunEmpty(b, calls);
      p := k;
      BlockedAtStart(b, k);
    } else {
      var pre := calls[..|calls| - 1];
      var c := calls[|calls| - 1];
      var prev := Run(b, pre);
      var q := IncompleteRecordBlocks(b, k, pre);
      RunLast(b, calls);
      assert c.End? ==> c.h != b[k].handle;
      p := StepKeepsBlocked(prev.trace, prev.buffer, c, q, Handles(b[..k]));
    }
  }

  lemma BlockedAtStart(b: seq<Pending>, k: nat)
    requires Distinct(Handles(b)) && k < |b|
    ensures b[k].handle !in Handles(b[..k])
    ensures IsSubseq(Handles([]) + Handles(b[..k]), Handles(b[..k]))
  {
    AheadOfPrefix(b, k);
    PrefixOfItself(Handles(b[..k]));
  }

  lemma AheadOfPrefix(b: seq<Pending>, k: nat)
    requires Distinct(Handles(b)) && k < |b|
    ensures b[k].handle !in Handles(b[..k])
  {
    DistinctAhead(Handles(b), k);
    assert Handles(b[..k]) == Handles(b)[..k];
  }

  lemma PrefixOfItself(hs: seq<Handle>)
    ensures IsSubseq(Handles([]) + hs, hs)
  {
    SubseqRefl(hs);
    assert Handles([]) + hs == hs;
  }

  lemma DistinctAhead(a: seq<Handle>, k: nat)
    requires Distinct(a) && k < |a|
    ensures a[k] !in a[..k]
  {
    forall j | 0 <= j < k
      ensures a[j] != a[k]
    {
    }
  }

  /** Extending an admissible run by one allowed call. */
  lemma RunSnoc(b: seq<Pending>, calls: seq<Call>, c: Call)
    requires Admissible(b, calls) && Allowed(Run(b, calls).buffer, c)
    ensures Admissible(b, calls + [c])
    ensures Run(b, calls + [c]) == Next(Run(b, calls), c)
  {
    assert (calls + [c])[..|calls|] == calls;
  }

  /** An `endedProxy` of a known handle: settle, then drain. */
  lemma ApplyEnd(b: seq<Pending>, h: Handle)
    requires h in Handles(b)
    ensures Apply(b, End(h)) == Step(DeliverPendingCompletedRequests(Settle(b, h)).remaining,
                                     DeliverPendingCompletedRequests(Settle(b, h)).delivered)
    ensures Dropped(b, End(h)) == if b[Find(b, h).value].result.None? then [h] else []
  {
  }

  /** The scenario's calls. */
  function ScenarioCalls(s: Sampler, res: SampleResult): seq<Call> {
    [Start(1, 0), Start(2, 0), Start(3, 0),
     Deliver(3, Some(s), [], Some(res)), End(3),
     End(2),
     Deliver(1, Some(s), [], Some(res)), End(1)]
  }

  /** The records of the scenario: fresh, with a result, and complete. */
  function F(h: Handle): Pending { Fresh(h, 0) }
  function G(h: Handle, s: Sampler, res: SampleResult): Pending {
    F(h).(sampler := Some(s), result := Some(res))
  }
  function E(h: Handle, s: Sampler, res: SampleResult): Pending {
    G(h, s, res).(complete := true)
  }

  /** The outcome after the first `k` calls of the scenario. */
  function ScenarioOutcome(k: nat, s: Sampler, res: SampleResult): Outcome
    requires k <= 8
  {
    if k == 0 then Outcome([], [], [])
    else if k == 1 then Outcome([F(1)], [], [])
    else if k == 2 then Outcome([F(1), F(2)], [], [])
    else if k == 3 then Outcome([F(1), F(2), F(3)], [], [])
    else if k == 4 then Outcome([F(1), F(2), G(3, s, res)], [], [])
    else if k == 5 then Outcome([F(1), F(2), E(3, s, res)], [], [])
    else if k == 6 then Outcome([F(1), E(3, s, res)], [], [2])
    else if k == 7 then Outcome([G(1, s, res), E(3, s, res)], [], [2])
    else Outcome([], [E(1, s, res), E(3, s, res)], [2])
  }

  lemma ScenarioStarts()
    ensures Next(Outcome([], [], []), Start(1, 0)) == Outcome([F(1)], [], [])
    ensures Next(Outcome([F(1)], [], []), Start(2, 0)) == Outcome([F(1), F(2)], [], [])
    ensures Next(Outcome([F(1), F(2)], [], []), Start(3, 0)) == Outcome([F(1), F(2), F(3)], [], [])
  {
  }

  lemma ScenarioDeliver3(s: Sampler, res: SampleResult)
    ensures Allowed([F(1), F(2), F(3)], Deliver(3, Some(s), [], Some(res)))
    ensures Next(Outcome([F(1), F(2), F(3)], [], []), Deliver(3, Some(s), [], Some(res))) ==
            Outcome([F(1), F(2), G(3, s, res)], [], [])
  {
    var b := [F(1), F(2), F(3)];
    assert Handles(b) == [1, 2, 3];
    assert Find(b[2..], 3) == Some(0);
    assert Find(b[1..], 3) == Some(1);
    assert Find(b, 3) == Some(2);
  }

  lemma ScenarioEnd3(s: Sampler, res: SampleResult)
    ensures Next(Outcome([F(1), F(2), G(3, s, res)], [], []), End(3)) ==
            Outcome([F(1), F(2), E(3, s, res)], [], [])
  {
    var b := [F(1), F(2), G(3, s, res)];
    assert Handles(b) == [1, 2, 3];
    assert Find(b[2..], 3) == Some(0);
    assert Find(b[1..], 3) == Some(1);
    assert Find(b, 3) == Some(2);
    assert Settle(b, 3) == [F(1), F(2), E(3, s, res)];
    assert DeliverPendingCompletedRequests([F(1), F(2), E(3, s, res)]) ==
           Drained([], [F(1), F(2), E(3, s, res)]);
    ApplyEnd(b, 3);
  }

  lemma ScenarioEnd2(s: Sampler, res: SampleResult)
    ensures Next(Outcome([F(1), F(2), E(3, s, res)], [], []), End(2)) ==
            Outcome([F(1), E(3, s, res)], [], [2])
  {
    var b := [F(1), F(2), E(3, s, res)];
    assert Handles(b) == [1, 2, 3];
    assert Find(b[1..], 2) == Some(0);
    assert Find(b, 2) == Some(1);
    assert Settle(b, 2) == [F(1), E(3, s, res)];
    assert DeliverPendingCompletedRequests([F(1), E(3, s, res)]) == Drained([], [F(1), E(3, s, res)]);
    ApplyEnd(b, 2);
  }

  lemma ScenarioDeliver1(s: Sampler, res: SampleResult)
    ensures Allowed([F(1), E(3, s, res)], Deliver(1, Some(s), [], Some(res)))
    ensures Next(Outcome([F(1), E(3, s, res)], [], [2]), Deliver(1, Some(s), [], Some(res))) ==
            Outcome([G(1, s, res), E(3, s, res)], [], [2])
  {
    var b := [F(1), E(3, s, res)];
    assert Handles(b) == [1, 3];
    assert Find(b, 1) == Some(0);
    assert DeliverSampler(b, 1, Some(s), [], Some(res)) == [G(1, s, res), E(3, s, res)];
  }

  lemma ScenarioEnd1(s: Sampler, res: SampleResult)
    ensures Next(Outcome([G(1, s, res), E(3, s, res)], [], [2]), End(1)) ==
            Outcome([], [E(1, s, res), E(3, s, res)], [2])
  {
    var done := [E(1, s, res), E(3, s, res)];
    EndOneApplied(s, res);
    assert [] + done == done;
  }

  lemma EndOneApplied(s: Sampler, res: SampleResult)
    ensures Apply([G(1, s, res), E(3, s, res)], End(1)) == Step([], [E(1, s, res), E(3, s, res)])
    ensures Dropped([G(1, s, res), E(3, s, res)], End(1)) == []
  {
    var b := [G(1, s, res), E(3, s, res)];
    SettleOne(s, res);
    DrainBoth(s, res);
    ApplyEnd(b, 1);
  }

  lemma SettleOne(s: Sampler, res: SampleResult)
    ensures 1 in Handles([G(1, s, res), E(3, s, res)])
    ensures Find([G(1, s, res), E(3, s, res)], 1) == Some(0)
    ensures Settle([G(1, s, res), E(3, s, res)], 1) == [E(1, s, res), E(3, s, res)]
  {
    var b := [G(1, s, res), E(3, s, res)];
    assert Handles(b) == [1, 3];
  }

  lemma DrainBoth(s: Sampler, res: SampleResult)
    ensures DeliverPendingCompletedRequests([E(1, s, res), E(3, s, res)]) ==
            Drained([E(1, s, res), E(3, s, res)], [])
  {
    var done := [E(1, s, res), E(3, s, res)];
    assert DeliverPendingCompletedRequests(done[1..]) == Drained(done[1..], []);
  }

  /** Step `k` of the scenario, without reference to the run. */
  lemma ScenarioApply(k: nat, s: Sampler, res: SampleResult)
    requires k < 8
    ensures Allowed(ScenarioOutcome(k, s, res).buffer, ScenarioCalls(s, res)[k])
    ensures ScenarioOutcome(k + 1, s, res) == Next(ScenarioOutcome(k, s, res), ScenarioCalls(s, res)[k])
  {
    if k == 0 {
      ScenarioStep0(s, res);
    } else if k == 1 {
      ScenarioStep1(s, res);
    } else if k == 2 {
      ScenarioStep2(s, res);
    } else if k == 3 {
      ScenarioStep3(s, res);
    } else if k == 4 {
      ScenarioStep4(s, res);
    } else if k == 5 {
      ScenarioStep5(s, res);
    } else if k == 6 {
      ScenarioStep6(s, res);
    } else {
      ScenarioStep7(s, res);
    }
  }

  lemma ScenarioStep0(s: Sampler, res: SampleResult)
    ensures Allowed(ScenarioOutcome(0, s, res).buffer, ScenarioCalls(s, res)[0])
    ensures ScenarioOutcome(1, s, res) == Next(ScenarioOutcome(0, s, res), ScenarioCalls(s, res)[0])
  {
    ScenarioAt0(s, res);
    ScenarioStarts();
  }

  lemma ScenarioAt0(s: Sampler, res: SampleResult)
    ensures ScenarioCalls(s, res)[0] == Start(1, 0)
    ensures ScenarioOutcome(0, s, res) == Outcome([], [], [])
    ensures ScenarioOutcome(1, s, res) == Outcome([F(1)], [], [])
  {
  }

  lemma ScenarioStep1(s: Sampler, res: SampleResult)
    ensures Allowed(ScenarioOutcome(1, s, res).buffer, ScenarioCalls(s, res)[1])
    ensures ScenarioOutcome(2, s, res) == Next(ScenarioOutcome(1, s, res), ScenarioCalls(s, res)[1])
  {
    ScenarioAt1(s, res);
    ScenarioStarts();
  }

  lemma ScenarioAt1(s: Sampler, res: SampleResult)
    ensures ScenarioCalls(s, res)[1] == Start(2, 0)
    ensures ScenarioOutcome(1, s, res) == Outcome([F(1)], [], [])
    ensures ScenarioOutcome(2, s, res) == Outcome([F(1), F(2)], [], [])
  {
  }

  lemma ScenarioStep2(s: Sampler, res: SampleResult)
    ensures Allowed(ScenarioOutcome(2, s, res).buffer, ScenarioCalls(s, res)[2])
    ensures ScenarioOutcome(3, s, res) == Next(ScenarioOutcome(2, s, res), ScenarioCalls(s, res)[2])
  {
    ScenarioAt2(s, res);
    ScenarioStarts();
  }

  lemma ScenarioAt2(s: Sampler, res: SampleResult)
    ensures ScenarioCalls(s, res)[2] == Start(3, 0)
    ensures ScenarioOutcome(2, s, res) == Outcome([F(1), F(2)], [], [])
    ensures ScenarioOutcome(3, s, res) == Outcome([F(1), F(2), F(3)], [], [])
  {
  }

  lemma ScenarioStep3(s: Sampler, res: SampleResult)
    ensures Allowed(ScenarioOutcome(3, s, res).buffer, ScenarioCalls(s, res)[3])
    ensures ScenarioOutcome(4, s, res) == Next(ScenarioOutcome(3, s, res), ScenarioCalls(s, res)[3])
  {
    ScenarioAt3(s, res);
    ScenarioDeliver3(s, res);
  }

  lemma ScenarioAt3(s: Sampler, res: SampleResult)
    ensures ScenarioCalls(s, res)[3] == Deliver(3, Some(s), [], Some(res))
    ensures ScenarioOutcome(3, s, res) == Outcome([F(1), F(2), F(3)], [], [])
    ensures ScenarioOutcome(4, s, res) == Outcome([F(1), F(2), G(3, s, res)], [], [])
  {
  }

  lemma ScenarioStep4(s: Sampler, res: SampleResult)
    ensures Allowed(ScenarioOutcome(4, s, res).buffer, ScenarioCalls(s, res)[4])
    ensures ScenarioOutcome(5, s, res) == Next(ScenarioOutcome(4, s, res), ScenarioCalls(s, res)[4])
  {
    ScenarioAt4(s, res);
    ScenarioEnd3(s, res);
  }

  lemma ScenarioAt4(s: Sampler, res: SampleResult)
    ensures ScenarioCalls(s, res)[4] == End(3)
    ensures ScenarioOutcome(4, s, res) == Outcome([F(1), F(2), G(3, s, res)], [], [])
    ensures ScenarioOutcome(5, s, res) == Outcome([F(1), F(2), E(3, s, res)], [], [])
  {
  }

  lemma ScenarioStep5(s: Sampler, res: SampleResult)
    ensures Allowed(ScenarioOutcome(5, s, res).buffer, ScenarioCalls(s, res)[5])
    ensures ScenarioOutcome(6, s, res) == Next(ScenarioOutcome(5, s, res), ScenarioCalls(s, res)[5])
  {
    ScenarioAt5(s, res);
    ScenarioEnd2(s, res);
  }

  lemma ScenarioAt5(s: Sampler, res: SampleResult)
    ensures ScenarioCalls(s, res)[5] == End(2)
    ensures ScenarioOutcome(5, s, res) == Outcome([F(1), F(2), E(3, s, res)], [], [])
    ensures ScenarioOutcome(6, s, res) == Outcome([F(1), E(3, s, res)], [], [2])
  {
  }

  lemma ScenarioStep6(s: Sampler, res: SampleResult)
    ensures Allowed(ScenarioOutcome(6, s, res).buffer, ScenarioCalls(s, res)[6])
    ensures ScenarioOutcome(7, s, res) == Next(ScenarioOutcome(6, s, res), ScenarioCalls(s, res)[6])
  {
    ScenarioAt6(s, res);
    ScenarioDeliver1(s, res);
  }

  lemma ScenarioAt6(s: Sampler, res: SampleResult)
    ensures ScenarioCalls(s, res)[6] == Deliver(1, Some(s), [], Some(res))
    ensures ScenarioOutcome(6, s, res) == Outcome([F(1), E(3, s, res)], [], [2])
    ensures ScenarioOutcome(7, s, res) == Outcome([G(1, s, res), E(3, s, res)], [], [2])
  {
  }

  lemma ScenarioStep7(s: Sampler, res: SampleResult)
    ensures Allowed(ScenarioOutcome(7, s, res).buffer, ScenarioCalls(s, res)[7])
    ensures ScenarioOutcome(8, s, res) == Next(ScenarioOutcome(7, s, res), ScenarioCalls(s, res)[7])
  {
    ScenarioAt7(s, res);
    ScenarioEnd1(s, res);
  }

  lemma ScenarioAt7(s: Sampler, res: SampleResult)
    ensures ScenarioCalls(s, res)[7] == End(1)
    ensures ScenarioOutcome(7, s, res) == Outcome([G(1, s, res), E(3, s, res)], [], [2])
    ensures ScenarioOutcome(8, s, res) == Outcome([], [E(1, s, res), E(3, s, res)], [2])
  {
  }

  /** The first `k` calls of the scenario are admissible and lead to `ScenarioOutcome(k)`. */
  lemma {:induction false} ScenarioRun(k: nat, s: Sampler, res: SampleResult)
    requires k <= 8
    ensures Admissible([], ScenarioCalls(s, res)[..k])
    ensures Run([], ScenarioCalls(s, res)[..k]) == ScenarioOutcome(k, s, res)
  {
    var cs := ScenarioCalls(s, res);
    if k == 0 {
      RunEmpty([], cs[..0]);
    } else {
      ScenarioRun(k - 1, s, res);
      ScenarioApply(k - 1, s, res);
      RunSnoc([], cs[..k - 1], cs[k - 1]);
      SnocSlice(cs, k);
    }
  }

  /**
   * Threads 1, 2, 3 start in that order; 3 ends first with a result, 2 ends
   * without one, 1 ends last with a result: exactly 1 then 3 are handed on,
   * and 2 is dropped.
   */
  lemma ThreeThreadScenario(s: Sampler, res: SampleResult)
    ensures Admissible([], ScenarioCalls(s, res))
    ensures Handles(Run([], ScenarioCalls(s, res)).trace) == [1, 3]
    ensures Run([], ScenarioCalls(s, res)).buffer == []
    ensures Run([], ScenarioCalls(s, res)).dropped == [2]
  {
    var cs := ScenarioCalls(s, res);
    ScenarioRun(8, s, res);
    FullSlice(cs);
    ScenarioTrace(s, res);
  }

  lemma ScenarioTrace(s: Sampler, res: SampleResult)
    ensures Handles(ScenarioOutcome(8, s, res).trace) == [1, 3]
    ensures ScenarioOutcome(8, s, res).buffer == []
    ensures ScenarioOutcome(8, s, res).dropped == [2]
  {
  }

  lemma SnocSlice<T>(s: seq<T>, k: nat)
    requires 0 < k <= |s|
    ensures s[..k - 1] + [s[k - 1]] == s[..k]
  {
  }

  lemma FullSlice<T>(s: seq<T>)
    ensures s[..|s|] == s
  {
  }
}
