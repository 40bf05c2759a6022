/** Runs of the SNAP source: `work` calls of any size, interleaved with sync messages. */
module SourceRuns {
  import opened SnapFormat
  import opened Reassembly
  import opened ReassemblyTheorems
  import opened Streams

  // The source's state as its callers see it: the packets taken from the ring, how many vectors
  // went downstream, the queued tags, and the sync timestamp (0 until synchronized).
  datatype Src = Src(popped: seq<Packet>, given: nat, tagq: seq<nat>, sync: nat)

  const FRESH := Src([], 0, [], 0)

  function Queued(g: Geometry, s: Src): int { |Tags(g, s.popped)| - s.given }

  // Vector queue and tag queue are in step as long as tags are in use.
  ghost predicate InStep(g: Geometry, s: Src)
  {
    && s.given <= |Tags(g, s.popped)|
    && (s.sync == 0 ==> s.tagq == Tags(g, s.popped)[s.given..])
  }

  // A `work` call that asks for `noutput` items and takes the packets `taken` off the ring: it
  // takes a packet only while fewer than `noutput` vectors are queued.
  predicate Demanded(g: Geometry, s: Src, taken: seq<Packet>, noutput: nat)
  {
    |taken| > 0 ==> Queued(g, s.(popped := s.popped + taken[..|taken| - 1])) < noutput
  }

  function Returned(g: Geometry, s: Src, taken: seq<Packet>, noutput: nat): (n: nat)
    requires s.given <= |Tags(g, s.popped)|
  {
    QueuesGrow(g, PackedXY, s.popped, taken);
    Min(noutput, Queued(g, s.(popped := s.popped + taken)))
  }

  // The tag queue before the call delivers: tags are pushed only without a sync timestamp.
  function PushedTags(g: Geometry, s: Src, taken: seq<Packet>): seq<nat>
  {
    QueuesGrow(g, PackedXY, s.popped, taken);
    if s.sync == 0 then s.tagq + Tags(g, s.popped + taken)[|Tags(g, s.popped)|..] else s.tagq
  }

  // The call pops no more tags than there are.
  predicate PopsSafely(g: Geometry, s: Src, taken: seq<Packet>, noutput: nat)
  {
    && s.given <= |Tags(g, s.popped)|
    && (s.sync == 0 ==> Returned(g, s, taken, noutput) <= |PushedTags(g, s, taken)|)
  }

  function AfterWork(g: Geometry, s: Src, taken: seq<Packet>, noutput: nat): (s': Src)
    requires PopsSafely(g, s, taken, noutput)
    ensures s'.given <= |Tags(g, s'.popped)|
  {
    QueuesGrow(g, PackedXY, s.popped, taken);
    var n := Returned(g, s, taken, noutput);
    Src(s.popped + taken, s.given + n, if s.sync == 0 then PushedTags(g, s, taken)[n..] else s.tagq, s.sync)
  }

  // NotifyMissed: what is reported of a call's missing count. A count of zero or less is not reported.
  function Noticed(skipped: int): nat { if skipped > 0 then skipped else 0 }

  // What the call hands downstream on the output carrying `lane`.
  function Output(g: Geometry, lane: Lane, s: Src, taken: seq<Packet>, noutput: nat): (items: seq<Item>)
    requires PopsSafely(g, s, taken, noutput)
    ensures |items| == Returned(g, s, taken, noutput)
  {
    var all, n := s.popped + taken, Returned(g, s, taken, noutput);
    QueueLengths(g, lane, all);
    Items(Vectors(g, lane, all)[s.given..s.given + n],
          if s.sync == 0 then Stamps(PushedTags(g, s, taken)[..n]) else NoTags(n))
  }

  /** With the queues in step a call finds a tag for every vector, and leaves them in step. */
  lemma WorkInStep(g: Geometry, s: Src, taken: seq<Packet>, noutput: nat)
    requires InStep(g, s)
    ensures PopsSafely(g, s, taken, noutput) && InStep(g, AfterWork(g, s, taken, noutput))
    ensures s.sync == 0 ==> PushedTags(g, s, taken) == Tags(g, s.popped + taken)[s.given..]
  {
    hide Tags;
    QueuesGrow(g, PackedXY, s.popped, taken);
    var a, b := Tags(g, s.popped), Tags(g, s.popped + taken);
    assert a[s.given..] + b[|a|..] == b[s.given..];
  }

  // --- Runs -----------------------------------------------------------------------------------

  datatype Event = Work(taken: seq<Packet>, noutput: nat) | Message(value: nat)

  // Runs in which no call pops a tag that is not there, which has no defined effect. Where `State` meets
  // such a call it stands still.
  ghost predicate Legal(g: Geometry, es: seq<Event>)
    decreases |es|, 0
  {
    |es| == 0 ||
    var s, e := State(g, es[..|es| - 1]), es[|es| - 1];
    && Legal(g, es[..|es| - 1])
    && match e
       case Work(taken, noutput) => Demanded(g, s, taken, noutput) && PopsSafely(g, s, taken, noutput)
       case Message(v) => true
  }

  ghost function State(g: Geometry, es: seq<Event>): (s: Src)
    ensures s.given <= |Tags(g, s.popped)|
    decreases |es|, 0
  {
    if |es| == 0 then FRESH
    else
      var s, e := State(g, es[..|es| - 1]), es[|es| - 1];
      match e
      case Work(taken, noutput) => if PopsSafely(g, s, taken, noutput) then AfterWork(g, s, taken, noutput) else s
      case Message(v) => s.(sync := v)
  }

  // Everything handed downstream in the run.
  ghost function Delivered(g: Geometry, lane: Lane, es: seq<Event>): seq<Item>
  {
    if |es| == 0 then []
    else
      var s, e := State(g, es[..|es| - 1]), es[|es| - 1];
      Delivered(g, lane, es[..|es| - 1])
      + match e
        case Work(taken, noutput) => if PopsSafely(g, s, taken, noutput) then Output(g, lane, s, taken, noutput) else []
        case Message(v) => []
  }

  // The calls keep to the demand, and no message withdraws a sync timestamp.
  ghost predicate Protocol(g: Geometry, es: seq<Event>)
  {
    |es| == 0 ||
    var s, e := State(g, es[..|es| - 1]), es[|es| - 1];
    && Protocol(g, es[..|es| - 1])
    && match e
       case Work(taken, noutput) => Demanded(g, s, taken, noutput)
       case Message(v) => v == 0 ==> s.sync == 0
  }

  /** Unless a message withdraws a sync timestamp the queues stay in step over a whole run, so no tag is
      ever popped from an empty queue. */
  lemma {:induction false} AlwaysInStep(g: Geometry, es: seq<Event>)
    requires Protocol(g, es)
    ensures Legal(g, es) && InStep(g, State(g, es))
  {
    hide InStep, AfterWork, PopsSafely, Demanded;
    if |es| == 0 {
      FreshInStep(g);
    } else {
      var init, e := es[..|es| - 1], es[|es| - 1];
      AlwaysInStep(g, init);
      match e {
        case Work(taken, noutput) => WorkInStep(g, State(g, init), taken, noutput);
        case Message(v) => MessageInStep(g, State(g, init), v);
      }
    }
  }

  lemma FreshInStep(g: Geometry)
    ensures InStep(g, FRESH)
  {
  }

  lemma MessageInStep(g: Geometry, s: Src, v: nat)
    requires InStep(g, s) && (v == 0 ==> s.sync == 0)
    ensures InStep(g, s.(sync := v))
  {
  }

  lemma NextSlice<T>(a: seq<T>, b: seq<T>, i: nat, j: nat)
    requires a <= b && i <= |a| && i <= j <= |b|
    ensures a[..i] + b[i..j] == b[..j]
  {
    assert a[..i] == b[..i];
  }

  lemma NextStamps(a: seq<nat>, b: seq<nat>, i: nat, j: nat)
    requires a <= b && i <= |a| && i <= j <= |b|
    ensures Stamps(a[..i]) + Stamps(b[i..j]) == Stamps(b[..j])
  {
  }

  /** Batching independence: however a run is split into calls, what was delivered is the beginning
      of the vector stream of the packets taken, and the rest of that stream is what is queued. */
  lemma {:induction false} BatchingIndependence(g: Geometry, lane: Lane, es: seq<Event>)
    requires Legal(g, es)
    ensures var s := State(g, es);
            && s.given <= |Vectors(g, lane, s.popped)|
            && Vecs(Delivered(g, lane, es)) == Vectors(g, lane, s.popped)[..s.given]
  {
    if |es| == 0 {
    } else {
      var init, e := es[..|es| - 1], es[|es| - 1];
      BatchingIndependence(g, lane, init);
      var s0, d0 := State(g, init), Delivered(g, lane, init);
      match e {
        case Work(taken, noutput) =>
          WorkExtends(g, lane, s0, taken, noutput, d0);
        case Message(v) =>
          assert Delivered(g, lane, es) == d0;
      }
    }
  }

  lemma WorkExtends(g: Geometry, lane: Lane, s: Src, taken: seq<Packet>, noutput: nat, d: seq<Item>)
    requires PopsSafely(g, s, taken, noutput)
    requires s.given <= |Vectors(g, lane, s.popped)| && Vecs(d) == Vectors(g, lane, s.popped)[..s.given]
    ensures var s', d' := AfterWork(g, s, taken, noutput), d + Output(g, lane, s, taken, noutput);
            s'.given <= |Vectors(g, lane, s'.popped)| && Vecs(d') == Vectors(g, lane, s'.popped)[..s'.given]
  {
    hide Vectors, Tags, TagsOf, Stamps, Fill, Closes;
    var s', items := AfterWork(g, s, taken, noutput), Output(g, lane, s, taken, noutput);
    var a, b := Vectors(g, lane, s.popped), Vectors(g, lane, s'.popped);
    QueueLengths(g, lane, s'.popped);
    QueuesGrow(g, lane, s.popped, taken);
    Joined(d, items);
    assert Vecs(items) == b[s.given..s'.given];
    NextSlice(a, b, s.given, s'.given);
  }

  /** A capture ends with the call that empties the ring of a file read to its end: no later call delivers
      anything. Everything was delivered if and only if that call asked for all that was queued. */
  lemma AllDeliveredIff(g: Geometry, lane: Lane, es: seq<Event>, taken: seq<Packet>, noutput: nat)
    requires Legal(g, es + [Work(taken, noutput)])
    ensures var s, s' := State(g, es), State(g, es + [Work(taken, noutput)]);
            && s'.popped == s.popped + taken
            && (Vecs(Delivered(g, lane, es + [Work(taken, noutput)])) == Vectors(g, lane, s'.popped)
                <==> Queued(g, s.(popped := s'.popped)) <= noutput)
  {
    hide Vectors, Tags, Delivered;
    var run := es + [Work(taken, noutput)];
    assert run[..|run| - 1] == es;
    BatchingIndependence(g, lane, run);
    QueueLengths(g, lane, State(g, run).popped);
    QueuesGrow(g, lane, State(g, es).popped, taken);
  }

  predicate Unsynced(es: seq<Event>) { forall e :: e in es && e.Message? ==> e.value == 0 }

  /** While no sync timestamp has arrived every delivered item is tagged with its vector's tag. */
  lemma {:induction false} DeliveredTags(g: Geometry, lane: Lane, es: seq<Event>)
    requires Legal(g, es) && Unsynced(es)
    ensures var s := State(g, es);
            && InStep(g, s) && s.sync == 0
            && TagsOf(Delivered(g, lane, es)) == Stamps(Tags(g, s.popped)[..s.given])
  {
    if |es| == 0 {
    } else {
      var init, e := es[..|es| - 1], es[|es| - 1];
      assert es == init + [e];
      DeliveredTags(g, lane, init);
      var s0, d0 := State(g, init), Delivered(g, lane, init);
      match e {
        case Work(taken, noutput) =>
          WorkTags(g, lane, s0, taken, noutput, d0);
        case Message(v) =>
          assert Delivered(g, lane, es) == d0;
      }
    }
  }

  lemma WorkTags(g: Geometry, lane: Lane, s: Src, taken: seq<Packet>, noutput: nat, d: seq<Item>)
    requires InStep(g, s) && s.sync == 0 && PopsSafely(g, s, taken, noutput)
    requires TagsOf(d) == Stamps(Tags(g, s.popped)[..s.given])
    ensures var s', d' := AfterWork(g, s, taken, noutput), d + Output(g, lane, s, taken, noutput);
            InStep(g, s') && TagsOf(d') == Stamps(Tags(g, s'.popped)[..s'.given])
  {
    hide Tags, Vecs, Output, Items, PopsSafely;
    var s', items := AfterWork(g, s, taken, noutput), Output(g, lane, s, taken, noutput);
    WorkInStep(g, s, taken, noutput);
    OutputTags(g, lane, s, taken, noutput);
    QueuesGrow(g, PackedXY, s.popped, taken);
    Joined(d, items);
    NextStamps(Tags(g, s.popped), Tags(g, s'.popped), s.given, s'.given);
  }

  lemma OutputTags(g: Geometry, lane: Lane, s: Src, taken: seq<Packet>, noutput: nat)
    requires InStep(g, s) && s.sync == 0 && PopsSafely(g, s, taken, noutput)
    ensures var s' := AfterWork(g, s, taken, noutput);
            && s.given <= s'.given
            && TagsOf(Output(g, lane, s, taken, noutput)) == Stamps(Tags(g, s'.popped)[s.given..s'.given])
  {
    hide Vectors, Tags, Vecs;
    WorkInStep(g, s, taken, noutput);
    var n := Returned(g, s, taken, noutput);
    FrontAndRest(Tags(g, s.popped + taken), s.given, n);
  }

  lemma FrontAndRest<T>(all: seq<T>, given: nat, n: nat)
    requires given + n <= |all|
    ensures all[given..][..n] == all[given..given + n] && all[given..][n..] == all[given + n..]
  {
  }

  // --- After the sync message ---------------------------------------------------------------------

  /** Until a message withdraws it, a source keeps its sync timestamp, pushes and pops no tag, and
      everything it delivers is untagged. */
  lemma {:induction false} SyncFreezesTags(g: Geometry, lane: Lane, es: seq<Event>, more: seq<Event>)
    requires State(g, es).sync != 0 && forall e :: e in more && e.Message? ==> e.value != 0
    ensures State(g, es + more).sync != 0
    ensures State(g, es + more).tagq == State(g, es).tagq
    ensures Delivered(g, lane, es) <= Delivered(g, lane, es + more)
    ensures forall k :: |Delivered(g, lane, es)| <= k < |Delivered(g, lane, es + more)| ==>
              Delivered(g, lane, es + more)[k].tag == NoTag
  {
    hide AfterWork, Output, PopsSafely, Tags;
    if |more| == 0 {
      assert es + more == es;
    } else {
      var init, e := more[..|more| - 1], more[|more| - 1];
      assert (es + more)[..|es + more| - 1] == es + init;
      SyncFreezesTags(g, lane, es, init);
      if e.Work? && PopsSafely(g, State(g, es + init), e.taken, e.noutput) {
        WorkFrozen(g, State(g, es + init), e.taken, e.noutput);
        UntaggedOutput(g, lane, State(g, es + init), e.taken, e.noutput);
      }
    }
  }

  lemma WorkFrozen(g: Geometry, s: Src, taken: seq<Packet>, noutput: nat)
    requires PopsSafely(g, s, taken, noutput) && s.sync != 0
    ensures AfterWork(g, s, taken, noutput).tagq == s.tagq && AfterWork(g, s, taken, noutput).sync == s.sync
  {
  }

  lemma UntaggedOutput(g: Geometry, lane: Lane, s: Src, taken: seq<Packet>, noutput: nat)
    requires PopsSafely(g, s, taken, noutput) && s.sync != 0
    ensures var items := Output(g, lane, s, taken, noutput);
            forall k :: 0 <= k < |items| ==> items[k].tag == NoTag
  {
    hide Vectors, Tags;
    var items := Output(g, lane, s, taken, noutput);
    forall k | 0 <= k < |items|
      ensures items[k].tag == NoTag
    {
      assert TagsOf(items)[k] == NoTag;
    }
  }

  // --- Queue bound -----------------------------------------------------------------------------

  predicate BlockRequests(es: seq<Event>)
  {
    forall i :: 0 <= i < |es| && es[i].Work? ==> es[i].noutput > 0 && es[i].noutput % 16 == 0
  }

  // No packet makes the source fill in more than `cap` timestamps.
  ghost predicate FillsAtMost(ps: seq<Packet>, cap: nat)
  {
    forall i, j :: 0 <= i < j < |ps| && j == i + 1 ==> Fill(ps[i].ts, ps[j].ts) <= cap
  }

  lemma FillCap(l: nat, s: nat)
    requires s < TWO_64
    ensures Fill(l, s) <= MAX_MISSED_SETS + 1
    ensures l <= s && (s - l) % 16 == 0 ==> Fill(l, s) <= MAX_MISSED_SETS
  {
  }

  lemma FillCaps(ps: seq<Packet>)
    ensures FillsAtMost(ps, MAX_MISSED_SETS + 1)
    ensures Gridded(ps) ==> FillsAtMost(ps, MAX_MISSED_SETS)
  {
    forall i, j | 0 <= i < j < |ps| && j == i + 1
      ensures Fill(ps[i].ts, ps[j].ts) <= MAX_MISSED_SETS + 1
      ensures Gridded(ps) ==> Fill(ps[i].ts, ps[j].ts) <= MAX_MISSED_SETS
    {
      FillCap(ps[i].ts, ps[j].ts);
    }
  }

  // One packet queues at most one frame and the frames missing before it.
  lemma Growth(g: Geometry, q: seq<Packet>, p: Packet, cap: nat)
    requires FillsAtMost(q + [p], cap)
    ensures |Tags(g, q + [p])| <= |Tags(g, q)| + 16 + 16 * cap
  {
    OneMore(g, PackedXY, q, p);
    if |q| > 0 {
      assert (q + [p])[|q| - 1].ts == LastTs(q) && (q + [p])[|q|].ts == p.ts;
    }
  }

  // How full the queue can get before the call delivers.
  lemma QueuedBeforeDelivery(g: Geometry, s: Src, taken: seq<Packet>, noutput: nat, cap: nat)
    requires s.given <= |Tags(g, s.popped)| && Demanded(g, s, taken, noutput) && noutput % 16 == 0
    requires FillsAtMost(s.popped + taken, cap)
    requires Queued(g, s) <= 16 * cap && s.given % 16 == 0
    ensures |Tags(g, s.popped + taken)| - s.given <= noutput + 16 * cap
  {
    if |taken| > 0 {
      var before, last := s.popped + taken[..|taken| - 1], taken[|taken| - 1];
      assert s.popped + taken == before + [last];
      LastPacketTaken(g, s, before, last, noutput, cap);
    } else {
      assert s.popped + taken == s.popped;
    }
  }

  lemma LastPacketTaken(g: Geometry, s: Src, before: seq<Packet>, last: Packet, noutput: nat, cap: nat)
    requires |Tags(g, before)| - s.given < noutput && noutput % 16 == 0 && s.given % 16 == 0
    requires FillsAtMost(before + [last], cap)
    ensures |Tags(g, before + [last])| - s.given <= noutput + 16 * cap
  {
    QueueLengths(g, PackedXY, before);
    BelowByABlock(|Tags(g, before)| - s.given, noutput, s.given);
    Growth(g, before, last, cap);
  }

  lemma ResidualStep(g: Geometry, s: Src, taken: seq<Packet>, noutput: nat, cap: nat)
    requires s.given <= |Tags(g, s.popped)| && Demanded(g, s, taken, noutput) && noutput % 16 == 0
    requires FillsAtMost(s.popped + taken, cap) && PopsSafely(g, s, taken, noutput)
    requires Queued(g, s) <= 16 * cap && s.given % 16 == 0
    ensures var s' := AfterWork(g, s, taken, noutput);
            0 <= Queued(g, s') <= 16 * cap && Queued(g, s') % 16 == 0 && s'.given % 16 == 0
  {
    QueuedBeforeDelivery(g, s, taken, noutput, cap);
    QueueLengths(g, PackedXY, s.popped + taken);
    Drained(|Tags(g, s.popped + taken)| - s.given, s.given, noutput, cap);
    QueuedAfterWork(g, s, taken, noutput);
  }

  lemma QueuedAfterWork(g: Geometry, s: Src, taken: seq<Packet>, noutput: nat)
    requires PopsSafely(g, s, taken, noutput)
    ensures var s', queued := AfterWork(g, s, taken, noutput), |Tags(g, s.popped + taken)| - s.given;
            && queued >= 0
            && Queued(g, s') == queued - Min(noutput, queued)
            && s'.given == s.given + Min(noutput, queued)
  {
    QueuesGrow(g, PackedXY, s.popped, taken);
  }

  lemma BelowByABlock(a: int, b: int, given: nat)
    requires a < b && (a + given) % 16 == 0 && given % 16 == 0 && b % 16 == 0
    ensures a + 16 <= b
  {
  }

  lemma Drained(queued: int, given: nat, noutput: int, cap: nat)
    requires (queued + given) % 16 == 0 && given % 16 == 0 && noutput % 16 == 0
    requires queued <= noutput + 16 * cap
    ensures var n := Min(noutput, queued);
            (queued - n) % 16 == 0 && (given + n) % 16 == 0 && queued - n <= 16 * cap
  {
  }

  /** With block-sized requests every queue length and every return value is a multiple of 16, and
      at most 16 vectors per fillable timestamp stay queued. No ordering of packets is assumed. */
  lemma {:induction false} ResidualBound(g: Geometry, es: seq<Event>, cap: nat)
    requires Legal(g, es) && BlockRequests(es) && FillsAtMost(State(g, es).popped, cap)
    ensures 0 <= Queued(g, State(g, es)) <= 16 * cap
    ensures Queued(g, State(g, es)) % 16 == 0 && State(g, es).given % 16 == 0
  {
    if |es| == 0 {
    } else {
      var init, e := es[..|es| - 1], es[|es| - 1];
      var s0, s := State(g, init), State(g, es);
      assert s0.popped == s.popped[..|s0.popped|];
      assert FillsAtMost(s0.popped, cap) by {
        assert forall i :: 0 <= i < |s0.popped| ==> s0.popped[i] == s.popped[i];
      }
      ResidualBound(g, init, cap);
      if e.Work? {
        ResidualStep(g, s0, e.taken, e.noutput, cap);
      }
    }
  }

  // No packet leaves its predecessor's grid of 16, unless it goes back in time.
  ghost predicate Gridded(ps: seq<Packet>)
  {
    forall i, j :: 0 <= i < j < |ps| && j == i + 1 && ps[i].ts <= ps[j].ts ==> (ps[j].ts - ps[i].ts) % 16 == 0
  }

  /** The bound in numbers: packets off the grid can add one more timestamp. */
  lemma ResidualBoundInNumbers(g: Geometry, es: seq<Event>)
    requires Legal(g, es) && BlockRequests(es)
    ensures Queued(g, State(g, es)) <= 320016
    ensures Gridded(State(g, es).popped) ==> Queued(g, State(g, es)) <= 320000
  {
    FillCaps(State(g, es).popped);
    ResidualBound(g, es, MAX_MISSED_SETS + 1);
    if Gridded(State(g, es).popped) {
      ResidualBound(g, es, MAX_MISSED_SETS);
    }
  }
}
