/** N one-packet sources feeding the synchronizer, under any scheduling of their steps. */
module EndToEnd {
  import opened SnapFormat
  import opened Reassembly
  import opened ReassemblyTheorems
  import opened Streams
  import opened SourceRuns
  import opened Synchronizer
  import opened Alignment

  // One antenna: its source, the items that reached the synchronizer, how many of them were taken,
  // what was forwarded, and the sync message on its way back.
  datatype Antenna = Antenna(src: Src, fed: seq<Item>, pos: nat, out: seq<Vec>, mail: Tag)

  // `asked` counts the items requested before the latch, `sent` those forwarded since; `posted` are
  // the sync messages published so far.
  datatype Sys = Sys(ants: seq<Antenna>, latched: bool, asked: nat, sent: nat, posted: seq<nat>)

  datatype Step =
    | SourceWork(i: nat, taken: seq<Packet>, noutput: nat)
    | SyncWork(noutput: nat)
    | Deliver(i: nat)

  function Init(n: nat): Sys
  {
    Sys(seq(n, i => Antenna(FRESH, [], 0, [], NoTag)), false, 0, 0, [])
  }

  function Window(a: Antenna): seq<Item>
    requires a.pos <= |a.fed|
  {
    a.fed[a.pos..]
  }

  function Windows(s: Sys): (w: seq<seq<Item>>)
    requires forall i :: 0 <= i < |s.ants| ==> s.ants[i].pos <= |s.ants[i].fed|
    ensures |w| == |s.ants|
  {
    seq(|s.ants|, i requires 0 <= i < |s.ants| => Window(s.ants[i]))
  }

  // The scheduler calls the synchronizer only with whole blocks it has the input for.
  predicate Scheduled(s: Sys, noutput: nat)
  {
    && noutput > 0 && noutput % 16 == 0
    && forall i :: 0 <= i < |s.ants| ==> s.ants[i].pos + noutput <= |s.ants[i].fed|
  }

  // What the code takes for granted when it makes the step: a tag for every vector a source hands
  // out, a tag on every head the synchronizer inspects.
  ghost predicate Safe(g: Geometry, s: Sys, step: Step)
  {
    match step
    case SourceWork(i, taken, noutput) => i < |s.ants| ==> PopsSafely(g, s.ants[i].src, taken, noutput)
    case SyncWork(noutput) => Scheduled(s, noutput) && !s.latched ==> Tagged(Windows(s))
    case Deliver(i) => true
  }

  // A step that is not possible in `s` changes nothing.
  ghost function Next(g: Geometry, lane: Lane, s: Sys, step: Step): (s': Sys)
    ensures |s'.ants| == |s.ants|
  {
    match step
    case SourceWork(i, taken, noutput) =>
      if i < |s.ants| && Safe(g, s, step) && Demanded(g, s.ants[i].src, taken, noutput) then
        var a := s.ants[i];
        s.(ants := s.ants[i := Worked(g, lane, a, taken, noutput)])
      else s
    case SyncWork(noutput) =>
      if |s.ants| > 0 && Scheduled(s, noutput) && Safe(g, s, step) then SyncStep(s, noutput) else s
    case Deliver(i) =>
      if i < |s.ants| && s.ants[i].mail.Stamp? then
        var a := s.ants[i];
        s.(ants := s.ants[i := a.(src := a.src.(sync := a.mail.ts), mail := NoTag)])
      else s
  }

  ghost function SyncStep(s: Sys, noutput: nat): (s': Sys)
    requires |s.ants| > 0 && Scheduled(s, noutput) && (!s.latched ==> Tagged(Windows(s)))
    ensures |s'.ants| == |s.ants|
  {
    var n, heads := |s.ants|, if s.latched then [] else Heads(Windows(s));
    var d := Decide(n, heads, s.latched, noutput);
    Sys(seq(n, i requires 0 <= i < n => Served(s.ants[i], d, i)),
        d.latched, if d.latched then s.asked else s.asked + noutput, s.sent + d.forwarded,
        if d.message.Stamp? then s.posted + [d.message.ts] else s.posted)
  }

  // One antenna after a call of the synchronizer.
  function Served(a: Antenna, d: Decision, i: nat): Antenna
    requires i < |d.consumed| && a.pos + d.forwarded <= |a.fed|
  {
    a.(pos := a.pos + d.consumed[i],
       out := a.out + Vecs(a.fed[a.pos..a.pos + d.forwarded]),
       mail := if d.message.Stamp? then d.message else a.mail)
  }

  ghost function Exec(g: Geometry, lane: Lane, n: nat, steps: seq<Step>): (s: Sys)
    ensures |s.ants| == n
  {
    if |steps| == 0 then Init(n)
    else Next(g, lane, Exec(g, lane, n, steps[..|steps| - 1]), steps[|steps| - 1])
  }

  // --- The tag handshake: holds for any packets whatever -----------------------------------------

  // What reached the synchronizer is the beginning of the source's vector stream.
  ghost predicate FedInv(g: Geometry, lane: Lane, a: Antenna)
  {
    && InStep(g, a.src)
    && a.src.given <= |Vectors(g, lane, a.src.popped)|
    && Vecs(a.fed) == Vectors(g, lane, a.src.popped)[..a.src.given]
  }

  // What was forwarded is the stretch just before the current position.
  ghost predicate OutInv(a: Antenna)
  {
    && |a.out| <= a.pos <= |a.fed|
    && a.out == Vecs(a.fed[a.pos - |a.out|..a.pos])
  }

  ghost predicate TagInv(g: Geometry, a: Antenna, latched: bool)
  {
    && (a.mail.Stamp? ==> a.src.sync == 0)
    && (!latched ==>
          && a.src.sync == 0 && a.mail == NoTag && a.out == []
          && a.src.given <= |Tags(g, a.src.popped)|
          && TagsOf(a.fed) == Stamps(Tags(g, a.src.popped)[..a.src.given]))
  }

  ghost predicate AntennaInv(g: Geometry, lane: Lane, a: Antenna, latched: bool)
  {
    FedInv(g, lane, a) && OutInv(a) && TagInv(g, a, latched)
  }

  ghost predicate Handshake(g: Geometry, lane: Lane, s: Sys)
  {
    forall i :: 0 <= i < |s.ants| ==> AntennaInv(g, lane, s.ants[i], s.latched)
  }

  lemma MoreFed(a: Antenna, items: seq<Item>)
    requires OutInv(a)
    ensures OutInv(a.(fed := a.fed + items))
  {
    assert (a.fed + items)[a.pos - |a.out|..a.pos] == a.fed[a.pos - |a.out|..a.pos];
  }

  lemma MoreOut(a: Antenna, d: Decision, i: nat)
    requires OutInv(a) && i < |d.consumed| && d.consumed[i] == d.forwarded && a.pos + d.forwarded <= |a.fed|
    ensures OutInv(Served(a, d, i))
  {
    var from, to := a.pos - |a.out|, a.pos + d.forwarded;
    Joined(a.fed[from..a.pos], a.fed[a.pos..to]);
    assert a.fed[from..a.pos] + a.fed[a.pos..to] == a.fed[from..to];
  }

  function Worked(g: Geometry, lane: Lane, a: Antenna, taken: seq<Packet>, noutput: nat): Antenna
    requires PopsSafely(g, a.src, taken, noutput)
  {
    a.(src := AfterWork(g, a.src, taken, noutput), fed := a.fed + Output(g, lane, a.src, taken, noutput))
  }

  lemma SourceStepInv(g: Geometry, lane: Lane, a: Antenna, latched: bool, taken: seq<Packet>, noutput: nat)
    requires AntennaInv(g, lane, a, latched) && PopsSafely(g, a.src, taken, noutput)
    ensures AntennaInv(g, lane, Worked(g, lane, a, taken, noutput), latched)
  {
    hide Vectors, Tags, AfterWork, Output, PopsSafely, InStep;
    var a' := Worked(g, lane, a, taken, noutput);
    WorkInStep(g, a.src, taken, noutput);
    assert FedInv(g, lane, a') by {
      WorkExtends(g, lane, a.src, taken, noutput, a.fed);
    }
    MoreFed(a, Output(g, lane, a.src, taken, noutput));
    assert TagInv(g, a', latched) by {
      KeepsSync(g, a.src, taken, noutput);
      if !latched {
        WorkTags(g, lane, a.src, taken, noutput, a.fed);
      }
    }
  }

  lemma KeepsSync(g: Geometry, s: Src, taken: seq<Packet>, noutput: nat)
    requires PopsSafely(g, s, taken, noutput)
    ensures AfterWork(g, s, taken, noutput).sync == s.sync
    ensures AfterWork(g, s, taken, noutput).given <= |Tags(g, AfterWork(g, s, taken, noutput).popped)|
  {
  }

  lemma SyncStepInv(g: Geometry, lane: Lane, s: Sys, noutput: nat, i: nat)
    requires |s.ants| > 0 && Scheduled(s, noutput) && (!s.latched ==> Tagged(Windows(s)))
    requires i < |s.ants| && AntennaInv(g, lane, s.ants[i], s.latched)
    ensures var s' := SyncStep(s, noutput); AntennaInv(g, lane, s'.ants[i], s'.latched)
  {
    hide Vectors, Tags, InStep, Max, Dropped;
    var d := Decide(|s.ants|, if s.latched then [] else Heads(Windows(s)), s.latched, noutput);
    var a, a' := s.ants[i], Served(s.ants[i], d, i);
    if d.latched {
      MoreOut(a, d, i);
    } else {
      assert a.fed[a'.pos..a'.pos] == [] && a.fed[a.pos..a.pos] == [];
    }
    assert FedInv(g, lane, a') && OutInv(a') && TagInv(g, a', d.latched);
  }

  /** Whatever the packets and the schedule, the handshake between sources and synchronizer holds:
      queues in step, every item inspected before the latch tagged, no source told to stop tagging
      before the latch, nothing forwarded before the latch. */
  lemma {:induction false} HandshakeAlways(g: Geometry, lane: Lane, n: nat, steps: seq<Step>)
    ensures Handshake(g, lane, Exec(g, lane, n, steps))
  {
    hide AntennaInv, Next;
    if |steps| == 0 {
      HandshakeAtStart(g, lane, n);
    } else {
      var s, step := Exec(g, lane, n, steps[..|steps| - 1]), steps[|steps| - 1];
      HandshakeAlways(g, lane, n, steps[..|steps| - 1]);
      HandshakeStep(g, lane, s, step);
    }
  }

  lemma HandshakeAtStart(g: Geometry, lane: Lane, n: nat)
    ensures Handshake(g, lane, Init(n))
  {
    hide AntennaInv;
    UntouchedAntenna(g, lane, Antenna(FRESH, [], 0, [], NoTag));
    assert forall i :: 0 <= i < n ==> Init(n).ants[i] == Antenna(FRESH, [], 0, [], NoTag);
  }

  lemma UntouchedAntenna(g: Geometry, lane: Lane, a: Antenna)
    requires a == Antenna(FRESH, [], 0, [], NoTag)
    ensures AntennaInv(g, lane, a, false)
  {
    hide FedInv, OutInv, TagInv;
    UntouchedFed(g, lane, a);
    UntouchedOut(a);
    UntouchedTags(g, a);
  }

  lemma UntouchedFed(g: Geometry, lane: Lane, a: Antenna)
    requires a == Antenna(FRESH, [], 0, [], NoTag)
    ensures FedInv(g, lane, a)
  {
    hide Vectors, Tags, InStep;
    NothingQueued(g, lane);
    FreshInStep(g);
  }

  lemma UntouchedOut(a: Antenna)
    requires a.pos == 0 && a.fed == [] && a.out == []
    ensures OutInv(a)
  {
  }

  lemma UntouchedTags(g: Geometry, a: Antenna)
    requires a == Antenna(FRESH, [], 0, [], NoTag)
    ensures TagInv(g, a, false)
  {
    hide Tags;
    NothingQueued(g, PackedXY);
  }

  lemma NothingQueued(g: Geometry, lane: Lane)
    ensures Vectors(g, lane, []) == [] && Tags(g, []) == []
  {
  }

  lemma HandshakeStep(g: Geometry, lane: Lane, s: Sys, step: Step)
    requires Handshake(g, lane, s)
    ensures Handshake(g, lane, Next(g, lane, s, step))
  {
    hide AntennaInv, Vectors, Tags, AfterWork, Output, Demanded, SyncStep, Worked, PopsSafely;
    var s' := Next(g, lane, s, step);
    match step {
      case SourceWork(i, taken, noutput) =>
        if i < |s.ants| && PopsSafely(g, s.ants[i].src, taken, noutput) {
          SourceStepInv(g, lane, s.ants[i], s.latched, taken, noutput);
        }
      case SyncWork(noutput) =>
        if |s.ants| > 0 && Scheduled(s, noutput) && Safe(g, s, step) {
          forall i | 0 <= i < |s.ants|
            ensures AntennaInv(g, lane, s'.ants[i], s'.latched)
          {
            SyncStepInv(g, lane, s, noutput, i);
          }
        }
      case Deliver(i) =>
        if i < |s.ants| && s.ants[i].mail.Stamp? {
          MessageInv(g, lane, s.ants[i], s.latched);
        }
    }
  }

  lemma MessageInv(g: Geometry, lane: Lane, a: Antenna, latched: bool)
    requires AntennaInv(g, lane, a, latched) && a.mail.Stamp?
    ensures AntennaInv(g, lane, a.(src := a.src.(sync := a.mail.ts), mail := NoTag), latched)
  {
  }

  /** So every step the scheduler can make is safe: no tag is ever missing. */
  lemma StepsAreSafe(g: Geometry, lane: Lane, n: nat, steps: seq<Step>, step: Step)
    ensures Safe(g, Exec(g, lane, n, steps), step)
  {
    hide Exec, PopsSafely, Tags;
    HandshakeAlways(g, lane, n, steps);
    var s := Exec(g, lane, n, steps);
    if step.SourceWork? && step.i < n {
      assert AntennaInv(g, lane, s.ants[step.i], s.latched);
      WorkInStep(g, s.ants[step.i].src, step.taken, step.noutput);
    }
    if step.SyncWork? && Scheduled(s, step.noutput) && !s.latched {
      forall i | 0 <= i < n
        ensures Windows(s)[i][0].tag.Stamp?
      {
        HeadIsTagged(g, lane, s.ants[i]);
      }
    }
  }

  lemma HeadIsTagged(g: Geometry, lane: Lane, a: Antenna)
    requires AntennaInv(g, lane, a, false) && a.pos < |a.fed|
    ensures a.fed[a.pos].tag == Stamp(Tags(g, a.src.popped)[a.pos])
  {
    assert TagsOf(a.fed)[a.pos] == Stamps(Tags(g, a.src.popped)[..a.src.given])[a.pos];
  }

  // --- The aligned output: for gap-free packet streams on a common grid ---------------------------

  // What each source received is gap-free, in its channel range, and on the grid of remainder c.
  ghost predicate CleanAntenna(g: Geometry, a: Antenna, c: nat)
  {
    var ps := a.src.popped;
    GapFree(ps) && (forall p :: p in ps ==> Accepted(g, p)) && (|ps| > 0 ==> ps[0].ts % 16 == c)
  }

  ghost predicate Clean(g: Geometry, s: Sys, c: nat)
  {
    OnePacket(g) && forall i :: 0 <= i < |s.ants| ==> CleanAntenna(g, s.ants[i], c)
  }

  predicate Started(s: Sys) { forall i :: 0 <= i < |s.ants| ==> |s.ants[i].src.popped| > 0 }

  // The first timestamp of every source.
  function Firsts(s: Sys): (f: seq<nat>)
    requires Started(s)
    ensures |f| == |s.ants|
  {
    seq(|s.ants|, i requires 0 <= i < |s.ants| => s.ants[i].src.popped[0].ts)
  }

  function Positions(s: Sys): (pos: seq<nat>)
    ensures |pos| == |s.ants|
  {
    seq(|s.ants|, i requires 0 <= i < |s.ants| => s.ants[i].pos)
  }

  ghost predicate Untouched(s: Sys)
  {
    && !s.latched && s.asked == 0 && s.sent == 0 && s.posted == []
    && forall i :: 0 <= i < |s.ants| ==> s.ants[i].pos == 0
  }

  ghost predicate Aligned(s: Sys)
    requires |s.ants| > 0 && Started(s)
  {
    && s.asked % 16 == 0
    && if s.latched then
         && s.posted == [Max(Firsts(s))]
         && forall i :: 0 <= i < |s.ants| ==>
              s.ants[i].pos == Lag(Firsts(s), i) + s.sent && |s.ants[i].out| == s.sent
       else s.sent == 0 && s.posted == [] && Caught(Firsts(s), Positions(s), s.asked)
  }

  ghost predicate AlignInv(s: Sys)
  {
    |s.ants| > 0 ==> Untouched(s) || (Started(s) && Aligned(s))
  }

  lemma CleanBefore(g: Geometry, lane: Lane, s: Sys, step: Step, c: nat)
    requires Clean(g, Next(g, lane, s, step), c)
    ensures Clean(g, s, c)
  {
    hide CleanAntenna, Next;
    forall i | 0 <= i < |s.ants|
      ensures CleanAntenna(g, s.ants[i], c)
    {
      SourceGrows(g, lane, s, step, i);
      CleanPrefix(g, s.ants[i], Next(g, lane, s, step).ants[i], c);
    }
  }

  lemma SourceGrows(g: Geometry, lane: Lane, s: Sys, step: Step, i: nat)
    requires i < |s.ants|
    ensures s.ants[i].src.popped <= Next(g, lane, s, step).ants[i].src.popped
  {
    hide Output, Demanded, Tags, Vectors;
  }

  lemma CleanPrefix(g: Geometry, a: Antenna, a': Antenna, c: nat)
    requires a.src.popped <= a'.src.popped && CleanAntenna(g, a', c)
    ensures CleanAntenna(g, a, c)
  {
    assert forall k :: 0 <= k < |a.src.popped| ==> a.src.popped[k] == a'.src.popped[k];
  }

  lemma FirstsSameGrid(g: Geometry, s: Sys, c: nat)
    requires Clean(g, s, c) && Started(s)
    ensures SameGrid(Firsts(s))
  {
    forall i | 0 <= i < |s.ants|
      ensures Firsts(s)[i] % 16 == c
    {
      assert CleanAntenna(g, s.ants[i], c);
    }
  }

  // The head the synchronizer reads is that of a gap-free stream.
  lemma HeadOfStream(g: Geometry, lane: Lane, a: Antenna, c: nat)
    requires AntennaInv(g, lane, a, false) && OnePacket(g) && CleanAntenna(g, a, c) && a.pos < |a.fed|
    ensures |a.src.popped| > 0
    ensures a.fed[a.pos].tag == Stamp(a.src.popped[0].ts + 16 * (a.pos / 16))
  {
    HeadIsTagged(g, lane, a);
    assert |Tags(g, a.src.popped)| > 0;
    TagsGapFreeIff(g, a.src.popped);
  }

  lemma HeadsOfStreams(g: Geometry, lane: Lane, s: Sys, c: nat, noutput: nat)
    requires Handshake(g, lane, s) && Clean(g, s, c) && !s.latched && Scheduled(s, noutput)
    ensures Started(s) && Tagged(Windows(s))
    ensures Heads(Windows(s)) == HeadTags(Firsts(s), Positions(s))
  {
    hide AntennaInv, CleanAntenna;
    forall i | 0 <= i < |s.ants|
      ensures |s.ants[i].src.popped| > 0
      ensures Windows(s)[i][0].tag == Stamp(s.ants[i].src.popped[0].ts + 16 * (s.ants[i].pos / 16))
    {
      HeadOfStream(g, lane, s.ants[i], c);
    }
  }

  // Steps of the sources neither move a position nor change a first timestamp.
  lemma SourceStepKeeps(g: Geometry, lane: Lane, s: Sys, step: Step)
    requires !step.SyncWork?
    ensures var s' := Next(g, lane, s, step);
            && s'.latched == s.latched && s'.asked == s.asked && s'.sent == s.sent && s'.posted == s.posted
            && Positions(s') == Positions(s)
            && (Started(s) ==> Started(s') && Firsts(s') == Firsts(s))
            && forall i :: 0 <= i < |s.ants| ==>
                 s'.ants[i].out == s.ants[i].out
  {
    hide Vectors, Tags, Output, Demanded;
  }

  lemma SourceStepAligned(g: Geometry, lane: Lane, s: Sys, step: Step)
    requires !step.SyncWork? && AlignInv(s)
    ensures AlignInv(Next(g, lane, s, step))
  {
    var s' := Next(g, lane, s, step);
    SourceStepKeeps(g, lane, s, step);
    forall i | 0 <= i < |s.ants|
      ensures s'.ants[i].pos == s.ants[i].pos
    {
      assert Positions(s')[i] == Positions(s)[i];
    }
    if |s.ants| > 0 && !Untouched(s) {
      assert Started(s') && Aligned(s');
    }
  }

  lemma SyncStepAligned(g: Geometry, lane: Lane, s: Sys, c: nat, noutput: nat)
    requires |s.ants| > 0 && Handshake(g, lane, s) && Clean(g, s, c) && AlignInv(s) && Scheduled(s, noutput)
    requires !s.latched ==> Tagged(Windows(s))
    ensures AlignInv(SyncStep(s, noutput))
  {
    if s.latched {
      ForwardAligned(s, noutput);
    } else {
      HeadsOfStreams(g, lane, s, c, noutput);
      FirstsSameGrid(g, s, c);
      StillCaught(s);
      if AllEqual(Heads(Windows(s))) {
        LatchAligned(s, noutput);
      } else {
        DropStepAligned(s, noutput);
      }
    }
  }

  lemma ForwardAligned(s: Sys, noutput: nat)
    requires |s.ants| > 0 && s.latched && Started(s) && Aligned(s) && Scheduled(s, noutput)
    ensures AlignInv(SyncStep(s, noutput))
  {
    var s' := SyncStep(s, noutput);
    assert Started(s') && Firsts(s') == Firsts(s);
  }

  lemma DropStepAligned(s: Sys, noutput: nat)
    requires |s.ants| > 0 && !s.latched && Started(s) && Scheduled(s, noutput) && Tagged(Windows(s))
    requires s.asked % 16 == 0 && s.sent == 0 && s.posted == [] && Caught(Firsts(s), Positions(s), s.asked)
    requires SameGrid(Firsts(s)) && Heads(Windows(s)) == HeadTags(Firsts(s), Positions(s))
    requires !AllEqual(Heads(Windows(s)))
    ensures AlignInv(SyncStep(s, noutput))
  {
    DroppedPositions(s, noutput);
    DropAligned(s, SyncStep(s, noutput), noutput);
  }

  lemma StillCaught(s: Sys)
    requires |s.ants| > 0 && !s.latched && AlignInv(s) && Started(s)
    ensures s.asked % 16 == 0 && s.sent == 0 && s.posted == [] && Caught(Firsts(s), Positions(s), s.asked)
  {
    if Untouched(s) {
      assert forall i :: 0 <= i < |s.ants| ==> Positions(s)[i] == 0;
    }
  }

  lemma LatchAligned(s: Sys, noutput: nat)
    requires |s.ants| > 0 && !s.latched && Started(s) && Scheduled(s, noutput) && Tagged(Windows(s))
    requires s.asked % 16 == 0 && s.sent == 0 && s.posted == [] && Caught(Firsts(s), Positions(s), s.asked)
    requires SameGrid(Firsts(s)) && Heads(Windows(s)) == HeadTags(Firsts(s), Positions(s))
    requires AllEqual(Heads(Windows(s)))
    requires forall i :: 0 <= i < |s.ants| ==> s.ants[i].out == []
    ensures AlignInv(SyncStep(s, noutput))
  {
    var s' := SyncStep(s, noutput);
    HeadsWhileCatchingUp(Firsts(s), Positions(s), s.asked);
    assert Started(s') && Firsts(s') == Firsts(s);
    forall i | 0 <= i < |s.ants|
      ensures s'.ants[i].pos == Lag(Firsts(s), i) + noutput
    {
      assert Positions(s)[i] == s.ants[i].pos == Lag(Firsts(s), i);
    }
  }

  lemma DroppedPositions(s: Sys, noutput: nat)
    requires |s.ants| > 0 && !s.latched && Started(s) && Scheduled(s, noutput) && Tagged(Windows(s))
    requires !AllEqual(Heads(Windows(s)))
    ensures var s' := SyncStep(s, noutput);
            && !s'.latched && s'.asked == s.asked + noutput && s'.sent == s.sent && s'.posted == s.posted
            && Started(s') && Firsts(s') == Firsts(s)
            && forall i :: 0 <= i < |s.ants| ==>
                 Positions(s')[i] == Positions(s)[i] + Dropped(Heads(Windows(s)), i, noutput)
  {
  }

  lemma DropAligned(s: Sys, s': Sys, noutput: nat)
    requires |s.ants| == |s'.ants| > 0 && noutput % 16 == 0
    requires Started(s) && SameGrid(Firsts(s))
    requires s.asked % 16 == 0 && s.sent == 0 && s.posted == [] && Caught(Firsts(s), Positions(s), s.asked)
    requires Started(s') && Firsts(s') == Firsts(s)
    requires !s'.latched && s'.asked == s.asked + noutput && s'.sent == s.sent && s'.posted == s.posted
    requires forall i :: 0 <= i < |s.ants| ==>
               Positions(s')[i] == Positions(s)[i] + Dropped(HeadTags(Firsts(s), Positions(s)), i, noutput)
    ensures AlignInv(s')
  {
    hide Dropped, Lag, HeadTags, SameGrid;
    CatchUpStep(Firsts(s), Positions(s), s.asked, noutput);
  }

  lemma SyncStepTaken(g: Geometry, lane: Lane, s: Sys, step: Step)
    requires step.SyncWork?
    ensures Next(g, lane, s, step) ==
            if |s.ants| > 0 && Scheduled(s, step.noutput) && Safe(g, s, step) then SyncStep(s, step.noutput) else s
  {
  }

  lemma {:induction false} AlignedAlways(g: Geometry, lane: Lane, n: nat, steps: seq<Step>, c: nat)
    requires Clean(g, Exec(g, lane, n, steps), c)
    ensures AlignInv(Exec(g, lane, n, steps))
  {
    hide Clean, Next;
    if |steps| == 0 {
    } else {
      var init, step := steps[..|steps| - 1], steps[|steps| - 1];
      var s := Exec(g, lane, n, init);
      CleanBefore(g, lane, s, step, c);
      AlignedAlways(g, lane, n, init, c);
      HandshakeAlways(g, lane, n, init);
      if step.SyncWork? {
        SyncStepTaken(g, lane, s, step);
        if |s.ants| > 0 && Scheduled(s, step.noutput) && Safe(g, s, step) {
          SyncStepAligned(g, lane, s, c, step.noutput);
        }
      } else {
        SourceStepAligned(g, lane, s, step);
      }
    }
  }

  /** End to end: if every source's packets are gap-free and the sources share one grid of 16, then
      under any scheduling item k forwarded for every antenna is time row k % 16 of sample number
      S + 16 * (k / 16), S being the largest first timestamp: that antenna's packet if it was
      received and zeros otherwise. All antennas have forwarded the same number of items. */
  lemma AlignedOutput(g: Geometry, lane: Lane, n: nat, steps: seq<Step>, c: nat, i: nat)
    requires i < n && Clean(g, Exec(g, lane, n, steps), c)
    requires Exec(g, lane, n, steps).latched
    ensures var s := Exec(g, lane, n, steps);
            && Started(s)
            && |s.ants[i].out| == s.sent
            && IsStream(g, lane, s.ants[i].src.popped, Max(Firsts(s)), s.ants[i].out)
  {
    var s := Exec(g, lane, n, steps);
    AlignedAlways(g, lane, n, steps, c);
    HandshakeAlways(g, lane, n, steps);
    LatchedPosition(s, i);
    assert AntennaInv(g, lane, s.ants[i], true);
    AlignedAntenna(g, lane, s, c, i);
  }

  lemma LatchedPosition(s: Sys, i: nat)
    requires i < |s.ants| && s.latched && AlignInv(s)
    ensures Started(s) && |s.ants[i].out| == s.sent && s.ants[i].pos == Lag(Firsts(s), i) + s.sent
  {
  }

  lemma AlignedAntenna(g: Geometry, lane: Lane, s: Sys, c: nat, i: nat)
    requires i < |s.ants| && Started(s) && Clean(g, s, c) && AntennaInv(g, lane, s.ants[i], true)
    requires s.ants[i].pos == Lag(Firsts(s), i) + |s.ants[i].out|
    ensures IsStream(g, lane, s.ants[i].src.popped, Max(Firsts(s)), s.ants[i].out)
  {
    hide AntennaInv, Vectors, IsStream, Tags;
    var a, f := s.ants[i], Firsts(s);
    var lag := Lag(f, i);
    assert lag % 16 == 0 by {
      FirstsSameGrid(g, s, c);
      LagOnGrid(f, i);
    }
    assert IsStream(g, lane, a.src.popped, f[i], Vectors(g, lane, a.src.popped)) by {
      assert CleanAntenna(g, a, c);
      OnePacketReassembly(g, lane, a.src.popped);
    }
    OutputIsStream(g, lane, a, f[i], lag);
  }

  lemma OutputIsStream(g: Geometry, lane: Lane, a: Antenna, first: nat, lag: nat)
    requires AntennaInv(g, lane, a, true) && a.pos == lag + |a.out| && lag % 16 == 0
    requires IsStream(g, lane, a.src.popped, first, Vectors(g, lane, a.src.popped))
    ensures IsStream(g, lane, a.src.popped, first + lag, a.out)
  {
    hide AntennaInv, IsStream, Vectors;
    OutputIsSlice(g, lane, a, lag);
    SliceOfStream(g, lane, a.src.popped, first, Vectors(g, lane, a.src.popped), lag, a.out);
  }

  lemma OutputIsSlice(g: Geometry, lane: Lane, a: Antenna, lag: nat)
    requires AntennaInv(g, lane, a, true) && a.pos == lag + |a.out|
    ensures a.pos <= |Vectors(g, lane, a.src.popped)| && a.out == Vectors(g, lane, a.src.popped)[lag..a.pos]
  {
    hide Vectors, Tags, InStep;
    var v := Vectors(g, lane, a.src.popped);
    assert Vecs(a.fed[lag..a.pos]) == Vecs(a.fed)[lag..a.pos];
    assert v[..a.src.given][lag..a.pos] == v[lag..a.pos];
  }

  // Dropping whole timestamps from the front of a stream.
  lemma SliceOfStream(g: Geometry, lane: Lane, ps: seq<Packet>, first: nat, vs: seq<Vec>, lag: nat, out: seq<Vec>)
    requires IsStream(g, lane, ps, first, vs) && lag % 16 == 0 && lag + |out| <= |vs|
    requires out == vs[lag..lag + |out|]
    ensures IsStream(g, lane, ps, first + lag, out)
  {
    hide RowSpec;
    forall k | 0 <= k < |out|
      ensures out[k] == RowSpec(g, lane, ps, first + lag + 16 * (k / 16), k % 16)
    {
      assert out[k] == vs[lag + k];
      BlockShift(lag, lag + k);
    }
  }

  // Before the latch nothing was posted; since then one message, which each source has got or will get.
  ghost predicate Told(a: Antenna, posted: seq<nat>)
  {
    if posted == [] then a.src.sync == 0 && a.mail == NoTag
    else (a.src.sync == 0 && a.mail == Stamp(posted[0])) || (a.src.sync == posted[0] && a.mail == NoTag)
  }

  ghost predicate PostedOnce(s: Sys)
  {
    |s.posted| == (if s.latched then 1 else 0) && forall i :: 0 <= i < |s.ants| ==> Told(s.ants[i], s.posted)
  }

  /** Whatever the packets and the schedule, one sync message is posted, by the call that latches, and
      every source receives it once. */
  lemma {:induction false} MessagePostedOnce(g: Geometry, lane: Lane, n: nat, steps: seq<Step>)
    ensures PostedOnce(Exec(g, lane, n, steps))
  {
    hide Next, PostedOnce;
    if |steps| == 0 {
      NothingPosted(n);
    } else {
      MessagePostedOnce(g, lane, n, steps[..|steps| - 1]);
      PostedStep(g, lane, Exec(g, lane, n, steps[..|steps| - 1]), steps[|steps| - 1]);
    }
  }

  lemma NothingPosted(n: nat)
    ensures PostedOnce(Init(n))
  {
  }

  lemma PostedStep(g: Geometry, lane: Lane, s: Sys, step: Step)
    requires PostedOnce(s)
    ensures PostedOnce(Next(g, lane, s, step))
  {
    hide Output, Demanded, Tags, Vectors, PopsSafely, Max, Dropped;
    if step.SourceWork? && step.i < |s.ants| && PopsSafely(g, s.ants[step.i].src, step.taken, step.noutput) {
      KeepsSync(g, s.ants[step.i].src, step.taken, step.noutput);
    }
  }

  /** In a clean run that message names the first forwarded timestamp, and every source has it as its
      sync timestamp once it has received it. */
  lemma MessageNamesFirstTimestamp(g: Geometry, lane: Lane, n: nat, steps: seq<Step>, c: nat, i: nat)
    requires i < n && Clean(g, Exec(g, lane, n, steps), c)
    ensures var s := Exec(g, lane, n, steps);
            if s.latched then
              && Started(s) && s.posted == [Max(Firsts(s))]
              && s.ants[i].src.sync == (if s.ants[i].mail.Stamp? then 0 else Max(Firsts(s)))
              && (s.ants[i].mail.Stamp? ==> s.ants[i].mail.ts == Max(Firsts(s)))
            else s.posted == [] && s.ants[i].src.sync == 0 && s.ants[i].mail == NoTag
  {
    hide Clean, Exec;
    AlignedAlways(g, lane, n, steps, c);
    MessagePostedOnce(g, lane, n, steps);
    assert Told(Exec(g, lane, n, steps).ants[i], Exec(g, lane, n, steps).posted);
  }

  /** Convergence: in a clean run, the scheduled call of the synchronizer before which enough items were
      asked for to cover the largest lag latches, and no earlier one does. */
  lemma LatchesWhenCaughtUp(g: Geometry, lane: Lane, n: nat, steps: seq<Step>, c: nat, noutput: nat)
    requires n > 0 && Clean(g, Exec(g, lane, n, steps), c) && Scheduled(Exec(g, lane, n, steps), noutput)
    requires !Exec(g, lane, n, steps).latched
    ensures var s := Exec(g, lane, n, steps);
            Started(s) && (Next(g, lane, s, SyncWork(noutput)).latched <==> LagsWithin(Firsts(s), s.asked))
  {
    hide Clean, Exec;
    var s := Exec(g, lane, n, steps);
    AlignedAlways(g, lane, n, steps, c);
    HandshakeAlways(g, lane, n, steps);
    HeadsOfStreams(g, lane, s, c, noutput);
    FirstsSameGrid(g, s, c);
    StillCaught(s);
    HeadsWhileCatchingUp(Firsts(s), Positions(s), s.asked);
    SyncStepTaken(g, lane, s, SyncWork(noutput));
  }

  /** Down to the payload: a byte of a forwarded item is that of its antenna's packet of sample number
      S + 16 * (k / 16), in packed mode, or the number its half stands for; without such a packet it is
      zero. */
  lemma AlignedSample(g: Geometry, lane: Lane, n: nat, steps: seq<Step>, s: Sys, c: nat, i: nat, k: nat, m: nat)
    requires s == Exec(g, lane, n, steps) && Clean(g, s, c) && s.latched
    requires i < n && k < |s.ants[i].out| && m < 512
    ensures Started(s) && |s.ants[i].out[k]| == VecLen(g) == 512
    ensures var ts, v := Max(Firsts(s)) + 16 * (k / 16), s.ants[i].out[k][m];
            && (forall p :: p in s.ants[i].src.popped && p.ts == ts ==> FromPayload(lane, p, k % 16, m, v))
            && (!Received(s.ants[i].src.popped, ts) ==> v == 0)
  {
    hide Clean, FromPayload, Cell, Exec;
    AlignedOutput(g, lane, n, steps, c, i);
    CleanPackets(g, s, c, i);
    var ts, ps := Max(Firsts(s)) + 16 * (k / 16), s.ants[i].src.popped;
    if Received(ps, ts) {
      forall p | p in ps && p.ts == ts
        ensures FromPayload(lane, p, k % 16, m, s.ants[i].out[k][m])
      {
        CellOfPacket(g, lane, ps, k % 16, m, p);
        CellIsPayload(lane, p, k % 16, m);
      }
    } else {
      CellOfNoPacket(g, lane, ps, ts, k % 16, m);
    }
  }

  // In a clean run every packet fills its frame, and no two of a source have the same timestamp.
  lemma CleanPackets(g: Geometry, s: Sys, c: nat, i: nat)
    requires i < |s.ants| && Clean(g, s, c)
    ensures VecLen(g) == 512
    ensures forall p :: p in s.ants[i].src.popped ==> Offset(g, p) == 0
    ensures forall p, q :: p in s.ants[i].src.popped && q in s.ants[i].src.popped && p.ts == q.ts ==> p == q
  {
    assert CleanAntenna(g, s.ants[i], c);
    OncePerTimestamp(s.ants[i].src.popped);
  }

  lemma {:induction false} OncePerTimestamp(ps: seq<Packet>)
    requires GapFree(ps)
    ensures forall p, q :: p in ps && q in ps && p.ts == q.ts ==> p == q
  {
    if |ps| <= 1 {
    } else {
      var q, p := ps[..|ps| - 1], ps[|ps| - 1];
      assert ps == q + [p];
      OncePerTimestamp(q);
      LastIsLargest(q);
      assert LastTs(q) < p.ts;
    }
  }

  // --- Progress: every step does its work, and clean streams synchronize ---------------------------

  /** Every call of a source hands its packets over: it takes them all, and what reaches the synchronizer
      grows by what was asked for or by all that is queued. */
  lemma SourceDelivers(g: Geometry, lane: Lane, n: nat, steps: seq<Step>, i: nat, taken: seq<Packet>, noutput: nat)
    requires i < n && Demanded(g, Exec(g, lane, n, steps).ants[i].src, taken, noutput)
    ensures var s := Exec(g, lane, n, steps);
            var s', a := Next(g, lane, s, SourceWork(i, taken, noutput)), s.ants[i];
            var a' := s'.ants[i];
            && s' == s.(ants := s.ants[i := a'])
            && a'.src.popped == a.src.popped + taken
            && a.src.given == |a.fed| && a'.src.given == |a'.fed| && a.fed <= a'.fed
            && |a'.fed| == |a.fed| + Min(noutput, |Tags(g, a'.src.popped)| - a.src.given)
            && a'.pos == a.pos && a'.out == a.out && a'.mail == a.mail && a'.src.sync == a.src.sync
  {
    hide Exec, Tags, Vectors, Items, PushedTags;
    StepsAreSafe(g, lane, n, steps, SourceWork(i, taken, noutput));
    HandshakeAlways(g, lane, n, steps);
    FedAll(g, lane, Exec(g, lane, n, steps).ants[i], Exec(g, lane, n, steps).latched);
  }

  lemma FedAll(g: Geometry, lane: Lane, a: Antenna, latched: bool)
    requires AntennaInv(g, lane, a, latched)
    ensures a.src.given == |a.fed|
  {
    hide Vectors, Tags, InStep;
    assert |Vecs(a.fed)| == |a.fed|;
  }

  /** A sync message under way arrives: it becomes the source's sync timestamp. */
  lemma MessageArrives(g: Geometry, lane: Lane, n: nat, steps: seq<Step>, i: nat)
    requires i < n && Exec(g, lane, n, steps).ants[i].mail.Stamp?
    ensures var s := Exec(g, lane, n, steps);
            var s', a := Next(g, lane, s, Deliver(i)), s.ants[i];
            && s' == s.(ants := s.ants[i := a.(src := s'.ants[i].src, mail := NoTag)])
            && s'.ants[i].src.sync == a.mail.ts && s'.ants[i].src.popped == a.src.popped
            && s.posted == [a.mail.ts]
  {
    hide Exec;
    MessagePostedOnce(g, lane, n, steps);
    assert Told(Exec(g, lane, n, steps).ants[i], Exec(g, lane, n, steps).posted);
  }

  /** A scheduled call that finds or makes the inputs synchronized moves a full window of every input to its
      output; any other call forwards nothing. No call changes what the sources handed over. */
  lemma WindowForwarded(g: Geometry, lane: Lane, n: nat, steps: seq<Step>, noutput: nat, i: nat)
    requires i < n && Scheduled(Exec(g, lane, n, steps), noutput)
    ensures var s := Exec(g, lane, n, steps);
            var s' := Next(g, lane, s, SyncWork(noutput));
            var a, a' := s.ants[i], s'.ants[i];
            && a'.fed == a.fed && a'.src == a.src && (s.latched ==> s'.latched)
            && (s'.latched ==>
                  && a'.pos == a.pos + noutput && |a'.out| == |a.out| + noutput && s'.sent == s.sent + noutput
                  && a'.out == a.out + Vecs(a.fed[a.pos..a.pos + noutput]))
            && (!s'.latched ==> a'.out == [] && s'.sent == s.sent && s'.asked == s.asked + noutput)
  {
    hide Exec, Tags, Vectors, Max, Dropped, FedInv, InStep;
    var s := Exec(g, lane, n, steps);
    StepsAreSafe(g, lane, n, steps, SyncWork(noutput));
    HandshakeAlways(g, lane, n, steps);
    assert AntennaInv(g, lane, s.ants[i], s.latched);
    SyncStepTaken(g, lane, s, SyncWork(noutput));
  }

  lemma OneMoreExec(g: Geometry, lane: Lane, n: nat, steps: seq<Step>, step: Step)
    ensures Exec(g, lane, n, steps + [step]) == Next(g, lane, Exec(g, lane, n, steps), step)
  {
    assert (steps + [step])[..|steps|] == steps;
  }

  // Every source has handed over its lag and one more block.
  ghost predicate FedEnough(s: Sys)
  {
    Started(s) && forall i :: 0 <= i < |s.ants| ==> |s.ants[i].fed| >= Lag(Firsts(s), i) + 16
  }

  // The synchronizer may be called as long as it has not latched.
  lemma EnoughIsScheduled(g: Geometry, lane: Lane, n: nat, steps: seq<Step>, c: nat)
    requires n > 0 && Clean(g, Exec(g, lane, n, steps), c) && FedEnough(Exec(g, lane, n, steps))
    requires !Exec(g, lane, n, steps).latched
    ensures Scheduled(Exec(g, lane, n, steps), 16)
  {
    hide Exec, Clean, Lag;
    var s := Exec(g, lane, n, steps);
    AlignedAlways(g, lane, n, steps, c);
    StillCaught(s);
    assert forall i :: 0 <= i < n ==> s.ants[i].pos == Positions(s)[i];
  }

  /** From every clean state that has not latched, once every source has handed over its lag and one more
      block, calls for 16 items latch and forward 16 items of every antenna. */
  lemma {:induction false} LatchesFromHere(g: Geometry, lane: Lane, n: nat, steps: seq<Step>, c: nat)
      returns (more: seq<Step>)
    requires n > 0 && Clean(g, Exec(g, lane, n, steps), c) && FedEnough(Exec(g, lane, n, steps))
    requires !Exec(g, lane, n, steps).latched
    ensures forall step :: step in more ==> step == SyncWork(16)
    ensures var s, s' := Exec(g, lane, n, steps), Exec(g, lane, n, steps + more);
            && s'.latched && Started(s') && Firsts(s') == Firsts(s) && Clean(g, s', c)
            && forall i :: 0 <= i < n ==> |s'.ants[i].out| == 16
    decreases Max(Firsts(Exec(g, lane, n, steps))) + 16 - Exec(g, lane, n, steps).asked
  {
    hide Exec, Clean, FedEnough, Next, Max, LagsWithin, Firsts, Scheduled, Started;
    var s := Exec(g, lane, n, steps);
    var steps' := steps + [SyncWork(16)];
    EnoughIsScheduled(g, lane, n, steps, c);
    LatchesWhenCaughtUp(g, lane, n, steps, c, 16);
    OneMoreExec(g, lane, n, steps, SyncWork(16));
    CallKeepsSources(g, lane, n, steps, c);
    if Exec(g, lane, n, steps').latched {
      more := [SyncWork(16)];
    } else {
      SmallLags(Firsts(s), s.asked);
      var rest := LatchesFromHere(g, lane, n, steps', c);
      more := [SyncWork(16)] + rest;
      Regrouped(steps, SyncWork(16), rest);
    }
  }

  lemma Regrouped<T>(a: seq<T>, x: T, b: seq<T>)
    ensures a + ([x] + b) == a + [x] + b
  {
  }

  lemma SmallLags(f: seq<nat>, total: nat)
    requires |f| > 0 && !LagsWithin(f, total)
    ensures total < Max(f)
  {
    MaxIsLargest(f);
  }

  lemma CallKeepsSources(g: Geometry, lane: Lane, n: nat, steps: seq<Step>, c: nat)
    requires n > 0 && Clean(g, Exec(g, lane, n, steps), c) && FedEnough(Exec(g, lane, n, steps))
    requires !Exec(g, lane, n, steps).latched && Scheduled(Exec(g, lane, n, steps), 16)
    ensures var s := Exec(g, lane, n, steps);
            var s' := Next(g, lane, s, SyncWork(16));
            && Clean(g, s', c) && FedEnough(s') && Started(s') && Firsts(s') == Firsts(s)
            && (s'.latched ==> forall i :: 0 <= i < n ==> |s'.ants[i].out| == 16)
            && (!s'.latched ==> s'.asked == s.asked + 16)
  {
    hide Exec, Next, CleanAntenna, Lag;
    var s := Exec(g, lane, n, steps);
    var s' := Next(g, lane, s, SyncWork(16));
    HandshakeAlways(g, lane, n, steps);
    forall i | 0 <= i < n
      ensures s'.ants[i].fed == s.ants[i].fed && s'.ants[i].src == s.ants[i].src
      ensures s'.latched ==> |s'.ants[i].out| == 16
      ensures CleanAntenna(g, s'.ants[i], c)
    {
      WindowForwarded(g, lane, n, steps, 16, i);
      NothingOut(g, lane, s, i);
      assert CleanAntenna(g, s.ants[i], c);
      SamePackets(g, s.ants[i], s'.ants[i], c);
    }
    WindowForwarded(g, lane, n, steps, 16, 0);
    assert Started(s') && Firsts(s') == Firsts(s);
  }

  lemma NothingOut(g: Geometry, lane: Lane, s: Sys, i: nat)
    requires Handshake(g, lane, s) && i < |s.ants| && !s.latched
    ensures s.ants[i].out == []
  {
    assert AntennaInv(g, lane, s.ants[i], false);
  }

  lemma SamePackets(g: Geometry, a: Antenna, a': Antenna, c: nat)
    requires CleanAntenna(g, a, c) && a'.src == a.src
    ensures CleanAntenna(g, a', c)
  {
  }

  // Packet streams the sources could receive: gap-free, in range and on one grid, each reaching the
  // largest first timestamp.
  ghost predicate CleanStreams(g: Geometry, streams: seq<seq<Packet>>, c: nat)
  {
    && OnePacket(g) && |streams| > 0
    && (forall i :: 0 <= i < |streams| ==>
          && |streams[i]| > 0 && GapFree(streams[i]) && streams[i][0].ts % 16 == c
          && forall p :: p in streams[i] ==> Accepted(g, p))
    && forall i, j :: 0 <= i < |streams| && 0 <= j < |streams| ==> streams[j][0].ts <= LastTs(streams[i])
  }

  // The first k sources have received and handed over their streams, the others nothing.
  ghost predicate FedUpTo(g: Geometry, s: Sys, streams: seq<seq<Packet>>, k: nat)
  {
    && |s.ants| == |streams| && !s.latched && k <= |streams|
    && (forall i :: 0 <= i < k ==>
          s.ants[i].src.popped == streams[i] && |s.ants[i].fed| == |Tags(g, streams[i])|)
    && forall i :: k <= i < |streams| ==> s.ants[i] == Antenna(FRESH, [], 0, [], NoTag)
  }

  // One call hands over a whole stream.
  lemma WholeStream(g: Geometry, ps: seq<Packet>)
    requires OnePacket(g) && |ps| > 0 && GapFree(ps)
    ensures Demanded(g, FRESH, ps, |Tags(g, ps)|) && |Tags(g, ps)| == LastTs(ps) - ps[0].ts + 16
  {
    hide Tags, GapFree;
    var init := ps[..|ps| - 1];
    ShorterStream(ps);
    TagsGapFreeIff(g, ps);
    NothingQueued(g, PackedXY);
    assert FRESH.popped + init == init;
    if |init| > 0 {
      TagsGapFreeIff(g, init);
    }
  }

  lemma ShorterStream(ps: seq<Packet>)
    requires |ps| > 0 && GapFree(ps)
    ensures var init := ps[..|ps| - 1];
            GapFree(init) && LastTs(ps) >= ps[0].ts && (|init| > 0 ==> init[0] == ps[0] && LastTs(init) < LastTs(ps))
  {
    var init := ps[..|ps| - 1];
    assert forall i :: 0 <= i < |init| ==> init[i] == ps[i];
    if |init| > 0 {
      assert ps[|init| - 1].ts < ps[|init|].ts;
      LastIsLargest(ps);
    }
  }

  lemma {:induction false} FeedStreams(g: Geometry, lane: Lane, streams: seq<seq<Packet>>, c: nat, k: nat)
      returns (steps: seq<Step>)
    requires CleanStreams(g, streams, c) && k <= |streams|
    ensures FedUpTo(g, Exec(g, lane, |streams|, steps), streams, k)
  {
    hide Next, Tags, FedUpTo, Demanded;
    if k == 0 {
      steps := [];
      NothingFed(g, streams);
    } else {
      var before := FeedStreams(g, lane, streams, c, k - 1);
      var ps, n := streams[k - 1], |streams|;
      var s, step := Exec(g, lane, n, before), SourceWork(k - 1, ps, |Tags(g, ps)|);
      WholeStream(g, ps);
      Unfed(g, s, streams, k - 1);
      SourceDelivers(g, lane, n, before, k - 1, ps, |Tags(g, ps)|);
      OneMoreExec(g, lane, n, before, step);
      assert FRESH.popped + ps == ps;
      FedOneMore(g, s, Next(g, lane, s, step), streams, k - 1);
      steps := before + [step];
    }
  }

  lemma NothingFed(g: Geometry, streams: seq<seq<Packet>>)
    ensures FedUpTo(g, Init(|streams|), streams, 0)
  {
  }

  lemma Unfed(g: Geometry, s: Sys, streams: seq<seq<Packet>>, k: nat)
    requires FedUpTo(g, s, streams, k) && k < |streams|
    ensures s.ants[k] == Antenna(FRESH, [], 0, [], NoTag)
  {
  }

  lemma FedOneMore(g: Geometry, s: Sys, s': Sys, streams: seq<seq<Packet>>, k: nat)
    requires FedUpTo(g, s, streams, k) && k < |streams| == |s'.ants|
    requires s' == s.(ants := s.ants[k := s'.ants[k]])
    requires s'.ants[k].src.popped == streams[k] && |s'.ants[k].fed| == |Tags(g, streams[k])|
    ensures FedUpTo(g, s', streams, k + 1)
  {
    hide Tags;
  }

  lemma FedStreams(g: Geometry, s: Sys, streams: seq<seq<Packet>>, c: nat)
    requires CleanStreams(g, streams, c) && FedUpTo(g, s, streams, |streams|)
    ensures Clean(g, s, c) && FedEnough(s)
  {
    hide Tags;
    forall i | 0 <= i < |streams|
      ensures CleanAntenna(g, s.ants[i], c) && |s.ants[i].src.popped| > 0
    {
    }
    MaxIsLargest(Firsts(s));
    forall i | 0 <= i < |streams|
      ensures |s.ants[i].fed| >= Lag(Firsts(s), i) + 16
    {
      WholeStream(g, streams[i]);
      var m :| 0 <= m < |streams| && Firsts(s)[m] == Max(Firsts(s));
      assert streams[m][0].ts <= LastTs(streams[i]);
    }
  }

  /** Any number of sources with clean streams that reach the largest first timestamp can be synchronized:
      some schedule hands the streams over, latches, and forwards 16 items of every antenna. */
  lemma SomeRunLatches(g: Geometry, lane: Lane, streams: seq<seq<Packet>>, c: nat) returns (steps: seq<Step>)
    requires CleanStreams(g, streams, c)
    ensures var s := Exec(g, lane, |streams|, steps);
            && Clean(g, s, c) && s.latched && Started(s)
            && forall i :: 0 <= i < |streams| ==> Firsts(s)[i] == streams[i][0].ts && |s.ants[i].out| == 16
  {
    hide Exec, Clean, FedEnough;
    var n := |streams|;
    var feed := FeedStreams(g, lane, streams, c, n);
    FedStreams(g, Exec(g, lane, n, feed), streams, c);
    var more := LatchesFromHere(g, lane, n, feed, c);
    steps := feed + more;
  }
}
