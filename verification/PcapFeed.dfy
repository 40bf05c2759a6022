/** Reading packets from a capture file: alignment on the start channel, the channel filter, and the
    bounded refill that never overwrites a packet. */
module PcapFeed {
  import opened SnapFormat
  import opened NetRing

  // One capture record: a UDP packet of the right port and length, or anything else.
  datatype Record = Other | Match(p: Packet)

  function Matches(recs: seq<Record>): (ps: seq<Packet>)
    ensures |ps| <= |recs|
  {
    if |recs| == 0 then []
    else
      Matches(recs[..|recs| - 1])
      + match recs[|recs| - 1]
        case Other => []
        case Match(p) => [p]
  }

  predicate HasStart(g: Geometry, ps: seq<Packet>) { exists p :: p in ps && p.chan == g.start }

  // The packets from the first one of the start channel onward.
  function FromStart(g: Geometry, ps: seq<Packet>): seq<Packet>
  {
    if |ps| == 0 || ps[0].chan == g.start then ps else FromStart(g, ps[1..])
  }

  // The packets of the configured channels, in order.
  function InRange(g: Geometry, ps: seq<Packet>): seq<Packet>
  {
    if |ps| == 0 then []
    else
      var p := ps[|ps| - 1];
      InRange(g, ps[..|ps| - 1]) + if Accepted(g, p) then [p] else []
  }

  function AcceptedStream(g: Geometry, recs: seq<Record>): seq<Packet>
  {
    InRange(g, FromStart(g, Matches(recs)))
  }

  lemma {:induction false} FromStartAppend(g: Geometry, ps: seq<Packet>, p: Packet)
    ensures FromStart(g, ps + [p]) ==
            if HasStart(g, ps) then FromStart(g, ps) + [p] else if p.chan == g.start then [p] else []
    ensures !HasStart(g, ps) ==> FromStart(g, ps) == []
  {
    if |ps| == 0 {
      assert ps + [p] == [p];
    } else {
      assert ps == [ps[0]] + ps[1..];
      if ps[0].chan != g.start {
        assert (ps + [p])[1..] == ps[1..] + [p];
        FromStartAppend(g, ps[1..], p);
        assert HasStart(g, ps) <==> HasStart(g, ps[1..]);
      }
    }
  }

  /** One more record, by what the reader knows: whether it is already aligned. */
  lemma NextRecord(g: Geometry, recs: seq<Record>, rec: Record)
    ensures var aligned := HasStart(g, Matches(recs));
            && Matches(recs + [rec]) == Matches(recs) + (if rec.Match? then [rec.p] else [])
            && HasStart(g, Matches(recs + [rec])) == (aligned || (rec.Match? && rec.p.chan == g.start))
            && AcceptedStream(g, recs + [rec]) ==
               AcceptedStream(g, recs)
               + if rec.Match? && (aligned || rec.p.chan == g.start) && Accepted(g, rec.p) then [rec.p] else []
  {
    assert (recs + [rec])[..|recs|] == recs;
    var ms := Matches(recs);
    if rec.Match? {
      var p := rec.p;
      assert HasStart(g, ms + [p]) <==> HasStart(g, ms) || p.chan == g.start;
      FromStartAppend(g, ms, p);
      var from := FromStart(g, ms);
      assert (from + [p])[..|from|] == from;
      if !HasStart(g, ms) && p.chan == g.start {
        assert InRange(g, [p]) == InRange(g, []) + [p];
      }
    } else {
      assert ms + [] == ms;
    }
  }

  // The records of n passes over a file.
  function Passes(file: seq<Record>, n: nat): seq<Record>
  {
    if n == 0 then [] else Passes(file, n - 1) + file
  }

  /** Once aligned the reader stays aligned: of further records all packets in range are accepted. */
  lemma {:induction false} StaysAligned(g: Geometry, recs: seq<Record>, more: seq<Record>)
    requires HasStart(g, Matches(recs))
    ensures HasStart(g, Matches(recs + more))
    ensures AcceptedStream(g, recs + more) == AcceptedStream(g, recs) + InRange(g, Matches(more))
  {
    hide HasStart, AcceptedStream, Matches, InRange;
    if |more| == 0 {
      assert recs + more == recs && more == [];
      NothingInRange(g);
    } else {
      var init, rec := more[..|more| - 1], more[|more| - 1];
      assert recs + more == recs + init + [rec] && more == init + [rec];
      StaysAligned(g, recs, init);
      NextRecord(g, recs + init, rec);
      InRangeMore(g, init, rec);
    }
  }

  lemma NothingInRange(g: Geometry)
    ensures InRange(g, Matches([])) == []
  {
  }

  lemma InRangeMore(g: Geometry, recs: seq<Record>, rec: Record)
    ensures InRange(g, Matches(recs + [rec])) ==
            InRange(g, Matches(recs)) + if rec.Match? && Accepted(g, rec.p) then [rec.p] else []
  {
    assert (recs + [rec])[..|recs|] == recs;
    var ms := Matches(recs);
    if rec.Match? {
      assert (ms + [rec.p])[..|ms|] == ms;
    } else {
      assert ms + [] == ms;
    }
  }

  /** Repeating a file: the first pass delivers from the start channel on, every later pass all packets
      in range. */
  lemma {:induction false} EveryPass(g: Geometry, file: seq<Record>, n: nat)
    requires n > 0 && HasStart(g, Matches(file))
    ensures HasStart(g, Matches(Passes(file, n)))
    ensures AcceptedStream(g, Passes(file, n)) == AcceptedStream(g, file) + Copies(InRange(g, Matches(file)), n - 1)
  {
    hide HasStart, AcceptedStream, Matches, InRange;
    if n == 1 {
      assert Passes(file, 1) == Passes(file, 0) + file == file;
    } else {
      hide Passes;
      NextPass(file, n);
      EveryPass(g, file, n - 1);
      StaysAligned(g, Passes(file, n - 1), file);
    }
  }

  lemma NextPass(file: seq<Record>, n: nat)
    requires n > 0
    ensures Passes(file, n) == Passes(file, n - 1) + file
  {
  }

  function Copies(ps: seq<Packet>, n: nat): seq<Packet>
  {
    if n == 0 then [] else Copies(ps, n - 1) + ps
  }

  // How many packets the consumer takes just before the k-th record is read.
  function Wanted(takes: seq<nat>, k: nat): nat
  {
    if k < |takes| then takes[k] else 0
  }

  class PcapReader {
    const g: Geometry
    const file: seq<Record>
    const repeatFile: bool
    const minQueueSize: nat
    const reloadSize: nat
    var pos: nat
    var foundStartChannel: bool
    var fileDone: bool
    var ring: seq<Packet>
    // History: complete passes over the file, every record read, every packet pushed on the ring, and
    // every packet taken off it.
    ghost var passes: nat
    ghost var read: seq<Record>
    ghost var pushed: seq<Packet>
    ghost var popped: seq<Packet>

    // All packets read that are to be delivered were pushed, and none was lost.
    ghost predicate Valid()
      reads this
    {
      && minQueueSize == 16 * g.blocks && reloadSize == 4 * minQueueSize
      && pos <= |file| && read == Passes(file, passes) + file[..pos]
      && foundStartChannel == HasStart(g, Matches(read))
      && pushed == AcceptedStream(g, read)
      && popped + ring == pushed
      && |ring| <= 5 * minQueueSize - 1
      && (if repeatFile then !fileDone else passes == 0 && (fileDone ==> pos == |file|))
    }

    constructor (g: Geometry, file: seq<Record>, repeatFile: bool)
      ensures Valid() && this.g == g && this.file == file && this.repeatFile == repeatFile
      ensures read == [] && ring == [] && !fileDone
      ensures 16 * minQueueSize == LastChannel(g) + 256 - g.start && 4 * reloadSize == LastChannel(g) + 256 - g.start
    {
      this.repeatFile := repeatFile;
      this.g := g;
      this.file := file;
      minQueueSize := g.blocks * 16;
      reloadSize := g.blocks * 16 * 4;
      pos, foundStartChannel, fileDone := 0, false, false;
      ring, passes, read, pushed, popped := [], 0, [], [], [];
    }

    /** The largest ring a refill can leave is far below the ring's capacity, for every geometry. */
    lemma RingNeverFull()
      requires Valid()
      ensures |ring| <= 20479 < MAX_NET_CIRC_BUFFER == 1000000
    {
    }

    /** The consumer takes one packet, in the order of the file. */
    method Take() returns (p: Packet)
      requires Valid() && |ring| > 0
      modifies this`ring, this`popped
      ensures Valid() && popped == old(popped) + [p] && |ring| == old(|ring|) - 1
      ensures popped <= AcceptedStream(g, read)
    {
      assert popped + ring == (popped + [ring[0]]) + ring[1..];
      p := ring[0];
      ring := ring[1..];
      popped := popped + [p];
    }

    method TakeUpTo(n: nat)
      requires Valid()
      modifies this`ring, this`popped
      ensures Valid() && |ring| == if n <= old(|ring|) then old(|ring|) - n else 0
    {
      var left: nat := n;
      while left > 0 && |ring| > 0
        invariant Valid() && left + old(|ring|) == n + |ring|
      {
        var _ := Take();
        left := left - 1;
      }
    }

    /** queue_pcap_data: refills a ring that has run low, reading at most `reloadSize` matches. The
        consumer may take packets before any record is read, as `takes` says. A file that is to be
        repeated is reopened when its end is reached. */
    method QueuePcapData(takes: seq<nat>)
      requires Valid()
      modifies this
      ensures Valid() && old(read) <= read
      ensures old(|ring|) >= minQueueSize ==> read == old(read) && ring == old(ring) && fileDone == old(fileDone)
      ensures old(|ring|) < minQueueSize ==>
                var matching := |Matches(read[|old(read)|..])|;
                && matching <= reloadSize
                && (|Matches(file[old(pos)..])| >= 64 * g.blocks ==> matching == 64 * g.blocks)
                && (matching == reloadSize ==> passes == old(passes) && fileDone == old(fileDone))
                && (matching < reloadSize ==>
                      read == Passes(file, old(passes)) + file
                      && if repeatFile then passes == old(passes) + 1 && pos == 0 else fileDone)
    {
      hide AcceptedStream, HasStart, Matches;
      if |ring| < minQueueSize {
        var matchingPackets := ReadMatches(takes);
        if matchingPackets < reloadSize {
          assert file[old(pos)..pos] == file[old(pos)..];
          AtEnd();
        }
      }
    }

    // The reading loop: up to `reloadSize` matches, or the end of the file.
    method ReadMatches(takes: seq<nat>) returns (matchingPackets: nat)
      requires Valid() && |ring| < minQueueSize
      modifies this`pos, this`foundStartChannel, this`ring, this`pushed, this`popped, this`read
      ensures Valid() && old(read) <= read
      ensures matchingPackets == |Matches(read[|old(read)|..])| <= reloadSize
      ensures read[|old(read)|..] == file[old(pos)..pos] && old(pos) <= pos
      ensures matchingPackets < reloadSize ==> pos == |file|
    {
      hide AcceptedStream, HasStart, Passes;
      matchingPackets := 0;
      var turn := 0;
      ghost var start, was := pos, read;
      NothingRead(file, start, was);
      assert |ring| + reloadSize <= 5 * minQueueSize - 1;
      hide Matches, Valid;
      while matchingPackets < reloadSize && pos < |file|
        invariant Valid() && start == old(pos) <= pos <= |file| && read == was + file[start..pos]
        invariant matchingPackets == |Matches(file[start..pos])| <= reloadSize
        invariant |ring| + reloadSize <= 5 * minQueueSize - 1 + matchingPackets
        decreases |file| - pos
      {
        CountMatch(was, file, start, pos);
        ghost var next := pos + 1;
        var matched := ReadTurn(Wanted(takes, turn));
        assert pos == next;
        if matched {
          matchingPackets := matchingPackets + 1;
        }
        turn := turn + 1;
      }
      Suffix(was, file[start..pos]);
    }

    // One turn of the reading loop: the consumer takes up to n packets, then one record is read.
    method ReadTurn(n: nat) returns (matched: bool)
      requires Valid() && pos < |file| && |ring| < 5 * minQueueSize - 1
      modifies this`pos, this`foundStartChannel, this`ring, this`pushed, this`popped, this`read
      ensures Valid() && pos == old(pos) + 1 && read == old(read) + [file[old(pos)]]
      ensures matched == file[old(pos)].Match?
      ensures |ring| <= old(|ring|) + (if matched then 1 else 0)
    {
      hide AcceptedStream, HasStart, Passes, Matches;
      TakeUpTo(n);
      matched := file[pos].Match?;
      ReadRecord();
    }

    // The end of the file: it is opened again or done.
    method AtEnd()
      requires Valid() && pos == |file|
      modifies this`pos, this`fileDone, this`passes
      ensures Valid() && read == Passes(file, old(passes)) + file
      ensures if repeatFile then passes == old(passes) + 1 && pos == 0 else fileDone && passes == old(passes)
    {
      assert file[..|file|] == file;
      if repeatFile {
        pos := 0;
        passes := passes + 1;
      } else {
        fileDone := true;
      }
    }

    // Reads one record and queues its packet if it is to be delivered.
    method ReadRecord()
      requires Valid() && pos < |file| && |ring| < 5 * minQueueSize - 1
      modifies this`pos, this`foundStartChannel, this`ring, this`pushed, this`read
      ensures Valid() && pos == old(pos) + 1 && read == old(read) + [file[old(pos)]]
      ensures |ring| <= old(|ring|) + (if file[old(pos)].Match? then 1 else 0)
    {
      hide AcceptedStream, HasStart, Matches, Passes;
      var rec := file[pos];
      NextRecord(g, read, rec);
      assert Passes(file, passes) + file[..pos + 1] == read + [rec];
      pos := pos + 1;
      read := read + [rec];
      if rec.Match? {
        var aligned := foundStartChannel;
        if !aligned {
          aligned := Synchronize(rec.p);
        }
        if aligned && Accepted(g, rec.p) {
          assert popped + (ring + [rec.p]) == (popped + ring) + [rec.p];
          ring := RingPush(ring, rec.p);
          pushed := pushed + [rec.p];
        }
      }
    }

    // voltage_synchronize: aligned from the first packet of the start channel on.
    method Synchronize(p: Packet) returns (aligned: bool)
      requires !foundStartChannel
      modifies this`foundStartChannel
      ensures aligned == foundStartChannel == (p.chan == g.start)
    {
      if p.chan == g.start {
        foundStartChannel := true;
        return true;
      }
      return false;
    }

    /** When the file is read and the ring is empty, exactly the accepted packets were delivered. */
    lemma WholeFileDelivered()
      requires Valid() && fileDone && ring == []
      ensures popped == AcceptedStream(g, file)
    {
      assert Passes(file, 0) + file[..|file|] == file;
    }
  }

  lemma Suffix<T>(a: seq<T>, b: seq<T>)
    ensures a <= a + b && (a + b)[|a|..] == b
  {
  }

  lemma NothingRead(file: seq<Record>, start: nat, was: seq<Record>)
    requires start <= |file|
    ensures was + file[start..start] == was && Matches(file[start..start]) == []
  {
  }

  lemma CountMatch(was: seq<Record>, file: seq<Record>, start: nat, pos: nat)
    requires start <= pos < |file|
    ensures was + file[start..pos] + [file[pos]] == was + file[start..pos + 1]
    ensures |Matches(file[start..pos + 1])| == |Matches(file[start..pos])| + if file[pos].Match? then 1 else 0
  {
    assert file[start..pos + 1] == file[start..pos] + [file[pos]];
    assert file[start..pos + 1][..pos - start] == file[start..pos];
  }
}
