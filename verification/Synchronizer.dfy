/** The SNAP synchronizer: lagging streams are dropped forward until all heads carry the same
    timestamp, then every stream is forwarded in lock step. */
module Synchronizer {
  import opened Reassembly
  import opened Streams

  function Max(ts: seq<nat>): nat
    requires |ts| > 0
  {
    if |ts| == 1 then ts[0]
    else
      var m := Max(ts[..|ts| - 1]);
      if ts[|ts| - 1] > m then ts[|ts| - 1] else m
  }

  /** Max is the largest element. */
  lemma {:induction false} MaxIsLargest(ts: seq<nat>)
    requires |ts| > 0
    ensures forall i :: 0 <= i < |ts| ==> ts[i] <= Max(ts)
    ensures exists i :: 0 <= i < |ts| && ts[i] == Max(ts)
  {
    if |ts| == 1 {
      assert ts[0] == Max(ts);
    } else {
      var init := ts[..|ts| - 1];
      MaxIsLargest(init);
      var i :| 0 <= i < |init| && init[i] == Max(init);
      assert ts[if ts[|ts| - 1] > init[i] then |ts| - 1 else i] == Max(ts);
    }
  }

  ghost predicate AllEqual(ts: seq<nat>) { forall i :: 0 <= i < |ts| ==> ts[i] == ts[0] }

  lemma OneMoreHead(ts: seq<nat>, t: nat)
    ensures |ts| == 0 ==> Max(ts + [t]) == t && AllEqual(ts + [t])
    ensures |ts| > 0 ==> Max(ts + [t]) == if t > Max(ts) then t else Max(ts)
    ensures |ts| > 0 ==> (AllEqual(ts + [t]) <==> AllEqual(ts) && t == ts[0])
  {
    var all := ts + [t];
    assert all[..|all| - 1] == ts && all[|ts|] == t;
    assert forall i :: 0 <= i < |ts| ==> all[i] == ts[i];
  }

  predicate Tagged(inputs: seq<seq<Item>>)
  {
    forall i :: 0 <= i < |inputs| ==> |inputs[i]| > 0 && inputs[i][0].tag.Stamp?
  }

  // The tags of the items at the head of every input.
  function Heads(inputs: seq<seq<Item>>): (ts: seq<nat>)
    requires Tagged(inputs)
    ensures |ts| == |inputs|
  {
    seq(|inputs|, i requires 0 <= i < |inputs| => inputs[i][0].tag.ts)
  }

  // How many items an unsynchronized call drops from an input.
  function Dropped(heads: seq<nat>, i: nat, noutput: nat): nat
    requires i < |heads|
  {
    MaxIsLargest(heads);
    Min(Max(heads) - heads[i], noutput)
  }

  /** What one call of general_work does: whether the inputs are synchronized afterwards, the items
      taken off each input, how many of them are forwarded, and the sync message. */
  datatype Decision = Decision(latched: bool, consumed: seq<nat>, forwarded: nat, message: Tag)

  // The heads only matter as long as the inputs are not synchronized.
  ghost function Decide(n: nat, heads: seq<nat>, latched: bool, noutput: nat): (d: Decision)
    requires n > 0 && (!latched ==> |heads| == n)
    ensures |d.consumed| == n && d.forwarded <= noutput
    ensures forall i :: 0 <= i < n ==> d.forwarded <= d.consumed[i] <= noutput
  {
    if latched then Decision(true, seq(n, i => noutput), noutput, NoTag)
    else if AllEqual(heads) then Decision(true, seq(n, i => noutput), noutput, Stamp(Max(heads)))
    else Decision(false, seq(n, i requires 0 <= i < n => Dropped(heads, i, noutput)), 0, NoTag)
  }

  // A tag put on an output, at an absolute item offset.
  datatype OutTag = OutTag(offset: nat, ts: nat)

  // The tags copied for the items of a window: the j-th tag found is put at offset j.
  function CopiedTags(window: seq<Item>): (tags: seq<OutTag>)
    ensures |tags| == |TagPlaces(window)|
  {
    if |window| == 0 then []
    else
      var tags, last := CopiedTags(window[..|window| - 1]), window[|window| - 1];
      if last.tag.Stamp? then tags + [OutTag(|tags|, last.tag.ts)] else tags
  }

  // Which items of the window are tagged.
  function TagPlaces(window: seq<Item>): seq<nat>
  {
    if |window| == 0 then []
    else
      var places := TagPlaces(window[..|window| - 1]);
      if window[|window| - 1].tag.Stamp? then places + [|window| - 1] else places
  }

  lemma {:induction false} PlacesOfTags(window: seq<Item>, j: nat)
    requires j < |TagPlaces(window)|
    ensures var m := TagPlaces(window)[j];
            && j <= m < |window| && window[m].tag.Stamp?
            && CopiedTags(window)[j] == OutTag(j, window[m].tag.ts)
    ensures forall i :: 0 <= i < j ==> TagPlaces(window)[i] < TagPlaces(window)[j]
  {
    var init := window[..|window| - 1];
    if j < |TagPlaces(init)| {
      PlacesOfTags(init, j);
    } else {
      forall i | 0 <= i < j
        ensures TagPlaces(init)[i] < |init|
      {
        PlacesOfTags(init, i);
      }
      PlacesUpTo(init);
    }
  }

  lemma {:induction false} PlacesUpTo(window: seq<Item>)
    ensures |TagPlaces(window)| <= |window|
  {
    if |window| == 0 {
    } else {
      PlacesUpTo(window[..|window| - 1]);
    }
  }

  lemma {:induction false} PrefixPlaces(window: seq<Item>, n: nat)
    requires n <= |window|
    requires forall i :: 0 <= i < |window| ==> (window[i].tag.Stamp? <==> i < n)
    ensures |TagPlaces(window)| == n && forall j :: 0 <= j < n ==> TagPlaces(window)[j] == j
  {
    if |window| == 0 {
    } else {
      PrefixPlaces(window[..|window| - 1], if n < |window| then n else n - 1);
    }
  }

  // Every copied tag is at the offset at which its item is written.
  ghost predicate CopiedInPlace(window: seq<Item>, written: nat)
  {
    forall j :: 0 <= j < |TagPlaces(window)| ==> CopiedTags(window)[j].offset == written + TagPlaces(window)[j]
  }

  lemma {:induction false} AllPlaces(window: seq<Item>, m: nat)
    requires m < |window| && window[m].tag.Stamp?
    ensures m in TagPlaces(window)
  {
    if m < |window| - 1 {
      AllPlaces(window[..|window| - 1], m);
    } else {
    }
  }

  /** The copied tags stay with their items if and only if there are none, or nothing was written
      before and the tagged items come first. */
  lemma CopiedInPlaceIff(window: seq<Item>, written: nat)
    ensures CopiedInPlace(window, written) <==>
            || TagPlaces(window) == []
            || (written == 0 && forall i, j :: 0 <= i < j < |window| && window[j].tag.Stamp? ==> window[i].tag.Stamp?)
  {
    if CopiedInPlace(window, written) && TagPlaces(window) != [] {
      forall i, j | 0 <= i < j < |window| && window[j].tag.Stamp?
        ensures written == 0 && window[i].tag.Stamp?
      {
        AllPlaces(window, j);
        var k: nat :| k < |TagPlaces(window)| && TagPlaces(window)[k] == j;
        PlacesOfTags(window, k);
        PlacesOfTags(window, i);
      }
      PlacesOfTags(window, 0);
    }
    if written == 0 && forall i, j :: 0 <= i < j < |window| && window[j].tag.Stamp? ==> window[i].tag.Stamp? {
      var n := TaggedPrefix(window);
      PrefixPlaces(window, n);
      forall j | 0 <= j < n
        ensures CopiedTags(window)[j].offset == TagPlaces(window)[j]
      {
        PlacesOfTags(window, j);
      }
    }
  }

  /** In the second window of 16 tagged items the tags land at offsets 0 to 15, not 16 to 31. */
  lemma MisplacedTagsAt()
    ensures var window := seq(16, i => Item([], Stamp(32)));
            && |CopiedTags(window)| == 16 && !CopiedInPlace(window, 16)
            && forall j :: 0 <= j < 16 ==> CopiedTags(window)[j] == OutTag(j, 32) && TagPlaces(window)[j] == j
  {
    var window := seq(16, i => Item([], Stamp(32)));
    PrefixPlaces(window, 16);
    forall j | 0 <= j < 16
      ensures CopiedTags(window)[j] == OutTag(j, 32)
    {
      PlacesOfTags(window, j);
    }
    CopiedInPlaceIff(window, 16);
  }

  lemma {:induction false} TaggedPrefix(window: seq<Item>) returns (n: nat)
    requires forall i, j :: 0 <= i < j < |window| && window[j].tag.Stamp? ==> window[i].tag.Stamp?
    ensures n <= |window| && forall i :: 0 <= i < |window| ==> (window[i].tag.Stamp? <==> i < n)
  {
    if |window| == 0 {
      n := 0;
    } else if window[|window| - 1].tag.Stamp? {
      n := |window|;
    } else {
      n := TaggedPrefix(window[..|window| - 1]);
    }
  }

  class SnapSynchronizer {
    const numInputs: nat
    const tagList: array<nat>
    var synchronized: bool

    ghost predicate Valid()
      reads this
    {
      tagList.Length == numInputs > 0
    }

    constructor (numInputs: nat)
      requires numInputs > 0
      ensures Valid() && fresh(tagList) && !synchronized && this.numInputs == numInputs
    {
      this.numInputs := numInputs;
      tagList := new nat[numInputs];
      synchronized := false;
    }

    /** The inputs hold at least `noutput` items each, which is what forecast asks of the
        scheduler. `consumed` are the items taken off each input, `message` the sync message. */
    method GeneralWork(noutput: nat, inputs: seq<seq<Item>>)
      returns (produced: nat, outputs: seq<seq<Vec>>, tags: seq<seq<OutTag>>, consumed: seq<nat>, message: Tag)
      requires Valid() && |inputs| == numInputs && noutput > 0
      requires forall i :: 0 <= i < numInputs ==> noutput <= |inputs[i]|
      requires !synchronized ==> Tagged(inputs)
      modifies this, tagList
      ensures Valid()
      ensures Decision(synchronized, consumed, produced, message) ==
              Decide(numInputs, if old(synchronized) then [] else Heads(inputs), old(synchronized), noutput)
      ensures synchronized ==> produced == noutput && forall i :: 0 <= i < numInputs ==> consumed[i] == noutput
      ensures synchronized <==> old(synchronized) || AllEqual(Heads(inputs))
      ensures !synchronized ==> produced == 0
      ensures |outputs| == |tags| == numInputs
      ensures forall i :: 0 <= i < numInputs ==>
                outputs[i] == Vecs(inputs[i][..produced]) && tags[i] == CopiedTags(inputs[i][..produced])
    {
      if synchronized {
        outputs, tags := Forward(noutput, inputs);
        return noutput, outputs, tags, seq(numInputs, i => noutput), NoTag;
      }
      var highestTag, testSync := ReadHeads(inputs);
      if testSync {
        synchronized := true;
        outputs, tags := Forward(noutput, inputs);
        return noutput, outputs, tags, seq(numInputs, i => noutput), Stamp(highestTag);
      }
      consumed := Drop(noutput, highestTag, Heads(inputs));
      return 0, seq(numInputs, i => []), seq(numInputs, i => []), consumed, NoTag;
    }

    // Finds the highest head tag, and whether all head tags are the same.
    method ReadHeads(inputs: seq<seq<Item>>) returns (highestTag: nat, testSync: bool)
      requires Valid() && |inputs| == numInputs && Tagged(inputs)
      modifies tagList
      ensures tagList[..] == Heads(inputs)
      ensures highestTag == Max(Heads(inputs))
      ensures testSync <==> AllEqual(Heads(inputs))
    {
      ghost var heads := Heads(inputs);
      var firstTag := 0;
      highestTag, testSync := 0, true;
      for cur := 0 to numInputs
        invariant tagList[..cur] == heads[..cur]
        invariant if cur == 0 then highestTag == 0 else firstTag == heads[0] && highestTag == Max(heads[..cur])
        invariant testSync <==> AllEqual(heads[..cur])
      {
        var tag0 := inputs[cur][0].tag.ts;
        if cur == 0 {
          firstTag := tag0;
        } else if tag0 != firstTag {
          testSync := false;
        }
        tagList[cur] := tag0;
        OneMoreHead(heads[..cur], tag0);
        assert heads[..cur + 1] == heads[..cur] + [tag0];
        if tag0 > highestTag {
          highestTag := tag0;
        }
      }
      assert heads[..numInputs] == heads;
    }

    // Drops lagging items, at most `noutput` per input.
    method Drop(noutput: nat, highestTag: nat, ghost heads: seq<nat>) returns (consumed: seq<nat>)
      requires Valid() && |heads| == numInputs
      requires tagList[..] == heads && highestTag == Max(heads)
      ensures |consumed| == numInputs
      ensures forall i :: 0 <= i < numInputs ==> consumed[i] == Dropped(heads, i, noutput)
    {
      MaxIsLargest(heads);
      consumed := [];
      for cur := 0 to numInputs
        invariant |consumed| == cur
        invariant forall i :: 0 <= i < cur ==> consumed[i] == Dropped(heads, i, noutput)
      {
        assert tagList[cur] == heads[cur];
        var itemsToConsume := highestTag - tagList[cur];
        if itemsToConsume > noutput {
          itemsToConsume := noutput;
        }
        consumed := consumed + [itemsToConsume];
      }
    }

    // Copies the first `noutput` items of every input to its output, and the tags on them.
    method Forward(noutput: nat, inputs: seq<seq<Item>>) returns (outputs: seq<seq<Vec>>, tags: seq<seq<OutTag>>)
      requires |inputs| == numInputs && forall i :: 0 <= i < numInputs ==> noutput <= |inputs[i]|
      ensures |outputs| == |tags| == numInputs
      ensures forall i :: 0 <= i < numInputs ==>
                outputs[i] == Vecs(inputs[i][..noutput]) && tags[i] == CopiedTags(inputs[i][..noutput])
    {
      outputs, tags := [], [];
      for cur := 0 to numInputs
        invariant |outputs| == |tags| == cur
        invariant forall i :: 0 <= i < cur ==>
                    outputs[i] == Vecs(inputs[i][..noutput]) && tags[i] == CopiedTags(inputs[i][..noutput])
      {
        outputs := outputs + [Vecs(inputs[cur][..noutput])];
        var copied := CopyTags(inputs[cur][..noutput]);
        tags := tags + [copied];
      }
    }

    // get_tags_in_window and the loop over what it finds.
    method CopyTags(window: seq<Item>) returns (tags: seq<OutTag>)
      ensures tags == CopiedTags(window)
    {
      tags := [];
      for i := 0 to |window|
        invariant tags == CopiedTags(window[..i])
      {
        assert window[..i + 1][..i] == window[..i];
        if window[i].tag.Stamp? {
          tags := tags + [OutTag(|tags|, window[i].tag.ts)];
        }
      }
      assert window[..|window|] == window;
    }
  }
}
