/** Tagged item streams between the source and the synchronizer. */
module Streams {
  import opened Reassembly

  datatype Tag = NoTag | Stamp(ts: nat)

  // One item of an output stream: a vector and its sample-number tag.
  datatype Item = Item(vec: Vec, tag: Tag)

  function Min(a: int, b: int): int { if a <= b then a else b }

  function Items(vecs: seq<Vec>, tags: seq<Tag>): (items: seq<Item>)
    requires |vecs| == |tags|
    ensures |items| == |vecs| && Vecs(items) == vecs && TagsOf(items) == tags
  {
    seq(|vecs|, k requires 0 <= k < |vecs| => Item(vecs[k], tags[k]))
  }

  function Vecs(items: seq<Item>): (vecs: seq<Vec>)
    ensures |vecs| == |items|
  {
    seq(|items|, k requires 0 <= k < |items| => items[k].vec)
  }

  function TagsOf(items: seq<Item>): (tags: seq<Tag>)
    ensures |tags| == |items|
  {
    seq(|items|, k requires 0 <= k < |items| => items[k].tag)
  }

  function Stamps(tags: seq<nat>): (r: seq<Tag>)
    ensures |r| == |tags|
  {
    seq(|tags|, k requires 0 <= k < |tags| => Stamp(tags[k]))
  }

  function NoTags(n: nat): (r: seq<Tag>)
    ensures |r| == n
  {
    seq(n, k => NoTag)
  }

  lemma Joined(a: seq<Item>, b: seq<Item>)
    ensures Vecs(a + b) == Vecs(a) + Vecs(b) && TagsOf(a + b) == TagsOf(a) + TagsOf(b)
  {
  }
}
