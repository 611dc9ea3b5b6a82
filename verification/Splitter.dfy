/** The callback-polling transport cuts the messages of an envelope into chunks whose URLs stay short. */
module Splitter {
  import opened Views

  /** Length of the URL that carries the given messages, the envelope's own URL included. */
  type UrlLength = seq<string> -> nat

  function Sum(lengths: seq<nat>): nat {
    if lengths == [] then 0 else Sum(lengths[..|lengths| - 1]) + lengths[|lengths| - 1]
  }

  function Slice(messages: seq<string>, start: nat, l: nat): seq<string>
    requires start + l <= |messages|
  {
    messages[start..start + l]
  }

  ghost predicate NoLonger(size: UrlLength, max: nat, messages: seq<string>, start: nat, length: nat) {
    forall l :: length < l && start + l <= |messages| ==> size(Slice(messages, start, l)) > max
  }

  /** A chunk of the given length at start: it fits, and no longer one does. */
  ghost predicate LongestFit(size: UrlLength, max: nat, messages: seq<string>, start: nat, length: nat) {
    && 0 < length && start + length <= |messages|
    && size(Slice(messages, start, length)) <= max
    && NoLonger(size, max, messages, start, length)
  }

  /** Consecutive longest-fitting chunks. */
  ghost predicate Greedy(size: UrlLength, max: nat, messages: seq<string>, lengths: seq<nat>) {
    forall i :: 0 <= i < |lengths| ==> LongestFit(size, max, messages, Sum(lengths[..i]), lengths[i])
  }

  ghost predicate TooBig(size: UrlLength, max: nat, messages: seq<string>, k: nat) {
    k < |messages| && size(Slice(messages, k, 1)) > max
  }

  /** The lengths of the chunks, or None and the message that is too big by itself. */
  method Split(size: UrlLength, max: nat, messages: seq<string>) returns (r: Option<seq<nat>>, ghost culprit: nat)
    ensures r.Some? ==> Greedy(size, max, messages, r.value) && Sum(r.value) == |messages|
    ensures r.None? ==> TooBig(size, max, messages, culprit)
    ensures Monotone(size, messages) ==> (r.None? <==> exists k :: TooBig(size, max, messages, k))
  {
    var start, length := 0, |messages|;
    var lengths: seq<nat> := [];
    culprit := 0;
    while length > 0
      invariant 0 <= length <= |messages| - start && start == Sum(lengths)
      invariant length == 0 ==> start == |messages|
      invariant Greedy(size, max, messages, lengths)
      invariant NoLonger(size, max, messages, start, length)
      decreases |messages| - start, length
    {
      if size(Slice(messages, start, length)) > max {
        if length == 1 {
          culprit := start;
          assert TooBig(size, max, messages, culprit);
          return None, culprit;
        }
        length := length - 1;
        continue;
      }
      GreedyMore(size, max, messages, lengths, length);
      lengths := lengths + [length];
      start := start + length;
      length := |messages| - start;
    }
    r := Some(lengths);
    if Monotone(size, messages) {
      forall k: nat ensures !TooBig(size, max, messages, k) {
        SplitMeansAllFit(size, max, messages, lengths, k);
      }
    }
  }

  /** The messages of the envelopes that go out instead: the first chunk with the current request, the
    * others through `send`, in order. */
  method Divide(messages: seq<string>, lengths: seq<nat>) returns (chunks: seq<seq<string>>)
    requires Sum(lengths) == |messages| && lengths != []
    ensures chunks == Chunks(messages, lengths)
  {
    var begin := 0;
    var end := lengths[0];
    SumPrefix(lengths, 1);
    assert lengths[..1] == [lengths[0]] && [lengths[0]][..0] == [];
    assert Sum(lengths[..1]) == Sum([]) + lengths[0];
    assert Chunks(messages, lengths[..1]) == [] + [messages[0..end]];
    chunks := [messages[begin..end]];
    for i := 1 to |lengths|
      invariant end == Sum(lengths[..i]) && end <= |messages|
      invariant chunks == Chunks(messages, lengths[..i])
    {
      SumPrefix(lengths, i + 1);
      assert lengths[..i + 1][..i] == lengths[..i];
      begin := end;
      end := end + lengths[i];
      chunks := chunks + [messages[begin..end]];
    }
    assert lengths[..|lengths|] == lengths;
  }

  lemma {:induction false} SumPrefix(lengths: seq<nat>, i: nat)
    requires i <= |lengths|
    ensures Sum(lengths[..i]) <= Sum(lengths)
    decreases |lengths|
  {
    if i < |lengths| {
      SumPrefix(lengths[..|lengths| - 1], i);
      assert lengths[..|lengths| - 1][..i] == lengths[..i];
    } else {
      assert lengths[..i] == lengths;
    }
  }

  lemma GreedyMore(size: UrlLength, max: nat, messages: seq<string>, lengths: seq<nat>, length: nat)
    requires Greedy(size, max, messages, lengths) && LongestFit(size, max, messages, Sum(lengths), length)
    ensures Greedy(size, max, messages, lengths + [length]) && Sum(lengths + [length]) == Sum(lengths) + length
  {
    var more := lengths + [length];
    assert more[..|lengths|] == lengths;
    forall i | 0 <= i < |more|
      ensures LongestFit(size, max, messages, Sum(more[..i]), more[i])
    {
      assert i < |lengths| ==> more[..i] == lengths[..i];
    }
  }

  // ---------- what the chunks are ----------

  function Chunks(messages: seq<string>, lengths: seq<nat>): seq<seq<string>>
    requires Sum(lengths) <= |messages|
  {
    if lengths == [] then []
    else
      var before := lengths[..|lengths| - 1];
      Chunks(messages, before) + [messages[Sum(before)..Sum(lengths)]]
  }

  /** Chunk i has the length given for it and starts where those before it end. */
  lemma {:induction false} ChunkAt(messages: seq<string>, lengths: seq<nat>, i: nat)
    requires Sum(lengths) <= |messages| && i < |lengths|
    ensures |Chunks(messages, lengths)| == |lengths| && Sum(lengths[..i]) + lengths[i] <= |messages|
    ensures Chunks(messages, lengths)[i] == Slice(messages, Sum(lengths[..i]), lengths[i])
    decreases |lengths|
  {
    var before := lengths[..|lengths| - 1];
    if i < |before| {
      ChunkAt(messages, before, i);
      assert before[..i] == lengths[..i];
    } else {
      ChunkCount(messages, before);
    }
  }

  lemma {:induction false} ChunkCount(messages: seq<string>, lengths: seq<nat>)
    requires Sum(lengths) <= |messages|
    ensures |Chunks(messages, lengths)| == |lengths|
    decreases |lengths|
  {
    if lengths != [] { ChunkCount(messages, lengths[..|lengths| - 1]); }
  }

  /** So what a successful split sends stays within the URL limit, chunk by chunk, and no chunk is empty. */
  lemma ChunksFit(size: UrlLength, max: nat, messages: seq<string>, lengths: seq<nat>, i: nat)
    requires Greedy(size, max, messages, lengths) && Sum(lengths) == |messages| && i < |lengths|
    ensures |Chunks(messages, lengths)| == |lengths|
    ensures var chunk := Chunks(messages, lengths)[i]; chunk != [] && size(chunk) <= max
  {
    ChunkAt(messages, lengths, i);
    assert LongestFit(size, max, messages, Sum(lengths[..i]), lengths[i]);
  }

  function Flatten(chunks: seq<seq<string>>): seq<string> {
    if chunks == [] then [] else Flatten(chunks[..|chunks| - 1]) + chunks[|chunks| - 1]
  }

  /** Put together again, the chunks are the messages covered, in order. */
  lemma {:induction false} ChunksConcatenate(messages: seq<string>, lengths: seq<nat>)
    requires Sum(lengths) <= |messages|
    ensures Flatten(Chunks(messages, lengths)) == messages[..Sum(lengths)]
    decreases |lengths|
  {
    if lengths != [] {
      var before := lengths[..|lengths| - 1];
      ChunksConcatenate(messages, before);
      var chunks := Chunks(messages, lengths);
      assert chunks[..|chunks| - 1] == Chunks(messages, before);
    }
  }

  // ---------- when splitting fails ----------

  /** Fewer messages never make a longer URL. */
  ghost predicate Monotone(size: UrlLength, messages: seq<string>) {
    forall a: nat, m: nat, b: nat, n: nat :: a <= b && b + n <= a + m <= |messages| ==>
      size(Slice(messages, b, n)) <= size(Slice(messages, a, m))
  }

  lemma {:induction false} Covered(lengths: seq<nat>, k: nat) returns (i: nat)
    requires k < Sum(lengths)
    ensures i < |lengths| && Sum(lengths[..i]) <= k < Sum(lengths[..i]) + lengths[i]
    decreases |lengths|
  {
    var before := lengths[..|lengths| - 1];
    if k < Sum(before) {
      i := Covered(before, k);
      assert before[..i] == lengths[..i];
    } else {
      i := |lengths| - 1;
    }
  }

  /** For a monotone size: where a complete split exists, every single message fits. */
  lemma SplitMeansAllFit(size: UrlLength, max: nat, messages: seq<string>, lengths: seq<nat>, k: nat)
    requires Monotone(size, messages) && Greedy(size, max, messages, lengths) && Sum(lengths) == |messages|
    ensures !TooBig(size, max, messages, k)
  {
    if k < |messages| {
      var i := Covered(lengths, k);
      var start := Sum(lengths[..i]);
      assert LongestFit(size, max, messages, start, lengths[i]);
      assert size(Slice(messages, k, 1)) <= size(Slice(messages, start, lengths[i]));
    }
  }

  lemma SameChunk(size: UrlLength, max: nat, messages: seq<string>, start: nat, l: nat, m: nat)
    requires LongestFit(size, max, messages, start, l) && LongestFit(size, max, messages, start, m)
    ensures l == m
  {
  }

  /** The only greedy split of the messages: the chunk lengths are determined. */
  lemma {:induction false} GreedyUnique(size: UrlLength, max: nat, messages: seq<string>, a: seq<nat>,
      b: seq<nat>, i: nat)
    requires Greedy(size, max, messages, a) && Greedy(size, max, messages, b)
    requires i <= |a| && i <= |b|
    ensures a[..i] == b[..i]
  {
    hide LongestFit, Sum;
    if i > 0 {
      GreedyUnique(size, max, messages, a, b, i - 1);
      assert LongestFit(size, max, messages, Sum(a[..i - 1]), a[i - 1]);
      assert LongestFit(size, max, messages, Sum(b[..i - 1]), b[i - 1]);
      SameChunk(size, max, messages, Sum(a[..i - 1]), a[i - 1], b[i - 1]);
      assert a[..i] == a[..i - 1] + [a[i - 1]] && b[..i] == b[..i - 1] + [b[i - 1]];
    }
  }
}
