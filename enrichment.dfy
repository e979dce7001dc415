/** The two passes that build and rewrite the lecture text: the description
    pass sends image batches with the tags they must answer with and merges
    the parsed replies; the refinement pass cuts the tagged text into batches
    of at most ten slides, has each batch rewritten and splices the rewrite
    back. The language models are parameters. */
module Enrichment {
  import opened Text
  import opened Tags
  import opened Documents
  import opened Batching

  // ---------------------------------------------------------------------------
  // process_pdf_to_descriptions

  /** The arguments of `send_batch_request`: the batch's images, the number
      of its first slide, the previous reply as context, and whether this is
      the first batch. */
  datatype DescribeRequest<Image> = DescribeRequest(images: seq<Image>, startSlide: nat, context: string, isFirst: bool)

  /** `slide_tags`: the tags the request asks the reply to use, one per image. */
  function RequestTags<Image>(request: DescribeRequest<Image>): (tags: seq<string>)
    ensures |tags| == |request.images|
  {
    SlideTagList(request.startSlide, |request.images|)
  }

  /** `d.update(m)` for each dict `m` in order, starting from `{}`. */
  function MergeAll(ms: seq<map<nat, string>>): map<nat, string>
    decreases |ms|
  {
    if ms == [] then map[] else MergeAll(ms[..|ms| - 1]) + ms[|ms| - 1]
  }

  /** Each reply parsed by `process_response`. */
  function ParsedReplies(replies: seq<string>): (ms: seq<map<nat, string>>)
    ensures |ms| == |replies|
  {
    seq(|replies|, k requires 0 <= k < |replies| => ProcessResponse(replies[k]))
  }

  /** `all_descriptions` after `update(process_response(reply))` for each reply in order. */
  function Merged(replies: seq<string>): map<nat, string>
    decreases |replies|
  {
    if replies == [] then map[] else Merged(replies[..|replies| - 1]) + ProcessResponse(replies[|replies| - 1])
  }

  lemma MergedSnoc(replies: seq<string>, reply: string)
    ensures Merged(replies + [reply]) == Merged(replies) + ProcessResponse(reply)
  {
    assert (replies + [reply])[..|replies|] == replies;
  }

  /** Merging the replies is merging their parsed dicts. */
  lemma {:induction false} MergedIsMergeAll(replies: seq<string>)
    ensures Merged(replies) == MergeAll(ParsedReplies(replies))
    decreases |replies|
  {
    if replies != [] {
      var init := replies[..|replies| - 1];
      MergedIsMergeAll(init);
      var ms := ParsedReplies(replies);
      assert ms[..|ms| - 1] == ParsedReplies(init);
    }
  }

  /** Batch `k` of `plan` asked for its own images and the tags of its own
      slides, and only batch 0 was marked first. */
  ghost predicate Requested<Image>(images: seq<Image>, plan: seq<Range>, requests: seq<DescribeRequest<Image>>)
  {
    && |requests| <= |plan|
    && (forall k | 0 <= k < |requests| :: 1 <= plan[k].first <= plan[k].last <= |images|)
    && (forall k | 0 <= k < |requests| ::
         && requests[k].images == images[plan[k].first - 1..plan[k].last]
         && requests[k].startSlide == plan[k].first
         && requests[k].isFirst == (k == 0))
  }

  /** `previous_response_text` when batch `k` is sent: empty for the first batch. */
  function PreviousReply(replies: seq<string>, k: nat): string
    requires k <= |replies|
  {
    if k == 0 then "" else replies[k - 1]
  }

  /** Each request carries the previous reply as context, and each reply is
      `describe`'s answer to its request. */
  ghost predicate Chained<Image>(requests: seq<DescribeRequest<Image>>, replies: seq<string>,
                                 describe: DescribeRequest<Image> -> string)
  {
    && |requests| == |replies|
    && (forall k | 0 <= k < |requests| :: requests[k].context == PreviousReply(replies, k))
    && (forall k {:trigger requests[k]} | 0 <= k < |requests| :: replies[k] == describe(requests[k]))
  }

  lemma RequestedSnoc<Image>(images: seq<Image>, plan: seq<Range>, requests: seq<DescribeRequest<Image>>,
                             request: DescribeRequest<Image>)
    requires Requested(images, plan, requests) && |requests| < |plan|
    requires var r := plan[|requests|];
      && 1 <= r.first <= r.last <= |images|
      && request.images == images[r.first - 1..r.last]
      && request.startSlide == r.first
      && request.isFirst == (|requests| == 0)
    ensures Requested(images, plan, requests + [request])
  {
    var rs := requests + [request];
    assert forall k | 0 <= k < |requests| :: rs[k] == requests[k];
  }

  lemma ChainedSnoc<Image>(requests: seq<DescribeRequest<Image>>, replies: seq<string>,
                           describe: DescribeRequest<Image> -> string, request: DescribeRequest<Image>)
    requires Chained(requests, replies, describe)
    requires request.context == PreviousReply(replies, |replies|)
    ensures Chained(requests + [request], replies + [describe(request)], describe)
  {
    var rs, ps := requests + [request], replies + [describe(request)];
    assert forall k | 0 <= k < |requests| :: rs[k] == requests[k];
    assert forall k | 0 <= k < |replies| :: ps[k] == replies[k];
  }

  lemma ExchangeAt<Image>(images: seq<Image>, plan: seq<Range>, requests: seq<DescribeRequest<Image>>,
                          replies: seq<string>, describe: DescribeRequest<Image> -> string, k: nat)
    requires Requested(images, plan, requests) && Chained(requests, replies, describe)
    requires k < |requests|
    ensures 1 <= plan[k].first <= plan[k].last <= |images|
    ensures && requests[k].images == images[plan[k].first - 1..plan[k].last]
            && requests[k].startSlide == plan[k].first && RequestTags(requests[k]) == SlideTagList(plan[k].first, Count(plan[k]))
            && requests[k].isFirst == (k == 0)
            && requests[k].context == PreviousReply(replies, k)
            && replies[k] == describe(requests[k])
  {
  }

  /** The state of the description loop after `|replies|` batches, with the
      next batch starting after slide `i`. */
  ghost predicate Described<Image>(images: seq<Image>, size: nat, i: nat, requests: seq<DescribeRequest<Image>>,
                                   replies: seq<string>, describe: DescribeRequest<Image> -> string)
    requires size > 0
  {
    var plan := StridePlan(|images|, size);
    && Requested(images, plan, requests) && Chained(requests, replies, describe)
    && (|replies| < |plan| ==> i == plan[|replies|].first - 1)
    && (|replies| == |plan| ==> i >= |images|)
  }

  /** The request `send_batch_request` builds for the batch after slide `i`. */
  function NextRequest<Image>(images: seq<Image>, size: nat, i: nat, replies: seq<string>): DescribeRequest<Image>
    requires i < |images|
  {
    var hi := Min(i + size, |images|);
    DescribeRequest(images[i..hi], i + 1, PreviousReply(replies, |replies|), |replies| == 0)
  }

  /** The request the loop builds from its variables is `NextRequest`. */
  lemma NextRequestBuilt<Image>(images: seq<Image>, size: nat, i: nat, replies: seq<string>,
                                startSlide: nat, previous: string, isFirst: bool)
    requires i < |images| && startSlide == i + 1
    requires previous == PreviousReply(replies, |replies|) && isFirst == (|replies| == 0)
    ensures DescribeRequest(images[i..Min(i + size, |images|)], startSlide, previous, isFirst)
      == NextRequest(images, size, i, replies)
  {
  }

  lemma DescribedStep<Image>(images: seq<Image>, size: nat, i: nat, requests: seq<DescribeRequest<Image>>,
                             replies: seq<string>, describe: DescribeRequest<Image> -> string)
    requires size > 0 && i < |images|
    requires Described(images, size, i, requests, replies, describe)
    ensures var request := NextRequest(images, size, i, replies);
      Described(images, size, i + size, requests + [request], replies + [describe(request)], describe)
  {
    var plan := StridePlan(|images|, size);
    var k := |replies|;
    StrideNext(|images|, size, k, i);
    var request := NextRequest(images, size, i, replies);
    RequestedSnoc(images, plan, requests, request);
    ChainedSnoc(requests, replies, describe, request);
  }

  /** One turn of the description loop keeps its invariants. */
  lemma DescribedAdvance<Image>(images: seq<Image>, size: nat, i: nat, requests: seq<DescribeRequest<Image>>,
                                replies: seq<string>, describe: DescribeRequest<Image> -> string, all: map<nat, string>)
    requires size > 0 && i < |images|
    requires Described(images, size, i, requests, replies, describe) && all == Merged(replies)
    ensures var request := NextRequest(images, size, i, replies);
      var reply := describe(request);
      && Described(images, size, i + size, requests + [request], replies + [reply], describe)
      && all + ProcessResponse(reply) == Merged(replies + [reply])
      && PreviousReply(replies + [reply], |replies + [reply]|) == reply
      && |replies + [reply]| != 0
  {
    var reply := describe(NextRequest(images, size, i, replies));
    DescribedStep(images, size, i, requests, replies, describe);
    MergedSnoc(replies, reply);
  }

  /** The loop of the description pass: batch `k` covers the slides
      `b + 1 ..= min(b + batchSize, n)` of `range(0, n, batchSize)`, and each
      parsed reply is merged into `all` as it arrives. */
  method DescribeBatches<Image>(images: seq<Image>, batchSize: nat, describe: DescribeRequest<Image> -> string)
    returns (all: map<nat, string>, requests: seq<DescribeRequest<Image>>, replies: seq<string>)
    requires batchSize > 0
    ensures |replies| == |StridePlan(|images|, batchSize)|
    ensures Requested(images, StridePlan(|images|, batchSize), requests)
    ensures Chained(requests, replies, describe)
    ensures all == Merged(replies)
  {
    var n := |images|;
    var i := 0;
    var startSlide := 1;
    var previous := "";
    var isFirst := true;
    all, requests, replies := map[], [], [];
    while i < n
      invariant Described(images, batchSize, i, requests, replies, describe)
      invariant startSlide == i + 1
      invariant isFirst == (|replies| == 0)
      invariant previous == PreviousReply(replies, |replies|)
      invariant all == Merged(replies)
      decreases n - i
    {
      var batch := images[i..Min(i + batchSize, n)];
      var request := DescribeRequest(batch, startSlide, previous, isFirst);
      var reply := describe(request);
      NextRequestBuilt(images, batchSize, i, replies, startSlide, previous, isFirst);
      DescribedAdvance(images, batchSize, i, requests, replies, describe, all);
      var parsed := ProcessResponse(reply);
      previous := reply;
      isFirst := false;
      all := all + parsed;
      startSlide := startSlide + batchSize;
      requests, replies := requests + [request], replies + [reply];
      i := i + batchSize;
    }
    DescribedDone(images, batchSize, i, requests, replies, describe);
  }

  /** Once the next batch would start past the last slide, every batch has been sent. */
  lemma DescribedDone<Image>(images: seq<Image>, size: nat, i: nat, requests: seq<DescribeRequest<Image>>,
                             replies: seq<string>, describe: DescribeRequest<Image> -> string)
    requires size > 0 && i >= |images|
    requires Described(images, size, i, requests, replies, describe)
    ensures |replies| == |StridePlan(|images|, size)|
  {
    var plan := StridePlan(|images|, size);
    if |replies| < |plan| {
      assert false;
    }
  }

  /** The description pass. It goes through the images in batches of
      `batchSize`; batch `k` asks for the images and the tags of exactly its
      slides, only the first batch is marked first, each later batch gets
      the previous reply verbatim as context, and the file it writes lists
      the merged replies in ascending slide order, renumbered from 1. */
  method ProcessPdfToDescriptions<Image>(images: seq<Image>, batchSize: nat, describe: DescribeRequest<Image> -> string)
    returns (descriptions: string, requests: seq<DescribeRequest<Image>>, replies: seq<string>)
    requires batchSize > 0
    ensures var plan := StridePlan(|images|, batchSize);
      && |requests| == |plan| && |replies| == |plan|
      && (forall k | 0 <= k < |plan| ::
           && requests[k].images == images[plan[k].first - 1..plan[k].last]
           && requests[k].startSlide == plan[k].first && RequestTags(requests[k]) == SlideTagList(plan[k].first, Count(plan[k]))
           && requests[k].isFirst == (k == 0)
           && requests[k].context == PreviousReply(replies, k)
           && replies[k] == describe(requests[k]))
    ensures descriptions == SaveDescriptions(InKeyOrder(Merged(replies)))
  {
    var all;
    all, requests, replies := DescribeBatches(images, batchSize, describe);
    descriptions := SaveDescriptions(InKeyOrder(all));
    ghost var plan := StridePlan(|images|, batchSize);
    forall k | 0 <= k < |plan|
      ensures && requests[k].images == images[plan[k].first - 1..plan[k].last]
              && requests[k].startSlide == plan[k].first && RequestTags(requests[k]) == SlideTagList(plan[k].first, Count(plan[k]))
              && requests[k].isFirst == (k == 0)
              && requests[k].context == PreviousReply(replies, k)
              && replies[k] == describe(requests[k])
    {
      ExchangeAt(images, plan, requests, replies, describe, k);
    }
  }

  /** A key is in the merged dict iff some dict has it, and it takes the
      value of the last dict that has it. */
  lemma {:induction false} MergeAllKeys(ms: seq<map<nat, string>>, key: nat)
    ensures key in MergeAll(ms) <==> exists k | 0 <= k < |ms| :: key in ms[k]
    decreases |ms|
  {
    if ms != [] {
      var init := ms[..|ms| - 1];
      MergeAllKeys(init, key);
      assert forall k | 0 <= k < |init| :: init[k] == ms[k];
    }
  }

  lemma {:induction false} MergeAllLastWins(ms: seq<map<nat, string>>, key: nat, k: nat)
    requires k < |ms| && key in ms[k]
    requires forall j | k < j < |ms| :: key !in ms[j]
    ensures key in MergeAll(ms) && MergeAll(ms)[key] == ms[k][key]
    decreases |ms|
  {
    var init := ms[..|ms| - 1];
    if k < |ms| - 1 {
      assert forall j | 0 <= j < |init| :: init[j] == ms[j];
      MergeAllLastWins(init, key, k);
    }
  }

  /** When dict `k` holds exactly the slides of batch `k`, the merged dict
      holds exactly the slides of the deck... */
  lemma MergeTiledKeys(plan: seq<Range>, n: nat, ms: seq<map<nat, string>>)
    requires Partitions(plan, n) && |ms| == |plan|
    requires forall k, s | 0 <= k < |ms| :: s in ms[k] <==> InRange(plan[k], s)
    ensures forall s: nat :: s in MergeAll(ms) <==> 1 <= s <= n
  {
    forall s: nat ensures s in MergeAll(ms) <==> 1 <= s <= n {
      MergeAllKeys(ms, s);
      if 1 <= s <= n {
        TilesCover(plan, 0, n, s);
      }
    }
  }

  /** ... and slide `s` keeps the text of the one dict that has it. */
  lemma MergeTiledValue(plan: seq<Range>, n: nat, ms: seq<map<nat, string>>, k: nat, s: nat)
    requires Partitions(plan, n) && |ms| == |plan|
    requires forall k, s | 0 <= k < |ms| :: s in ms[k] <==> InRange(plan[k], s)
    requires k < |ms| && InRange(plan[k], s)
    ensures s in MergeAll(ms) && MergeAll(ms)[s] == ms[k][s]
  {
    forall j | k < j < |ms| ensures s !in ms[j] {
      if s in ms[j] {
        TilesDisjoint(plan, 0, n, s, k, j);
      }
    }
    MergeAllLastWins(ms, s, k);
  }

  /** In key order, the merged dict lists slide `s` at position `s - 1`,
      with the text of the dict of the batch holding `s`. */
  lemma MergeTiled(plan: seq<Range>, n: nat, ms: seq<map<nat, string>>)
    requires Partitions(plan, n) && |ms| == |plan|
    requires forall k, s | 0 <= k < |ms| :: s in ms[k] <==> InRange(plan[k], s)
    ensures |InKeyOrder(MergeAll(ms))| == n
    ensures forall k, s | 0 <= k < |ms| && InRange(plan[k], s) ::
      InKeyOrder(MergeAll(ms))[s - 1] == ms[k][s]
  {
    assert |InKeyOrder(MergeAll(ms))| == n by {
      MergeTiledKeys(plan, n, ms);
      InKeyOrderContiguous(MergeAll(ms), n);
    }
    forall k, s | 0 <= k < |ms| && InRange(plan[k], s)
      ensures InKeyOrder(MergeAll(ms))[s - 1] == ms[k][s]
    {
      MergeTiledValue(plan, n, ms, k, s);
      MergeTiledKeys(plan, n, ms);
      InKeyOrderContiguous(MergeAll(ms), n);
    }
  }

  /** When every reply answers with exactly the tags of its batch, the
      descriptions file lists every slide of the deck, slide `s` with the
      text the reply of the batch holding `s` gave it. */
  lemma HonestRepliesListEverySlide(n: nat, size: nat, replies: seq<string>)
    requires size > 0 && |replies| == |StridePlan(n, size)|
    requires forall k, s | 0 <= k < |replies| ::
      s in ProcessResponse(replies[k]) <==> InRange(StridePlan(n, size)[k], s)
    ensures |InKeyOrder(Merged(replies))| == n
    ensures forall k, s | 0 <= k < |replies| && InRange(StridePlan(n, size)[k], s) ::
      InKeyOrder(Merged(replies))[s - 1] == ProcessResponse(replies[k])[s]
  {
    var ms := ParsedReplies(replies);
    MergedIsMergeAll(replies);
    assert forall k | 0 <= k < |replies| :: ms[k] == ProcessResponse(replies[k]);
    MergeTiled(StridePlan(n, size), n, ms);
  }
}
