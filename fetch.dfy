/** `fetch_html` (task1/hw1/crawler.py): the content-type gate and the streaming
    size gate over a response whose transport is abstracted away. The response
    is a value: either the request raised, or a Content-Type header (possibly
    absent) and the sequence of chunks `iter_content` would yield. The body is
    returned as the joined raw bytes; decoding them to text is not modelled. */
module Fetch {
  import opened Options
  import opened Strings

  type Byte = b: int | 0 <= b < 256
  type Chunk = seq<Byte>

  /** `MAX_BYTES`: the largest body accepted, in bytes. */
  const MAX_BYTES: nat := 5_000_000

  datatype HttpReply =
    | RequestFailed
    | Reply(contentType: Option<string>, chunks: seq<Chunk>)

  /** The lower-cased Content-Type (an absent header reads as "") mentions
      `text/html`. */
  predicate IsHtml(contentType: Option<string>) {
    Contains(Lower(contentType.GetOr("")), "text/html")
  }

  /** Total number of bytes in `cs`. */
  function TotalLength(cs: seq<Chunk>): nat
    decreases |cs|
  {
    if cs == [] then 0 else TotalLength(cs[..|cs| - 1]) + |cs[|cs| - 1]|
  }

  /** The chunks of `cs` that are not empty, in order. */
  function NonEmpty(cs: seq<Chunk>): seq<Chunk>
    decreases |cs|
  {
    if cs == [] then []
    else NonEmpty(cs[..|cs| - 1]) + (if cs[|cs| - 1] == [] then [] else [cs[|cs| - 1]])
  }

  /** `b"".join(cs)`. */
  function Concat(cs: seq<Chunk>): Chunk
    decreases |cs|
  {
    if cs == [] then [] else Concat(cs[..|cs| - 1]) + cs[|cs| - 1]
  }

  /** The running total exceeds the limit after the first `k` chunks. */
  predicate ExceedsAfter(cs: seq<Chunk>, k: int) {
    0 <= k <= |cs| && TotalLength(cs[..k]) > MAX_BYTES
  }

  /** Skipping empty chunks does not change the joined body, whose length is
      the total byte count. */
  lemma {:induction false} ConcatNonEmpty(cs: seq<Chunk>)
    ensures Concat(NonEmpty(cs)) == Concat(cs)
    ensures |Concat(cs)| == TotalLength(cs)
    decreases |cs|
  {
    if cs != [] {
      var pre, last := cs[..|cs| - 1], cs[|cs| - 1];
      ConcatNonEmpty(pre);
      var ne := NonEmpty(pre);
      if last == [] {
        assert NonEmpty(cs) == ne;
      } else {
        assert NonEmpty(cs) == ne + [last];
        assert (ne + [last])[..|ne|] == ne;
      }
    }
  }

  /** Models `fetch_html` up to the decode step. `consumed` is the number of
      chunks drawn from the stream. */
  method FetchHtml(reply: HttpReply) returns (body: Option<Chunk>, consumed: nat)
    // a request that raised, or a response that is not HTML, yields None
    // without drawing any chunk
    ensures reply.RequestFailed? ==> body == None && consumed == 0
    ensures reply.Reply? && !IsHtml(reply.contentType) ==> body == None && consumed == 0
    // for HTML: None exactly when some prefix of the stream exceeds MAX_BYTES
    ensures reply.Reply? && IsHtml(reply.contentType) ==>
              (body == None <==> exists k :: ExceedsAfter(reply.chunks, k))
    // the abort happens at the first chunk that takes the total over the limit
    ensures reply.Reply? && IsHtml(reply.contentType) && body == None ==>
              0 < consumed <= |reply.chunks|
              && ExceedsAfter(reply.chunks, consumed)
              && TotalLength(reply.chunks[..consumed - 1]) <= MAX_BYTES
    // otherwise the whole stream is read and the body is all its non-empty chunks
    ensures body.Some? ==>
              reply.Reply? && IsHtml(reply.contentType)
              && consumed == |reply.chunks|
              && body.value == Concat(NonEmpty(reply.chunks))
              && |body.value| <= MAX_BYTES
  {
    body, consumed := None, 0;
    if reply.RequestFailed? {
      return;
    }
    var ctype := Lower(reply.contentType.GetOr(""));
    if !Contains(ctype, "text/html") {
      return;
    }
    var cs := reply.chunks;
    var chunks: seq<Chunk> := [];
    var total := 0;
    while consumed < |cs|
      invariant consumed <= |cs|
      invariant total == TotalLength(cs[..consumed]) <= MAX_BYTES
      invariant forall k :: 0 <= k <= consumed ==> TotalLength(cs[..k]) <= MAX_BYTES
      invariant chunks == NonEmpty(cs[..consumed])
    {
      var chunk := cs[consumed];
      assert cs[..consumed + 1][..consumed] == cs[..consumed];
      consumed := consumed + 1;
      if chunk == [] {
        continue;
      }
      total := total + |chunk|;
      if total > MAX_BYTES {
        assert ExceedsAfter(cs, consumed);
        return;
      }
      chunks := chunks + [chunk];
    }
    assert cs[..consumed] == cs;
    ConcatNonEmpty(cs);
    body := Some(Concat(chunks));
  }
}
