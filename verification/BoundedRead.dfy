/**
 The browser's bounded downloads, apps/web/lib/client-processing.ts: one body read into one array, and
 all inputs of a ticket under one byte budget.
 */
module BoundedRead {
  import opened ByteStream
  import opened Wrappers

  datatype Failure = InvalidResponse | TooLarge | Empty | Network

  /** What a fetch gives: it throws, or there is a response. `declared` is a finite content length. */
  datatype Fetched = Unreachable | Response(ok: bool, declared: Option<int>, body: Option<seq<Read>>)

  /** The bytes a response stands for under a budget, or why there are none. */
  ghost predicate Reads(response: Fetched, remaining: nat, result: Result<Bytes, Failure>) {
    match response
    case Unreachable => result == Err(Network)
    case Response(ok, declared, body) =>
      if !ok || body.None? then result == Err(InvalidResponse)
      else if declared.Some? && declared.value > remaining then result == Err(TooLarge)
      else
        var upstream := body.value;
        var kept := Served(upstream, remaining);
        if |kept| < |upstream| then result == Err(if upstream[|kept|].Broken? then Network else TooLarge)
        else if Flat(kept) == [] then result == Err(Empty)
        else result == Ok(Flat(kept))
  }

  /** Success is the whole body, between one byte and the budget; nothing else succeeds. */
  lemma ReadsWholeBody(response: Fetched, remaining: nat, bytes: Bytes)
    ensures Reads(response, remaining, Ok(bytes)) <==>
              && response.Response? && response.ok && response.body.Some?
              && (response.declared.Some? ==> response.declared.value <= remaining)
              && Concatenated(response.body.value) == Some(bytes)
              && 1 <= |bytes| <= remaining
  {
    if response.Response? && response.body.Some? {
      var upstream := response.body.value;
      if |Served(upstream, remaining)| == |upstream| {
        AllServedIsWhole(upstream, remaining);
        ServedWithinMaximum(upstream, remaining);
      } else if Concatenated(upstream).Some? && |Concatenated(upstream).value| <= remaining {
        WholeWithinLimitIsServed(upstream, remaining);
      }
    }
  }

  /** `TooLarge` is said only of a response that declares or sends more than the budget. */
  lemma TooLargeIsOverBudget(response: Fetched, remaining: nat)
    requires Reads(response, remaining, Err(TooLarge))
    ensures response.Response? && response.body.Some?
    ensures (response.declared.Some? && response.declared.value > remaining)
            || exists n: nat :: n <= |response.body.value| && Concatenated(response.body.value[..n]).Some?
                                && |Concatenated(response.body.value[..n]).value| > remaining
  {
    if !(response.declared.Some? && response.declared.value > remaining) {
      OverflowShows(response.body.value, remaining);
    }
  }

  /** The response gives a body to read, and declares no more than the budget. */
  predicate Readable(response: Fetched, remaining: nat) {
    && response.Response? && response.ok && response.body.Some?
    && (response.declared.Some? ==> response.declared.value <= remaining)
  }

  /** The first `n` reads arrive within the limit, and the next one fails. */
  predicate BreaksAt(upstream: seq<Read>, n: nat, maximum: nat) {
    n < |upstream| && Arrives(upstream, n, maximum) && upstream[n].Broken?
  }

  /** The first `n` reads arrive within the limit, and the next one takes the bytes over it. */
  predicate OverflowsAt(upstream: seq<Read>, n: nat, maximum: nat) {
    n < |upstream| && Arrives(upstream, n, maximum) && upstream[n].Chunk? && !Arrives(upstream, n + 1, maximum)
  }

  /** Each failure exactly in its case. */
  lemma FailsIff(response: Fetched, remaining: nat)
    ensures Reads(response, remaining, Err(InvalidResponse)) <==>
              response.Response? && !(response.ok && response.body.Some?)
    ensures Reads(response, remaining, Err(Empty)) <==>
              Readable(response, remaining) && Concatenated(response.body.value) == Some([])
    ensures Reads(response, remaining, Err(Network)) <==>
              || response.Unreachable?
              || (Readable(response, remaining) && exists n: nat :: BreaksAt(response.body.value, n, remaining))
    ensures Reads(response, remaining, Err(TooLarge)) <==>
              && response.Response? && response.ok && response.body.Some?
              && (!Readable(response, remaining) || exists n: nat :: OverflowsAt(response.body.value, n, remaining))
  {
    if Readable(response, remaining) {
      StopsIff(response.body.value, remaining);
      var upstream := response.body.value;
      if |Served(upstream, remaining)| == |upstream| {
        AllServedIsWhole(upstream, remaining);
      } else if Concatenated(upstream) == Some([]) {
        WholeWithinLimitIsServed(upstream, remaining);
      }
    }
  }

  /** Where the reads stop, and why. */
  lemma StopsIff(upstream: seq<Read>, maximum: nat)
    ensures var n := |Served(upstream, maximum)|;
            && ((exists m: nat :: BreaksAt(upstream, m, maximum)) <==> n < |upstream| && upstream[n].Broken?)
            && ((exists m: nat :: OverflowsAt(upstream, m, maximum)) <==> n < |upstream| && upstream[n].Chunk?)
  {
    var n := |Served(upstream, maximum)|;
    forall m: nat | m <= |upstream|
      ensures m <= n <==> Arrives(upstream, m, maximum)
    {
      ServedIsWhatArrives(upstream, m, maximum);
    }
    if n < |upstream| {
      assert Arrives(upstream, n, maximum) && !Arrives(upstream, n + 1, maximum);
      assert upstream[n].Broken? ==> BreaksAt(upstream, n, maximum);
      assert upstream[n].Chunk? ==> OverflowsAt(upstream, n, maximum);
    }
    if m: nat :| BreaksAt(upstream, m, maximum) {
      BrokenNeverArrives(upstream, m, maximum);
      assert m == n;
    }
  }

  lemma {:induction false} BrokenNeverArrives(upstream: seq<Read>, m: nat, maximum: nat)
    requires m < |upstream| && upstream[m].Broken?
    ensures !Arrives(upstream, m + 1, maximum)
  {
    if upstream[0].Chunk? && |upstream[0].bytes| <= maximum {
      BrokenNeverArrives(upstream[1..], m - 1, maximum - |upstream[0].bytes|);
      assert upstream[..m + 1][1..] == upstream[1..][..m];
    }
  }

  /** A chunk that is whole but not served takes the bytes so far over the limit. */
  lemma {:induction false} OverflowShows(upstream: seq<Read>, maximum: nat)
    requires |Served(upstream, maximum)| < |upstream| && upstream[|Served(upstream, maximum)|].Chunk?
    ensures exists n: nat ::
        n <= |upstream| && Concatenated(upstream[..n]).Some? && |Concatenated(upstream[..n]).value| > maximum
  {
    var first := |upstream[0].bytes|;
    if first > maximum {
      assert upstream[..1][1..] == [];
      assert Concatenated(upstream[..1]).Some?;
    } else {
      OverflowShows(upstream[1..], maximum - first);
      var n: nat :| n <= |upstream| - 1 && Concatenated(upstream[1..][..n]).Some?
                    && |Concatenated(upstream[1..][..n]).value| > maximum - first;
      assert upstream[..n + 1][1..] == upstream[1..][..n];
      assert Concatenated(upstream[..n + 1]).Some?;
    }
  }

  /** `bytes.set(chunk, offset)` */
  method Set(bytes: array<bv8>, offset: nat, chunk: Bytes)
    requires offset + |chunk| <= bytes.Length
    modifies bytes
    ensures bytes[..offset + |chunk|] == old(bytes[..offset]) + chunk
    ensures bytes[offset + |chunk|..] == old(bytes[offset + |chunk|..])
  {
    forall j | 0 <= j < |chunk| {
      bytes[offset + j] := chunk[j];
    }
    assert bytes[offset..offset + |chunk|] == chunk;
    assert bytes[..offset] == old(bytes[..offset]);
  }

  /** The copy loop: the chunks one after the other. */
  method Assemble(chunks: seq<Bytes>, total: nat) returns (bytes: array<bv8>)
    requires total == |Flat(chunks)|
    ensures fresh(bytes) && bytes[..] == Flat(chunks)
  {
    bytes := new bv8[total];
    var offset := 0;
    for i := 0 to |chunks|
      invariant offset == |Flat(chunks[..i])| <= total && bytes[..offset] == Flat(chunks[..i])
    {
      FlatPrefix(chunks, i + 1);
      FlatSnoc(chunks[..i], chunks[i]);
      assert chunks[..i + 1] == chunks[..i] + [chunks[i]];
      Set(bytes, offset, chunks[i]);
      offset := offset + |chunks[i]|;
    }
    assert chunks[..|chunks|] == chunks;
  }

  /** `readBounded` */
  method ReadBounded(response: Fetched, remaining: nat) returns (result: Result<Bytes, Failure>)
    ensures Reads(response, remaining, result)
  {
    if response.Unreachable? {
      return Err(Network);
    }
    if !response.ok || response.body.None? {
      return Err(InvalidResponse);
    }
    if response.declared.Some? && response.declared.value > remaining {
      return Err(TooLarge);
    }
    var upstream := response.body.value;
    var chunks: seq<Bytes> := [];
    var total := 0;
    for i := 0 to |upstream|
      invariant |chunks| == i && total == |Flat(chunks)| <= remaining
      invariant chunks + Served(upstream[i..], remaining - total) == Served(upstream, remaining)
    {
      ServedStep(chunks, upstream, i, remaining - total);
      if upstream[i].Broken? {
        return Err(Network);
      }
      total := total + |upstream[i].bytes|;
      if total > remaining {
        return Err(TooLarge);
      }
      FlatSnoc(chunks, upstream[i].bytes);
      chunks := chunks + [upstream[i].bytes];
    }
    assert chunks == Served(upstream, remaining);
    if total == 0 {
      return Err(Empty);
    }
    var bytes := Assemble(chunks, total);
    return Ok(bytes[..]);
  }

  /** Each input read whole under what the ones before it left of the budget. */
  ghost predicate AllRead(responses: seq<Fetched>, maxBytes: nat, buffers: seq<Bytes>) {
    && |buffers| == |responses|
    && (buffers != [] ==>
          var n := |buffers| - 1;
          && AllRead(responses[..n], maxBytes, buffers[..n])
          && |Flat(buffers[..n])| <= maxBytes
          && Reads(responses[n], maxBytes - |Flat(buffers[..n])|, Ok(buffers[n])))
  }

  /** The input that ended the loop, after the ones before it were read. */
  ghost predicate FailsAt(responses: seq<Fetched>, maxBytes: nat, buffers: seq<Bytes>, failure: Failure) {
    && |buffers| < |responses|
    && AllRead(responses[..|buffers|], maxBytes, buffers)
    && |Flat(buffers)| <= maxBytes
    && Reads(responses[|buffers|], maxBytes - |Flat(buffers)|, Err(failure))
  }

  lemma AllReadGrows(responses: seq<Fetched>, maxBytes: nat, buffers: seq<Bytes>, bytes: Bytes)
    requires |buffers| < |responses| && AllRead(responses[..|buffers|], maxBytes, buffers)
    requires |Flat(buffers)| <= maxBytes
    requires Reads(responses[|buffers|], maxBytes - |Flat(buffers)|, Ok(bytes))
    ensures AllRead(responses[..|buffers| + 1], maxBytes, buffers + [bytes])
    ensures |Flat(buffers + [bytes])| == |Flat(buffers)| + |bytes| <= maxBytes
  {
    var n, more, read := |buffers|, buffers + [bytes], responses[..|buffers| + 1];
    ReadsWholeBody(responses[n], maxBytes - |Flat(buffers)|, bytes);
    FlatSnoc(buffers, bytes);
    assert more[..n] == buffers && more[n] == bytes && read[..n] == responses[..n] && read[n] == responses[n];
  }

  /** The input loop of `downloadClientProcessedMedia`: what is kept never exceeds the budget. */
  method ReadInputs(responses: seq<Fetched>, maxBytes: nat) returns (buffers: seq<Bytes>, failed: Option<Failure>)
    ensures failed.None? ==> AllRead(responses, maxBytes, buffers)
    ensures failed.Some? ==> FailsAt(responses, maxBytes, buffers, failed.value)
    ensures |Flat(buffers)| <= maxBytes
  {
    buffers := [];
    var total := 0;
    for i := 0 to |responses|
      invariant AllRead(responses[..i], maxBytes, buffers) && total == |Flat(buffers)| <= maxBytes
    {
      var bytes := ReadBounded(responses[i], maxBytes - total);
      if bytes.Err? {
        return buffers, Some(bytes.error);
      }
      AllReadGrows(responses, maxBytes, buffers, bytes.value);
      total := total + |bytes.value|;
      buffers := buffers + [bytes.value];
    }
    assert responses[..|responses|] == responses;
    failed := None;
  }

  /** The buffers are the bodies themselves: what each input sent, in order, and nothing else. */
  lemma {:induction false} BuffersAreBodies(responses: seq<Fetched>, maxBytes: nat, buffers: seq<Bytes>, i: nat)
    requires AllRead(responses, maxBytes, buffers) && i < |responses|
    ensures responses[i].Response? && responses[i].body.Some?
    ensures Concatenated(responses[i].body.value) == Some(buffers[i]) && buffers[i] != []
  {
    var n := |buffers| - 1;
    if i < n {
      BuffersAreBodies(responses[..n], maxBytes, buffers[..n], i);
    } else {
      ReadsWholeBody(responses[n], maxBytes - |Flat(buffers[..n])|, buffers[n]);
    }
  }

  /** The `i`-th buffer is the whole, non-empty body of an input that did not declare more than what was left. */
  predicate ReadWhole(responses: seq<Fetched>, maxBytes: nat, buffers: seq<Bytes>, i: nat)
    requires i < |buffers| == |responses|
  {
    && responses[i].Response? && responses[i].ok && responses[i].body.Some?
    && Concatenated(responses[i].body.value) == Some(buffers[i]) && buffers[i] != []
    && (responses[i].declared.Some? ==> responses[i].declared.value + |Flat(buffers[..i])| <= maxBytes)
  }

  /** All inputs are read exactly when each is whole and all of them together keep the budget. */
  lemma {:induction false} AllReadIff(responses: seq<Fetched>, maxBytes: nat, buffers: seq<Bytes>)
    requires |buffers| == |responses|
    ensures AllRead(responses, maxBytes, buffers) <==>
              && |Flat(buffers)| <= maxBytes
              && forall i: nat :: i < |buffers| ==> ReadWhole(responses, maxBytes, buffers, i)
  {
    if buffers != [] {
      var n := |buffers| - 1;
      var before, earlier := buffers[..n], responses[..n];
      AllReadIff(earlier, maxBytes, before);
      FlatPrefix(buffers, n);
      FlatSnoc(before, buffers[n]);
      assert buffers == before + [buffers[n]];
      if |Flat(before)| <= maxBytes {
        ReadsWholeBody(responses[n], maxBytes - |Flat(before)|, buffers[n]);
      }
      forall i: nat | i < n
        ensures ReadWhole(responses, maxBytes, buffers, i) <==> ReadWhole(earlier, maxBytes, before, i)
      {
        assert before[..i] == buffers[..i];
      }
      if |Flat(buffers)| <= maxBytes && forall i: nat :: i < |buffers| ==> ReadWhole(responses, maxBytes, buffers, i) {
        assert ReadWhole(responses, maxBytes, buffers, n);
        forall i: nat | i < n ensures ReadWhole(earlier, maxBytes, before, i) {
          assert ReadWhole(responses, maxBytes, buffers, i);
        }
      }
    }
  }
}
