/** Bodies that arrive in chunks and are read up to a byte limit. */
module ByteStream {
  import opened Wrappers

  type Bytes = seq<bv8>

  /** One read of an upstream body; a sequence of reads ends where the upstream does. */
  datatype Read = Chunk(bytes: Bytes) | Broken

  function Flat(chunks: seq<Bytes>): Bytes {
    if chunks == [] then [] else chunks[0] + Flat(chunks[1..])
  }

  /** The body an upstream sends, if it sends one to the end. */
  function Concatenated(upstream: seq<Read>): Option<Bytes> {
    if upstream == [] then Some([])
    else if upstream[0].Broken? then None
    else
      match Concatenated(upstream[1..])
      case None => None
      case Some(rest) => Some(upstream[0].bytes + rest)
  }

  /** The chunks that arrive unbroken and within `maximum` bytes. */
  function Served(upstream: seq<Read>, maximum: nat): (chunks: seq<Bytes>)
    ensures |chunks| <= |upstream|
  {
    if upstream == [] || upstream[0].Broken? || |upstream[0].bytes| > maximum then []
    else [upstream[0].bytes] + Served(upstream[1..], maximum - |upstream[0].bytes|)
  }

  lemma {:induction false} ServedWithinMaximum(upstream: seq<Read>, maximum: nat)
    ensures |Flat(Served(upstream, maximum))| <= maximum
  {
    if upstream != [] && upstream[0].Chunk? && |upstream[0].bytes| <= maximum {
      var rest := Served(upstream[1..], maximum - |upstream[0].bytes|);
      ServedWithinMaximum(upstream[1..], maximum - |upstream[0].bytes|);
      assert ([upstream[0].bytes] + rest)[1..] == rest;
    }
  }

  /** When every chunk is served, what is served is the whole body. */
  lemma {:induction false} AllServedIsWhole(upstream: seq<Read>, maximum: nat)
    requires |Served(upstream, maximum)| == |upstream|
    ensures Concatenated(upstream) == Some(Flat(Served(upstream, maximum)))
  {
    if upstream != [] {
      var rest := Served(upstream[1..], maximum - |upstream[0].bytes|);
      AllServedIsWhole(upstream[1..], maximum - |upstream[0].bytes|);
      assert ([upstream[0].bytes] + rest)[1..] == rest;
    }
  }

  /** A whole body within the limit is served entirely. */
  lemma {:induction false} WholeWithinLimitIsServed(upstream: seq<Read>, maximum: nat)
    requires Concatenated(upstream).Some? && |Concatenated(upstream).value| <= maximum
    ensures |Served(upstream, maximum)| == |upstream|
  {
    if upstream != [] {
      WholeWithinLimitIsServed(upstream[1..], maximum - |upstream[0].bytes|);
    }
  }

  /** The first `n` reads are all chunks and come to no more than `maximum` bytes. */
  predicate Arrives(upstream: seq<Read>, n: nat, maximum: nat)
    requires n <= |upstream|
  {
    var body := Concatenated(upstream[..n]);
    body.Some? && |body.value| <= maximum
  }

  /** The chunks served are the longest run of reads from the start that arrives, each one unaltered. */
  lemma {:induction false} ServedIsWhatArrives(upstream: seq<Read>, n: nat, maximum: nat)
    requires n <= |upstream|
    ensures n <= |Served(upstream, maximum)| <==> Arrives(upstream, n, maximum)
    ensures n < |Served(upstream, maximum)| ==> upstream[n] == Chunk(Served(upstream, maximum)[n])
  {
    if upstream != [] {
      if upstream[0].Chunk? && |upstream[0].bytes| <= maximum && n > 0 {
        ServedIsWhatArrives(upstream[1..], n - 1, maximum - |upstream[0].bytes|);
      }
      if n > 0 {
        assert upstream[..n][1..] == upstream[1..][..n - 1];
      }
    }
  }

  lemma {:induction false} FlatSnoc(chunks: seq<Bytes>, last: Bytes)
    ensures Flat(chunks + [last]) == Flat(chunks) + last
  {
    if chunks != [] {
      FlatSnoc(chunks[1..], last);
      assert (chunks + [last])[1..] == chunks[1..] + [last];
    }
  }

  lemma {:induction false} FlatPrefix(chunks: seq<Bytes>, n: nat)
    requires n <= |chunks|
    ensures |Flat(chunks[..n])| <= |Flat(chunks)|
  {
    if n > 0 {
      FlatPrefix(chunks[1..], n - 1);
      assert chunks[..n][1..] == chunks[1..][..n - 1];
    }
  }

  /** One read of a loop that has kept `kept` and has `left` bytes to go: what is still to come shrinks by it. */
  lemma ServedStep(kept: seq<Bytes>, upstream: seq<Read>, i: nat, left: nat)
    requires i < |upstream|
    ensures upstream[i].Broken? || |upstream[i].bytes| > left ==> kept + Served(upstream[i..], left) == kept
    ensures upstream[i].Chunk? && |upstream[i].bytes| <= left ==>
              kept + Served(upstream[i..], left)
              == kept + [upstream[i].bytes] + Served(upstream[i + 1..], left - |upstream[i].bytes|)
  {
    var rest := upstream[i..];
    assert rest[0] == upstream[i] && rest[1..] == upstream[i + 1..];
  }
}
