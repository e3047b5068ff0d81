/**
 The server-download relay of apps/delivery/src/app.ts: the redirect loop, the bounded body and the
 outcome that packages/persistence/src/index.ts records for the redeemed ticket.
 */
module DeliveryRelay {
  import opened ByteStream
  import opened Wrappers

  type Url = string

  // ----- the recorded outcome

  datatype Outcome = Passed | HostRejected | DnsRejected | ModeRejected | InternalError

  /** How a store call ends: the transaction commits or not, and the caller may see an error either way. */
  datatype Fault = Works | LostBefore | LostAfter

  /** The outcome columns of one delivery ticket. */
  class Ticket {
    var validation: Option<Outcome>
    var handoff: bool

    constructor ()
      ensures validation == None && !handoff
    {
      validation, handoff := None, false;
    }

    /** `recordDeliveryRedemptionOutcome`: only the first result is kept. */
    method Record(result: Outcome, browserHandoff: bool, fault: Fault) returns (threw: bool)
      modifies this
      ensures threw <==> fault != Works
      ensures validation == if fault == LostBefore || old(validation).Some? then old(validation) else Some(result)
      ensures handoff == (old(handoff) || (fault != LostBefore && browserHandoff))
    {
      if fault == LostBefore {
        return true;
      }
      if validation.None? {
        validation := Some(result);
      }
      if browserHandoff && !handoff {
        handoff := true;
      }
      return fault != Works;
    }
  }

  // ----- the bounded body

  /** The reader of the reply takes everything, never asks for a chunk, or closes or fails the reply at chunk `at`. */
  datatype Consumer = TakesAll | NeverReads | ClosesAt(at: nat) | FailsAt(at: nat) {
    /** The generator gets to chunk `n` and no further. */
    predicate EndsAt(n: nat) {
      (ClosesAt? || FailsAt?) && at == n
    }
  }

  datatype End = Finished | Threw | Closed

  /** A download worth calling passed: everything arrived, some bytes, and as many as were declared. */
  predicate Sound(upstream: seq<Read>, declared: Option<int>, maximum: nat) {
    var chunks := Served(upstream, maximum);
    && |chunks| == |upstream|
    && Flat(chunks) != []
    && (declared.Some? ==> |Flat(chunks)| == declared.value)
  }

  function Taken(chunks: seq<Bytes>, consumer: Consumer): seq<Bytes> {
    if consumer.NeverReads? then []
    else if Stopped(chunks, consumer) then chunks[..consumer.at + 1]
    else chunks
  }

  /** The reader leaves before the body is through. A generator that was never started runs none of its code. */
  predicate Stopped(chunks: seq<Bytes>, consumer: Consumer) {
    consumer.NeverReads? || ((consumer.ClosesAt? || consumer.FailsAt?) && consumer.at < |chunks|)
  }

  /** Leaving without an error runs the cleanup of the generator and neither of its recordings. */
  predicate Quietly(consumer: Consumer) {
    consumer.NeverReads? || consumer.ClosesAt?
  }

  /** What the ticket holds after a body that started with nothing recorded. */
  function BodyOutcome(upstream: seq<Read>, declared: Option<int>, maximum: nat, consumer: Consumer,
                       first: Fault, second: Fault): Option<Outcome> {
    var stopped := Stopped(Served(upstream, maximum), consumer);
    if stopped && Quietly(consumer) then None
    else if stopped || !Sound(upstream, declared, maximum) then
      if first == LostBefore then None else Some(InternalError)
    else if first != LostBefore then Some(Passed)
    else if second == LostBefore then None
    else Some(InternalError)
  }

  /** The read loop of `boundedBody`. */
  method Pump(upstream: seq<Read>, maximum: nat, consumer: Consumer)
    returns (yielded: seq<Bytes>, total: nat, broken: bool, stopped: bool)
    ensures yielded == Taken(Served(upstream, maximum), consumer)
    ensures stopped <==> Stopped(Served(upstream, maximum), consumer)
    ensures !stopped ==> total == |Flat(Served(upstream, maximum))|
    ensures !stopped ==> (broken <==> |Served(upstream, maximum)| < |upstream|)
  {
    yielded, total, broken, stopped := [], 0, false, false;
    if consumer.NeverReads? {
      return [], 0, false, true;
    }
    for i := 0 to |upstream|
      invariant |yielded| == i && total == |Flat(yielded)| <= maximum
      invariant yielded + Served(upstream[i..], maximum - total) == Served(upstream, maximum)
      invariant !Stopped(yielded, consumer) && !broken && !stopped
    {
      ServedStep(yielded, upstream, i, maximum - total);
      if upstream[i].Broken? || total + |upstream[i].bytes| > maximum {
        broken := true;
        return;
      }
      total := total + |upstream[i].bytes|;
      FlatSnoc(yielded, upstream[i].bytes);
      yielded := yielded + [upstream[i].bytes];
      if consumer.EndsAt(i) {
        stopped := true;
        return;
      }
    }
  }

  /**
   `boundedBody`: the chunks yielded, how the generator ends and what it records, for every upstream,
   every reader of the reply and every fault of the two recordings.
   */
  method BoundedBody(upstream: seq<Read>, declared: Option<int>, maximum: nat, consumer: Consumer,
                     ticket: Ticket, first: Fault, second: Fault)
    returns (yielded: seq<Bytes>, end: End)
    modifies ticket
    ensures yielded == Taken(Served(upstream, maximum), consumer)
    ensures end == Finished <==>
        !Stopped(Served(upstream, maximum), consumer) && Sound(upstream, declared, maximum) && first == Works
    ensures end == Closed <==> Stopped(Served(upstream, maximum), consumer) && Quietly(consumer)
    ensures old(ticket.validation) == None ==>
              ticket.validation == BodyOutcome(upstream, declared, maximum, consumer, first, second)
    ensures old(ticket.validation).Some? ==> ticket.validation == old(ticket.validation)
    ensures ticket.handoff == old(ticket.handoff)
  {
    var total, broken, stopped;
    yielded, total, broken, stopped := Pump(upstream, maximum, consumer);
    if stopped && Quietly(consumer) {
      return yielded, Closed;
    }
    if stopped || broken || total == 0 || (declared.Some? && total != declared.value) {
      var _ := ticket.Record(InternalError, false, first);
      return yielded, Threw;
    }
    var threw := ticket.Record(Passed, false, first);
    if threw {
      var _ := ticket.Record(InternalError, false, second);
      return yielded, Threw;
    }
    end := Finished;
  }

  /** The reader has chunk `n` before it, and asks for it. */
  predicate AsksFor(consumer: Consumer, n: nat) {
    match consumer
    case TakesAll => true
    case NeverReads => false
    case ClosesAt(at) => n <= at
    case FailsAt(at) => n <= at
  }

  /** The chunks the reader gets are exactly those that arrive within the limit and that it asks for. */
  lemma TakenIff(upstream: seq<Read>, maximum: nat, consumer: Consumer, n: nat)
    ensures n < |Taken(Served(upstream, maximum), consumer)| <==>
              n < |upstream| && Arrives(upstream, n + 1, maximum) && AsksFor(consumer, n)
    ensures n < |Taken(Served(upstream, maximum), consumer)| ==>
              upstream[n] == Chunk(Taken(Served(upstream, maximum), consumer)[n])
  {
    if n < |upstream| {
      ServedIsWhatArrives(upstream, n, maximum);
      ServedIsWhatArrives(upstream, n + 1, maximum);
    }
  }

  /** The reader leaves before the body is through: it never starts, or leaves at a chunk that arrives. */
  predicate Leaves(upstream: seq<Read>, maximum: nat, consumer: Consumer) {
    match consumer
    case TakesAll => false
    case NeverReads => true
    case ClosesAt(at) => at < |upstream| && Arrives(upstream, at + 1, maximum)
    case FailsAt(at) => at < |upstream| && Arrives(upstream, at + 1, maximum)
  }

  /** The body arrives whole, is not empty, keeps the limit and has the length that was declared. */
  predicate WholeBody(upstream: seq<Read>, declared: Option<int>, maximum: nat) {
    var body := Concatenated(upstream);
    && body.Some? && 0 < |body.value| <= maximum
    && (declared.Some? ==> |body.value| == declared.value)
  }

  lemma StoppedIffLeaves(upstream: seq<Read>, maximum: nat, consumer: Consumer)
    ensures Stopped(Served(upstream, maximum), consumer) <==> Leaves(upstream, maximum, consumer)
  {
    if (consumer.ClosesAt? || consumer.FailsAt?) && consumer.at < |upstream| {
      ServedIsWhatArrives(upstream, consumer.at + 1, maximum);
    }
  }

  lemma SoundIffWholeBody(upstream: seq<Read>, declared: Option<int>, maximum: nat)
    ensures Sound(upstream, declared, maximum) <==> WholeBody(upstream, declared, maximum)
  {
    ServedWithinMaximum(upstream, maximum);
    if |Served(upstream, maximum)| == |upstream| {
      AllServedIsWhole(upstream, maximum);
    } else if WholeBody(upstream, declared, maximum) {
      WholeWithinLimitIsServed(upstream, maximum);
    }
  }

  /**
   "passed" is recorded if and only if the body was whole, non-empty, within the limit and of the declared
   length, the reader took it to its end, and the first recording was not lost; nothing is recorded if and
   only if the reader left without an error, or the recording was lost, twice where there are two.
   */
  lemma PassedMeansWhole(upstream: seq<Read>, declared: Option<int>, maximum: nat, consumer: Consumer, first: Fault,
                         second: Fault)
    ensures BodyOutcome(upstream, declared, maximum, consumer, first, second) == Some(Passed) <==>
              first != LostBefore && !Leaves(upstream, maximum, consumer) && WholeBody(upstream, declared, maximum)
    ensures BodyOutcome(upstream, declared, maximum, consumer, first, second) == None <==>
              || (Leaves(upstream, maximum, consumer) && (consumer.NeverReads? || consumer.ClosesAt?))
              || (first == LostBefore
                  && (!Leaves(upstream, maximum, consumer) && WholeBody(upstream, declared, maximum) ==>
                        second == LostBefore))
    ensures BodyOutcome(upstream, declared, maximum, consumer, first, second) in
              {None, Some(Passed), Some(InternalError)}
    ensures BodyOutcome(upstream, declared, maximum, consumer, first, second) == Some(Passed) ==>
              Concatenated(upstream) == Some(Flat(Taken(Served(upstream, maximum), consumer)))
  {
    StoppedIffLeaves(upstream, maximum, consumer);
    SoundIffWholeBody(upstream, declared, maximum);
    if Sound(upstream, declared, maximum) {
      AllServedIsWhole(upstream, maximum);
    }
  }

  // ----- the redirect loop

  datatype Reply =
    | NetworkError
    | Response(status: nat, location: Option<string>, mimeType: string, declared: Option<int>, body: Option<seq<Read>>)

  predicate IsRedirect(reply: Reply) {
    reply.Response? && reply.status in {301, 302, 303, 307, 308}
  }

  datatype Event = Vetted(url: Url) | Fetched(url: Url)

  /** Resolved addresses, each public or not; no addresses for a lookup that fails. */
  type Answer = seq<bool>

  predicate PublicOnly(answer: Answer) {
    answer != [] && forall public :: public in answer ==> public
  }

  /** What lies outside the process: policy and resolution are fixed, DNS and upstream answer call by call. */
  class Network {
    const allows: Url -> bool
    const resolve: (Url, string) -> Option<Url>
    const answers: seq<Answer>
    const replies: seq<Reply>
    var lookups: nat
    var fetched: seq<Url>
    ghost var log: seq<Event>

    constructor (allows: Url -> bool, resolve: (Url, string) -> Option<Url>, answers: seq<Answer>, replies: seq<Reply>)
      ensures this.allows == allows && this.resolve == resolve && this.answers == answers && this.replies == replies
      ensures lookups == 0 && fetched == [] && log == []
    {
      this.allows, this.resolve, this.answers, this.replies := allows, resolve, answers, replies;
      lookups, fetched, log := 0, [], [];
    }

    function AnswerAt(n: nat): Answer {
      if n < |answers| then answers[n] else []
    }

    function ReplyAt(n: nat): Reply {
      if n < |replies| then replies[n] else NetworkError
    }

    /** `assertDeliveryTargetPolicy` and then `assertPublicDeliveryDns`. */
    method Vet(url: Url) returns (ok: bool)
      modifies `lookups, `log
      ensures ok <==> allows(url) && PublicOnly(AnswerAt(old(lookups)))
      ensures ok ==> lookups == old(lookups) + 1
      ensures log == if ok then old(log) + [Vetted(url)] else old(log)
    {
      if !allows(url) {
        return false;
      }
      var answer := AnswerAt(lookups);
      lookups := lookups + 1;
      ok := PublicOnly(answer);
      if ok {
        log := log + [Vetted(url)];
      }
    }

    method Fetch(url: Url) returns (reply: Reply)
      modifies `fetched, `log
      ensures reply == ReplyAt(|old(fetched)|)
      ensures fetched == old(fetched) + [url] && log == old(log) + [Fetched(url)]
    {
      reply := ReplyAt(|fetched|);
      fetched := fetched + [url];
      log := log + [Fetched(url)];
    }

    /** Where a redirect leads: its location resolved, allowed by the policy and found public by lookup `n`. */
    function NextUrl(from: Url, reply: Reply, n: nat): Option<Url> {
      if !IsRedirect(reply) || reply.location.None? then None
      else
        var next := resolve(from, reply.location.value);
        if next.None? || !allows(next.value) || !PublicOnly(AnswerAt(n)) then None else next
    }

    /** Each URL after the first is where the reply to the one before it redirects to. */
    predicate Chain(target: Url, urls: seq<Url>) {
      var n := |urls| - 1;
      && urls != []
      && if n == 0 then urls[0] == target
         else Chain(target, urls[..n]) && NextUrl(urls[n - 1], ReplyAt(n - 1), n) == Some(urls[n])
    }

    lemma ChainSnoc(target: Url, urls: seq<Url>, next: Url)
      requires Chain(target, urls) && NextUrl(urls[|urls| - 1], ReplyAt(|urls| - 1), |urls|) == Some(next)
      ensures Chain(target, urls + [next])
    {
      assert (urls + [next])[..|urls|] == urls;
    }

    /** A URL that policy allows, of which lookup `n` gives an address and none that is not public. */
    predicate PublicAt(url: Url, n: nat) {
      allows(url) && n < |answers| && |answers[n]| > 0 && forall a :: 0 <= a < |answers[n]| ==> answers[n][a]
    }

    lemma PublicOnlyAt(url: Url, n: nat)
      ensures allows(url) && PublicOnly(AnswerAt(n)) <==> PublicAt(url, n)
    {
      forall a | n < |answers| && 0 <= a < |answers[n]| && PublicOnly(AnswerAt(n))
        ensures answers[n][a]
      {
        var public := answers[n][a];
        assert public in AnswerAt(n);
      }
    }

    /** Reply `n` redirects from `from` to `next`. */
    predicate Leads(n: nat, from: Url, next: Url) {
      && n < |replies| && replies[n].Response?
      && (replies[n].status == 301 || replies[n].status == 302 || replies[n].status == 303
          || replies[n].status == 307 || replies[n].status == 308)
      && replies[n].location.Some?
      && resolve(from, replies[n].location.value) == Some(next)
    }

    lemma NextUrlIff(from: Url, n: nat, next: Url)
      ensures NextUrl(from, ReplyAt(n), n + 1) == Some(next) <==> Leads(n, from, next) && PublicAt(next, n + 1)
    {
      PublicOnlyAt(next, n + 1);
    }

    /** The `i`-th reply leads on to the next URL, which is public. */
    predicate LeadsOn(urls: seq<Url>, i: nat)
      requires i + 1 < |urls|
    {
      Leads(i, urls[i], urls[i + 1]) && PublicAt(urls[i + 1], i + 1)
    }

    /** A chain read from either end: it starts at the target, and each reply but the last leads to a public URL. */
    lemma {:induction false} ChainIff(target: Url, urls: seq<Url>)
      ensures Chain(target, urls) <==>
                && urls != [] && urls[0] == target
                && forall i :: 0 <= i < |urls| - 1 ==> LeadsOn(urls, i)
    {
      if |urls| > 1 {
        var n := |urls| - 1;
        ChainIff(target, urls[..n]);
        NextUrlIff(urls[n - 1], n - 1, urls[n]);
        assert urls[..n] != [] && urls[..n][0] == urls[0];
        assert NextUrl(urls[n - 1], ReplyAt(n - 1), n) == Some(urls[n]) <==> LeadsOn(urls, n - 1);
        assert forall i :: 0 <= i < n - 1 ==> (LeadsOn(urls, i) <==> LeadsOn(urls[..n], i));
      }
    }

    /** Why a chain may end without a final reply. */
    predicate DeadEnd(urls: seq<Url>)
      requires urls != []
    {
      var n := |urls| - 1;
      ReplyAt(n) == NetworkError || (IsRedirect(ReplyAt(n)) && (n == 3 || NextUrl(urls[n], ReplyAt(n), n + 1) == None))
    }

    /** What a chain that ends in a final reply or in a dead end fetched, and why it fetched no more. */
    lemma ChainTells(target: Url, urls: seq<Url>)
      requires Chain(target, urls) && PublicAt(target, 0)
      requires DeadEnd(urls) || !IsRedirect(ReplyAt(|urls| - 1))
      ensures forall i :: 0 <= i < |urls| ==> PublicAt(urls[i], i)
      ensures forall i :: 0 <= i < |urls| - 1 ==> LeadsOn(urls, i)
      ensures |urls| < 4 ==>
                forall next :: Leads(|urls| - 1, urls[|urls| - 1], next) ==> !PublicAt(next, |urls|)
    {
      ChainIff(target, urls);
      forall i | 0 <= i < |urls|
        ensures PublicAt(urls[i], i)
      {
        if i > 0 {
          assert LeadsOn(urls, i - 1);
        }
      }
      forall next | |urls| < 4 && Leads(|urls| - 1, urls[|urls| - 1], next)
        ensures !PublicAt(next, |urls|)
      {
        NextUrlIff(urls[|urls| - 1], |urls| - 1, next);
      }
    }

    /** The part of the redirect loop between one reply and the next fetch. */
    method Redirect(from: Url, reply: Reply) returns (next: Option<Url>)
      requires IsRedirect(reply)
      modifies `lookups, `log
      ensures next == NextUrl(from, reply, old(lookups))
      ensures next.Some? ==> lookups == old(lookups) + 1 && log == old(log) + [Vetted(next.value)]
      ensures next.None? ==> log == old(log)
    {
      if reply.location.None? {
        return None;
      }
      next := resolve(from, reply.location.value);
      if next.None? {
        return None;
      }
      var ok := Vet(next.value);
      if !ok {
        return None;
      }
    }

    /** The redirect loop, entered with a target vetted by the first lookup. */
    method FollowRedirects(target: Url) returns (upstream: Reply)
      requires fetched == [] && log == [Vetted(target)] && lookups == 1
      modifies `lookups, `fetched, `log
      ensures Chain(target, fetched) && |fetched| <= 4 && log == LogOf(fetched)
      ensures upstream.Response? ==> upstream == ReplyAt(|fetched| - 1) && !IsRedirect(upstream)
      ensures upstream == NetworkError ==> DeadEnd(fetched)
      ensures DeadEnd(fetched) || !IsRedirect(ReplyAt(|fetched| - 1))
    {
      var current := target;
      for redirects := 0 to 4
        invariant |fetched| == redirects && lookups == redirects + 1
        invariant redirects < 4 && Chain(target, fetched + [current])
        invariant log == LogOf(fetched) + [Vetted(current)]
      {
        LogSnoc(fetched, current);
        upstream := Fetch(current);
        assert log == LogOf(fetched);
        if upstream == NetworkError || !IsRedirect(upstream) {
          return;
        }
        if redirects == 3 {
          return NetworkError;
        }
        var next := Redirect(current, upstream);
        if next.None? {
          return NetworkError;
        }
        ChainSnoc(target, fetched, next.value);
        current := next.value;
      }
      assert false;
    }
  }

  lemma LogSnoc(urls: seq<Url>, url: Url)
    ensures LogOf(urls + [url]) == LogOf(urls) + [Vetted(url)] + [Fetched(url)]
  {
    assert (urls + [url])[..|urls|] == urls;
  }

  /** The events of a relay that fetched these URLs: each vetted, then fetched, before the next. */
  function LogOf(urls: seq<Url>): seq<Event> {
    if urls == [] then []
    else LogOf(urls[..|urls| - 1]) + [Vetted(urls[|urls| - 1]), Fetched(urls[|urls| - 1])]
  }

  /** Nothing is fetched that was not vetted just before. */
  lemma {:induction false} EveryFetchVetted(urls: seq<Url>, i: nat)
    requires i < |LogOf(urls)| && LogOf(urls)[i].Fetched?
    ensures i > 0 && LogOf(urls)[i - 1] == Vetted(LogOf(urls)[i].url)
  {
    var n := |urls| - 1;
    if i < |LogOf(urls[..n])| {
      EveryFetchVetted(urls[..n], i);
    }
  }

  // ----- serving a redeemed ticket

  datatype RelayPolicy = RelayPolicy(maximumBytes: nat, mimeTypes: set<string>)

  datatype Handoff = Navigate | ServerDownload | ClientProcess

  /** The reviewed policy of the candidate, and whether the candidate is in proxy mode and carries headers. */
  datatype Candidate = Candidate(
    handoff: Handoff,
    relay: Option<RelayPolicy>,
    proxy: bool,
    secretHeaders: bool,
    target: Url)

  datatype Delivery =
    | TargetRejected
    | RelayRejected
    | UpstreamFailed
    | Streamed(body: seq<Bytes>, end: End)
    | Redirected(url: Url)
    | Crashed

  /** The checks between the final reply and the first byte. */
  predicate Deliverable(reply: Reply, relay: RelayPolicy) {
    && reply.Response? && 200 <= reply.status <= 299 && reply.body.Some?
    && reply.mimeType in relay.mimeTypes
    && (reply.declared.Some? ==> 0 < reply.declared.value <= relay.maximumBytes)
  }

  /** Why a ticket may say that a delivery passed. */
  ghost predicate PassedFor(c: Candidate, net: Network, served: Delivery)
    reads net
  {
    if c.handoff == ServerDownload then
      && c.relay.Some? && c.proxy && net.fetched != [] && net.Chain(c.target, net.fetched)
      && Deliverable(net.ReplyAt(|net.fetched| - 1), c.relay.value)
      && served.Streamed?
      && Concatenated(net.ReplyAt(|net.fetched| - 1).body.value) == Some(Flat(served.body))
      && 0 < |Flat(served.body)| <= c.relay.value.maximumBytes
    else net.log == [Vetted(c.target)] && net.fetched == [] && (served == Redirected(c.target) || served == Crashed)
  }

  /** The reader takes a sound body to its end; if recording it as passed throws, a second recording is tried. */
  predicate TakenWhole(reply: Reply, relay: RelayPolicy, consumer: Consumer)
    requires Deliverable(reply, relay)
  {
    && !Stopped(Served(reply.body.value, relay.maximumBytes), consumer)
    && Sound(reply.body.value, reply.declared, relay.maximumBytes)
  }

  /** Streaming a deliverable reply. */
  method Stream(reply: Reply, relay: RelayPolicy, ticket: Ticket, consumer: Consumer, first: Fault, second: Fault)
    returns (body: seq<Bytes>, end: End)
    requires Deliverable(reply, relay) && ticket.validation == None
    modifies ticket
    ensures body == Taken(Served(reply.body.value, relay.maximumBytes), consumer) && |Flat(body)| <= relay.maximumBytes
    ensures ticket.validation ==
        BodyOutcome(reply.body.value, reply.declared, relay.maximumBytes, consumer, first, second)
    ensures ticket.validation == Some(Passed) ==> Concatenated(reply.body.value) == Some(Flat(body)) && Flat(body) != []
    ensures ticket.validation == None <==>
              end == Closed || (first == LostBefore && (TakenWhole(reply, relay, consumer) ==> second == LostBefore))
    ensures ticket.handoff == old(ticket.handoff)
  {
    var upstream, maximum := reply.body.value, relay.maximumBytes;
    PassedMeansWhole(upstream, reply.declared, maximum, consumer, first, second);
    ServedWithinMaximum(upstream, maximum);
    if !consumer.NeverReads? && Stopped(Served(upstream, maximum), consumer) {
      FlatPrefix(Served(upstream, maximum), consumer.at + 1);
    }
    body, end := BoundedBody(upstream, reply.declared, maximum, consumer, ticket, first, second);
  }

  /** The last reply was streamed and taken whole. */
  ghost predicate StreamedWhole(net: Network, relay: RelayPolicy, consumer: Consumer)
    reads net
    requires net.fetched != []
  {
    var reply := net.ReplyAt(|net.fetched| - 1);
    Deliverable(reply, relay) && TakenWhole(reply, relay, consumer)
  }

  /** The relay itself, entered with a vetted target. */
  method Relay(c: Candidate, relay: RelayPolicy, net: Network, ticket: Ticket, consumer: Consumer, first: Fault,
               second: Fault)
    returns (served: Delivery)
    requires c.handoff == ServerDownload && c.proxy && c.relay == Some(relay)
    requires net.fetched == [] && net.log == [Vetted(c.target)] && net.lookups == 1 && ticket.validation == None
    modifies net`lookups, net`fetched, net`log, ticket
    ensures net.Chain(c.target, net.fetched) && |net.fetched| <= 4 && net.log == LogOf(net.fetched)
    ensures net.DeadEnd(net.fetched) || !IsRedirect(net.ReplyAt(|net.fetched| - 1))
    ensures var reply := net.ReplyAt(|net.fetched| - 1);
            if Deliverable(reply, relay) then
              && served.Streamed? && served.body == Taken(Served(reply.body.value, relay.maximumBytes), consumer)
              && ticket.validation ==
                  BodyOutcome(reply.body.value, reply.declared, relay.maximumBytes, consumer, first, second)
            else
              && served == (if first == Works then UpstreamFailed else Crashed)
              && ticket.validation == (if first == LostBefore then None else Some(InternalError))
    ensures served.Streamed? ==> |Flat(served.body)| <= relay.maximumBytes
    ensures ticket.validation == Some(Passed) ==> PassedFor(c, net, served)
    ensures ticket.validation == None <==>
              || (served.Streamed? && served.end == Closed)
              || (first == LostBefore && (StreamedWhole(net, relay, consumer) ==> second == LostBefore))
    ensures ticket.handoff == old(ticket.handoff)
  {
    var upstream := net.FollowRedirects(c.target);
    if !Deliverable(upstream, relay) {
      var threw := ticket.Record(InternalError, false, first);
      return if threw then Crashed else UpstreamFailed;
    }
    var body, end := Stream(upstream, relay, ticket, consumer, first, second);
    return Streamed(body, end);
  }

  /** The first test of a target: no secret headers towards a browser, allowed, and public by the first lookup. */
  predicate Admissible(c: Candidate, net: Network) {
    (!c.secretHeaders || c.handoff == ServerDownload) && net.allows(c.target) && PublicOnly(net.AnswerAt(0))
  }

  /** A whole body was streamed, so a failed recording is followed by another. */
  ghost predicate RecordedTwice(c: Candidate, net: Network, served: Delivery, consumer: Consumer)
    reads net
  {
    served.Streamed? && c.relay.Some? && net.fetched != [] && StreamedWhole(net, c.relay.value, consumer)
  }

  /**
   The target branch of `GET /d/:token` with a ticket that has no outcome yet: nothing is fetched that was
   not vetted just before, at most four fetches are made, no more than the allowed bytes are yielded, and
   the ticket says "passed" only for a whole body or for a redirect to a vetted target.
   */
  method ServeTarget(c: Candidate, net: Network, ticket: Ticket, consumer: Consumer, first: Fault, second: Fault)
    returns (served: Delivery)
    requires net.fetched == [] && net.log == [] && net.lookups == 0 && ticket.validation == None
    modifies net`lookups, net`fetched, net`log, ticket
    ensures !Admissible(c, net) ==>
              && net.log == [] && net.fetched == []
              && served == (if first == Works then TargetRejected else Crashed)
              && ticket.validation == (if first == LostBefore then None else Some(DnsRejected))
    ensures Admissible(c, net) && c.handoff != ServerDownload ==>
              && served == (if first == Works then Redirected(c.target) else Crashed)
              && ticket.validation == (if first == LostBefore then None else Some(Passed))
    ensures Admissible(c, net) && c.handoff == ServerDownload && (c.relay.None? || !c.proxy) ==>
              served == RelayRejected && net.fetched == [] && ticket.validation == None
    ensures Admissible(c, net) && c.handoff == ServerDownload && c.relay.Some? && c.proxy ==>
              && net.fetched != []
              && (served.Streamed? <==> Deliverable(net.ReplyAt(|net.fetched| - 1), c.relay.value))
              && (!served.Streamed? && first != LostBefore ==> ticket.validation == Some(InternalError))
    // the target is rejected before anything is fetched, or it is public and may be handed to a browser
    ensures net.log == [] <==>
              (c.secretHeaders && c.handoff != ServerDownload) || !net.PublicAt(c.target, 0)
    // what is streamed is an answer of success with a body, of an allowed type and not declared too long
    ensures served.Streamed? <==>
              && c.handoff == ServerDownload && c.relay.Some? && c.proxy
              && var n := |net.fetched| - 1;
              && 0 <= n < |net.replies| && net.replies[n].Response?
              && 200 <= net.replies[n].status <= 299 && net.replies[n].body.Some?
              && net.replies[n].mimeType in c.relay.value.mimeTypes
              && (net.replies[n].declared.Some? ==>
                    1 <= net.replies[n].declared.value <= c.relay.value.maximumBytes)
    ensures ticket.validation == Some(Passed) ==> served.Streamed? || c.handoff != ServerDownload
    // every URL fetched is allowed and public, and is where the reply before it leads
    ensures forall i :: 0 <= i < |net.fetched| ==> net.PublicAt(net.fetched[i], i)
    ensures forall i :: 0 <= i < |net.fetched| - 1 ==> net.LeadsOn(net.fetched, i)
    // redirects are followed as long as they lead to a public URL, up to four fetches
    ensures 0 < |net.fetched| < 4 ==>
              forall next :: net.Leads(|net.fetched| - 1, net.fetched[|net.fetched| - 1], next) ==>
                !net.PublicAt(next, |net.fetched|)
    ensures |net.fetched| <= 4
    ensures net.fetched != [] ==>
        c.handoff == ServerDownload && net.Chain(c.target, net.fetched) && net.log == LogOf(net.fetched)
    ensures served.Streamed? ==> c.relay.Some? && |Flat(served.body)| <= c.relay.value.maximumBytes
    ensures served.Redirected? ==> served.url == c.target && net.log == [Vetted(c.target)] && !c.secretHeaders
    ensures ticket.validation == Some(Passed) ==> PassedFor(c, net, served)
    ensures ticket.validation == None <==>
              || served == RelayRejected || (served.Streamed? && served.end == Closed)
              || (first == LostBefore && (RecordedTwice(c, net, served, consumer) ==> second == LostBefore))
    ensures ticket.handoff ==> old(ticket.handoff) || (c.handoff != ServerDownload && net.log == [Vetted(c.target)])
  {
    net.PublicOnlyAt(c.target, 0);
    var ok := false;
    if !c.secretHeaders || c.handoff == ServerDownload {
      ok := net.Vet(c.target);
    }
    if !ok {
      var threw := ticket.Record(DnsRejected, false, first);
      return if threw then Crashed else TargetRejected;
    }
    if c.handoff == ServerDownload {
      if c.relay.None? || !c.proxy {
        return RelayRejected;
      }
      served := Relay(c, c.relay.value, net, ticket, consumer, first, second);
      net.ChainTells(c.target, net.fetched);
      return;
    }
    var threw := ticket.Record(Passed, true, first);
    return if threw then Crashed else Redirected(c.target);
  }
}
