/**
 * An Azure container: every request has a deadline of its own, which lives as long as the answer and goes with it; a
 * paged listing is whole or is not reported. An exception is the error of a result.
 */
module AzureBlobTarget {
  import opened Results
  import Retention

  datatype Exception = Http(message: string) | Canceled | Other

  datatype Request = Put(name: string) | Head(name: string) | Delete(name: string) | Page(marker: string)

  datatype Why = Unreachable(message: string) | TooSlow | Answered(said: string) | Unreadable | Unchecked(why: Why)
    | WrongLength(stored: int)

  /** What a request comes to at the service: an exception instead of an answer, or headers and then a body. */
  datatype Said =
    | Unreached(e: Exception)
    | Reached(success: bool, length: Option<int>, body: Result<string, Exception>)

  /** Whether the caller has cancelled by the time an exception of this request is looked at. */
  datatype Reply = Reply(said: Said, cancelled: bool)

  datatype PageRead = PageRead(archives: seq<Retention.RemoteArchive>, next: string)

  /** The service's reply to the n-th request, and what the listing's XML says, if it is XML. */
  datatype Service = Service(reply: (nat, Request) -> Reply, parse: string -> Option<PageRead>)

  // ----- The outcomes -----

  /** Reported as an outcome: the connection failed, or something other than the caller gave up waiting. */
  predicate Expected(e: Exception, cancelled: bool) { e.Http? || (e.Canceled? && !cancelled) }

  function Trouble(e: Exception): Why { if e.Http? then Unreachable(e.message) else TooSlow }

  /** An expected exception is an outcome; any other, the caller's own cancellation first of all, is thrown on. */
  function Caught<T>(r: Result<T, Exception>, cancelled: bool): Result<Result<T, Why>, Exception> {
    match r
    case Ok(value) => Ok(Ok(value))
    case Err(e) => if Expected(e, cancelled) then Ok(Err(Trouble(e))) else Err(e)
  }

  /** What trying a request gives: the headers of a success, or why not. */
  function Tried(reply: Reply): Result<Result<Said, Why>, Exception> {
    match reply.said
    case Unreached(e) => Caught(Err(e), reply.cancelled)
    case Reached(true, _, _) => Ok(Ok(reply.said))
    case Reached(false, _, body) =>
      match Caught(body, reply.cancelled)
      case Err(e) => Err(e)
      case Ok(Err(why)) => Ok(Err(why))
      case Ok(Ok(said)) => Ok(Err(Answered(said)))
  }

  datatype Outcome = Fine | Failed(why: Why)

  function Sent(reply: Reply): Result<Outcome, Exception> {
    match Tried(reply)
    case Err(e) => Err(e)
    case Ok(Err(why)) => Ok(Failed(why))
    case Ok(Ok(_)) => Ok(Fine)
  }

  function Verified(reply: Reply, length: nat): Result<Outcome, Exception> {
    match Tried(reply)
    case Err(e) => Err(e)
    case Ok(Err(why)) => Ok(Failed(Unchecked(why)))
    case Ok(Ok(said)) =>
      if said.Reached? && said.length == Some(length) then Ok(Fine)
      else Ok(Failed(WrongLength(if said.Reached? && said.length.Some? then said.length.value else -1)))
  }

  function Stored(service: Service, n: nat, name: string, length: nat): Result<Outcome, Exception> {
    var put := Sent(service.reply(n, Put(name)));
    if put == Ok(Fine) then Verified(service.reply(n + 1, Head(name)), length) else put
  }

  function Paged(service: Service, n: nat, marker: string): Result<Result<PageRead, Why>, Exception> {
    var reply := service.reply(n, Page(marker));
    match Tried(reply)
    case Err(e) => Err(e)
    case Ok(Err(why)) => Ok(Err(why))
    case Ok(Ok(said)) =>
      if !said.Reached? then Ok(Err(Unreadable))
      else match Caught(said.body, reply.cancelled)
           case Err(e) => Err(e)
           case Ok(Err(why)) => Ok(Err(why))
           case Ok(Ok(text)) => match service.parse(text) { case Some(page) => Ok(Ok(page)) case None => Ok(Err(Unreadable)) }
  }

  predicate Continues(page: Result<Result<PageRead, Why>, Exception>) {
    page.Ok? && page.value.Ok? && page.value.value.next != ""
  }

  /** The chain of markers from this one comes to an end, or to a page that does not arrive. */
  predicate EndsWithin(service: Service, n: nat, marker: string, pages: nat)
    decreases pages
  {
    pages > 0
    && var page := Paged(service, n, marker);
       Continues(page) ==> EndsWithin(service, n + 1, page.value.value.next, pages - 1)
  }

  type Listing = Result<Result<seq<Retention.RemoteArchive>, Why>, Exception>

  function Prefixed(found: seq<Retention.RemoteArchive>, rest: Listing): Listing {
    if rest.Ok? && rest.value.Ok? then Ok(Ok(found + rest.value.value)) else rest
  }

  lemma PrefixedNothing(rest: Listing)
    ensures Prefixed([], rest) == rest
  {
    if rest.Ok? && rest.value.Ok? { assert [] + rest.value.value == rest.value.value; }
  }

  lemma PrefixedTwice(a: seq<Retention.RemoteArchive>, b: seq<Retention.RemoteArchive>, rest: Listing)
    ensures Prefixed(a, Prefixed(b, rest)) == Prefixed(a + b, rest)
  {
    if rest.Ok? && rest.value.Ok? { assert a + (b + rest.value.value) == a + b + rest.value.value; }
  }

  function Listed(service: Service, n: nat, marker: string, pages: nat): Listing
    requires EndsWithin(service, n, marker, pages)
    decreases pages
  {
    match Paged(service, n, marker)
    case Err(e) => Err(e)
    case Ok(Err(why)) => Ok(Err(why))
    case Ok(Ok(page)) =>
      if page.next == "" then Ok(Ok(page.archives))
      else Prefixed(page.archives, Listed(service, n + 1, page.next, pages - 1))
  }

  // ----- What the outcomes mean -----

  /** The exception a request raises, if any; a success's body is read only when it is wanted. */
  function Raised(reply: Reply, wantsBody: bool): Option<Exception> {
    match reply.said
    case Unreached(e) => Some(e)
    case Reached(success, _, body) => if (wantsBody || !success) && body.Err? then Some(body.error) else None
  }

  /** Raised, and neither a failure to connect nor a deadline of this client's own. */
  predicate ThrownOn(reply: Reply, wantsBody: bool, e: Exception) {
    Raised(reply, wantsBody) == Some(e) && (e == Other || (e == Canceled && reply.cancelled))
  }

  /** Why a request was not a success: no connection, no answer in time, or an answer that says so. */
  predicate FailedFor(reply: Reply, wantsBody: bool, why: Why) {
    match why
    case Unreachable(message) => Raised(reply, wantsBody) == Some(Http(message))
    case TooSlow => Raised(reply, wantsBody) == Some(Canceled) && !reply.cancelled
    case Answered(said) => reply.said.Reached? && !reply.said.success && reply.said.body == Ok(said)
    case _ => false
  }

  /**
   * What leaves as an exception is what was raised and not expected: a failure to connect never, a cancellation only
   * the caller's.
   */
  lemma ThrownExactly(service: Service, n: nat, name: string, length: nat, marker: string, e: Exception)
    ensures Sent(service.reply(n, Put(name))) == Err(e) <==> ThrownOn(service.reply(n, Put(name)), false, e)
    ensures Verified(service.reply(n, Head(name)), length) == Err(e) <==> ThrownOn(service.reply(n, Head(name)), false, e)
    ensures Paged(service, n, marker) == Err(e) <==> ThrownOn(service.reply(n, Page(marker)), true, e)
  {
  }

  /** Each outcome that is not a success says which of the three it was, or, of a page, that it could not be read. */
  lemma FailedExactly(service: Service, n: nat, name: string, length: nat, marker: string, why: Why)
    ensures Sent(service.reply(n, Put(name))) == Ok(Failed(why)) <==> FailedFor(service.reply(n, Put(name)), false, why)
    ensures Verified(service.reply(n, Head(name)), length) == Ok(Failed(Unchecked(why)))
      <==> FailedFor(service.reply(n, Head(name)), false, why)
    ensures Paged(service, n, marker) == Ok(Err(why)) <==>
      || FailedFor(service.reply(n, Page(marker)), true, why)
      || (why == Unreadable
          && var said := service.reply(n, Page(marker)).said;
             said.Reached? && said.success && said.body.Ok? && service.parse(said.body.value) == None)
  {
  }

  /** A success whose length is not the one sent is told with the length stored, or with -1 when there is none. */
  lemma WrongLengthExactly(reply: Reply, length: nat, stored: int)
    ensures Verified(reply, length) == Ok(Failed(WrongLength(stored))) <==>
      && reply.said.Reached? && reply.said.success && reply.said.length != Some(length)
      && stored == if reply.said.length.Some? then reply.said.length.value else -1
  {
  }

  /** An upload is fine exactly when both answers were successes and the stored blob has the length that was sent. */
  lemma StoredExactly(service: Service, n: nat, name: string, length: nat)
    ensures !(service.reply(n, Put(name)).said.Reached? && service.reply(n, Put(name)).said.success) ==>
      Stored(service, n, name, length) == Sent(service.reply(n, Put(name)))
    ensures service.reply(n, Put(name)).said.Reached? && service.reply(n, Put(name)).said.success ==>
      Stored(service, n, name, length) == Verified(service.reply(n + 1, Head(name)), length)
    ensures Stored(service, n, name, length) == Ok(Fine) <==>
      && service.reply(n, Put(name)).said.Reached? && service.reply(n, Put(name)).said.success
      && service.reply(n + 1, Head(name)).said.Reached? && service.reply(n + 1, Head(name)).said.success
      && service.reply(n + 1, Head(name)).said.length == Some(length)
  {
  }

  /** The service answered this request with success, its body came, and it reads as this page. */
  predicate Arrives(service: Service, n: nat, marker: string, page: PageRead) {
    var said := service.reply(n, Page(marker)).said;
    said.Reached? && said.success && said.body.Ok? && service.parse(said.body.value) == Some(page)
  }

  lemma ArrivesExactly(service: Service, n: nat, marker: string, page: PageRead)
    ensures Paged(service, n, marker) == Ok(Ok(page)) <==> Arrives(service, n, marker, page)
  {
  }

  /** All the pages of a listing: each under the marker of the one before, and the last with none. */
  predicate Chain(service: Service, n: nat, marker: string, pages: seq<PageRead>)
    decreases |pages|
  {
    pages != [] && Arrives(service, n, marker, pages[0])
    && if pages[0].next == "" then |pages| == 1 else Chain(service, n + 1, pages[0].next, pages[1..])
  }

  /** Pages that arrived, each with a next one, and then one that did not. */
  predicate Broken(service: Service, n: nat, marker: string, pages: seq<PageRead>, last: Listing)
    decreases |pages|
  {
    if pages == [] then
      match Paged(service, n, marker)
      case Err(e) => last == Err(e)
      case Ok(Err(why)) => last == Ok(Err(why))
      case Ok(Ok(_)) => false
    else
      && Arrives(service, n, marker, pages[0]) && pages[0].next != ""
      && Broken(service, n + 1, pages[0].next, pages[1..], last)
  }

  function ArchivesOf(pages: seq<PageRead>): seq<Retention.RemoteArchive> {
    if pages == [] then [] else pages[0].archives + ArchivesOf(pages[1..])
  }

  lemma {:induction false} AChainIsListed(service: Service, n: nat, marker: string, fuel: nat, pages: seq<PageRead>)
    requires EndsWithin(service, n, marker, fuel) && Chain(service, n, marker, pages)
    ensures Listed(service, n, marker, fuel) == Ok(Ok(ArchivesOf(pages)))
    decreases |pages|
  {
    if pages[0].next == "" {
      assert pages[1..] == [];
      assert ArchivesOf(pages) == pages[0].archives;
    } else {
      AChainIsListed(service, n + 1, pages[0].next, fuel - 1, pages[1..]);
    }
  }

  lemma {:induction false} ABreakIsListed(service: Service, n: nat, marker: string, fuel: nat, pages: seq<PageRead>, last: Listing)
    requires EndsWithin(service, n, marker, fuel) && Broken(service, n, marker, pages, last)
    ensures Listed(service, n, marker, fuel) == last && !(last.Ok? && last.value.Ok?)
    decreases |pages|
  {
    if pages != [] {
      ABreakIsListed(service, n + 1, pages[0].next, fuel - 1, pages[1..], last);
    }
  }

  lemma {:induction false} ListingIsWholeOrBroken(service: Service, n: nat, marker: string, fuel: nat)
    returns (pages: seq<PageRead>)
    requires EndsWithin(service, n, marker, fuel)
    ensures Chain(service, n, marker, pages) || Broken(service, n, marker, pages, Listed(service, n, marker, fuel))
    decreases fuel
  {
    match Paged(service, n, marker)
    case Err(e) => pages := [];
    case Ok(Err(why)) => pages := [];
    case Ok(Ok(page)) =>
      if page.next == "" {
        pages := [page];
      } else {
        var rest := ListingIsWholeOrBroken(service, n + 1, page.next, fuel - 1);
        pages := [page] + rest;
        assert pages[1..] == rest;
        if Broken(service, n + 1, page.next, rest, Listed(service, n + 1, page.next, fuel - 1)) {
          ABreakIsListed(service, n + 1, page.next, fuel - 1, rest, Listed(service, n + 1, page.next, fuel - 1));
        }
      }
  }

  /**
   * A listing is reported exactly when every page arrived and could be read, and is then the pages' archives in
   * order; otherwise what it gives is the first page that did not arrive, and no archive.
   */
  lemma ListedExactly(service: Service, n: nat, marker: string, fuel: nat, r: Listing)
    requires EndsWithin(service, n, marker, fuel)
    ensures Listed(service, n, marker, fuel) == r <==>
      if r.Ok? && r.value.Ok? then exists pages :: Chain(service, n, marker, pages) && r.value.value == ArchivesOf(pages)
      else exists pages :: Broken(service, n, marker, pages, r)
  {
    hide ArchivesOf;
    var pages := ListingIsWholeOrBroken(service, n, marker, fuel);
    if Chain(service, n, marker, pages) {
      AChainIsListed(service, n, marker, fuel, pages);
    } else {
      ABreakIsListed(service, n, marker, fuel, pages, Listed(service, n, marker, fuel));
    }
    forall other | Chain(service, n, marker, other)
      ensures Listed(service, n, marker, fuel) == Ok(Ok(ArchivesOf(other)))
    {
      AChainIsListed(service, n, marker, fuel, other);
    }
    forall other | Broken(service, n, marker, other, r)
      ensures Listed(service, n, marker, fuel) == r && !(r.Ok? && r.value.Ok?)
    {
      ABreakIsListed(service, n, marker, fuel, other, r);
    }
  }

  // ----- When a listing ends -----

  /** The page did not come: no success, no body, or nothing that can be read. */
  predicate Missing(service: Service, n: nat, marker: string) {
    var said := service.reply(n, Page(marker)).said;
    !(said.Reached? && said.success && said.body.Ok? && service.parse(said.body.value).Some?)
  }

  /** Pages that arrived, each naming a next one, and then one that did not come. */
  predicate Stops(service: Service, n: nat, marker: string, pages: seq<PageRead>)
    decreases |pages|
  {
    if pages == [] then Missing(service, n, marker)
    else
      && Arrives(service, n, marker, pages[0]) && pages[0].next != ""
      && Stops(service, n + 1, pages[0].next, pages[1..])
  }

  lemma MissingExactly(service: Service, n: nat, marker: string)
    ensures Missing(service, n, marker) <==> !(Paged(service, n, marker).Ok? && Paged(service, n, marker).value.Ok?)
  {
  }

  lemma {:induction false} BrokenStops(service: Service, n: nat, marker: string, pages: seq<PageRead>, last: Listing)
    requires Broken(service, n, marker, pages, last)
    ensures Stops(service, n, marker, pages)
    decreases |pages|
  {
    if pages == [] {
      MissingExactly(service, n, marker);
    } else {
      BrokenStops(service, n + 1, pages[0].next, pages[1..], last);
    }
  }

  lemma {:induction false} PagesEnd(service: Service, n: nat, marker: string, pages: seq<PageRead>)
    requires Chain(service, n, marker, pages) || Stops(service, n, marker, pages)
    ensures EndsWithin(service, n, marker, |pages| + 1)
    decreases |pages|
  {
    if pages == [] {
      MissingExactly(service, n, marker);
    } else {
      ArrivesExactly(service, n, marker, pages[0]);
      if pages[0].next != "" { PagesEnd(service, n + 1, pages[0].next, pages[1..]); }
    }
  }

  /** The listing's loop comes to an end from this marker. */
  ghost predicate Ends(service: Service, n: nat, marker: string) {
    exists fuel: nat :: EndsWithin(service, n, marker, fuel)
  }

  /** The pages from this marker run out: the last of them names no next, or the one after them does not come. */
  ghost predicate RunsOut(service: Service, n: nat, marker: string, pages: seq<PageRead>) {
    Chain(service, n, marker, pages) || Stops(service, n, marker, pages)
  }

  lemma EndingRunsOut(service: Service, n: nat, marker: string, fuel: nat) returns (pages: seq<PageRead>)
    requires EndsWithin(service, n, marker, fuel)
    ensures RunsOut(service, n, marker, pages)
  {
    pages := ListingIsWholeOrBroken(service, n, marker, fuel);
    if !Chain(service, n, marker, pages) {
      BrokenStops(service, n, marker, pages, Listed(service, n, marker, fuel));
    }
  }

  /** The loop ends exactly when the pages do: with one that names no next, or with one that does not come. */
  lemma EndsExactly(service: Service, n: nat, marker: string)
    ensures Ends(service, n, marker) <==> exists pages :: RunsOut(service, n, marker, pages)
  {
    if Ends(service, n, marker) {
      var fuel: nat :| EndsWithin(service, n, marker, fuel);
      var pages := EndingRunsOut(service, n, marker, fuel);
    }
    if pages :| RunsOut(service, n, marker, pages) {
      PagesEnd(service, n, marker, pages);
    }
  }

  /** Whenever this marker is asked for, the page that comes names it again. */
  ghost predicate NamesItself(service: Service, n: nat, marker: string) {
    exists page :: Arrives(service, n, marker, page) && page.next == marker
  }

  lemma {:induction false} ARepeatedMarkerNeverEnds(service: Service, n: nat, marker: string, fuel: nat)
    requires marker != ""
    requires forall k: nat :: Paged(service, k, marker).Ok? && Paged(service, k, marker).value.Ok?
                              && Paged(service, k, marker).value.value.next == marker
    ensures !EndsWithin(service, n, marker, fuel)
    decreases fuel
  {
    assert Continues(Paged(service, n, marker));
    if fuel > 0 { ARepeatedMarkerNeverEnds(service, n + 1, marker, fuel - 1); }
  }

  /** A service whose first page names a marker that goes on naming itself is asked for ever, and no page ends it. */
  lemma AListingMayNeverEnd(service: Service, n: nat, marker: string, first: PageRead)
    requires Arrives(service, n, "", first) && first.next == marker != ""
    requires forall k: nat :: NamesItself(service, k, marker)
    ensures !Ends(service, n, "")
    ensures forall pages :: !RunsOut(service, n, "", pages)
  {
    forall k: nat
      ensures Paged(service, k, marker).Ok? && Paged(service, k, marker).value.Ok?
      ensures Paged(service, k, marker).value.value.next == marker
    {
      assert NamesItself(service, k, marker);
      var page :| Arrives(service, k, marker, page) && page.next == marker;
      ArrivesExactly(service, k, marker, page);
    }
    ArrivesExactly(service, n, "", first);
    forall fuel: nat ensures !EndsWithin(service, n, "", fuel) {
      if fuel > 0 { ARepeatedMarkerNeverEnds(service, n + 1, marker, fuel - 1); }
    }
    EndsExactly(service, n, "");
  }

  // ----- What is owned -----

  class CancellationSource {
    var disposed: bool

    constructor ()
      ensures !disposed
    {
      disposed := false;
    }

    method Dispose()
      modifies this
      ensures disposed
    {
      disposed := true;
    }
  }

  class Response {
    const said: Said
    var disposed: bool

    constructor (said: Said)
      ensures this.said == said && !disposed
    {
      this.said, disposed := said, false;
    }

    /** Fetches what follows the headers; whoever calls holds both the response and its deadline undisposed. */
    method ReadBody(deadline: CancellationSource) returns (r: Result<string, Exception>)
      requires said.Reached? && !disposed && !deadline.disposed
      ensures r == said.body
    {
      r := said.body;
    }

    method Dispose()
      modifies this
      ensures disposed
    {
      disposed := true;
    }
  }

  /** What a try comes back with, and what its holder has to release. */
  datatype Answer = Answer(message: Option<Response>, failure: Option<Why>, source: Option<CancellationSource>)

  method Release(a: Answer)
    modifies (if a.message.Some? then {a.message.value} else {}), (if a.source.Some? then {a.source.value} else {})
    ensures a.message.Some? ==> a.message.value.disposed
    ensures a.source.Some? ==> a.source.value.disposed
  {
    if a.message.Some? { a.message.value.Dispose(); }
    if a.source.Some? { a.source.value.Dispose(); }
  }

  class Target {
    const service: Service
    var asked: nat
    ghost var sources: set<CancellationSource>
    ghost var responses: set<Response>

    constructor (service: Service)
      ensures this.service == service && asked == 0 && sources == {} && responses == {}
    {
      this.service, asked, sources, responses := service, 0, {}, {};
    }

    /** Everything opened since has been given back. */
    twostate predicate AllGivenBack()
      reads this, sources, responses
    {
      && old(sources) <= sources && old(responses) <= responses
      && (forall s | s in sources - old(sources) :: s.disposed)
      && (forall r | r in responses - old(responses) :: r.disposed)
    }

    method HttpSend(request: Request, deadline: CancellationSource) returns (r: Result<Response, Exception>)
      requires !deadline.disposed
      modifies this
      ensures asked == old(asked) + 1 && sources == old(sources)
      ensures var said := service.reply(old(asked), request).said;
        match r
        case Err(e) => said == Unreached(e) && responses == old(responses)
        case Ok(response) => said.Reached? && fresh(response) && response.said == said && !response.disposed
                             && responses == old(responses) + {response}
    {
      var said := service.reply(asked, request).said;
      asked := asked + 1;
      match said
      case Unreached(e) => r := Err(e);
      case Reached(_, _, _) =>
        var response := new Response(said);
        responses := responses + {response};
        r := Ok(response);
    }

    /** On success the caller's deadline belongs to the answer; on an exception no response is left undisposed. */
    method AnsweredAsync(request: Request, deadline: CancellationSource) returns (r: Result<Answer, Exception>)
      requires !deadline.disposed
      modifies this, deadline
      ensures asked == old(asked) + 1 && sources == old(sources) && old(responses) <= responses
      ensures match r
        case Err(_) => forall x | x in responses - old(responses) :: x.disposed
        case Ok(a) =>
          && a.source == Some(deadline) && !deadline.disposed
          && a.message.Some? && fresh(a.message.value) && !a.message.value.disposed
          && a.message.value.said == service.reply(old(asked), request).said
          && responses == old(responses) + {a.message.value}
      ensures match service.reply(old(asked), request).said
        case Unreached(e) => r == Err(e)
        case Reached(true, _, _) => r.Ok? && r.value.failure == None
        case Reached(false, _, Err(e)) => r == Err(e)
        case Reached(false, _, Ok(said)) => r.Ok? && r.value.failure == Some(Answered(said))
    {
      var sent := HttpSend(request, deadline);
      match sent
      case Err(e) => r := Err(e);
      case Ok(response) =>
        var answer := Answer(Some(response), None, Some(deadline));
        if response.said.success {
          r := Ok(answer);
        } else {
          var body := response.ReadBody(deadline);
          match body
          case Ok(said) => r := Ok(answer.(failure := Some(Answered(said))));
          case Err(e) =>
            Release(answer);
            r := Err(e);
        }
    }

    /** An answer owns what was opened for it; without one, everything opened has been given back. */
    method TrySendAsync(request: Request) returns (r: Result<Answer, Exception>)
      modifies this
      ensures asked == old(asked) + 1
      ensures match r
        case Err(_) => AllGivenBack()
        case Ok(Answer(None, failure, source)) => failure.Some? && source == None && AllGivenBack()
        case Ok(Answer(Some(message), _, source)) =>
          && source.Some? && fresh(message) && fresh(source.value) && !message.disposed && !source.value.disposed
          && message.said == service.reply(old(asked), request).said && message.said.Reached?
          && sources == old(sources) + {source.value} && responses == old(responses) + {message}
      ensures match Tried(service.reply(old(asked), request))
        case Err(e) => r == Err(e)
        case Ok(Err(why)) => r.Ok? && r.value.failure == Some(why)
        case Ok(Ok(said)) => r.Ok? && r.value.failure == None && r.value.message.Some?
    {
      var reply := service.reply(asked, request);
      var deadline := new CancellationSource();
      sources := sources + {deadline};
      var answered := AnsweredAsync(request, deadline);
      match answered
      case Ok(answer) => r := Ok(answer);
      case Err(e) =>
        deadline.Dispose();
        r := if Expected(e, reply.cancelled) then Ok(Answer(None, Some(Trouble(e)), None)) else Err(e);
    }

    /** A request whose success is all that is asked of it. */
    method SendAsync(request: Request) returns (r: Result<Outcome, Exception>)
      modifies this
      ensures asked == old(asked) + 1 && AllGivenBack()
      ensures r == Sent(service.reply(old(asked), request))
    {
      var response := TrySendAsync(request);
      match response
      case Err(e) => r := Err(e);
      case Ok(answer) =>
        r := Ok(if answer.failure.Some? then Failed(answer.failure.value) else Fine);
        Release(answer);
    }

    /** The stored blob is asked for, and is as long as what was sent. */
    method VerifiedAsync(name: string, length: nat) returns (r: Result<Outcome, Exception>)
      modifies this
      ensures asked == old(asked) + 1 && AllGivenBack()
      ensures r == Verified(service.reply(old(asked), Head(name)), length)
    {
      var response := TrySendAsync(Head(name));
      match response
      case Err(e) => r := Err(e);
      case Ok(answer) =>
        if answer.failure.Some? {
          r := Ok(Failed(Unchecked(answer.failure.value)));
        } else {
          var stored := if answer.message.value.said.length.Some? then answer.message.value.said.length.value else -1;
          r := Ok(if stored == length then Fine else Failed(WrongLength(stored)));
        }
        Release(answer);
    }

    method PutAsync(name: string, length: nat) returns (r: Result<Outcome, Exception>)
      modifies this
      ensures AllGivenBack()
      ensures r == Stored(service, old(asked), name, length)
      ensures asked == old(asked) + if Sent(service.reply(old(asked), Put(name))) == Ok(Fine) then 2 else 1
    {
      var put := SendAsync(Put(name));
      if put == Ok(Fine) {
        r := VerifiedAsync(name, length);
      } else {
        r := put;
      }
    }

    /** The text after the headers of a success, or the outcome of an expected exception. */
    method BodyAsync(answer: Answer, ghost reply: Reply, cancelled: bool) returns (r: Result<Result<string, Why>, Exception>)
      requires answer.message.Some? && !answer.message.value.disposed && answer.message.value.said == reply.said
      requires answer.source.Some? && !answer.source.value.disposed
      requires reply.said.Reached? && cancelled == reply.cancelled
      ensures r == Caught(reply.said.body, reply.cancelled)
    {
      var body := answer.message.value.ReadBody(answer.source.value);
      match body
      case Ok(text) => r := Ok(Ok(text));
      case Err(e) => r := if Expected(e, cancelled) then Ok(Err(Trouble(e))) else Err(e);
    }

    method PageAsync(marker: string) returns (r: Result<Result<PageRead, Why>, Exception>)
      modifies this
      ensures asked == old(asked) + 1 && AllGivenBack()
      ensures r == Paged(service, old(asked), marker)
    {
      var reply := service.reply(asked, Page(marker));
      var response := TrySendAsync(Page(marker));
      match response
      case Err(e) => r := Err(e);
      case Ok(answer) =>
        if answer.failure.Some? {
          r := Ok(Err(answer.failure.value));
        } else {
          var body := BodyAsync(answer, reply, reply.cancelled);
          match body
          case Err(e) => r := Err(e);
          case Ok(Err(why)) => r := Ok(Err(why));
          case Ok(Ok(text)) =>
            var page := service.parse(text);
            r := Ok(if page.Some? then Ok(page.value) else Err(Unreadable));
        }
        Release(answer);
    }

    /** The pages one after another until one has no next; nothing of a listing with a page missing. */
    method ListAsync(ghost pages: nat) returns (r: Result<Result<seq<Retention.RemoteArchive>, Why>, Exception>)
      requires EndsWithin(service, asked, "", pages)
      modifies this
      ensures AllGivenBack()
      ensures r == Listed(service, old(asked), "", pages)
    {
      var found, marker := [], "";
      var more := true;
      ghost var left := pages;
      PrefixedNothing(Listed(service, asked, "", pages));
      while more
        invariant more ==> EndsWithin(service, asked, marker, left)
        invariant AllGivenBack()
        invariant Listed(service, old(asked), "", pages)
               == if more then Prefixed(found, Listed(service, asked, marker, left)) else Ok(Ok(found))
        decreases left, more
      {
        var page := PageAsync(marker);
        match page
        case Err(e) => return Err(e);
        case Ok(Err(why)) => return Ok(Err(why));
        case Ok(Ok(read)) =>
          if read.next != "" {
            PrefixedTwice(found, read.archives, Listed(service, asked, read.next, left - 1));
          }
          found := found + read.archives;
          marker := read.next;
          more := marker != "";
          left := left - 1;
      }
      r := Ok(Ok(found));
    }
  }
}
