/** The RabbitMQ `BookService` clients of AuthorService and CategoryService:
    each asks BooksService for the books of one author (or category). The
    two files differ only in their queue, their book record and the `Type`
    property (set by the author client only). Unlike BooksService's client,
    replies are matched on the `RequestId` inside the decoded body; the
    `CorrelationId` property of the reply is never read. */
module BookListRpc {
  import opened Common
  import opened Correlation
  import Remote

  /** Length of `Guid.ToString()`: every request id is a GUID of this length. */
  const GuidLength: int := 36

  /** Which of the two services the client lives in. */
  datatype Client = AuthorClient | CategoryClient

  /** A decoded `GetBooksBy*Response`. `books` is `None` for an explicit
      JSON null (a missing list decodes as empty); `requestId` is `None` for
      an explicit null and `Some("")` when the body lacks it. */
  datatype BooksResponse<B> = BooksResponse(books: Option<seq<B>>, requestId: Option<string>)

  /** A delivered reply: the `CorrelationId` property, and the body as
      `JsonConvert` decodes it (`None` when it yields null or throws). */
  datatype Delivery<B> = Delivery(correlationId: Option<string>, body: Option<BooksResponse<B>>)

  function RequestQueue(c: Client): string {
    match c
    case AuthorClient => "books_by_author_requests"
    case CategoryClient => "books_by_category_requests"
  }

  /** The `Type` property: only the author client sets one. */
  function RequestTypeTag(c: Client): Option<string> {
    match c
    case AuthorClient => Some("GetBooksByAuthorRequest")
    case CategoryClient => None
  }

  /** `SendBooksRequestAsync` up to the wait: a new request with a fresh
      GUID `RequestId` is inserted, then published with that id as its
      correlation id. */
  function SendBooksRequest<B>(t: Table<BooksResponse<B>>, c: Client, guid: string, replyTo: string, now: int)
    : (r: Table<BooksResponse<B>>)
    ensures |r.calls| == |t.calls| + 1 && r.log == t.log
    ensures forall d :: 0 <= d < |t.calls| ==> r.calls[d] == t.calls[d]
    ensures guid in r.pending && r.pending[guid] == |t.calls|
    ensures r.calls[|t.calls|].phase == Published(Envelope(guid, replyTo, RequestTypeTag(c), RequestQueue(c)))
    ensures forall k :: k in t.pending && k != guid ==> k in r.pending && r.pending[k] == t.pending[k]
    ensures Inv(t) && Fresh(t, guid) ==> Inv(r)
  {
    SendKeepsInv(t, guid, now, replyTo, RequestTypeTag(c), RequestQueue(c));
    Publish(Register(t, guid, now), |t.calls|, replyTo, RequestTypeTag(c), RequestQueue(c))
  }

  /** `OnResponseReceived`: decode, then `TryGetValue(response.RequestId)`.
      A null body is skipped; a null id makes the lookup throw, which is
      caught. Either way the table is unchanged. */
  function OnResponseReceived<B>(t: Table<BooksResponse<B>>, d: Delivery<B>): (r: Table<BooksResponse<B>>)
    ensures d.body.None? || d.body.value.requestId.None? ==> r == t
    ensures d.body.Some? && d.body.value.requestId.Some? ==> r == Deliver(t, d.body.value.requestId, d.body.value)
  {
    match d.body
    case None => t
    case Some(resp) => if resp.requestId.None? then t else Deliver(t, resp.requestId, resp)
  }

  /** `GetBooksBy*Async`: the reply's books, or an empty list when the
      reply's list is null. */
  function AwaitBooks<B>(o: Outcome<BooksResponse<B>>): (r: Remote.Result<seq<B>>)
    ensures o.TimedOut? <==> r == Remote.Faulted(Remote.ReplyTimeout)
    ensures o.Replied? && o.payload.books.Some? ==> r == Remote.Ok(o.payload.books.value)
    ensures o.Replied? && o.payload.books.None? ==> r == Remote.Ok([])
  {
    match o
    case TimedOut => Remote.Faulted(Remote.ReplyTimeout)
    case Replied(resp) => Remote.Ok(resp.books.GetOr([]))
  }

  /** `GetBooksCountBy*Async`: the number of books in the reply, or 0. */
  function AwaitCount<B>(o: Outcome<BooksResponse<B>>): (r: Remote.Result<int>)
    ensures o.TimedOut? <==> r == Remote.Faulted(Remote.ReplyTimeout)
    ensures o.Replied? ==> r.Ok? && r.value >= 0
    ensures o.Replied? && o.payload.books.None? ==> r == Remote.Ok(0)
  {
    match o
    case TimedOut => Remote.Faulted(Remote.ReplyTimeout)
    case Replied(resp) => Remote.Ok(if resp.books.Some? then |resp.books.value| else 0)
  }

  // ---------------------------------------------------------------------
  // Properties
  // ---------------------------------------------------------------------

  /** The count a reply yields is the length of the list the same reply
      yields. */
  lemma CountIsLengthOfList<B>(o: Outcome<BooksResponse<B>>)
    ensures AwaitBooks(o).Ok? <==> AwaitCount(o).Ok?
    ensures AwaitBooks(o).Ok? ==> AwaitCount(o).value == |AwaitBooks(o).value|
  {
  }

  /** The reply is matched on the body's id: the `CorrelationId` property
      makes no difference. */
  lemma CorrelationIdPropertyIgnored<B>(t: Table<BooksResponse<B>>, h1: Option<string>, h2: Option<string>,
                                       body: Option<BooksResponse<B>>)
    ensures OnResponseReceived(t, Delivery(h1, body)) == OnResponseReceived(t, Delivery(h2, body))
  {
  }

  /** A reply whose body lacks `RequestId` carries "", which is never a
      pending GUID, so it is dropped and the table is unchanged. */
  lemma MissingRequestIdDropped<B>(t: Table<BooksResponse<B>>, h: Option<string>, books: Option<seq<B>>)
    requires Inv(t)
    requires forall c :: 0 <= c < |t.calls| ==> |t.calls[c].id| == GuidLength
    ensures OnResponseReceived(t, Delivery(h, Some(BooksResponse(books, Some(""))))) == t
  {
  }

  /** A request answered with its own id yields that reply's books; a
      second copy of the reply is then dropped. */
  lemma BooksRoundTrip<B>(t: Table<BooksResponse<B>>, c: Client, guid: string, replyTo: string, now: int,
                          h: Option<string>, books: seq<B>)
    requires Inv(t) && Fresh(t, guid)
    ensures var sent := SendBooksRequest(t, c, guid, replyTo, now);
      var resp := BooksResponse(Some(books), Some(guid));
      var got := OnResponseReceived(sent, Delivery(h, Some(resp)));
      && got.calls[|t.calls|].outcome.Some?
      && AwaitBooks(got.calls[|t.calls|].outcome.value) == Remote.Ok(books)
      && OnResponseReceived(got, Delivery(h, Some(resp))) == got
  {
    var sent := SendBooksRequest(t, c, guid, replyTo, now);
    var resp := BooksResponse(Some(books), Some(guid));
    ReplyAfterPublishFindsWaiter(t, guid, now, replyTo, RequestTypeTag(c), RequestQueue(c), resp);
    RegisterInv(t, guid, now);
    PublishInv(Register(t, guid, now), |t.calls|, replyTo, RequestTypeTag(c), RequestQueue(c));
    DuplicateReplyDropped(sent, guid, resp, resp);
    assert OnResponseReceived(sent, Delivery(h, Some(resp))) == Deliver(sent, Some(guid), resp);
  }

  /** Listing and counting each send their own request: after both, two
      distinct calls are waiting, each under its own GUID. */
  lemma ListAndCountAreSeparateRequests<B>(t: Table<BooksResponse<B>>, c: Client, g1: string, g2: string,
                                           replyTo: string, now: int)
    requires Inv(t) && Fresh(t, g1) && Fresh(t, g2) && g1 != g2
    ensures var r := SendBooksRequest(SendBooksRequest(t, c, g1, replyTo, now), c, g2, replyTo, now);
      && |r.calls| == |t.calls| + 2
      && g1 in r.pending && g2 in r.pending
      && r.pending[g1] == |t.calls| && r.pending[g2] == |t.calls| + 1
  {
  }
}
