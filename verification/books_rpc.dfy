/** BooksService's RabbitMQ client: asks CategoryService whether a category
    exists and AuthorService whether an author exists. Both requests share
    one pending table; replies are matched on the `CorrelationId` message
    property and decoded according to the `Type` property. */
module BooksRpc {
  import opened Common
  import opened Correlation
  import Remote

  const CategoryRequestQueue: string := "category_exists_requests"
  const AuthorRequestQueue: string := "author_exists_requests"
  const CategoryResponseTag: string := "CategoryExistsResponse"
  const AuthorResponseTag: string := "AuthorExistsResponse"

  /** The two requests. Each gets a new GUID `RequestId` when constructed. */
  datatype Request =
    | CategoryExistsRequest(categoryId: int, requestId: string)
    | AuthorExistsRequest(authorId: int, requestId: string)

  /** Decoded reply bodies; a missing `RequestId` in the body decodes as "". */
  datatype CategoryBody = CategoryBody(found: bool, categoryTitle: string, requestId: string)
  datatype AuthorBody = AuthorBody(found: bool, authorName: string, requestId: string)

  /** What the listener hands to the waiter (`object` in the source). */
  datatype Reply = CategoryReply(category: CategoryBody) | AuthorReply(author: AuthorBody)

  /** A delivered reply: its `Type` and `CorrelationId` properties (either
      may be null) and what `JsonConvert` makes of the body as each response
      type (`None` when it yields null or throws). */
  datatype Delivery = Delivery(typeTag: Option<string>, correlationId: Option<string>,
                               asCategory: Option<CategoryBody>, asAuthor: Option<AuthorBody>)

  function RequestTypeName(req: Request): string {
    match req
    case CategoryExistsRequest(_, _) => "CategoryExistsRequest"
    case AuthorExistsRequest(_, _) => "AuthorExistsRequest"
  }

  function QueueOf(req: Request): string {
    if req.CategoryExistsRequest? then CategoryRequestQueue else AuthorRequestQueue
  }

  /** `GetRequestId`: the request's own `RequestId` property when it has a
      non-null one, otherwise a new GUID. */
  function GetRequestId(requestIdProperty: Option<string>, newGuid: string): (id: string)
    ensures requestIdProperty.Some? ==> id == requestIdProperty.value
    ensures requestIdProperty.None? ==> id == newGuid
  {
    requestIdProperty.GetOr(newGuid)
  }

  /** `SendRequestAsync` up to the wait: insert the id, then publish with
      `ReplyTo`, `CorrelationId` and `Type` set. */
  function SendRequest(t: Table<Reply>, req: Request, replyTo: string, now: int, newGuid: string): (r: Table<Reply>)
    ensures |r.calls| == |t.calls| + 1 && r.log == t.log
    ensures forall d :: 0 <= d < |t.calls| ==> r.calls[d] == t.calls[d]
    ensures forall k :: k in t.pending && k != req.requestId ==> k in r.pending && r.pending[k] == t.pending[k]
    ensures Inv(t) && Fresh(t, req.requestId) ==> Inv(r)
  {
    var id := GetRequestId(Some(req.requestId), newGuid);
    SendKeepsInv(t, id, now, replyTo, Some(RequestTypeName(req)), QueueOf(req));
    Publish(Register(t, id, now), |t.calls|, replyTo, Some(RequestTypeName(req)), QueueOf(req))
  }

  /** The body decoded according to the `Type` property; any other type
      leaves `response` null. */
  function Decode(d: Delivery): (r: Option<Reply>)
    ensures d.typeTag != Some(CategoryResponseTag) && d.typeTag != Some(AuthorResponseTag) ==> r.None?
    ensures r.Some? && r.value.CategoryReply? ==> d.typeTag == Some(CategoryResponseTag) && d.asCategory == Some(r.value.category)
    ensures r.Some? && r.value.AuthorReply? ==> d.typeTag == Some(AuthorResponseTag) && d.asAuthor == Some(r.value.author)
  {
    if d.typeTag == Some(CategoryResponseTag) then
      (if d.asCategory.Some? then Some(CategoryReply(d.asCategory.value)) else None)
    else if d.typeTag == Some(AuthorResponseTag) then
      (if d.asAuthor.Some? then Some(AuthorReply(d.asAuthor.value)) else None)
    else None
  }

  /** `OnResponseReceived`. A null `CorrelationId` makes `TryGetValue`
      throw; the exception is caught and logged, like a decoding failure,
      and the table is left as it was. */
  function OnResponseReceived(t: Table<Reply>, d: Delivery): (r: Table<Reply>)
    ensures Decode(d).None? || d.correlationId.None? ==> r == t
  {
    match Decode(d)
    case None => t
    case Some(reply) => if d.correlationId.None? then t else Deliver(t, d.correlationId, reply)
  }

  /** `result as T ?? throw InvalidCastException` for a category request. */
  function AwaitCategory(o: Outcome<Reply>): (r: Remote.Result<CategoryBody>)
    ensures r.Ok? <==> o.Replied? && o.payload.CategoryReply?
    ensures o.TimedOut? ==> r == Remote.Faulted(Remote.ReplyTimeout)
  {
    match o
    case TimedOut => Remote.Faulted(Remote.ReplyTimeout)
    case Replied(CategoryReply(b)) => Remote.Ok(b)
    case Replied(AuthorReply(_)) => Remote.Faulted(Remote.InvalidCast)
  }

  /** The same for an author request. */
  function AwaitAuthor(o: Outcome<Reply>): (r: Remote.Result<AuthorBody>)
    ensures r.Ok? <==> o.Replied? && o.payload.AuthorReply?
    ensures o.TimedOut? ==> r == Remote.Faulted(Remote.ReplyTimeout)
  {
    match o
    case TimedOut => Remote.Faulted(Remote.ReplyTimeout)
    case Replied(AuthorReply(b)) => Remote.Ok(b)
    case Replied(CategoryReply(_)) => Remote.Faulted(Remote.InvalidCast)
  }

  // ---------------------------------------------------------------------
  // Properties
  // ---------------------------------------------------------------------

  /** The id waited on is the request's own GUID, and it goes out as the
      message's correlation id. */
  lemma SentUnderRequestId(t: Table<Reply>, req: Request, replyTo: string, now: int, newGuid: string)
    ensures var r := SendRequest(t, req, replyTo, now, newGuid);
      && req.requestId in r.pending && r.pending[req.requestId] == |t.calls|
      && r.calls[|t.calls|].phase == Published(Envelope(req.requestId, replyTo, Some(RequestTypeName(req)), QueueOf(req)))
  {
  }

  /** A category request answered by a `CategoryExistsResponse` carrying
      its id yields exactly the decoded body. */
  lemma CategoryRoundTrip(t: Table<Reply>, categoryId: int, guid: string, replyTo: string, now: int,
                          body: CategoryBody, asAuthor: Option<AuthorBody>)
    requires Inv(t) && Fresh(t, guid)
    ensures var sent := SendRequest(t, CategoryExistsRequest(categoryId, guid), replyTo, now, guid);
      var got := OnResponseReceived(sent, Delivery(Some(CategoryResponseTag), Some(guid), Some(body), asAuthor));
      && got.calls[|t.calls|].outcome.Some?
      && AwaitCategory(got.calls[|t.calls|].outcome.value) == Remote.Ok(body)
  {
  }

  /** An author reply delivered on a category request's id completes the
      waiter, which then fails with `InvalidCastException`. */
  lemma CrossKindReplyIsInvalidCast(t: Table<Reply>, categoryId: int, guid: string, replyTo: string, now: int,
                                    body: AuthorBody)
    requires Inv(t) && Fresh(t, guid)
    ensures var sent := SendRequest(t, CategoryExistsRequest(categoryId, guid), replyTo, now, guid);
      var got := OnResponseReceived(sent, Delivery(Some(AuthorResponseTag), Some(guid), None, Some(body)));
      && got.calls[|t.calls|].outcome.Some?
      && AwaitCategory(got.calls[|t.calls|].outcome.value) == Remote.Faulted(Remote.InvalidCast)
  {
  }

  /** A reply of any other type is dropped without touching the table. */
  lemma UnknownTypeDropped(t: Table<Reply>, d: Delivery)
    requires d.typeTag != Some(CategoryResponseTag) && d.typeTag != Some(AuthorResponseTag)
    ensures OnResponseReceived(t, d) == t
  {
  }

  /** A reply whose correlation id is not pending changes nothing. */
  lemma UnknownCorrelationIdDropped(t: Table<Reply>, d: Delivery)
    requires d.correlationId.None? || d.correlationId.value !in t.pending
    ensures OnResponseReceived(t, d) == t
  {
  }

  /** A failed or unknown delivery does not stop the listener: a good reply
      after it still completes its waiter. */
  lemma ListenerSurvivesBadReply(t: Table<Reply>, bad: Delivery, guid: string, body: CategoryBody, asAuthor: Option<AuthorBody>)
    requires Inv(t) && guid in t.pending
    requires Decode(bad).None?
    ensures var good := Delivery(Some(CategoryResponseTag), Some(guid), Some(body), asAuthor);
      var got := OnResponseReceived(OnResponseReceived(t, bad), good);
      got.calls[t.pending[guid]].outcome == Some(Replied(CategoryReply(body)))
  {
  }
}
