/** OrderService's order lifecycle (`OrderService`) and how
    `OrdersController` turns its results and exceptions into HTTP answers.
    The database is a sequence of orders in insertion order with an
    identity counter; the BooksService look-ups are an oracle answering
    per position in the requested list; `DateTime.UtcNow` is `now`
    (seconds); the published `OrderCreated` events are a log. */
module Orders {
  import opened Common
  import Paging
  import Http

  const LoanDays: int := 30
  const ExtensionDays: int := 14

  datatype Status = Active | Returned | Overdue

  /** `OrderStatus.ToString()`. */
  function StatusName(s: Status): string {
    match s
    case Active => "Active"
    case Returned => "Returned"
    case Overdue => "Overdue"
  }

  datatype Order = Order(id: int, userId: string, orderDate: int, returnDate: Option<int>, dueDate: int,
                         status: Status, bookIds: seq<int>)

  datatype OrderDto = OrderDto(id: int, userId: string, orderDate: int, returnDate: Option<int>, dueDate: int,
                               status: string, bookIds: seq<int>)

  /** `MapToDto`: the order's fields, its status by name, its items' book
      ids in order. */
  function MapToDto(o: Order): OrderDto {
    OrderDto(o.id, o.userId, o.orderDate, o.returnDate, o.dueDate, StatusName(o.status), o.bookIds)
  }

  /** Nothing is lost in the mapping: different orders give different
      DTOs. */
  lemma MapToDtoInjective(a: Order, b: Order)
    requires MapToDto(a) == MapToDto(b)
    ensures a == b
  {
    assert StatusName(a.status) == StatusName(b.status);
    assert StatusName(a.status)[0] == StatusName(b.status)[0];
  }

  /** The orders table, the next identity value, and the `OrderCreated`
      events published so far. */
  datatype Store = Store(orders: seq<Order>, nextId: int, published: seq<OrderDto>)

  const EmptyStore: Store := Store([], 1, [])

  /** Holds of every store the operations build from the empty one:
      - ids are identity values already handed out, and distinct;
      - every published event is about an order that was saved;
      - no order is ever `Overdue` (nothing sets that status);
      - an order is returned exactly when it has a return date;
      - the due date is the 30-day loan plus some whole number of 14-day
        extensions. */
  ghost predicate Inv(s: Store) {
    && s.nextId >= 1
    && (forall i :: 0 <= i < |s.orders| ==> 1 <= s.orders[i].id < s.nextId)
    && (forall i, j :: 0 <= i < j < |s.orders| ==> s.orders[i].id != s.orders[j].id)
    && (forall k :: 0 <= k < |s.published| ==> 1 <= s.published[k].id < s.nextId)
    && (forall i :: 0 <= i < |s.orders| ==> WellFormed(s.orders[i]))
  }

  ghost predicate WellFormed(o: Order) {
    && o.status != Overdue
    && (o.status == Returned <==> o.returnDate.Some?)
    && o.dueDate >= AddDays(o.orderDate, LoanDays)
    && (o.dueDate - AddDays(o.orderDate, LoanDays)) % (ExtensionDays * SecondsPerDay) == 0
  }

  lemma EmptyInv()
    ensures Inv(EmptyStore)
  {
  }

  /** The first position holding order `id`. */
  function Find(orders: seq<Order>, id: int): (r: Option<nat>)
    ensures r.Some? ==> r.value < |orders| && orders[r.value].id == id
    ensures r.Some? ==> forall j :: 0 <= j < r.value ==> orders[j].id != id
    ensures r.None? ==> forall j :: 0 <= j < |orders| ==> orders[j].id != id
  {
    if |orders| == 0 then None
    else if orders[0].id == id then Some(0)
    else
      match Find(orders[1..], id)
      case None => None
      case Some(k) => Some(k + 1)
  }

  /** Updating the order found in place, keeping its id, leaves it where
      `Find` finds it. */
  lemma {:induction false} FindAfterUpdate(orders: seq<Order>, id: int, k: nat, o: Order)
    requires Find(orders, id) == Some(k) && o.id == id
    ensures Find(orders[k := o], id) == Some(k)
  {
    if k > 0 {
      assert orders[k := o][1..] == orders[1..][k - 1 := o];
      FindAfterUpdate(orders[1..], id, k - 1, o);
    }
  }

  // ---------------------------------------------------------------------
  // CreateOrderAsync
  // ---------------------------------------------------------------------

  datatype CreateOrderDto = CreateOrderDto(userId: string, bookIds: seq<int>)

  /** A create body as it arrives: a property sent as JSON `null`, or left
      out, is `None`. */
  datatype CreateBody = CreateBody(userId: Option<string>, bookIds: Option<seq<int>>)

  const MsgUserIdRequired: string := "The UserId field is required."
  const MsgBookIdsRequired: string := "The BookIds field is required."

  /** The `errors` of the automatic 400 `[ApiController]` sends before the
      action: both properties of `CreateOrderDto` are non-nullable, and
      OrderService builds with nullable reference types on, so each has an
      implicit `[Required]`, which refuses only null. */
  function RequiredErrors(b: CreateBody): (e: seq<string>)
    ensures MsgUserIdRequired in e <==> b.userId.None?
    ensures MsgBookIdsRequired in e <==> b.bookIds.None?
    ensures forall k :: 0 <= k < |e| ==> e[k] in {MsgUserIdRequired, MsgBookIdsRequired}
  {
    (if b.userId.None? then [MsgUserIdRequired] else []) + (if b.bookIds.None? then [MsgBookIdsRequired] else [])
  }

  /** The body the action receives, when binding lets it through. */
  function Bind(b: CreateBody): (r: Option<CreateOrderDto>)
    ensures r.None? <==> RequiredErrors(b) != []
    ensures r.Some? ==> r.value.userId == b.userId.value && r.value.bookIds == b.bookIds.value
  {
    if b.userId.None? || b.bookIds.None? then None else Some(CreateOrderDto(b.userId.value, b.bookIds.value))
  }

  /** What BooksService's `GET /api/books/{id}` gave: the call threw (an
      `HttpRequestException`, a broken circuit, unreadable JSON), a
      non-success status, or a body whose `IsAvailable` was read (`None`
      when the body deserialised to null). */
  datatype BookAnswer = Threw | NonSuccess(status: int) | Body(isAvailable: Option<bool>)

  /** The exception that aborts creation, by the book it was about. */
  datatype CreateError =
    | LookupFailed(bookId: int)            // rethrown as it came
    | NotFoundOrUnavailable(bookId: int)   // "Book with ID {id} not found or service unavailable."
    | NotAvailable(bookId: int)            // "Book with ID {id} is not available."

  predicate Accepted(a: BookAnswer) {
    a == Body(Some(true))
  }

  /** The error a look-up answer raises, if any. */
  function Rejection(a: BookAnswer, bookId: int): (e: Option<CreateError>)
    ensures e.None? <==> Accepted(a)
    ensures e.Some? ==> e.value.bookId == bookId
  {
    match a
    case Threw => Some(LookupFailed(bookId))
    case NonSuccess(_) => Some(NotFoundOrUnavailable(bookId))
    case Body(avail) => if avail == Some(true) then None else Some(NotAvailable(bookId))
  }

  /** Position `i` is the first whose look-up failed, with error `e`. */
  predicate FirstRejected(bookIds: seq<int>, answer: nat -> BookAnswer, i: int, e: CreateError) {
    && 0 <= i < |bookIds|
    && (forall j :: 0 <= j < i ==> Accepted(answer(j)))
    && Rejection(answer(i), bookIds[i]) == Some(e)
  }

  /** `Created`: the order was saved (and, with the channel open, its event
      published). `Rejected`: a look-up failed. `SaveFailed`: every book
      passed but `SaveChangesAsync` threw, with this message. */
  datatype CreateResult = Created(store: Store, order: OrderDto) | Rejected(error: CreateError) | SaveFailed(message: string)

  /** The order `CreateOrderAsync` saves once every book passed. */
  function NewOrder(s: Store, dto: CreateOrderDto, now: int): Order {
    Order(s.nextId, dto.userId, now, None, AddDays(now, LoanDays), Active, dto.bookIds)
  }

  /** `CreateOrderAsync`. Books are looked up one by one in the order given;
      the first one that fails aborts the whole request, before anything is
      saved or published. Otherwise an Active order with a 30-day due date
      and one item per requested id is saved. `save` is what
      `SaveChangesAsync` did: `None` when it succeeded, the exception's
      message when it threw (nothing is stored then). After a successful
      save the `OrderCreated` event is published, unless the broker channel
      is closed (`channelOpen` false), when `PublishOrderCreated` only logs
      a warning. */
  method CreateOrder(s: Store, dto: CreateOrderDto, now: int, answer: nat -> BookAnswer, save: Option<string>,
                     channelOpen: bool) returns (r: CreateResult)
    ensures r.Created? <==> (forall i :: 0 <= i < |dto.bookIds| ==> Accepted(answer(i))) && save.None?
    ensures r.SaveFailed? <==> (forall i :: 0 <= i < |dto.bookIds| ==> Accepted(answer(i))) && save.Some?
    ensures r.SaveFailed? ==> r.message == save.value
    ensures r.Rejected? ==> exists i :: FirstRejected(dto.bookIds, answer, i, r.error)
    ensures r.Created? ==> var o := NewOrder(s, dto, now);
      && r.order == MapToDto(o)
      && r.store == Store(s.orders + [o], s.nextId + 1, s.published + (if channelOpen then [r.order] else []))
  {
    var items: seq<int> := [];
    var i := 0;
    while i < |dto.bookIds|
      invariant 0 <= i <= |dto.bookIds|
      invariant items == dto.bookIds[..i]
      invariant forall j :: 0 <= j < i ==> Accepted(answer(j))
    {
      var e := Rejection(answer(i), dto.bookIds[i]);
      if e.Some? {
        assert FirstRejected(dto.bookIds, answer, i, e.value);
        return Rejected(e.value);
      }
      items := items + [dto.bookIds[i]];
      i := i + 1;
    }
    assert items == dto.bookIds;
    if save.Some? {
      return SaveFailed(save.value);
    }
    var o := Order(s.nextId, dto.userId, now, None, AddDays(now, LoanDays), Active, items);
    var saved := Store(s.orders + [o], s.nextId + 1, s.published);
    var d := MapToDto(o);
    return Created(Store(saved.orders, saved.nextId, saved.published + (if channelOpen then [d] else [])), d);
  }

  lemma CreateInv(s: Store, dto: CreateOrderDto, now: int, channelOpen: bool)
    requires Inv(s)
    ensures var o := NewOrder(s, dto, now);
      Inv(Store(s.orders + [o], s.nextId + 1, s.published + (if channelOpen then [MapToDto(o)] else [])))
  {
  }

  // ---------------------------------------------------------------------
  // Reading, returning, extending, deleting
  // ---------------------------------------------------------------------

  /** `GetOrderByIdAsync`. */
  function GetOrder(s: Store, id: int): (r: Option<OrderDto>)
    ensures r.Some? <==> exists i :: 0 <= i < |s.orders| && s.orders[i].id == id
    ensures r.Some? ==> r.value.id == id
    ensures r.Some? ==> exists i :: && 0 <= i < |s.orders| && s.orders[i].id == id && r.value == MapToDto(s.orders[i])
                                    && forall j :: 0 <= j < i ==> s.orders[j].id != id
  {
    match Find(s.orders, id)
    case None => None
    case Some(k) => Some(MapToDto(s.orders[k]))
  }

  /** `ReturnOrderAsync`: whatever the order's status, it becomes Returned
      with the current time as its return date. */
  function ReturnOrder(s: Store, id: int, now: int): (r: Option<(Store, OrderDto)>)
    ensures r.None? <==> Find(s.orders, id).None?
    ensures r.Some? ==> var k := Find(s.orders, id).value;
      var o := s.orders[k].(status := Returned, returnDate := Some(now));
      r.value.0 == s.(orders := s.orders[k := o]) && r.value.1 == MapToDto(o)
  {
    match Find(s.orders, id)
    case None => None
    case Some(k) =>
      var o := s.orders[k].(status := Returned, returnDate := Some(now));
      Some((s.(orders := s.orders[k := o]), MapToDto(o)))
  }

  datatype ExtendResult = ExtendNotFound | NotActive | Extended(store: Store, order: OrderDto)

  /** `ExtendOrderAsync`: only an Active order may be extended
      (`InvalidOperationException` otherwise); its due date moves 14 days
      later. */
  function ExtendOrder(s: Store, id: int): (r: ExtendResult)
    ensures r == ExtendNotFound <==> Find(s.orders, id).None?
    ensures r == NotActive <==> Find(s.orders, id).Some? && s.orders[Find(s.orders, id).value].status != Active
    ensures r.Extended? ==> var k := Find(s.orders, id).value;
      var o := s.orders[k].(dueDate := AddDays(s.orders[k].dueDate, ExtensionDays));
      s.orders[k].status == Active && r.store == s.(orders := s.orders[k := o]) && r.order == MapToDto(o)
  {
    match Find(s.orders, id)
    case None => ExtendNotFound
    case Some(k) =>
      if s.orders[k].status != Active then NotActive
      else
        var o := s.orders[k].(dueDate := AddDays(s.orders[k].dueDate, ExtensionDays));
        Extended(s.(orders := s.orders[k := o]), MapToDto(o))
  }

  /** `DeleteOrderAsync`. */
  function DeleteOrder(s: Store, id: int): (r: (Store, bool))
    ensures r.1 <==> Find(s.orders, id).Some?
    ensures !r.1 ==> r.0 == s
    ensures r.1 ==> var k := Find(s.orders, id).value;
      r.0 == s.(orders := s.orders[..k] + s.orders[k + 1..])
  {
    match Find(s.orders, id)
    case None => (s, false)
    case Some(k) => (s.(orders := s.orders[..k] + s.orders[k + 1..]), true)
  }

  lemma ReturnInv(s: Store, id: int, now: int)
    requires Inv(s)
    ensures ReturnOrder(s, id, now).Some? ==> Inv(ReturnOrder(s, id, now).value.0)
  {
  }

  lemma ExtendInv(s: Store, id: int)
    requires Inv(s)
    ensures ExtendOrder(s, id).Extended? ==> Inv(ExtendOrder(s, id).store)
  {
    var r := ExtendOrder(s, id);
    if r.Extended? {
      var k := Find(s.orders, id).value;
      var o := s.orders[k];
      var E := ExtensionDays * SecondsPerDay;
      assert (AddDays(o.dueDate, ExtensionDays) - AddDays(o.orderDate, LoanDays)) % E
          == ((o.dueDate - AddDays(o.orderDate, LoanDays)) + E) % E;
    }
  }

  lemma DeleteInv(s: Store, id: int)
    requires Inv(s)
    ensures Inv(DeleteOrder(s, id).0)
  {
    var r := DeleteOrder(s, id);
    if r.1 {
      RemoveKeepsInv(s, Find(s.orders, id).value);
    }
  }

  /** Removing any one order keeps the invariant. */
  lemma RemoveKeepsInv(s: Store, k: int)
    requires Inv(s) && 0 <= k < |s.orders|
    ensures Inv(s.(orders := s.orders[..k] + s.orders[k + 1..]))
  {
    var rest := s.orders[..k] + s.orders[k + 1..];
    assert |rest| == |s.orders| - 1;
    forall i | 0 <= i < |rest| ensures rest[i] == s.orders[if i < k then i else i + 1] {
      if i < k {
        assert rest[i] == s.orders[..k][i];
      } else {
        assert rest[i] == s.orders[k + 1..][i - k];
      }
    }
    forall i, j | 0 <= i < j < |rest| ensures rest[i].id != rest[j].id {
      assert rest[i] == s.orders[if i < k then i else i + 1];
      assert rest[j] == s.orders[if j < k then j else j + 1];
    }
  }

  /** A returned order can no longer be extended; returning it again only
      moves its return date. */
  lemma ReturnedOrderCannotBeExtended(s: Store, id: int, now: int, later: int)
    requires Inv(s) && Find(s.orders, id).Some?
    ensures var s1 := ReturnOrder(s, id, now).value.0;
      && ExtendOrder(s1, id) == NotActive
      && ReturnOrder(s1, id, later).value.1 == ReturnOrder(s, id, later).value.1
  {
    var s1 := ReturnOrder(s, id, now).value.0;
    var k := Find(s.orders, id).value;
    FindAfterUpdate(s.orders, id, k, s1.orders[k]);
  }

  /** Extending keeps the order Active and its due date moves by exactly
      two weeks, so it can be extended again. */
  lemma ExtendTwice(s: Store, id: int)
    requires Inv(s) && Find(s.orders, id).Some? && s.orders[Find(s.orders, id).value].status == Active
    ensures var e1 := ExtendOrder(s, id);
      && e1.Extended? && e1.order.status == "Active"
      && e1.order.dueDate == AddDays(s.orders[Find(s.orders, id).value].dueDate, ExtensionDays)
      && ExtendOrder(e1.store, id).Extended?
      && ExtendOrder(e1.store, id).order.dueDate == AddDays(e1.order.dueDate, ExtensionDays)
  {
    var e1 := ExtendOrder(s, id);
    var k := Find(s.orders, id).value;
    FindAfterUpdate(s.orders, id, k, e1.store.orders[k]);
  }

  /** After a successful delete the order is gone: a second delete, a read,
      a return and an extension all find nothing. */
  lemma DeletedIsGone(s: Store, id: int, now: int)
    requires Inv(s) && DeleteOrder(s, id).1
    ensures var s1 := DeleteOrder(s, id).0;
      && !DeleteOrder(s1, id).1 && GetOrder(s1, id).None?
      && ReturnOrder(s1, id, now).None? && ExtendOrder(s1, id) == ExtendNotFound
  {
    var k := Find(s.orders, id).value;
    var s1 := DeleteOrder(s, id).0;
    assert forall i :: 0 <= i < |s1.orders| ==> s1.orders[i] == s.orders[if i < k then i else i + 1];
    assert Find(s1.orders, id).None?;
  }

  // ---------------------------------------------------------------------
  // GetAllOrdersAsync
  // ---------------------------------------------------------------------

  function OfUser(orders: seq<Order>, userId: Option<string>): (r: seq<Order>)
    ensures |r| <= |orders|
    ensures !IsNullOrEmpty(userId) ==> forall i :: 0 <= i < |r| ==> r[i].userId == userId.value
    ensures IsNullOrEmpty(userId) ==> r == orders
  {
    if IsNullOrEmpty(userId) then orders
    else if |orders| == 0 then []
    else (if orders[0].userId == userId.value then [orders[0]] else []) + OfUser(orders[1..], userId)
  }

  lemma {:induction false} OfUserKeepsExactly(orders: seq<Order>, userId: string, o: Order)
    requires userId != []
    ensures o in OfUser(orders, Some(userId)) <==> o in orders && o.userId == userId
  {
    if |orders| > 0 {
      OfUserKeepsExactly(orders[1..], userId, o);
      assert orders == [orders[0]] + orders[1..];
    }
  }

  function MapAll(orders: seq<Order>): (r: seq<OrderDto>)
    ensures |r| == |orders|
    ensures forall i :: 0 <= i < |orders| ==> r[i] == MapToDto(orders[i])
  {
    seq(|orders|, i requires 0 <= i < |orders| => MapToDto(orders[i]))
  }

  /** `GetAllOrdersAsync`: the user's orders (all orders when no user is
      given), page `page` of `pageSize`. Nothing checks the paging values:
      a negative page size lists every order from the offset on. */
  function GetAllOrders(s: Store, page: int, pageSize: int, userId: Option<string>): (r: seq<OrderDto>)
    ensures pageSize >= 0 ==> |r| <= pageSize
    ensures pageSize < 0 && page == 1 ==> r == MapAll(OfUser(s.orders, userId))
    ensures !IsNullOrEmpty(userId) ==> forall i :: 0 <= i < |r| ==> r[i].userId == userId.value
  {
    MapAll(Paging.Page(OfUser(s.orders, userId), page, pageSize))
  }

  /** A page holds something exactly when it is within the page count of
      the user's orders. */
  lemma PageNonEmptyIff(s: Store, page: int, pageSize: int, userId: Option<string>)
    requires page >= 1 && pageSize > 0
    ensures GetAllOrders(s, page, pageSize, userId) != []
        <==> page <= Paging.TotalPages(|OfUser(s.orders, userId)|, pageSize)
  {
    Paging.PageNonEmptyIff(OfUser(s.orders, userId), page, pageSize);
  }

  /** Paging through the list misses no order: the user's `i`-th order is
      entry `i % pageSize` of page `i / pageSize + 1`. */
  lemma OrderOnItsPage(s: Store, userId: Option<string>, i: int, pageSize: int)
    requires 0 <= i < |OfUser(s.orders, userId)| && pageSize > 0
    ensures var r := GetAllOrders(s, i / pageSize + 1, pageSize, userId);
      i % pageSize < |r| && r[i % pageSize] == MapToDto(OfUser(s.orders, userId)[i])
  {
    Paging.ItemOnItsPage(OfUser(s.orders, userId), i, pageSize);
  }

  /** `GetAllOrdersAsync` as written: `(pageNumber - 1) * pageSize` is
      computed in 32-bit `int`. */
  function GetAllOrdersAsWritten(s: Store, page: int, pageSize: int, userId: Option<string>): seq<OrderDto> {
    MapAll(Paging.PageAsWritten(OfUser(s.orders, userId), page, pageSize))
  }

  /** Nothing bounds `pageNumber`. Page 214748366 of 10 has the offset
      2147483650, which wraps to -2147483646 in `int`: the query as written
      lists the first ten orders again, where the page that far out holds
      nothing. */
  lemma OverflowingPageRepeatsFirst(s: Store, userId: Option<string>)
    requires |s.orders| <= 2147483650
    ensures Paging.OffsetAsWritten(214748366, 10) == -2147483646
    ensures GetAllOrdersAsWritten(s, 214748366, 10, userId) == GetAllOrders(s, 1, 10, userId)
    ensures GetAllOrders(s, 214748366, 10, userId) == []
  {
  }

  // ---------------------------------------------------------------------
  // OrdersController
  // ---------------------------------------------------------------------

  /** `errors` holds the entries of an automatic 400 from model
      validation, and is empty for every answer an action gives. */
  datatype Answer = Answer(status: int, order: Option<OrderDto>, message: string, errors: seq<string>)

  const MsgNotActive: string := "Can only extend active orders."

  /** `CreateOrder`: 201 with the order, or 400 carrying the exception's
      message, whether a look-up or the save threw. */
  function CreateOrderAction(r: CreateResult, message: CreateError -> string): (a: Answer)
    ensures a.status == Http.Created <==> r.Created?
    ensures a.status == Http.BadRequest <==> r.Rejected? || r.SaveFailed?
    ensures r.Rejected? ==> a.message == message(r.error)
    ensures r.SaveFailed? ==> a.message == r.message
    ensures r.Created? ==> a.order == Some(r.order)
    ensures !r.Created? ==> a.order.None?
  {
    match r
    case Created(_, o) => Answer(Http.Created, Some(o), "", [])
    case Rejected(e) => Answer(Http.BadRequest, None, message(e), [])
    case SaveFailed(m) => Answer(Http.BadRequest, None, m, [])
  }

  /** `POST /api/orders` from the body as sent to the answer and the store
      afterwards: a null property is refused while binding, before any
      book is looked up; otherwise `CreateOrderAsync` runs and the action
      maps its outcome. */
  method CreateOrderRequest(s: Store, b: CreateBody, now: int, answer: nat -> BookAnswer, save: Option<string>,
                            channelOpen: bool, message: CreateError -> string) returns (a: Answer, after: Store)
    ensures a.errors == RequiredErrors(b)
    ensures a.errors != [] ==> a.status == Http.BadRequest && a.order.None? && after == s
    ensures a.status == Http.Created <==>
      && Bind(b).Some?
      && (forall i :: 0 <= i < |b.bookIds.value| ==> Accepted(answer(i)))
      && save.None?
    ensures a.status == Http.Created ==>
      var o := NewOrder(s, Bind(b).value, now);
      && a.order == Some(MapToDto(o))
      && after.orders == s.orders + [o]
      && after.nextId == s.nextId + 1
    ensures a.status != Http.Created ==> after == s
  {
    var dto := Bind(b);
    if dto.None? {
      return Answer(Http.BadRequest, None, "", RequiredErrors(b)), s;
    }
    var r := CreateOrder(s, dto.value, now, answer, save, channelOpen);
    a := CreateOrderAction(r, message);
    after := if r.Created? then r.store else s;
  }

  /** `GetOrder` and `ReturnOrder`: a missing order is 404. */
  function FoundOr404(o: Option<OrderDto>): (a: Answer)
    ensures a.status == Http.NotFound <==> o.None?
    ensures a.status == Http.Ok <==> o.Some?
    ensures a.order == o
  {
    if o.None? then Answer(Http.NotFound, None, "", []) else Answer(Http.Ok, o, "", [])
  }

  /** `ExtendOrder`: 404 for a missing order, 400 for one not Active. */
  function ExtendAction(r: ExtendResult): (a: Answer)
    ensures a.status == Http.NotFound <==> r == ExtendNotFound
    ensures a.status == Http.BadRequest <==> r == NotActive
    ensures a.status == Http.BadRequest ==> a.message == MsgNotActive
    ensures a.status == Http.Ok <==> r.Extended?
  {
    match r
    case ExtendNotFound => Answer(Http.NotFound, None, "", [])
    case NotActive => Answer(Http.BadRequest, None, MsgNotActive, [])
    case Extended(_, o) => Answer(Http.Ok, Some(o), "", [])
  }

  /** `DeleteOrder`: 204, or 404 when there was nothing to delete. */
  function DeleteAction(deleted: bool): (status: int)
    ensures status == Http.NoContent <==> deleted
    ensures status == Http.NotFound <==> !deleted
  {
    if deleted then Http.NoContent else Http.NotFound
  }

  /** `GetOrders` / `GetOrdersByUserId` query defaults: page 1 of 10. */
  function ListAction(s: Store, page: Option<int>, pageSize: Option<int>, userId: Option<string>)
    : (r: seq<OrderDto>)
    ensures page.None? && pageSize.None? ==> r == MapAll(Paging.Take(OfUser(s.orders, userId), 10))
  {
    GetAllOrders(s, page.GetOr(1), pageSize.GetOr(10), userId)
  }
}
