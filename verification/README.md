# Spst Library: a Dafny model of the services' decision logic

This project models, in Dafny, the decision logic of the library system's
micro-services: BooksService, AuthorService, CategoryService, OrderService,
AdminService and IdentityService. The model uses immutable datatypes and
pure functions over sequences and maps. The database, the message broker,
ASP.NET Identity and the Polly library appear only as oracles, whose
answers are parameters.

Each source component is one module.

- `Correlation`, `BooksRpc`, `BookListRpc`: the RabbitMQ request/reply
  clients.
  - The pending table is a map from request id to the waiting call.
  - It is driven by atomic send, publish, reply and timeout events.
  - BooksService matches replies on the correlation-id header and a type
    tag. The other two clients match on the `RequestId` in the reply body.
- `Resilience`, `Remote`: the configured Polly policies.
  - Covered: retry counts and predicates, the exact back-off schedules
    (2^n, and 1.5^n as exact reals), timeouts, breaker thresholds and
    nesting orders.
  - Also covered: which attempts can start within the outer timeout, and
    how the breaker counts failures under each nesting.
  - `Remote.Result` is what a controller sees after a wrapped call: a
    value, a timeout, an open circuit, or another fault.
- `BookController`, `AuthorController`, `CategoryController`,
  `UserController`, `Accounts`, `AdminCode`, `Orders`: one pure function per
  controller action. Each maps the store, the request body as bound and
  the remote outcomes to the reply and the next store. ASP.NET checks a
  body's DataAnnotations before the action runs; those checks are
  modelled for the author bodies and the category update
  (`Authors.AnnotationFailures`, `CategoryValidation.UpdateAnnotationFailures`).
  The request types not listed here are covered under "Left out".
- `BookRepository`, `AuthorRepository`, `CategoryRepository`, built on
  `Query`, `Ordering` and `Paging`: the search, filter, sort, page and count
  queries.
  - They are stated over a table held as a sequence of rows.
  - The column fold is a parameter. SQLite's ASCII-only `lower()`
    (`Common.DbLower`) gives the query as written, the .NET fold the
    intended one, for the book, author, category and user searches.
  - The 32-bit offset `(page - 1) * pageSize` and SQLite's reading of a
    negative `OFFSET` and `LIMIT` are modelled in `Paging.PageAsWritten`.
  - The user search models `LIKE` with its `%` and `_` wildcards.
- `BookValidation`, `CategoryValidation`, `Authors`, `Rules`: the
  FluentValidation rule sets and the request types' DataAnnotations as
  lists of failures, plus the `Author`
  entity's derived `FullName`, `Age` and `Status`.
- `Common`, `Dates`, `Http`: shared vocabulary.
  - `null` is `Option`.
  - .NET trimming and lower-casing are modelled.
  - `DateTime.UtcNow` is a parameter `now` in whole seconds; calendar
    dates are used where only the date matters.

Two facts of the code shape the resilience model:

- Three services wrap calls as `Policy.WrapAsync(timeout, breaker, retry)`.
  Their circuit breaker therefore sits outside the retry and sees one
  outcome per execution, not one per attempt. Only OrderService's HTTP
  client, which registers retry before breaker, counts every attempt
  (`Resilience.OneObservationPerExecution`,
  `Resilience.HttpBreakerCountsEachAttempt`).
- BookController, CategoryController and AuthorController build their
  policy for every request, so its breaker starts closed and never
  refuses the request's first call (`Resilience.FreshPolicyNeverRefuses`).
  The actions' open-circuit handlers for single calls are dead code
  (`BookController.OpenCircuitUnreachable`,
  `CategoryController.OpenCircuitUnreachable`,
  `AuthorController.OpenCircuitUnreachable`).

"Popular" categories are the first ones by title, not those with the most
books (`CategoryController.PopularIgnoresBookCounts`).

## Model

| member | source | states |
|---|---|---|
| Correlation.Register | src/BooksService/Services/RabbitMQService.cs:84-86 | the new call waits under its id before anything is sent, appended after every earlier call, and every other entry keeps its call |
| Correlation.Publish | src/BooksService/Services/RabbitMQService.cs:88-99 | the message goes out with the call's id as correlation id, with the reply queue, type and request queue; the dictionary and every other call are untouched |
| Correlation.PublishFails | src/AuthorService/Services/BookService.cs:77-88 | a send whose serialisation or publication throws leaves its entry in the dictionary, unresolved |
| Correlation.Resolve | src/AuthorService/Services/BookService.cs:114-117 | the key leaves the dictionary, the call gets its outcome, and the call is logged as resolved |
| Correlation.Deliver | src/BooksService/Services/RabbitMQService.cs:137-142 | a reply whose id is absent or not pending changes nothing; one whose id is pending removes it and completes that call with the reply |
| Correlation.Expire | src/BooksService/Services/RabbitMQService.cs:103-111 | when the 30 s timer wins the entry is removed and the call ends timed out |
| Correlation.EmptyInv | src/BooksService/Services/RabbitMQService.cs:23 | a new client's empty dictionary satisfies the invariant: pending entries are exactly the unresolved calls, ids are unique, each resolved call is logged once |
| Correlation.RegisterInv | src/BooksService/Services/RabbitMQService.cs:84-86 | inserting a fresh id keeps the invariant |
| Correlation.PublishInv | src/BooksService/Services/RabbitMQService.cs:88-99 | publishing keeps the invariant |
| Correlation.SendKeepsInv | src/BooksService/Services/RabbitMQService.cs:84-99 | registering a fresh id and then publishing its call keeps the invariant |
| Correlation.PublishFailsInv | src/AuthorService/Services/BookService.cs:77-88 | a failed publication keeps the invariant |
| Correlation.ResolveInv | src/BooksService/Services/RabbitMQService.cs:137-140 | resolving the call waiting under a pending key keeps the invariant |
| Correlation.DeliverInv | src/CategoryService/Services/BookService.cs:105-125 | delivering any reply keeps the invariant |
| Correlation.ExpireInv | src/AuthorService/Services/BookService.cs:92-100 | expiring an unresolved call keeps the invariant |
| Correlation.StepInv | src/BooksService/Services/RabbitMQService.cs:82-148 | every send, publication, reply and timer step keeps the invariant |
| Correlation.RunInv | src/BooksService/Services/RabbitMQService.cs:82-148 | every state reachable by any sequence of steps satisfies the invariant, so each pending entry is an unresolved call and no call is resolved twice |
| Correlation.ReplyAfterPublishFindsWaiter | src/AuthorService/Services/BookService.cs:74-88 | because the entry is inserted before publishing, a reply carrying the published correlation id completes that call |
| Correlation.StaleReplyDropped | src/AuthorService/Services/BookService.cs:114 | a reply whose id is not pending leaves the table as it was |
| Correlation.ReplyTouchesOnlyItsEntry | src/BooksService/Services/RabbitMQService.cs:137-140 | a matching reply removes only its own entry and changes no other call |
| Correlation.DuplicateReplyDropped | src/BooksService/Services/RabbitMQService.cs:137-140 | a second copy of a reply that already completed its call finds nothing and changes nothing |
| Correlation.LateReplyDropped | src/BooksService/Services/RabbitMQService.cs:107-111 | a reply arriving after the timer removed the entry is dropped, and the call stays timed out |
| Correlation.StepKeepsOutcome | src/BooksService/Services/RabbitMQService.cs:137-140 | no step changes how an already-resolved call ended |
| Correlation.ResolvedAtMostOnce | src/BooksService/Services/RabbitMQService.cs:82-148 | along any run a call's outcome, once set, never changes |
| Correlation.OnlyReplyOrOwnTimerRemoves | src/BooksService/Services/RabbitMQService.cs:107-140 | a waiting entry leaves the dictionary only through a reply carrying its id or its own timer after 30 s |
| Correlation.EntryLingersUntilOwnTimer | src/AuthorService/Services/BookService.cs:92-100 | along any run without the call's reply and within 30 s of its sending, the call stays unresolved and keeps its entry, whatever the caller's shorter outer timeout did |
| Correlation.StepKeepsEntry | src/AuthorService/Services/BookService.cs:92-100 | a step that is neither the call's reply nor its expired timer keeps the invariant, the call and its entry |
| Correlation.FailedPublishNeverTimesOut | src/BooksService/Services/RabbitMQService.cs:96-105 | a send whose publication threw never starts its timer, so its timer step can never happen |
| BooksRpc.GetRequestId | src/BooksService/Services/RabbitMQService.cs:150-154 | the request's own RequestId is used when present, a new GUID otherwise |
| BooksRpc.SendRequest | src/BooksService/Services/RabbitMQService.cs:82-99 | sending appends exactly one call and leaves every earlier call, every other pending entry and the resolution log alone; sending under a fresh RequestId keeps the table invariant |
| BooksRpc.Decode | src/BooksService/Services/RabbitMQService.cs:124-135 | only the two response type names decode, each as its own response type from the body's decoding; any other type yields nothing |
| BooksRpc.OnResponseReceived | src/BooksService/Services/RabbitMQService.cs:117-148 | a reply that does not decode, or has no correlation id, leaves the pending table as it was |
| BooksRpc.AwaitCategory | src/BooksService/Services/RabbitMQService.cs:103-114 | the category answer succeeds exactly when the waiter got a category reply; a timeout fails with the reply timeout |
| BooksRpc.AwaitAuthor | src/BooksService/Services/RabbitMQService.cs:103-114 | the author answer succeeds exactly when the waiter got an author reply; a timeout fails with the reply timeout |
| BooksRpc.SentUnderRequestId | src/BooksService/Services/RabbitMQService.cs:82-99 | the request waits under its own RequestId, and goes out with that correlation id, the reply queue, its type name and its request queue |
| BooksRpc.CategoryRoundTrip | src/BooksService/Services/RabbitMQService.cs:62-148 | a category request answered by a category response carrying its id completes with exactly the decoded body |
| BooksRpc.CrossKindReplyIsInvalidCast | src/BooksService/Services/RabbitMQService.cs:113-114 | an author response delivered on a category request's id completes the waiter, which then fails with an invalid cast |
| BooksRpc.UnknownTypeDropped | src/BooksService/Services/RabbitMQService.cs:124-137 | a reply of any other type changes nothing |
| BooksRpc.UnknownCorrelationIdDropped | src/BooksService/Services/RabbitMQService.cs:137-147 | a reply whose correlation id is missing or not pending changes nothing |
| BooksRpc.ListenerSurvivesBadReply | src/BooksService/Services/RabbitMQService.cs:143-147 | after a reply that fails to decode, a good reply still completes its waiter |
| BookListRpc.OnResponseReceived | src/AuthorService/Services/BookService.cs:105-126 | a reply without a body or without a RequestId leaves the table unchanged; otherwise it is delivered under the RequestId inside its body |
| BookListRpc.SendBooksRequest | src/AuthorService/Services/BookService.cs:67-88 | sending appends one call that waits under the new GUID and goes out with that GUID as correlation id, the client's type tag and its request queue; earlier calls, other pending entries and the log are untouched, and a fresh GUID keeps the table invariant |
| BookListRpc.AwaitBooks | src/AuthorService/Services/BookService.cs:55-59 | a timeout fails with the reply timeout; a reply yields its list, or an empty list when the list is null |
| BookListRpc.AwaitCount | src/CategoryService/Services/BookService.cs:61-65 | a timeout fails with the reply timeout; a reply yields a non-negative count, 0 when the list is null |
| BookListRpc.CountIsLengthOfList | src/AuthorService/Services/BookService.cs:55-65 | listing and counting succeed together, and the count equals the length of the list the same reply yields |
| BookListRpc.CorrelationIdPropertyIgnored | src/CategoryService/Services/BookService.cs:104-125 | the reply's CorrelationId property makes no difference to what it does |
| BookListRpc.MissingRequestIdDropped | src/AuthorService/Messages/BookMessages.cs:13 | a reply body lacking RequestId decodes with "", which matches no pending GUID, so the table is unchanged |
| BookListRpc.BooksRoundTrip | src/AuthorService/Services/BookService.cs:67-126 | a request answered with its own id yields the reply's books, and a second copy of the reply is dropped |
| BookListRpc.ListAndCountAreSeparateRequests | src/CategoryService/Services/BookService.cs:55-67 | listing and counting each send their own request, so two distinct calls wait, each under its own GUID |
| Resilience.NestingOrders | src/BooksService/Services/ResiliencePolicyService.cs:21-68 | the three wrapped policies nest a pessimistic timeout outside the breaker outside the retry; OrderService's HTTP client nests the retry outside the breaker and has no timeout |
| Resilience.BackoffMonotone | src/BooksService/Services/ResiliencePolicyService.cs:26-28 | the accumulated back-off never decreases as retries accumulate |
| Resilience.AttemptsWithin | src/BooksService/Controllers/BookController.cs:439-486 | the number of attempts whose accumulated back-off lies within the timeout is at most one more than the retry count, at least one for a positive budget, and maximal |
| Resilience.ServicePolicySchedule | src/AuthorService/Services/ResilencePolicyService.cs:24-66 | waits of 2, 4 and 8 s accumulate to 14 s, so under the 10 s timeout at most three attempts start |
| Resilience.BookControllerPolicySchedule | src/BooksService/Controllers/BookController.cs:439-486 | waits of 2 and 4 s accumulate to 6 s, so under the 5 s timeout at most two attempts start |
| Resilience.CategoryControllerPolicySchedule | src/CategoryService/Controllers/CategoryController.cs:477-524 | waits of 1.5 and 2.25 s accumulate to 3.75 s, so under the 3 s timeout at most two attempts start |
| Resilience.AttemptsMade | src/BooksService/Controllers/BookController.cs:441-452 | the retry loop continues past exactly the handled outcomes, and stops at the first unhandled one or after the last retry |
| Resilience.StartTimeAtLeastBackoff | src/BooksService/Services/ResiliencePolicyService.cs:24-34 | no attempt starts before its accumulated back-off |
| Resilience.StartsWithinBudget | src/BooksService/Services/ResiliencePolicyService.cs:24-44 | an attempt that starts before the timeout is among those whose back-off fits the timeout |
| Resilience.Record | src/BooksService/Services/ResiliencePolicyService.cs:47-65 | a result the breaker does not handle resets a closed or half-open breaker to a zero count; an exception it does not handle leaves the state as it was; a handled outcome adds one failure to a closed breaker and opens it at the threshold, and reopens a half-open one |
| Resilience.BelowThresholdNeverBreaks | src/CategoryService/Controllers/CategoryController.cs:503-507 | a closed breaker that has seen fewer calls than its threshold admits every call and stays closed |
| Resilience.ThresholdFailuresBreak | src/BooksService/Services/ResiliencePolicyService.cs:47-51 | threshold consecutive handled failures break the circuit at the last failure, and calls are refused for the break duration after it |
| Resilience.ExecuteWrapped | src/BooksService/Services/ResiliencePolicyService.cs:68 | an execution is refused by the breaker exactly when the breaker does not admit it, and completes only if the retry loop finished within the timeout |
| Resilience.OneObservationPerExecution | src/AuthorService/Services/ResilencePolicyService.cs:66 | with the breaker outside the retry a failing execution adds exactly one failure to a closed breaker, or breaks it at the threshold, and a successful one resets it, however many attempts it made |
| Resilience.ReplyTimeoutNeverReachesCaller | src/BooksService/Services/RabbitMQService.cs:103-111 | with an outer timeout under 30 s the RabbitMQ client's own timeout exception never reaches the caller |
| Resilience.OuterTimeoutsShorterThanReplyWait | src/CategoryService/Controllers/CategoryController.cs:493-494 | the 10, 5 and 3 s outer timeouts are all shorter than the clients' 30 s reply wait |
| Resilience.FreshPolicyNeverRefuses | src/BooksService/Controllers/BookController.cs:38 | an execution on a freshly built policy is never refused by its breaker |
| Resilience.HttpExecuteFrom | src/OrderService/Program.cs:24-29 | an HTTP execution from attempt i makes at least one more attempt and never more than the retry count allows |
| Resilience.HttpBreakerCountsEachAttempt | src/OrderService/Program.cs:28-29 | one request whose four attempts all get 503 leaves the breaker with four failures: it counts every attempt |
| Resilience.HttpSecondFailingRequestBreaks | src/OrderService/Program.cs:60-64 | the next such request breaks the circuit on its first attempt, and its second attempt is refused with an open-circuit exception the retry does not handle |
| Resilience.HttpNotFoundRetriedButNotCounted | src/OrderService/Program.cs:52-64 | a 404 is retried to the end but the breaker does not handle it, so its count resets |
| Resilience.HttpUnhandledExceptionKeepsCount | src/OrderService/Program.cs:52-64 | an exception outside the transient HTTP errors is retried by neither policy: the request makes one attempt and the breaker keeps its count |
| AdminCode.Generate | src/AdminService/Entities/ApplicattionAdmin.cs:13-21 | A generated code has exactly six characters, each an upper-case letter or a digit from the code alphabet, and it expires `expiryHours` hours after now; there is no code (the `AddHours` exception) exactly when that instant lies outside the years 1 to 9999 |
| AdminCode.Clear | src/AdminService/Entities/ApplicattionAdmin.cs:36-40 | Clearing leaves an empty code and no expiry |
| AdminCode.ValidIff | src/AdminService/Entities/ApplicattionAdmin.cs:24-33 | A candidate validates exactly when a code is stored, it has not expired, and the candidate equals it ignoring case |
| AdminCode.ValidImpliesNotExpired | src/AdminService/Entities/ApplicattionAdmin.cs:24-46 | A code that validates is never reported as expired |
| AdminCode.ExpiryInstantStillValid | src/AdminService/Entities/ApplicattionAdmin.cs:29-30 | The expiry is checked with a strict comparison: the expiry instant still validates and one second later does not |
| AdminCode.ClearedNeverValid | src/AdminService/Entities/ApplicattionAdmin.cs:26-45 | After clearing, no candidate validates and the code reads as expired |
| AdminCode.FreshCodeValidates | src/AdminService/Entities/ApplicattionAdmin.cs:13-32 | A freshly generated code with a non-negative lifetime validates at generation time, both against itself and against its lower-case spelling |
| AdminCode.NegativeLifetimeBornExpired | src/AdminService/Entities/ApplicattionAdmin.cs:20-30 | A code generated with a negative lifetime is expired at once and never validates |
| AdminCode.WrongLengthNeverValid | src/AdminService/Entities/ApplicattionAdmin.cs:32 | A candidate of a different length never validates |
| AdminCode.GenerateAction | src/AdminService/Controllers/AdminController.cs:125-152 | The reply is 401 without a user and 403 unless the user has the Admin or SuperAdmin role. An expiry outside the years 1 to 9999 makes it 500. It is 200 exactly when such a user's expiry is representable and the update succeeds, and then the stored code is a fresh one with the requested lifetime or 24 hours. Otherwise the stored user is unchanged |
| AdminCode.ValidateAction | src/AdminService/Controllers/AdminController.cs:157-182 | A JSON null code is refused before the action with the automatic 400, ahead of the user check, exactly when the implicit `[Required]` of a non-nullable property applies; otherwise the reply is 401 without a user and 200 exactly when the code validates. An empty code, or a null one reaching the action, is refused before the stored code is read. A valid code is cleared when asked and the update succeeds. For a wrong code, "expired" is reported whenever the stored code is expired or absent |
| AdminCode.NullCodeRefusal | src/AdminService/Dtos/GenerateAdminCodeDto.cs:8-12 | a null code gets the framework's 400 whatever the user when the implicit `[Required]` applies, and is treated as an empty code, which always reaches the action, when it does not |
| AdminCode.StatusAction | src/AdminService/Controllers/AdminController.cs:187-199 | There is no report without a user. `hasCode` holds iff a code is stored, `isExpired` agrees with the entity's expiry test, and the expiry is echoed |
| AdminCode.ClearAction | src/AdminService/Controllers/AdminController.cs:204-217 | The reply is 401 without a user and 200 exactly when the update succeeds, and then nothing is stored |
| AdminCode.CodeIsOneTime | src/AdminService/Controllers/AdminController.cs:138-175 | A code generated by an Admin and validated once with clearing fails a second validation, which reports "expired" |
| AdminCode.CenturiesLongLifetimeFails | src/AdminService/Entities/ApplicattionAdmin.cs:20 | An Admin asking for a lifetime of 100000000 hours gets 500 and keeps the stored user, whatever the current instant |
| AdminCode.ReusableWithoutClear | src/AdminService/Controllers/AdminController.cs:166-175 | Without clearing, a valid code keeps validating up to its expiry and the stored code is untouched |
| AdminCode.OnlyAdminsGenerate | src/AdminService/Controllers/AdminController.cs:132-136 | A user with only the Teacher, Student or lower-case "admin" roles always gets 403 and keeps their stored code |
| AdminCode.StatusAgreesWithValidation | src/AdminService/Controllers/AdminController.cs:193-198 | When a code validates, the status reports it present and not expired |
| Accounts.Register | src/IdentityService/Controllers/AuthController.cs:25-52 | The account is created exactly when the model binds and the user store accepts it, and otherwise the reply is 400. The role store is asked only for a created account and a role among Admin, Teacher and Student, and a role is added only then, the requested one. When adding the role throws, the reply is 500 although the account exists; every other created account gets 200 |
| Accounts.UnlistedRoleIgnored | src/IdentityService/Controllers/AuthController.cs:39-48 | A requested role outside the three is dropped without asking the role store, and the registration still succeeds |
| Accounts.RoleMatchIsCaseSensitive | src/IdentityService/Controllers/AuthController.cs:42-43 | Roles are compared by exact string equality: "admin" is not assigned, "Admin" is |
| Accounts.RoleFailureAfterCreation | src/IdentityService/Controllers/AuthController.cs:39-48 | For one of the three roles, a throwing role step answers 500 after the account was created, and a failed role result answers 200 without the role |
| Accounts.Login | src/IdentityService/Controllers/AuthController.cs:55-87 | The password is checked only for a bound model and a known e-mail. The reply is 200 with a user exactly on successful sign-in and 423 exactly on lock-out. Every reply is one of 200, 400, 401 and 423 |
| Accounts.UnknownEmailLooksLikeWrongPassword | src/IdentityService/Controllers/AuthController.cs:60-86 | An unknown e-mail gets 401 without a sign-in attempt, the same status as a wrong password |
| Accounts.LoginReturnsAccount | src/IdentityService/Controllers/AuthController.cs:70-81 | A successful sign-in returns exactly the account's id, e-mail, full name and roles |
| Orders.MapToDtoInjective | src/OrderService/Services/OrderService.cs:152-160 | the DTO mapping loses nothing: two orders with the same DTO are the same order |
| Orders.EmptyInv | src/OrderService/Services/OrderService.cs:28-79 | the empty store satisfies the invariant: orders carry distinct issued ids, every published event carries an issued id, no order is Overdue, returned exactly when a return date is set, due date 30 days plus whole 14-day extensions |
| Orders.Find | src/OrderService/Services/OrderService.cs:111-113 | a found position holds the order with that id and is the first such; nothing is found exactly when no order has the id |
| Orders.FindAfterUpdate | src/OrderService/Services/OrderService.cs:117-120 | updating the found order in place without changing its id leaves it found at the same position |
| Orders.Rejection | src/OrderService/Services/OrderService.cs:38-50 | a look-up answer raises an error exactly when it is not an available book, and the error names the book asked about |
| Orders.CreateOrder | src/OrderService/Services/OrderService.cs:28-79 | an order is created exactly when every requested book passes and the save succeeds; a failing save creates nothing and carries the exception's message; otherwise the error is the first failing book's. A created order is Active, due in 30 days, carries the requested ids in order and is stored under the next id; its DTO is returned, and published exactly when the broker channel is open |
| Orders.CreateInv | src/OrderService/Services/OrderService.cs:61-76 | saving a new order, and publishing its event when the channel is open, keeps the invariant |
| Orders.GetOrder | src/OrderService/Services/OrderService.cs:81-88 | an order is returned exactly when one with the id exists; it is the DTO of the first stored order with that id, items included |
| Orders.ReturnOrder | src/OrderService/Services/OrderService.cs:109-122 | a missing order gives nothing; otherwise whatever its status it becomes Returned with the current time as its return date, and only that row changes |
| Orders.ExtendOrder | src/OrderService/Services/OrderService.cs:124-140 | a missing order is not found; one that is not Active is refused; an Active one has its due date moved 14 days later and only that row changes |
| Orders.DeleteOrder | src/OrderService/Services/OrderService.cs:142-150 | true exactly when the order existed, and then exactly that row is removed; otherwise nothing changes |
| Orders.ReturnInv | src/OrderService/Services/OrderService.cs:109-122 | returning keeps the invariant |
| Orders.ExtendInv | src/OrderService/Services/OrderService.cs:124-140 | extending keeps the invariant |
| Orders.DeleteInv | src/OrderService/Services/OrderService.cs:142-150 | deleting keeps the invariant |
| Orders.RemoveKeepsInv | src/OrderService/Services/OrderService.cs:147-148 | removing any one order keeps the invariant |
| Orders.ReturnedOrderCannotBeExtended | src/OrderService/Services/OrderService.cs:109-140 | a returned order can no longer be extended, and returning it again only moves its return date |
| Orders.ExtendTwice | src/OrderService/Services/OrderService.cs:132-139 | extending an Active order keeps it Active and moves its due date by exactly 14 days, so it can be extended again by another 14 |
| Orders.DeletedIsGone | src/OrderService/Services/OrderService.cs:142-150 | after a delete, a second delete, a read, a return and an extension of the same id all find nothing |
| Orders.OfUser | src/OrderService/Services/OrderService.cs:96-99 | with a user id every kept order belongs to that user; with a null or empty one every order is kept |
| Orders.OfUserKeepsExactly | src/OrderService/Services/OrderService.cs:96-99 | with a non-empty user id an order is kept exactly when it is stored and belongs to that user |
| Orders.MapAll | src/OrderService/Services/OrderService.cs:106 | each order maps, in position, to its own DTO |
| Orders.GetAllOrders | src/OrderService/Services/OrderService.cs:90-107 | a page never exceeds a non-negative size, a negative size on page 1 lists all the user's orders, and a user id keeps only that user's orders |
| Orders.PageNonEmptyIff | src/OrderService/Services/OrderService.cs:90-107 | a page holds orders exactly when its number is within the page count of the user's orders |
| Orders.OrderOnItsPage | src/OrderService/Services/OrderService.cs:101-106 | paging misses no order: the user's i-th order appears, as its DTO, at entry i mod pageSize of page i / pageSize + 1 |
| Orders.OverflowingPageRepeatsFirst | src/OrderService/Services/OrderService.cs:101-104 | page 214748366 of 10 has its 32-bit offset wrap to -2147483646, so the query as written lists the first ten orders again, where that page holds nothing |
| Orders.CreateOrderAction | src/OrderService/Controllers/OrdersController.cs:20-33 | for a body that was bound: 201 with the order exactly when creation succeeded; 400 with the exception's message, and no order, exactly when a book was rejected or the save threw |
| Orders.RequiredErrors | src/OrderService/DTOs/OrderDtos.cs:15-18 | the automatic 400 names UserId exactly when it is null and BookIds exactly when it is null, and nothing else |
| Orders.Bind | src/OrderService/DTOs/OrderDtos.cs:15-18 | a body binds exactly when neither property is null, and then into the DTO with the same user and book ids |
| Orders.CreateOrderRequest | src/OrderService/Controllers/OrdersController.cs:20-33 | a body with a null property gets 400 with the binding errors, before any book is looked up, and nothing is stored; otherwise 201 exactly when every book passed and the save succeeded, and then the store gains exactly the new order; any other answer leaves the store as it was |
| Orders.FoundOr404 | src/OrderService/Controllers/OrdersController.cs:35-69 | 404 exactly when there is no order, 200 with the order otherwise |
| Orders.ExtendAction | src/OrderService/Controllers/OrdersController.cs:71-84 | 404 for a missing order, 400 with "Can only extend active orders." for one that is not Active, 200 exactly when extended |
| Orders.DeleteAction | src/OrderService/Controllers/OrdersController.cs:86-92 | 204 exactly when something was deleted, 404 exactly when nothing was |
| Orders.ListAction | src/OrderService/Controllers/OrdersController.cs:43-61 | without paging arguments the reply is the first 10 of the user's orders |
| Query.Where | src/BooksService/Repositories/BookRepository.cs:105-150 | a filter keeps exactly the rows that satisfy its condition, never more rows than it was given |
| Query.Search | src/BooksService/Repositories/BookRepository.cs:28-35 | a search page holds only stored rows that pass the filter, in the order of the sort key, and no more rows than the page size |
| Query.SearchFindsEveryMatch | src/BooksService/Repositories/BookRepository.cs:28-35 | every stored row that passes the filter has a place i among the sorted matches and is row i mod pageSize of page i / pageSize + 1 |
| Query.WrappedSearchShowsFirstPage | src/AuthorService/Repositories/AuthorRepository.cs:42-45 | a page whose 32-bit offset wraps to zero or below is, as written, the first page again |
| Query.FirstWhere | src/BooksService/Repositories/BookRepository.cs:9-13 | a row is found only if it is stored and satisfies the condition, and nothing is found exactly when no row does |
| Query.ReplaceWhere | src/CategoryService/Controllers/CategoryController.cs:162-171 | an update leaves the row count alone, puts the new row where the condition held and keeps every other row |
| Query.WhereWhere | src/BooksService/Repositories/BookRepository.cs:105-150 | chaining two filters keeps what their conjunction keeps |
| Query.CountPositiveIffAny | src/IdentityService/Controllers/UserController.cs:105-111 | a filtered count is positive exactly when some row passes the filter |
| Query.PageOfSortedQuery | src/CategoryService/Repositories/CategoryRepository.cs:19-33 | a page of a sorted, filtered query is sorted, holds only stored rows that pass the filter and is no longer than the page size |
| Query.TermOrderIrrelevant | src/IdentityService/Controllers/UserController.cs:91 | lower-casing then trimming a term gives the same term as trimming then lower-casing |
| Query.TrimmedTerm | src/AuthorService/Repositories/AuthorRepository.cs:79-81 | a non-empty term with no white space at either end is not blank, and preparing it, in either order, only lower-cases it |
| Ordering.CmpTrans | src/BooksService/Repositories/BookRepository.cs:153-173 | the order the sorts use is transitive |
| Ordering.LeTotal | src/BooksService/Repositories/BookRepository.cs:153-173 | any two sort keys are ordered one way or the other |
| Ordering.SortBy | src/BooksService/Repositories/BookRepository.cs:153-173 | OrderBy returns a permutation of its input in non-decreasing key order |
| Ordering.SortKeepsElements | src/BooksService/Repositories/BookRepository.cs:153-173 | sorting neither adds nor drops a row |
| Ordering.ParseDirection | src/BooksService/Repositories/BookRepository.cs:158-171 | the order is descending exactly when the sort order, lower-cased, is "desc" |
| Ordering.DescInAnyCase | src/BooksService/Repositories/BookRepository.cs:158-171 | "DESC" and "Desc" sort descending, while "descending" and a missing order sort ascending |
| Rules.Check | src/BooksService/Validators/BookValidator.cs:10-12 | one rule yields no failure exactly when it holds, and at most one failure otherwise |
| Rules.On | src/BooksService/Validators/BookValidator.cs:10-19 | a property's failures are failures of that property taken from the list |
| Rules.OnConcat | src/BooksService/Validators/BookValidator.cs:10-19 | the failures of one property from several rule groups are those of each group in turn |
| Rules.OnSingleProperty | src/BooksService/Validators/BookValidator.cs:10-19 | the failures of a rule group about one property belong to it and none to another property |
| Common.TrimStart | src/BooksService/Repositories/BookRepository.cs:115 | trimming the front removes exactly a leading run of white space |
| Common.TrimEnd | src/BooksService/Repositories/BookRepository.cs:115 | trimming the end removes exactly a trailing run of white space |
| Common.BlankIffTrimsToEmpty | src/BooksService/Repositories/BookRepository.cs:113-115 | a string is all white space exactly when trimming leaves nothing of it |
| Common.DbLowerAgreesOnAscii | src/BooksService/Repositories/BookRepository.cs:116 | the database's lower() and the .NET one agree on ASCII text |
| Dates.OrderFacts | src/AuthorService/Validators/AuthorValidator.cs:32-39 | dates are strictly, totally and transitively ordered, as the birth and death rules assume |
| Paging.TotalPages | src/BooksService/Controllers/BookController.cs:331 | the page count is the least number of pages of pageSize items that hold every item |
| Paging.PageIsSlice | src/BooksService/Repositories/BookRepository.cs:32-35 | a page is the contiguous run of the list that starts at the page's offset and holds at most pageSize items |
| Paging.PageNonEmptyIff | src/CategoryService/Controllers/CategoryController.cs:270 | a page holds something exactly when its number is at most the page count |
| Paging.PageSize | src/AuthorService/Repositories/AuthorRepository.cs:42-45 | a page never exceeds a non-negative size; a negative size makes the first page the whole list |
| Paging.FirstPageIsTake | src/OrderService/Services/OrderService.cs:102 | the first page is the first pageSize items |
| Paging.HasNextIffMoreItems | src/IdentityService/Controllers/UserController.cs:133-169 | the next-page flag is set exactly when items remain after the current page |
| Paging.ItemOnItsPage | src/CategoryService/Repositories/CategoryRepository.cs:30 | every item appears on the page its index determines, so walking the pages visits every item |
| Paging.Wrap32 | src/BooksService/Repositories/BookRepository.cs:33 | the wrapped value is a 32-bit integer congruent to the input modulo 2^32, and equal to it when it already fits |
| Paging.AsWrittenAgreesWithoutOverflow | src/BooksService/Repositories/BookRepository.cs:33 | while the offset fits in 32 bits the page as written equals the intended page |
| Paging.OffsetOverflowReturnsFirstPage | src/BooksService/Repositories/BookRepository.cs:33 | page 21474838 of size 100 wraps to a negative offset and returns the first page, where the intended page is empty |
| BookRepository.SearchBooks | src/BooksService/Repositories/BookRepository.cs:15-36 | every book on the page is a stored book passing every active filter, the page is in the order the sort arguments select, and it holds at most pageSize books |
| BookRepository.IsbnExists | src/BooksService/Repositories/BookRepository.cs:51-61 | a reported clash is backed by a stored book with exactly that ISBN, and by one with another id when an id is excluded |
| BookRepository.ByAuthor | src/BooksService/Repositories/BookRepository.cs:63-76 | exactly the author's books, ordered by title, and as many as the per-author count reports |
| BookRepository.ByCategory | src/BooksService/Repositories/BookRepository.cs:78-84 | exactly the category's books, ordered by title |
| BookRepository.Available | src/BooksService/Repositories/BookRepository.cs:86-92 | exactly the available books, ordered by title |
| BookRepository.AddedAfter | src/BooksService/Repositories/BookRepository.cs:94-100 | exactly the books with an addition date strictly after the given one, newest first; undated books are excluded |
| BookRepository.FindById | src/BooksService/Repositories/BookRepository.cs:9-13 | a found book is stored and carries the id; nothing is found exactly when no stored book has that id |
| BookRepository.CountAgreesWithPages | src/BooksService/Repositories/BookRepository.cs:28-48 | a page of the search is non-empty exactly when its number is within the page count computed from the search count |
| BookRepository.UnfilteredListsEverything | src/BooksService/Repositories/BookRepository.cs:102-152 | with no filter and an unlimited page, every stored book is listed |
| BookRepository.TitleDescendingOrder | src/BooksService/Repositories/BookRepository.cs:158-160 | under title-descending order titles never increase |
| BookRepository.UnknownSortColumnIgnoresOrder | src/BooksService/Repositories/BookRepository.cs:156-173 | an unrecognised or missing sort column sorts by title ascending whatever the direction says |
| BookRepository.UndatedBooksLastWhenNewestFirst | src/BooksService/Repositories/BookRepository.cs:167-169 | under added-descending order, after an undated book come only undated books |
| BookRepository.AddedAfterNewestFirst | src/BooksService/Repositories/BookRepository.cs:94-100 | in the recently-added listing the addition dates never increase and all exceed the cut-off |
| BookRepository.IsbnClashExcludesSelf | src/BooksService/Repositories/BookRepository.cs:51-61 | with an exclusion the test is true exactly when another book holds the ISBN, without one exactly when any book does, and the first implies the second |
| BookRepository.AsciiSearchUnaffected | src/BooksService/Repositories/BookRepository.cs:113-149 | on ASCII titles, authors and languages the query as written and the intended query select the same books |
| BookRepository.AccentedTitleMissed | src/BooksService/Repositories/BookRepository.cs:113-117 | a book titled "Élan" searched for as "Élan" is missed by the query as written and found by the intended one |
| BookRepository.TitleOnlyFilter | src/BooksService/Repositories/BookRepository.cs:113-117 | with only a title filter a book matches exactly when the term is blank or its folded title contains the trimmed, lowered term |
| BookRepository.OwnTitleFindsBook | src/BooksService/Repositories/BookRepository.cs:113-117 | with both sides folded alike, searching for a book's own title, without surrounding white space, finds it whatever letters it uses |
| AuthorRepository.SearchAuthors | src/AuthorService/Repositories/AuthorRepository.cs:27-46 | every author on the page is a stored author passing every active filter, the page is in the order the sort arguments select, and it holds at most pageSize authors |
| AuthorRepository.MatchFoundOnItsPage | src/AuthorService/Repositories/AuthorRepository.cs:27-46 | every stored author passing the filter is found: at a place below the search count, as row i mod pageSize of page i / pageSize + 1 |
| AuthorRepository.OverflowingPageRepeatsFirst | src/AuthorService/Repositories/AuthorRepository.cs:42-45 | page 21474838 of 100 has its 32-bit offset wrap, so the query as written lists the first page again, where that page holds nothing |
| AuthorRepository.AllByName | src/AuthorService/Repositories/AuthorRepository.cs:19-25 | all authors, none lost or duplicated, ordered by last name then first name |
| AuthorRepository.AuthorExists | src/AuthorService/Repositories/AuthorRepository.cs:59-62 | true exactly when the by-id lookup finds an author |
| AuthorRepository.FindById | src/AuthorService/Repositories/AuthorRepository.cs:13-17 | a found author is stored and carries the id; nothing is found exactly when no stored author has that id |
| AuthorRepository.FindByEmail | src/AuthorService/Repositories/AuthorRepository.cs:64-68 | a found author is stored and has exactly that e-mail; nothing is found exactly when no stored author has it |
| AuthorRepository.CountAgreesWithPages | src/AuthorService/Repositories/AuthorRepository.cs:38-56 | a page of the search is non-empty exactly when its number is within the page count computed from the search count |
| AuthorRepository.FullNameFindsAuthor | src/AuthorService/Repositories/AuthorRepository.cs:79-87 | with column and term folded alike, a search for "first last", already trimmed, finds the author through the concatenated-name clause |
| AuthorRepository.BiographyHit | src/AuthorService/Repositories/AuthorRepository.cs:82-86 | under any fold of the columns, a term that the folded non-null biography holds satisfies the name filter whatever the names are |
| AuthorRepository.UndatedAuthorsFailDateBounds | src/AuthorService/Repositories/AuthorRepository.cs:100-108 | any birth-date bound excludes every author without a birth date |
| AuthorRepository.CountryTiesAscendByLastName | src/AuthorService/Repositories/AuthorRepository.cs:120-122 | under country-descending order, authors of the same country still ascend by last name |
| AuthorRepository.NameDescendingReversesBoth | src/AuthorService/Repositories/AuthorRepository.cs:117-119 | under name-descending order last names never increase, and within a last name first names never increase |
| AuthorRepository.DateKeyOrder | src/AuthorService/Repositories/AuthorRepository.cs:123-125 | the birth-date sort key orders two dates exactly as the calendar does |
| AuthorRepository.AsciiSearchUnaffected | src/AuthorService/Repositories/AuthorRepository.cs:79-93 | on ASCII names, biography and country the query as written and the intended query select the same authors |
| AuthorRepository.AccentedNameMissed | src/AuthorService/Repositories/AuthorRepository.cs:81-86 | "Anna Érdi" searched for as "Érdi" is missed by the query as written and found by the intended one |
| CategoryRepository.SearchCategories | src/CategoryService/Repositories/CategoryRepository.cs:19-33 | every category on the page is stored and matches the keyword, the page is in the order the sort arguments select, and it holds at most pageSize categories |
| CategoryRepository.MatchFoundOnItsPage | src/CategoryService/Repositories/CategoryRepository.cs:19-38 | every stored category matching the keyword is found: at a place below the search count, as row i mod pageSize of page i / pageSize + 1 |
| CategoryRepository.OverflowingPageRepeatsFirst | src/CategoryService/Repositories/CategoryRepository.cs:29-32 | page 21474838 of 100 has its 32-bit offset wrap, so the query as written lists the first page again, where that page holds nothing |
| CategoryRepository.FindById | src/CategoryService/Repositories/CategoryRepository.cs:13-17 | a found category is stored and carries the id; nothing is found exactly when no stored category has it |
| CategoryRepository.FindByTitle | src/CategoryService/Repositories/CategoryRepository.cs:41-45 | a found category is stored and has exactly that title; nothing is found exactly when no stored category has it |
| CategoryRepository.TitleExists | src/CategoryService/Repositories/CategoryRepository.cs:47-57 | a reported clash is backed by a stored category with exactly that title |
| CategoryRepository.AllByTitle | src/CategoryService/Repositories/CategoryRepository.cs:59-64 | all categories, none lost or duplicated, ordered by title |
| CategoryRepository.Popular | src/CategoryService/Repositories/CategoryRepository.cs:66-74 | categories ordered by title, at most count of them |
| CategoryRepository.CountAgreesWithPages | src/CategoryService/Repositories/CategoryRepository.cs:26-38 | a page of the search is non-empty exactly when its number is within the page count computed from the search count |
| CategoryRepository.KeywordTermAsElsewhere | src/CategoryService/Repositories/CategoryRepository.cs:82 | lower-casing before trimming gives the same term as trimming before lower-casing |
| CategoryRepository.PopularIsHeadOfAll | src/CategoryService/Repositories/CategoryRepository.cs:66-74 | the popular categories are the first count of the title-ordered list, and all of it when count reaches the number of categories |
| CategoryRepository.NullDescriptionSearchesTitleOnly | src/CategoryService/Repositories/CategoryRepository.cs:80-86 | under any fold of the columns, a category without a description matches a non-blank keyword exactly when its folded title contains the prepared term |
| CategoryRepository.TitleClashExcludesSelf | src/CategoryService/Repositories/CategoryRepository.cs:47-57 | with an exclusion the test is true exactly when another category has exactly that title; without one exactly when any category has it |
| CategoryRepository.OwnTitleFindsCategory | src/CategoryService/Repositories/CategoryRepository.cs:80-86 | with column and term folded alike, searching for a category's own title, without surrounding white space, finds it whatever letters it uses |
| CategoryRepository.AsciiSearchUnaffected | src/CategoryService/Repositories/CategoryRepository.cs:80-86 | on an ASCII title and description the query as written and the intended query select the same categories |
| CategoryRepository.AccentedTitleMissed | src/CategoryService/Repositories/CategoryRepository.cs:82-85 | the category "Élan" searched for as "Élan" is missed by the query as written and found by the intended one |
| BookController.RemoteFailure | src/BooksService/Controllers/BookController.cs:142-156 | a timeout or an open circuit answers 503, any other failure 500 |
| BookController.GetBooks | src/BooksService/Controllers/BookController.cs:42-51 | 200 with every stored book, none added or dropped |
| BookController.GetBook | src/BooksService/Controllers/BookController.cs:54-67 | 200 with the stored book carrying the id exactly when one exists, otherwise 404 "Book not found" |
| BookController.GetAvailableBooks | src/BooksService/Controllers/BookController.cs:408-418 | 200 with exactly the available books |
| BookController.CreateBook | src/BooksService/Controllers/BookController.cs:70-157 | validation errors give 400 with the messages and a taken ISBN 409; 201 exactly when the input is valid, the ISBN is free and both services confirm, and then the new row (next id, the services' names, available, added now) is appended; on every other outcome the table is unchanged |
| BookController.Replace | src/BooksService/Controllers/BookController.cs:238-239 | the table keeps its length; the replacement row is present exactly when the id existed, and every row with another id stays |
| BookController.UpdateBook | src/BooksService/Controllers/BookController.cs:160-259 | 400 on validation errors and 404 for a missing book; 204 exactly when the ISBN is unchanged or free of other books, and each changed category or author id is confirmed; the row then takes the request's fields, keeping its id and date added, with the names refreshed only where the id changed; otherwise the table is unchanged |
| BookController.DeleteBook | src/BooksService/Controllers/BookController.cs:262-288 | 204 exactly when the book exists, and then exactly the rows with other ids remain; otherwise 404 and nothing changes |
| BookController.SearchBooks | src/BooksService/Controllers/BookController.cs:291-366 | a page below 1 or a size outside 1..100 gives 400 with its message; otherwise 200 with the repository's page, at most pageSize books, and the count of all matches |
| BookController.GetBooksByAuthor | src/BooksService/Controllers/BookController.cs:369-406 | the author's books are listed exactly when the author service confirms the author or the answer is an open circuit; an unknown author is 404 and a timeout or other fault 500. The open-circuit answer never reaches this action (`BookController.OpenCircuitUnreachable`) |
| BookController.EmptyInv | src/BooksService/Data/Migrations/20251115195654_initial_migration.cs:14-36 | the empty table with the identity counter at 1 satisfies the invariant: ids below the counter, one row per id, no shared ISBN |
| BookController.CreateInv | src/BooksService/Controllers/BookController.cs:80-137 | creation keeps the invariant, because a book is inserted only under a fresh id with an ISBN no row holds |
| BookController.UpdateInv | src/BooksService/Controllers/BookController.cs:181-240 | an update keeps the invariant: it keeps the id and either keeps the ISBN or takes one no other row holds |
| BookController.DeleteInv | src/BooksService/Controllers/BookController.cs:262-288 | deletion keeps the invariant |
| BookController.CreatedBookIsFound | src/BooksService/Controllers/BookController.cs:134-140 | the book just created is read back under the id it was given, with the requested ISBN |
| BookController.DeletedBookNotFound | src/BooksService/Controllers/BookController.cs:262-288 | after a delete the id reads as 404 |
| BookController.OwnIsbnNeverConflicts | src/BooksService/Controllers/BookController.cs:181-189 | an update that re-sends the book's own ISBN never answers the ISBN conflict |
| BookController.UnchangedCategoryNotConsulted | src/BooksService/Controllers/BookController.cs:194-207 | with an unchanged category id the category service's answer, a timeout included, makes no difference |
| BookController.AuthorAskedAfterCategory | src/BooksService/Controllers/BookController.cs:91-116 | while the category is unconfirmed the author service's answer makes no difference to creation |
| BookController.SearchMetadataConsistent | src/BooksService/Controllers/BookController.cs:331-346 | the page holds books exactly when it is not past the last page, hasNext says books remain after it, and hasPrevious says the page is past the first |
| BookController.OpenCircuitDegradesGracefully | src/BooksService/Controllers/BookController.cs:393-405 | the action's open-circuit handler lists the author's books, while a timeout is 500; the handler is dead code, since the per-request policy never refuses the look-up |
| BookController.OpenCircuitUnreachable | src/BooksService/Controllers/BookController.cs:38 | the policy is built with each controller, so the author look-up runs on a closed breaker: it is never an open circuit, and the books are listed exactly when the author is confirmed |
| AuthorController.Dto | src/AuthorService/Controllers/AuthorController.cs:378-394 | The view carries the author with its full name, age and status as the entity derives them, and starts with no books and a count of 0 |
| AuthorController.WithBooks | src/AuthorService/Controllers/AuthorController.cs:400-414 | On success the author gets the books returned; on any failure no books. Either way the count is the number of books kept |
| AuthorController.WithCount | src/AuthorService/Controllers/AuthorController.cs:422-432 | On success the count is the one returned; on any failure it is 0. The books are untouched |
| AuthorController.LoadAll | src/AuthorService/Controllers/AuthorController.cs:396-434 | The bulk loaders keep every author, in order, and let no failure escape. With books, each count equals its list's length; without, no author has books |
| AuthorController.GetAuthors | src/AuthorService/Controllers/AuthorController.cs:40-59 | The listing is always 200 and holds exactly the stored authors in order. With books asked for, each author shows the books its answer returned, or none after a failure, and counts them; without, no books and the count returned, or 0 after a failure |
| AuthorController.GetAuthor | src/AuthorService/Controllers/AuthorController.cs:61-86 | A missing author is 404. With books asked for, an open circuit escapes the action; otherwise the stored author shows the books returned, or none after a timeout or other failure, and counts them. Without books it shows the count returned, or 0 after a failure |
| AuthorController.Insert | src/AuthorService/Controllers/AuthorController.cs:88-138 | A body its annotations refuse is 400 with their failures. Those annotations require a first and last name, and a biography, e-mail, country and website present, and the website must start with http://, https:// or ftp://. Otherwise the validator's failures are 400. An e-mail already stored (trimmed, exact) is 409. The author is created, active and under the next id, exactly when validation passes, the e-mail is new, the save succeeds and every NOT NULL column has a value. Otherwise the table is unchanged |
| AuthorController.CreateAuthor | src/AuthorService/Controllers/AuthorController.cs:109-120 | The created row holds every field of the request with text trimmed, biography and website included; the author is active and has the next id |
| AuthorController.UpdateAuthor | src/AuthorService/Controllers/AuthorController.cs:140-204 | The checks run in order: validation 400 (the body's annotations, then the validator), id mismatch 400, missing 404, e-mail clash 409. The e-mail is looked up only when it changes, and the author itself is no clash. The update is 204 exactly when all pass, the save succeeds and no NOT NULL column is null. It replaces only the row with that id; every other reply leaves the table unchanged |
| AuthorController.DeleteAuthor | src/AuthorService/Controllers/AuthorController.cs:206-252 | A missing author is 404. A counted positive number of books is 400. Deletion happens exactly when the author exists, the save succeeds and no positive count was returned; it removes exactly the authors with that id |
| AuthorController.SearchAuthors | src/AuthorService/Controllers/AuthorController.cs:254-337 | A page below 1 and a page size outside 1 to 100 are refused with their messages. Otherwise the data is exactly the repository's page, at most `pageSize` stored authors that match the filter. The total count is the repository's, and the page and size are echoed |
| AuthorController.GetAuthorBooks | src/AuthorService/Controllers/AuthorController.cs:339-376 | A missing author is 404. The books are 200 exactly on success. An open circuit is 503; a timeout or any other failure is 500 |
| Remote.OfVerdict | src/AuthorService/Controllers/AuthorController.cs:351-375 | The policy's verdict reaches the action as a broken circuit exactly when the breaker refused, as a timeout exactly when the timeout fired, and as the value exactly when the call completed successfully |
| AuthorController.EmptyInv | src/AuthorService/Migrations/20251116123758_initial_migration.cs:15-36 | The empty table, with identity starting at 1, satisfies the table's invariant |
| AuthorController.CreateInv | src/AuthorService/Controllers/AuthorController.cs:101-125 | Creating keeps ids unique and below the next id, and keeps e-mails unique |
| AuthorController.UpdateInv | src/AuthorService/Controllers/AuthorController.cs:166-194 | Updating keeps ids unique and keeps e-mails unique |
| AuthorController.DeleteInv | src/AuthorService/Controllers/AuthorController.cs:240-242 | Deleting keeps the invariant |
| AuthorController.CreateAsWrittenNeverSucceeds | src/AuthorService/Controllers/AuthorController.cs:109-135 | As written, creation never succeeds: a request that passes validation with a new e-mail always gets 500 "Error creating author", because the row's biography and website are null in NOT NULL columns |
| AuthorController.CreatedAuthorReadsBack | src/AuthorService/Controllers/AuthorController.cs:88-138 | With the row as intended, a request that passes validation (which insists on a biography and a website) and has a new e-mail is created. Reading it back gives every request field, trimmed |
| AuthorController.DeletedAuthorNotFound | src/AuthorService/Controllers/AuthorController.cs:206-252 | After a successful delete, reading the author is 404 |
| AuthorController.UncountedAuthorDeleted | src/AuthorService/Controllers/AuthorController.cs:231-235 | Any failure to count the books, an open circuit or a timeout included, lets an existing author be deleted |
| AuthorController.IdCheckedAfterValidation | src/AuthorService/Controllers/AuthorController.cs:143-155 | A request that fails validation is 400 with its failures even when the URL and body ids differ |
| AuthorController.SchemelessWebsiteRefused | src/AuthorService/Dtos/AuthorDto.cs:41-44 | Creating or updating with the website "example.com" is 400 and stores nothing |
| AuthorController.OwnEmailNeverConflicts | src/AuthorService/Controllers/AuthorController.cs:166-175 | Re-sending the author's own e-mail, even with white space around it, is never a 409 |
| AuthorController.SearchMetadataConsistent | src/AuthorService/Controllers/AuthorController.cs:293-318 | The page is non-empty exactly when it is within the total pages. `HasNextPage` holds exactly when more items follow the page, and `HasPreviousPage` exactly when the page is above 1 |
| AuthorController.SingleLoaderRethrowsOnlyOpenCircuit | src/AuthorService/Controllers/AuthorController.cs:396-460 | The single-author loader rethrows an open circuit but swallows a timeout; the bulk loader swallows both and leaves every author with no books and a count of 0 |
| AuthorController.OpenCircuitUnreachable | src/AuthorService/Controllers/AuthorController.cs:351-375 | Each call runs on a freshly built policy whose breaker starts closed. So `GetAuthorBooks` never answers 503 and `GetAuthor` never lets an exception escape |
| CategoryController.WithBooks | src/CategoryService/Controllers/CategoryController.cs:361-401 | a category loaded with its books keeps one summary per remote book and reports their number as its count; any failure leaves it with no books and count 0 |
| CategoryController.WithCount | src/CategoryService/Controllers/CategoryController.cs:403-418 | a category loaded with its count reports the remote count on success and 0 on any failure, never listing books |
| CategoryController.LoadAll | src/CategoryService/Controllers/CategoryController.cs:361-418 | the bulk loaders keep every category in its place and apply the per-category rule to each, no failure escaping |
| CategoryController.GetCategories | src/CategoryService/Controllers/CategoryController.cs:39-58 | the listing always succeeds with every stored category in store order. With books asked for, each shows one summary per book its answer returned, in order, or none after a failure, and counts them; without, no books and the count returned, or 0 after a failure |
| CategoryController.GetCategory | src/CategoryService/Controllers/CategoryController.cs:60-85 | an unknown id is 404. With books asked for, a timeout or an open circuit escapes the action; otherwise the category shows one summary per book returned, or none after another failure, and counts them. Without books it shows the count returned, or 0 after a failure. The open circuit never reaches it (`CategoryController.OpenCircuitUnreachable`) |
| CategoryController.CreateCategory | src/CategoryService/Controllers/CategoryController.cs:87-129 | validation errors give 400 and a taken title (compared exactly) gives 409, both leaving the store alone; a created category has the next id and is appended, and creation happens exactly when the form is valid, the title free and the save succeeds |
| CategoryController.UpdateCategory | src/CategoryService/Controllers/CategoryController.cs:131-180 | 400 when the body's annotations refuse it, with their failures, and otherwise when the validator does. The annotations require a title of 2 to 100 characters and a description of 10 to 1000, neither blank. 404 on unknown ids; the update goes through exactly when the title is unchanged or held by no other category and the save succeeds, and then only that category is replaced |
| CategoryController.UpdateWithoutDescriptionRefused | src/CategoryService/Dtos/UpdateCategoryDto.cs:12-13 | Updating with the title "Poetry" and no description is 400 with the annotation failures and leaves the store unchanged, though the validator alone accepts that body |
| CategoryController.DeleteCategory | src/CategoryService/Controllers/CategoryController.cs:182-236 | unknown ids give 404, a positive book count gives 400, a timeout or open circuit gives 503; deletion happens exactly when the category exists, the save succeeds and the count was non-positive or failed in any other way, and it removes just that category. The open circuit never reaches it (`CategoryController.OpenCircuitUnreachable`) |
| CategoryController.ClampPage | src/CategoryService/Controllers/CategoryController.cs:253-257 | the page used is at least 1 and is the requested page whenever that is valid |
| CategoryController.ClampPageSize | src/CategoryService/Controllers/CategoryController.cs:259-263 | the page size used lies in 1..100 and is the requested size whenever that is valid |
| CategoryController.SearchCategories | src/CategoryService/Controllers/CategoryController.cs:238-311 | the search always succeeds with the corrected paging, returns the repository page of matching stored categories and reports the total number of matches |
| CategoryController.GetPopularCategories | src/CategoryService/Controllers/CategoryController.cs:313-335 | a count outside 1..20 is 400; otherwise at most count categories, a permutation of the ones the repository picks, ordered by book count descending |
| CategoryController.CategoryExists | src/CategoryService/Controllers/CategoryController.cs:337-352 | a blank title is 400; otherwise the answer is true exactly when some stored category has exactly that title |
| CategoryController.EmptyInv | src/CategoryService/Data/ApplicationDbContext.cs:6-9 | an empty category table satisfies the store invariant (ids below the next id, ids and titles unique) |
| CategoryController.CreateInv | src/CategoryService/Controllers/CategoryController.cs:100-128 | creating a category keeps ids and titles unique |
| CategoryController.AppendKeepsInv | src/CategoryService/Controllers/CategoryController.cs:111-120 | appending a category with the next id and an unused title keeps the invariant |
| CategoryController.UpdateInv | src/CategoryService/Controllers/CategoryController.cs:151-179 | updating a category keeps ids and titles unique |
| CategoryController.DeleteInv | src/CategoryService/Controllers/CategoryController.cs:218-235 | deleting a category keeps the invariant |
| CategoryController.CreatedCategoryIsFound | src/CategoryService/Controllers/CategoryController.cs:60-129 | a category just created is found by GetCategory under the id it was given, with the submitted title and description |
| CategoryController.DeletedCategoryNotFound | src/CategoryService/Controllers/CategoryController.cs:60-70 | after a successful deletion GetCategory answers 404 for that id |
| CategoryController.CategoryWithBooksKept | src/CategoryService/Controllers/CategoryController.cs:196-204 | a category the book service reports books for is never deleted, whatever the database would do |
| CategoryController.UnverifiedCountStillDeletes | src/CategoryService/Controllers/CategoryController.cs:206-220 | a count failure other than a timeout or open circuit lets the deletion go ahead, while a timeout postpones it with 503 |
| CategoryController.OwnTitleNeverConflicts | src/CategoryService/Controllers/CategoryController.cs:151-160 | re-sending a category's own title never yields a title conflict |
| CategoryController.TitlesDifferingInCaseCoexist | src/CategoryService/Controllers/CategoryController.cs:100-106 | title uniqueness is case-sensitive: "art" can be created next to "Art" |
| CategoryController.SearchParamsCorrected | src/CategoryService/Controllers/CategoryController.cs:251-263 | any page and page size give the same reply as their corrected values; an out-of-range size becomes 20 |
| CategoryController.SearchMetadataConsistent | src/CategoryService/Controllers/CategoryController.cs:268-300 | the page has data exactly when it is within the total pages, hasNext exactly when matches remain beyond it, hasPrevious exactly when it is past the first |
| CategoryController.BulkSwallowsWhatSingleRethrows | src/CategoryService/Controllers/CategoryController.cs:382-393 | a timeout escapes the single-category load but the bulk load turns it into no books and count 0 for every category |
| CategoryController.LoadersAgree | src/CategoryService/Controllers/CategoryController.cs:403-461 | for the same remote reply the count loader and the list loader report the same non-negative number of books |
| CategoryController.PopularIgnoresBookCounts | src/CategoryService/Controllers/CategoryController.cs:325-332 | the popular categories are chosen by title before book counts are known: with one slot the first title wins over a category with more books |
| CategoryController.PopularRankedByBooks | src/CategoryService/Controllers/CategoryController.cs:330-331 | in the popular list an earlier category never has fewer books than a later one |
| CategoryController.OpenCircuitUnreachable | src/CategoryService/Controllers/CategoryController.cs:36 | the policy is built with each controller, so the single remote call of GetCategory and of DeleteCategory runs on a closed breaker: GetCategory escapes only on a timeout, and DeleteCategory never answers that the book service is down |
| UserController.Members | src/IdentityService/Controllers/UserController.cs:105-106 | an id is among the role members exactly when some user with that id holds the role (compared case-insensitively) |
| UserController.ClampPage | src/IdentityService/Controllers/UserController.cs:79-80 | the page used is at least 1 and is the requested page whenever that is valid |
| UserController.ClampPageSize | src/IdentityService/Controllers/UserController.cs:82-83 | the page size used lies in 1..100: the requested size when valid, 20 otherwise |
| UserController.SearchUsers | src/IdentityService/Controllers/UserController.cs:71-179 | the search always succeeds; the total is the number of users passing the term and role filters, every user shown passes them, at most a page is shown, the page shown is the requested one (below 1 read as 1) unless it lies past the last page of a non-empty result, when it is the last page, and a role nobody holds gives an empty page with no flags |
| UserController.Listing | src/IdentityService/Controllers/UserController.cs:131-170 | the page shown is the requested one, except that one past the last page of a non-empty result becomes the last page; the users shown are that page of the filtered users in e-mail order, and the metadata is computed from the same count and size |
| UserController.SearchSuggestions | src/IdentityService/Controllers/UserController.cs:181-215 | a missing or blank term gets the automatic 400 of the implicit `[Required]` (the binder reads blank as null); a term of one visible character gets the action's 400; otherwise the suggestions are the first matches in e-mail order, as many as the corrected limit allows |
| UserController.TooShortIsOneVisibleCharacter | src/IdentityService/Controllers/UserController.cs:183-189 | the action's own "at least 2 characters" refusal is given exactly for a one-character term that is not white space |
| UserController.PercentMatchesAll | src/IdentityService/Controllers/UserController.cs:95-98 | the pattern % alone matches every string |
| UserController.LiteralPrefix | src/IdentityService/Controllers/UserController.cs:95-98 | a wildcard-free term followed by % matches exactly the strings that begin with it |
| UserController.LeadingPercent | src/IdentityService/Controllers/UserController.cs:95-98 | a leading % lets the rest of the pattern match at any position |
| UserController.LikeIsContains | src/IdentityService/Controllers/UserController.cs:95-98 | for a term without wildcards, the LIKE filter is exactly a substring test |
| UserController.UnderscoreIsWildcard | src/IdentityService/Controllers/UserController.cs:95-98 | the term is not escaped: "a_b" finds "axb", which does not contain it |
| UserController.SearchMetadataConsistent | src/IdentityService/Controllers/UserController.cs:161-170 | when the role filter does not short-circuit, totalPages is the ceiling of count over size, hasPrevious holds exactly past page 1 and hasNext exactly when users remain after the page |
| UserController.PastLastPageShowsLastPage | src/IdentityService/Controllers/UserController.cs:133-137 | a page past the last gives the same reply as the last page |
| UserController.UnknownRoleHasNoPrevious | src/IdentityService/Controllers/UserController.cs:112-127 | a role nobody holds gives an empty reply that reports no previous page even on page 3 |
| UserController.NoMatchNoResult | src/IdentityService/Controllers/UserController.cs:89-99 | a term no user matches leaves nobody, whatever the role |
| UserController.FilteredWithoutRole | src/IdentityService/Controllers/UserController.cs:101-111 | without a role the filter is the term filter alone |
| UserController.UnmatchedSearchHasPrevious | src/IdentityService/Controllers/UserController.cs:131-170 | an empty result reached through the term filter reports a previous page on page 3, unlike the empty result of an unknown role |
| UserController.SuggestionsTakeMatches | src/IdentityService/Controllers/UserController.cs:196-212 | for a valid term and limit the suggestions are the matching users in e-mail order cut at the limit |
| UserController.FirstPageTakesMatches | src/IdentityService/Controllers/UserController.cs:139-144 | the first search page without a role is the matching users in e-mail order cut at the page size |
| UserController.SuggestionsAreFirstSearchPage | src/IdentityService/Controllers/UserController.cs:95-98 | the suggestions name the same users as the first search page of the same size without a role |
| UserController.PaddedSingleCharacterAccepted | src/IdentityService/Controllers/UserController.cs:186-196 | the length check looks at the untrimmed term, so " a " passes it and is searched for as "a" |
| UserController.OwnNameFindsUser | src/IdentityService/Controllers/UserController.cs:89-98 | with columns and term folded alike, searching for a user's own full name, without wildcards or surrounding white space, finds the user whatever letters the name uses |
| UserController.AsciiSearchUnaffected | src/IdentityService/Controllers/UserController.cs:95-98 | on ASCII e-mail, full name and user name the filter as written and the intended filter agree |
| UserController.AccentedNameMissed | src/IdentityService/Controllers/UserController.cs:91-98 | the user "Éva" searched for as "Éva" is missed by the filter as written and found by the intended one |
| BookValidation.IsbnFailures | src/BooksService/Validators/BookValidator.cs:25-27 | the ISBN passes exactly when it is not blank and has 10 to 13 characters |
| BookValidation.CreateValidIff | src/BooksService/Validators/BookValidator.cs:8-45 | a create request produces no failure exactly when every field meets its rule: title, author, publisher, year, ISBN, pages, category, language, description and an absolute photo URL |
| BookValidation.YearBounds | src/BooksService/Validators/BookValidator.cs:21-23 | the year is valid from 1000 up to and including the current year: next year and 999 are refused, the current year accepted |
| BookValidation.IsbnOfElevenAccepted | src/BooksService/Validators/BookValidator.cs:25-27 | an 11-character ISBN passes the rule as written, though its message allows only 10 or 13 characters |
| BookValidation.IntendedIsbnFailures | src/BooksService/Validators/BookValidator.cs:25-27 | the intended ISBN rule passes exactly a non-blank ISBN of exactly 10 or exactly 13 characters |
| BookValidation.IntendedIsbnRule | src/BooksService/Validators/BookValidator.cs:25-27 | the intended rule accepts an ISBN exactly when the written one does and its length is neither 11 nor 12 |
| BookValidation.IntendedCreateValid | src/BooksService/Validators/BookValidator.cs:8-45 | with the intended ISBN rule a request passes exactly when it passes as written and its ISBN has 10 or 13 characters |
| BookValidation.UpdateValidIff | src/BooksService/Validators/UpdateBookValidator.cs:8-40 | an update request produces no failure exactly when every field meets its rule, ISBN up to 20 characters and pages up to 10000 included |
| BookValidation.UpdateAllowsMissingPublisher | src/BooksService/Validators/UpdateBookValidator.cs:18-19 | an update may leave out the publisher and the language, which creation requires |
| CategoryValidation.EntityValidIff | src/CategoryService/Validators/CategoryValidator.cs:8-24 | a category passes exactly when its title is non-blank, 2 to 100 characters and matches the pattern, and its description is non-blank and 10 to 500 characters |
| CategoryValidation.IdRuleNeverFails | src/CategoryService/Validators/CategoryValidator.cs:21-23 | the id rule never fails, whatever the id |
| CategoryValidation.DescriptionMaxRedundant | src/CategoryService/Validators/CategoryValidator.cs:16-19 | a description breaking the 1000-character limit has already broken the 10-to-500 rule |
| CategoryValidation.DtoValidIff | src/CategoryService/Validators/CreateCategoryValidator.cs:10-16 | a create or update DTO passes exactly with a non-blank title of 2 to 100 characters and a description of at most 500, possibly missing |
| CategoryValidation.DtoLooserThanEntity | src/CategoryService/Validators/UpdateCategoryValidator.cs:10-16 | a DTO the validator accepts can still make an entity the entity rules refuse: a missing description |
| CategoryValidation.UpdateAnnotationFailures | src/CategoryService/Dtos/UpdateCategoryDto.cs:8-14 | The update body's annotations pass exactly when the title is present, not blank and 2 to 100 characters long, and the description is present, not blank and 10 to 1000 characters long |
| CategoryValidation.UpdateRequestValidIff | src/CategoryService/Dtos/UpdateCategoryDto.cs:8-14 | An update body gets through exactly when the title, not blank, has 2 to 100 characters and the description, not blank, has 10 to 500 |
| CategoryValidation.UpdateNeedsDescription | src/CategoryService/Dtos/UpdateCategoryDto.cs:12-13 | A title the validator accepts is still refused on update with no description or a non-blank one under ten characters |
| Authors.FullName | src/AuthorService/Entities/Author.cs:54-55 | The full name is the first name, one space, then the last name; a null name contributes nothing |
| Authors.FullNameInjective | src/AuthorService/Entities/Author.cs:55 | When first names hold no space, equal full names mean equal first and last names |
| Authors.Status | src/AuthorService/Entities/Author.cs:74-75 | The status is "Deceased" exactly when a death date is set, otherwise "Alive" |
| Authors.Age | src/AuthorService/Entities/Author.cs:57-71 | The age is null exactly when no birth date is set |
| Authors.AgeIsCompletedYears | src/AuthorService/Entities/Author.cs:61-69 | The age is the number of completed years: the end date taken back that many years is not before the birth date, and taken back one more year it is. The end date is the death date or today |
| Authors.LeapDayBirthday | src/AuthorService/Entities/Author.cs:64-67 | Someone born on 29 February 2000 is 0 on 28 February 2001 and 1 on 1 March 2001, because `AddYears` clamps to 28 February |
| Authors.AgeNonNegative | src/AuthorService/Entities/Author.cs:57-71 | A birth date not after the end date gives a non-negative age |
| Authors.FirstNameFailures | src/AuthorService/Validators/AuthorValidator.cs:11-15 | The first-name rules (required, 2 to 50 characters, the name pattern) file every failure under FirstName |
| Authors.LastNameFailures | src/AuthorService/Validators/AuthorValidator.cs:17-21 | The last-name rules file every failure under LastName |
| Authors.BiographyFailures | src/AuthorService/Validators/AuthorValidator.cs:23-25 | The biography rule files its failure under Biography and applies only to a non-empty biography |
| Authors.EmailFailures | src/AuthorService/Validators/AuthorValidator.cs:27-30 | The e-mail rules (required, e-mail shape, at most 100 characters) file every failure under Email |
| Authors.BirthFailures | src/AuthorService/Validators/AuthorValidator.cs:32-34 | The birth-date rule files its failure under DateOfBirth |
| Authors.DeathFailures | src/AuthorService/Validators/AuthorValidator.cs:36-39 | The death-date rules file every failure under DateOfDeath |
| Authors.CountryFailures | src/AuthorService/Validators/AuthorValidator.cs:41-45 | The country rules file every failure under Country |
| Authors.WebsiteFailures | src/AuthorService/Validators/AuthorValidator.cs:47-51 | The website rules file every failure under Website |
| Authors.ProfileValidIff | src/AuthorService/Validators/AuthorValidator.cs:55-101 | A profile produces no failure exactly when every property meets its rules. A null or empty biography or website passes. Death dates are checked only together with a birth date |
| Authors.NamesAndEmailIff | src/AuthorService/Validators/AuthorValidator.cs:59-78 | The first name, last name, biography and e-mail each pass exactly when their own rules hold |
| Authors.DatesCountryAndWebsiteIff | src/AuthorService/Validators/AuthorValidator.cs:80-99 | The birth date, death date, country and website each pass exactly when their own rules hold |
| Authors.DeathIff | src/AuthorService/Validators/AuthorValidator.cs:84-87 | The death date passes exactly when, with both dates given, death is after birth and not after today |
| Authors.WebsiteIff | src/AuthorService/Validators/AuthorValidator.cs:95-99 | The website passes exactly when it is null, empty, or at most 200 characters and matching the URL pattern |
| Authors.UpdateValidIff | src/AuthorService/Validators/AuthorValidator.cs:103-152 | An update passes exactly when its id is positive and the same fields would pass creation |
| Authors.AnnotationFailures | src/AuthorService/Dtos/AuthorDto.cs:10-44 | The body's annotations pass exactly when the names are present and not blank, biography, e-mail, country and website are present, the e-mail passes the e-mail check, the website starts with http://, https:// or ftp:// (case ignored), and every text keeps to its length cap |
| Authors.RequestValidIff | src/AuthorService/Dtos/AuthorDto.cs:10-44 | A create body gets through exactly when the validator accepts it and it also carries a biography and a website naming an http, https or ftp address |
| Authors.UpdateRequestValidIff | src/AuthorService/Dtos/AuthorDto.cs:54-57 | An update body gets through exactly when its id is positive and the same fields would get through on create |
| Authors.WebsiteNeedsScheme | src/AuthorService/Dtos/AuthorDto.cs:41-44 | A body with the website "example.com", "" or none is refused, whatever else it holds |
| Authors.BadWebsiteRefused | src/AuthorService/Dtos/AuthorDto.cs:41-44 | A body whose website is missing or names no http, https or ftp address is refused with the annotations' failures, which the validator never gets to add to |
| Authors.NullAndEmptyNamesDiffer | src/AuthorService/Validators/AuthorValidator.cs:59-63 | A null first name fails only "required". An empty one fails "required", the length rule and the pattern: FluentValidation skips `Length` and `Matches` on null but not on "" |
| Authors.NullNameFailures | src/AuthorService/Validators/AuthorValidator.cs:59-63 | A null first name produces exactly one FirstName failure, "First name is required" |
| Authors.EmptyNameFailures | src/AuthorService/Validators/AuthorValidator.cs:59-63 | An empty first name produces exactly the three FirstName failures, in rule order |
| Authors.DeathDateUncheckedWithoutBirth | src/AuthorService/Validators/AuthorValidator.cs:84-87 | Without a birth date, even a death date in the future produces no DateOfDeath failure |
| Authors.OnProperty | src/AuthorService/Validators/AuthorValidator.cs:55-101 | The FirstName and DateOfDeath failures of the whole list are exactly those the property's own rules produce |
| Authors.OnFirstName | src/AuthorService/Validators/AuthorValidator.cs:55-101 | The FirstName failures of the whole list are exactly those the first-name rules produce |
| Authors.OnDateOfDeath | src/AuthorService/Validators/AuthorValidator.cs:55-101 | The DateOfDeath failures of the whole list are exactly those the death-date rules produce |
| Authors.AcceptedProfileHasNonNegativeAge | src/AuthorService/Validators/AuthorValidator.cs:80-87 | A profile that passes validation and has a birth date has a non-negative age |
| Dates.AddYears | src/AuthorService/Entities/Author.cs:66 | Taking a date back or forward by years keeps the month and day, except that 29 February becomes 28 February in a year that is not a leap year. A valid date stays valid |

## Left out

- RabbitMQ plumbing: connections, channels, queue declarations, JSON and UTF-8 encoding, and OrderService's event publisher. It is I/O, so a publish is an event in a log.
- Concurrency: the pending dictionary is shared unsynchronised between the listener thread and the senders. Each table operation is modelled as one atomic step, so thread-safety is not established.
- Polly internals: half-open probing and abandoning a task on a pessimistic timeout live in the library. The breaker is modelled as closed (with a failure count), open (since a time) or half-open. After a pessimistic timeout the caller gets the timeout at once, while the breaker records whatever the abandoned retry loop finally ends with; the moment it records it is not modelled.
- Persistence: EF Core, SQLite, `DbContext`, the generic repository and `UnitOfWork` are replaced by sequences of rows with an identity counter. In AuthorController and CategoryController, whether `SaveChanges` succeeds is the parameter `saved`; the NOT NULL failure of the author create finding is modelled from the row itself.
- Orders: a failing save is modelled only in `CreateOrder` (the parameter `save`, giving 400). A failing save in `ReturnOrder`, `ExtendOrder` and `DeleteOrder` is not modelled; it escapes as a 500.
- Identity and hosting: `UserManager` and `SignInManager` are oracles whose answers are parameters. Password and lockout policy, cookies, CORS, Swagger, logging and the other Program.cs wiring are not modelled.
- UserController's `GetAllUsers`, `GetUser`, `DeleteUser` and `GetSearchStats` are not modelled. The statistics endpoint computes a floating-point average; the other three are direct Identity calls.
- BooksService's create validator registered at src/BooksService/Program.cs:53 is `CreateBookDtoValidator`, which is not part of this model. `BookController.CreateBook` therefore takes the validator's verdict as a parameter. `BookValidation` models the `BookValidator` rule set.
- CategoryController.CreateCategory: `CreateCategoryDto` is not part of this model, so any DataAnnotations on it, which ASP.NET would check before the action, are not modelled; only its validator is.
- BookController.UpdateBook: `UpdateBookDto` is not part of this model either, so its DataAnnotations are not modelled; nor are those of `CreateBookDto` (`BookController.CreateBook`) or of IdentityService's `RegisterDto` and `LoginDto` (`Accounts.Register`, `Accounts.Login`).
- AdminCode.ValidateAction: whether a JSON null `AdminCode` gets the implicit `[Required]` depends on AdminService's project file enabling nullable reference types; that file is not part of this model, so it is the parameter `nullableEnabled`.
- A request body that is missing altogether, or is not JSON, gets a 400 from the framework before any action; it is not modelled.
- The body of an automatic 400 (a `ValidationProblemDetails` keyed by property) and of the action's own 400 (a list of messages) are both the reply `Invalid(failures)`; their JSON shapes are not modelled. Annotation failures are listed property by property in declaration order, each property's `[Required]` first.
- Regular expressions, the e-mail check and `Uri.IsWellFormedUriString` are oracles (functions the caller supplies). The author name and country patterns are not interpreted.
- Common.Lower: `char.ToLowerInvariant` is modelled for ASCII and Latin-1 letters only. Every other character is kept unchanged, which is weaker than .NET's full Unicode table.
- AdminCode.ValidIff: `StringComparison.OrdinalIgnoreCase` is modelled through `Common.UpperChar`, which folds ASCII and Latin-1 letters only; two codes differing in the case of another letter compare unequal in the model. Generated codes hold only A-Z and 0-9, where the fold is exact.
- UserController.Members: role names are compared case-insensitively through the same ASCII and Latin-1 fold as `AdminCode.ValidIff`, where Identity normalises them with the full Unicode table.
- BookRepository.SearchBooks: the search uses the intended fold and the unbounded offset. The query as written folds the title with SQLite's `lower()` (`BookRepository.AccentedTitleMissed`) and wraps the offset in 32 bits (`Query.WrappedSearchShowsFirstPage`).
- Query.Search: uses the unbounded offset; `Query.SearchAsWritten` wraps it in 32 bits as the repositories do (`Query.WrappedSearchShowsFirstPage`).
- AuthorRepository.SearchAuthors: the search uses the intended fold and the unbounded offset. The query as written folds columns with SQLite's `lower()` and wraps the offset in 32 bits (see Findings).
- AuthorRepository.FullNameFindsAuthor: stated for the intended fold. As written, a name with a non-ASCII capital is missed (`AuthorRepository.AccentedNameMissed`).
- CategoryRepository.SearchCategories: the search uses the intended fold and the unbounded offset (see Findings).
- UserController.SearchUsers: the filter uses the intended fold (see Findings). A page past the last is moved back to the last before the offset is computed, so the offset can wrap only when no user matches, and then the page is empty either way.
- UserController.Listing: lists the users of the intended filter.
- UserController.SearchSuggestions: the suggestions use the intended filter.
- Orders.GetAllOrders: uses the unbounded offset; as written it wraps in 32 bits (`Orders.OverflowingPageRepeatsFirst`).
- BookController.OpenCircuitDegradesGracefully: describes a handler no request reaches, kept to document the code's intent.
- BookController.CreateBook: its two look-ups share one per-request policy, so the second can in principle meet a breaker the first moved. The answers are modelled as independent parameters.
- Strings are Dafny strings, sequences of Unicode scalar values, so every length counts characters. .NET's `Length` counts UTF-16 code units: it agrees on text inside the Basic Multilingual Plane and counts each character outside it (an emoji, say) twice. Every `MaximumLength`, `Length`, `[StringLength]` rule and the suggestions' two-character minimum therefore accepts slightly more such text in the model than in the services. There is no normalisation.
- Time: `DateTime.UtcNow` and `DateTime.Today` are parameters. Instants are whole seconds and author dates are calendar dates, so the time of day is not modelled.
- OrderService's two separate clock reads (order date and due date) are one `now`. Exact reals are used only for back-off times.
- Random numbers: `Random.Next` in `GenerateAdminCode` is an oracle, given as the six indices it returned. GUIDs are fresh ids supplied by the caller.
- Orders: `Overdue` is never assigned anywhere, so no order reaches it. The BooksService look-up over HTTP is an oracle answering per requested book.
- BookController: a failing database write is not modelled. `DeleteBook` would answer 500, and `CreateBook` and `UpdateBook` would fall into their generic 500 catch clause. These actions are modelled as if the write always succeeds.
- The pending entry of a request whose publish throws is never removed, because no timer was started (`Correlation.FailedPublishNeverTimesOut`). This leak is reported, not repaired.
- CategoryController.GetPopularCategories: the order among categories with equal book counts is stated as title order. It relies on `OrderByDescending` being stable and the input being in title order; only a permutation plus the book-count ranking is promised.
- UserController.SearchUsers: with a role nobody holds, the reply reports `hasPrevious` false even past page 1 (`UserController.UnknownRoleHasNoPrevious`). It is modelled as written.
- UserController.SearchSuggestions: the two-character minimum is checked on the untrimmed term, as written (`UserController.PaddedSingleCharacterAccepted`).
- UserController: `Email`, `FullName` and `UserName` of an Identity user are treated as nullable, and a null column never matches `LIKE`.
- NotificationService's weather endpoints have no library logic and are not modelled.

## Findings

| source | as written | input that shows it | evidently intended | confidence | as-written member | corrected member |
|---|---|---|---|---|---|---|
| src/BooksService/Repositories/BookRepository.cs:33 | the offset `(page - 1) * pageSize` is computed in 32-bit `int` and wraps | page 21474838 with pageSize 100 passes the controller's checks; the offset wraps to -2147483596 and the first page is returned | a page past the end is empty | high for the overflow, medium for the SQLite reading of a negative offset; not executed | Paging.OffsetOverflowReturnsFirstPage | Paging.PageNonEmptyIff |
| src/AuthorService/Controllers/AuthorController.cs:109-120 | the new author omits `Biography` and `Website`, which are NOT NULL columns (src/AuthorService/Migrations/20251116123758_initial_migration.cs:22, 27) | any valid create request with an unused e-mail gets 500 | the new author stores the biography and website from the request | medium; not executed | AuthorController.CreateAsWrittenNeverSucceeds | AuthorController.CreatedAuthorReadsBack |
| src/BooksService/Validators/BookValidator.cs:25-27 | `Length(10, 13)` accepts every length from 10 to 13 | an 11-character ISBN passes the rule set, although the message says 10 or 13 characters; latent, because src/BooksService/Program.cs:53 registers `CreateBookDtoValidator` for `CreateBookDto` after the assembly scan at :45, and the last registration is the one resolved, so no request reaches `BookValidator` | exactly 10 or 13 characters | high for the rule, which is latent; not executed | BookValidation.IsbnOfElevenAccepted | BookValidation.IntendedIsbnFailures |
| src/BooksService/Repositories/BookRepository.cs:113-117 | the term is lower-cased in .NET but the column by SQLite's `lower()`, which folds ASCII letters only | the title "Élan" searched for as "Élan" is not found | a search folds column and term alike, non-ASCII titles included | medium; not executed | BookRepository.AccentedTitleMissed | BookRepository.OwnTitleFindsBook |
| src/OrderService/Services/OrderService.cs:101-104 | the offset `(pageNumber - 1) * pageSize` is computed in 32-bit `int` and wraps; nothing bounds the page number | page 214748366 with pageSize 10: the offset wraps to -2147483646 and the first ten orders are listed again | a page past the end is empty | high for the overflow, medium for the SQLite reading of a negative offset; not executed | Orders.OverflowingPageRepeatsFirst | Orders.PageNonEmptyIff |
| src/AuthorService/Repositories/AuthorRepository.cs:42-45 | the offset `(page - 1) * pageSize` is computed in 32-bit `int` and wraps | page 21474838 with pageSize 100 passes the controller's checks and lists the first page again | a page past the end is empty | high for the overflow, medium for the SQLite reading of a negative offset; not executed | AuthorRepository.OverflowingPageRepeatsFirst | AuthorRepository.CountAgreesWithPages |
| src/CategoryService/Repositories/CategoryRepository.cs:29-32 | the same 32-bit offset | page 21474838 with pageSize 100 survives the controller's clamping and lists the first page again | a page past the end is empty | high for the overflow, medium for the SQLite reading of a negative offset; not executed | CategoryRepository.OverflowingPageRepeatsFirst | CategoryRepository.CountAgreesWithPages |
| src/AuthorService/Repositories/AuthorRepository.cs:81-86 | the same mismatch of folds in the name filter | "Anna Érdi" searched for as "Érdi" is not found | a search folds column and term alike | medium; not executed | AuthorRepository.AccentedNameMissed | AuthorRepository.FullNameFindsAuthor |
| src/CategoryService/Repositories/CategoryRepository.cs:82-85 | the same mismatch of folds in the keyword filter | the category "Élan" searched for as "Élan" is not found | a search folds column and term alike | medium; not executed | CategoryRepository.AccentedTitleMissed | CategoryRepository.OwnTitleFindsCategory |
| src/IdentityService/Controllers/UserController.cs:91-98 | the same mismatch of folds, with `LIKE` folding ASCII only | the user "Éva" searched for as "Éva" is not found | a search folds column and term alike | medium; not executed | UserController.AccentedNameMissed | UserController.OwnNameFindsUser |
