# Borrowing ledger of the library service

A Dafny model of the borrowing ledger of a library-borrowing web service (Django and Django REST framework). The ledger is a small sequential state machine over two tables:

- the books, each with a title and an `inventory`, the count of copies on the shelf;
- the borrowings, each with a key, a book, a user, a `borrow_date`, a nullable `expected_return_date` and a nullable `actual_return_date`. A null actual return date means the borrowing is active.

Dates are Python's proleptic Gregorian ordinals (`Dates.Day`, 0001-01-01 to 9999-12-31): "earlier" is integer `<`, and `str(date)` is computed the way Python's datetime computes its ISO form. The Telegram chat the service posts to is an append-only log of structured messages (`Notifications.Outbox`). Each message keeps only the fields its text is built from. The clock (`today`) is a parameter of every operation that reads it.

Modules follow the source files:

- `Models` (borrowings/models.py): the entities, `clean`, the string form, the default ordering by borrow date, the database invariant, and `save`. `save` is a method on the `Database` class, which holds the two tables and the key counter.
- `Serializers` (borrowings/serializers.py): `create`, the borrow operation.
- `Views` (borrowings/views.py): which rows a caller may list or retrieve, and the return operation.
- `Filters` (borrowings/filters.py): the `is_active` and `user_id` query parameters.
- `Tasks` (borrowings/tasks.py): the daily overdue scan.
- `Querysets`: the ORM behaviour the others rely on. `filter` and `exclude` preserve order, and `order_by` is a stable sort.

Each state-changing method (`Database.Save`, `Serializers.Create`, `Views.Return`, `Tasks.NotifyOverdue`) is proved equal to a pure step function of the old state (`SaveStep`, `CreateStep`, `ReturnStep`, `OverdueReport`). The lemmas state the properties of those functions.

Two behaviours of the code are modelled as written, although one would expect otherwise:

- Create is not atomic. The book's decremented inventory is written before `save` validates the new row's dates, and no transaction wraps the two writes. A create that fails on its expected date therefore still takes a copy off the shelf (`Serializers.CreateNotAtomic`). One would expect the decrement and the insert to be all-or-nothing, so that a failed create leaves both tables untouched.
- A return with no date counts as a success. It leaves the borrowing active but still adds a copy back to the shelf, so the same borrowing can be "returned" again and again (`Views.DatelessReturnRepeats`). Only a return that records a date happens once (`Views.DatedReturnHappensOnce`).

The return request carries only `actual_return_date`, and the field is optional (borrowings/serializers.py:70-73). It is the `Option<Day>` argument of `Views.Return`: an absent date and a null date both leave the field null.

The return operation checks ownership strictly: a staff user returning someone else's borrowing is refused too, as the code does.

## Model

| member | source | states |
|---|---|---|
| `Models.Clean` | borrowings/models.py:27-37 | accepts exactly when neither set date is before the borrow date; an early expected date is reported under `expected_return_date` (checked first), otherwise an early actual date under `actual_return_date` |
| `Models.CleanAcceptsBoundary` | borrowings/models.py:28-33 | null dates and dates equal to the borrow date pass, because the comparison is strict |
| `Models.DescribeShape` | borrowings/models.py:23-25 | the string form starts with "first last borrows title till " and ends with the expected return date: its 10-character ISO form, or "None" when null |
| `Dates.ToYmd` | borrowings/models.py:25 | the year, month and day Python prints for a date lie in 1..9999, 1..12 and 1..31 |
| `Dates.IsoDate` | borrowings/models.py:25 | `str(date)` is 10 characters: decimal digits, with dashes at positions 4 and 7 |
| `Dates.IsoDateRoundTrip` | borrowings/models.py:25 | `str(date)` is YYYY-MM-DD of the date: reading the string back as an ISO date gives exactly the date's year, month and day |
| `Models.ObjectsOrdered` | borrowings/models.py:20-21 | the default queryset holds exactly the table's rows, sorted by borrow date ascending |
| `Models.SaveFillsBorrowDate` | borrowings/models.py:39-41 | a saved row keeps a borrow date already set and gets today only when it was unset; its other fields are the instance's |
| `Models.SaveValidatesFirst` | borrowings/models.py:42-43 | `save` fails exactly when `clean` fails, with `clean`'s error, and then nothing is stored |
| `Models.SaveWrites` | borrowings/models.py:39-43 | a first save appends one row under a fresh key; an update rewrites the row with its key in place and no other row; books are untouched |
| `Models.SavePreservesConsistent` | borrowings/models.py:27-43 | `save` keeps the invariant: inventories non-negative, every row's book exists, keys issued and distinct, every row passes `clean` |
| `Models.Lookup` | borrowings/views.py:50-54 | finds a row with the requested key in the queryset, or reports that none has it |
| `Models.Database.Save` | borrowings/models.py:39-43 | the `Database` after `save` is `SaveStep` of the old one, and the result is `SaveStep`'s; the invariant holds |
| `Serializers.CreateOutOfStock` | borrowings/serializers.py:48-49 | a book with inventory 0 is refused as out of stock; no inventory change, no new row, no message |
| `Serializers.CreateSucceeds` | borrowings/serializers.py:51-65 | with a copy available and no early expected date: inventory drops by exactly 1; one row is appended (caller, requested book, borrowed today, supplied expected date, null actual date); exactly one message with email, title, borrow date and expected date is sent |
| `Serializers.CreateNotAtomic` | borrowings/serializers.py:51-55 | when `save` rejects the expected date, the inventory has still dropped by 1, but no row is added and nothing is sent |
| `Serializers.CreateFrame` | borrowings/serializers.py:47-55 | other books are untouched; stored rows are kept, and at most one is appended; exactly one message is sent when a row is added, otherwise none |
| `Serializers.CreateKeepsStock` | borrowings/serializers.py:48-52 | from non-negative inventories, create never makes an inventory negative: it decrements only a book with a copy on the shelf |
| `Serializers.CreatePreservesConsistent` | borrowings/serializers.py:46-55 | from a consistent database, create keeps the whole invariant |
| `Serializers.Create` | borrowings/serializers.py:46-67 | the database, the sent messages and the result are those of `CreateStep`; the invariant holds |
| `Views.VisibleRows` | borrowings/views.py:30-36 | a row is visible exactly when it is stored and the caller is staff or owns it; visible rows come sorted by borrow date |
| `Views.StaffListsEverything` | borrowings/views.py:30-34 | a staff caller's unfiltered list holds exactly the stored rows, by borrow date |
| `Views.ListScoped` | borrowings/views.py:18-36 | a listing holds exactly the stored rows visible to the caller that match the parameters, by borrow date; a non-staff caller gets only their own |
| `Views.RetrieveVisibility` | borrowings/views.py:43-54 | retrieve returns a row exactly when one is stored under the key and visible to the caller; otherwise it answers NotFound, never Forbidden |
| `Views.RetrieveOthersIsNotFound` | borrowings/views.py:43-53 | a non-staff caller retrieving another user's borrowing gets NotFound |
| `Views.ReturnRefusals` | borrowings/views.py:62-76 | checks in order: unknown key gives NotFound; a caller who is not the owner gives Forbidden, even staff; a returned row gives AlreadyReturned; a date before the borrow date gives an `actual_return_date` error; every refusal leaves the state unchanged |
| `Views.ReturnSucceeds` | borrowings/views.py:75-85 | otherwise the return succeeds: the row's actual date becomes the supplied date (null if none), no other row changes, and only that book's inventory goes up, by exactly 1 |
| `Views.ReturnPreservesConsistent` | borrowings/views.py:62-85 | return keeps the database invariant |
| `Views.DatedReturnHappensOnce` | borrowings/views.py:71-82 | after a return that records a date, any further return of the row is refused and changes nothing; the inventory has risen by exactly 1 in all |
| `Views.DatelessReturnRepeats` | borrowings/views.py:75-82 | a return without a date succeeds and leaves the row active; a second one succeeds again; the inventory rises by 2 |
| `Views.Return` | borrowings/views.py:62-85 | the database and the response are those of `ReturnStep`; the invariant holds |
| `Filters.FilteredRows` | borrowings/filters.py:5-11 | the one-pass reference keeps exactly the rows matching every given parameter |
| `Filters.IsActiveFilter` | borrowings/filters.py:13-16 | `is_active=true` keeps exactly the rows with a null actual return date, `false` exactly those with one; the result is an order-preserving subsequence |
| `Filters.IsActivePartition` | borrowings/filters.py:13-16 | the true and false results are disjoint and together are the input, as a multiset |
| `Filters.UserIdFilter` | borrowings/filters.py:7 | `user_id=u` keeps exactly the rows of user u, in order |
| `Filters.ApplyIsFiltered` | borrowings/filters.py:5-16 | applying the filters in turn equals one pass keeping the rows that match both: the intersection, in input order |
| `Filters.ApplyKeepsOrder` | borrowings/filters.py:5-16 | the filters only remove rows: the output is an order-preserving subsequence, and a sorted input stays sorted |
| `Tasks.OverdueRows` | borrowings/tasks.py:10-14 | the overdue rows are exactly the active rows whose expected date is set and strictly before today; they come by borrow date, as many as there are such rows |
| `Tasks.DueTodayIsNotOverdue` | borrowings/tasks.py:11-13 | a row due today, or with no expected date, is not overdue |
| `Tasks.QuietDay` | borrowings/tasks.py:16-19 | with nothing overdue, the run posts exactly one "No overdue borrowing today!" message and nothing else |
| `Tasks.BusyDay` | borrowings/tasks.py:16-29 | with something overdue, the run posts one message per overdue row and no "none" message; each names its row's email, title, borrow date and expected date, and every overdue row gets one |
| `Tasks.ReportEntries` | borrowings/tasks.py:21-29 | the k-th message is the delay message of the k-th overdue row |
| `Tasks.NotifyOverdue` | borrowings/tasks.py:9-29 | the messages appended are `OverdueReport` of the database; no row and no inventory changes |
| `Tasks.SendDelays` | borrowings/tasks.py:21-29 | the loop appends one delay message per selected row, in order |
| `Notifications.Outbox.Send` | borrowings/telegram.py:7-12 | sending appends exactly that message to the log |

## Left out

- Telegram delivery (borrowings/telegram.py) is network I/O through a global bot. Sending is modelled as appending to a log, and delivery failures are not modelled.
- The daily scheduling of the scan (library_service_project/celery.py) is external; the scan takes `today` as a parameter.
- Concurrency: the stock check and decrement are not locked in the code, and the model runs every operation alone. Nothing is claimed about concurrent creates.
- `transaction.atomic` in the return view is modelled as all-or-nothing in a sequential model. A failing `save` writes nothing before the inventory update.
- Admin pages, URL routing and the book views are out of scope, and so are the JSON shapes of the list and detail serializers.
- Message markup (HTML, emoji) is not modelled: a message keeps only the fields it names.
- Authentication and HTTP status codes are out of scope. Refusals are the values `NotFound`, `Forbidden`, `AlreadyReturned`, `InvalidDate`, `OutOfStock` and `UnknownBook`.
- The book's `daily_fee`, the book's other fields and book CRUD are out of scope.
- Request parsing by DRF and django-filter is not modelled: malformed dates, a non-boolean `is_active`, a non-numeric `user_id`. An unknown book key at create is the single error `UnknownBook`, raised before any write.
- Django's `full_clean` also runs field validators. Only the model's own `clean` is modelled.
- `auto_now_add` on `borrow_date`: on insert Django overwrites any supplied borrow date with the current day, after `clean` has run. `Models.SaveStep` keeps the date the instance supplies. The one insert in the core, create, never supplies one because the field is read-only, so both give today.
- Models.Database.Save: requires an instance with a key to have its row stored. Django would insert such an instance instead; the core's only update, return, saves a row it has just loaded.
- Models.ObjectsOrdered: the order among rows with equal borrow dates is unspecified in the database. The model keeps insertion order there and claims only ascending borrow dates.
- Dates.ToYmd: proves the ranges of year, month and day, not that the conversion inverts Python's `toordinal`.
