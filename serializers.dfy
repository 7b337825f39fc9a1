/**
 * `CreateBorrowingSerializer.create` (borrowings/serializers.py): borrowing a
 * book. The stock check and the decrement come first and the decremented
 * book is written at once; only then is the borrowing saved, and `save` may
 * still reject its dates. Nothing wraps the two writes in a transaction.
 */
module Serializers {
  import opened Wrappers
  import opened Dates
  import opened Models
  import opened Notifications

  /** Why a create request is refused. `UnknownBook` is raised by field validation before `create` runs. */
  datatype CreateError = UnknownBook | OutOfStock | InvalidDate(field: DateField)

  /** The state after a create request, the messages it sent, and what it returned. */
  datatype Created = Created(state: State, sent: seq<Message>, result: Result<Borrowing, CreateError>)

  /** The unsaved instance `Borrowing.objects.create(user=..., **validated_data)` builds; `borrow_date` is read-only, so never supplied. */
  function NewInstance(caller: User, bookId: BookId, expected: Option<Day>): Instance
  {
    Instance(None, bookId, caller, None, expected, None)
  }

  function CreateStep(st: State, caller: User, bookId: BookId, expected: Option<Day>, today: Day): Created
  {
    if bookId !in st.books then Created(st, [], Err(UnknownBook))
    else
      var book := st.books[bookId];
      if book.inventory == 0 then Created(st, [], Err(OutOfStock))
      else
        var decremented := st.(books := st.books[bookId := book.(inventory := book.inventory - 1)]);
        var s := SaveStep(decremented, NewInstance(caller, bookId, expected), today);
        match s.result
        case Err(field) => Created(decremented, [], Err(InvalidDate(field)))
        case Ok(row) =>
          Created(s.state, [NewBorrowing(caller.email, book.title, row.borrowDate, row.expectedReturn)], Ok(row))
  }

  /** A book with no copies left is refused; no inventory changes, no row is added, nothing is sent. */
  lemma CreateOutOfStock(st: State, caller: User, bookId: BookId, expected: Option<Day>, today: Day)
    requires bookId in st.books && st.books[bookId].inventory == 0
    ensures CreateStep(st, caller, bookId, expected, today) == Created(st, [], Err(OutOfStock))
  {
  }

  /**
   * With a copy on the shelf and no expected date before today, the create
   * succeeds: the book's inventory drops by exactly one, one row is appended
   * for the caller and that book, borrowed today, with the supplied expected
   * date and no actual return date, and exactly one message is sent naming
   * the caller's email, the title, the borrow date and the expected date.
   */
  lemma CreateSucceeds(st: State, caller: User, bookId: BookId, expected: Option<Day>, today: Day)
    requires bookId in st.books && st.books[bookId].inventory != 0
    requires !EarlierThan(expected, today)
    ensures var c := CreateStep(st, caller, bookId, expected, today);
      var row := Borrowing(st.nextId, bookId, caller, today, expected, None);
      var book := st.books[bookId];
      && c.result == Ok(row)
      && c.state.borrowings == st.borrowings + [row]
      && c.state.books == st.books[bookId := book.(inventory := book.inventory - 1)]
      && c.sent == [NewBorrowing(caller.email, book.title, today, expected)]
  {
  }

  /**
   * Create is not atomic: when `save` rejects the expected date, the
   * decremented inventory has already been written. No row is added and
   * nothing is sent, but the copy is lost from the shelf.
   */
  lemma CreateNotAtomic(st: State, caller: User, bookId: BookId, expected: Option<Day>, today: Day)
    requires bookId in st.books && st.books[bookId].inventory != 0
    requires EarlierThan(expected, today)
    ensures var c := CreateStep(st, caller, bookId, expected, today);
      && c.result == Err(InvalidDate(ExpectedReturnDate))
      && c.state.borrowings == st.borrowings && c.sent == []
      && c.state.books[bookId].inventory == st.books[bookId].inventory - 1
  {
  }

  /**
   * Whatever the outcome: other books are untouched, the rows already stored
   * are kept as they were (at most one is added, at the end), and at most one
   * message is sent, exactly when a row is added.
   */
  lemma CreateFrame(st: State, caller: User, bookId: BookId, expected: Option<Day>, today: Day)
    ensures var c := CreateStep(st, caller, bookId, expected, today);
      && c.state.books.Keys == st.books.Keys
      && (forall id :: id in st.books && id != bookId ==> c.state.books[id] == st.books[id])
      && |st.borrowings| <= |c.state.borrowings| <= |st.borrowings| + 1
      && c.state.borrowings[..|st.borrowings|] == st.borrowings
      && (|c.sent| == 1 <==> c.result.Ok?) && (c.result.Err? ==> c.sent == [])
      && (c.result.Ok? <==> |c.state.borrowings| == |st.borrowings| + 1)
  {
    var c := CreateStep(st, caller, bookId, expected, today);
    assert c.state.borrowings[..|st.borrowings|] == st.borrowings;
  }

  /** The stock check keeps the shelf count honest: from non-negative inventories, create never makes one negative. */
  lemma CreateKeepsStock(st: State, caller: User, bookId: BookId, expected: Option<Day>, today: Day)
    requires forall id :: id in st.books ==> st.books[id].inventory >= 0
    ensures forall id :: id in CreateStep(st, caller, bookId, expected, today).state.books ==>
      CreateStep(st, caller, bookId, expected, today).state.books[id].inventory >= 0
  {
    if bookId in st.books && st.books[bookId].inventory != 0 {
      assert st.books[bookId].inventory >= 1;
    }
  }

  /** Starting from a consistent database, create leaves it consistent. */
  lemma CreatePreservesConsistent(st: State, caller: User, bookId: BookId, expected: Option<Day>, today: Day)
    requires Consistent(st)
    ensures Consistent(CreateStep(st, caller, bookId, expected, today).state)
  {
    if bookId in st.books && st.books[bookId].inventory != 0 {
      var book := st.books[bookId];
      var decremented := st.(books := st.books[bookId := book.(inventory := book.inventory - 1)]);
      forall i | 0 <= i < |st.borrowings| ensures Stored(decremented, st.borrowings[i]) {
        assert Stored(st, st.borrowings[i]);
      }
      assert Consistent(decremented);
      SavePreservesConsistent(decremented, NewInstance(caller, bookId, expected), today);
    }
  }

  /** `CreateBorrowingSerializer.create` on the database, with `out` standing for the chat and `today` for the clock. */
  method Create(db: Database, out: Outbox, caller: User, bookId: BookId, expected: Option<Day>, today: Day)
    returns (r: Result<Borrowing, CreateError>)
    requires db.Valid()
    modifies db, out
    ensures db.Valid()
    ensures db.Snapshot() == CreateStep(old(db.Snapshot()), caller, bookId, expected, today).state
    ensures out.sent == old(out.sent) + CreateStep(old(db.Snapshot()), caller, bookId, expected, today).sent
    ensures r == CreateStep(old(db.Snapshot()), caller, bookId, expected, today).result
  {
    ghost var st := db.Snapshot();
    CreatePreservesConsistent(st, caller, bookId, expected, today);
    if bookId !in db.books {
      return Err(UnknownBook);
    }
    var book := db.books[bookId];
    if book.inventory == 0 {
      return Err(OutOfStock);
    }
    db.books := db.books[bookId := book.(inventory := book.inventory - 1)];
    assert forall i :: 0 <= i < |st.borrowings| ==> Stored(st, st.borrowings[i]);
    var saved := db.Save(NewInstance(caller, bookId, expected), today);
    if saved.Err? {
      return Err(InvalidDate(saved.error));
    }
    var borrowing := saved.value;
    out.Send(NewBorrowing(caller.email, book.title, borrowing.borrowDate, borrowing.expectedReturn));
    r := Ok(borrowing);
  }
}
