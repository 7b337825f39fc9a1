/**
 * The borrowing views (borrowings/views.py): which rows a caller may list or
 * retrieve, and the return operation.
 */
module Views {
  import opened Wrappers
  import opened Dates
  import opened Querysets
  import opened Models
  import opened Filters

  /** Why a request is refused. */
  datatype Refusal = NotFound | Forbidden | AlreadyReturned | InvalidDate(field: DateField)

  /** `get_queryset` of the list (and retrieve) view: staff see every row, others only their own, by borrow date. */
  function Visible(table: seq<Borrowing>, caller: User): seq<Borrowing>
  {
    if caller.isStaff then Objects(table) else Select(Objects(table), OwnedBy(caller.id))
  }

  /** The list endpoint: the caller's visible rows narrowed by `BorrowingFilter`. */
  function List(table: seq<Borrowing>, caller: User, params: Params): seq<Borrowing>
  {
    Apply(Visible(table, caller), params)
  }

  /** A row is visible exactly when it is stored and the caller is staff or owns it; visible rows come by borrow date. */
  lemma VisibleRows(table: seq<Borrowing>, caller: User)
    ensures forall b :: b in Visible(table, caller) <==> b in table && (caller.isStaff || b.user.id == caller.id)
    ensures SortedBy(Visible(table, caller), BorrowDateOf)
  {
    ObjectsOrdered(table);
    assert forall b :: b in Objects(table) <==> b in multiset(Objects(table));
    if !caller.isStaff {
      SelectSorted(Objects(table), OwnedBy(caller.id), BorrowDateOf);
    }
  }

  /** A staff caller's list, without parameters, is every stored borrowing: the same rows, by borrow date. */
  lemma StaffListsEverything(table: seq<Borrowing>, caller: User)
    requires caller.isStaff
    ensures multiset(List(table, caller, Params(None, None))) == multiset(table)
    ensures SortedBy(List(table, caller, Params(None, None)), BorrowDateOf)
  {
    ObjectsOrdered(table);
  }

  /** A listing contains only stored rows the caller may see that match the parameters, by borrow date; a non-staff caller gets only their own. */
  lemma ListScoped(table: seq<Borrowing>, caller: User, params: Params)
    ensures forall b :: b in List(table, caller, params) <==>
      b in table && (caller.isStaff || b.user.id == caller.id) && Matches(params, b)
    ensures !caller.isStaff ==> forall b :: b in List(table, caller, params) ==> b.user.id == caller.id
    ensures SortedBy(List(table, caller, params), BorrowDateOf)
  {
    VisibleRows(table, caller);
    ApplyIsFiltered(Visible(table, caller), params);
    FilteredRows(Visible(table, caller), params);
    ApplyKeepsOrder(Visible(table, caller), params);
  }

  /** `BorrowingRetrieveView.get_object`: the row with key `pk` among the caller's visible rows, or 404. */
  function Retrieve(table: seq<Borrowing>, caller: User, pk: nat): Result<Borrowing, Refusal>
  {
    match Lookup(Visible(table, caller), pk)
    case Some(b) => Ok(b)
    case None => Err(NotFound)
  }

  /** Retrieve finds a row exactly when it is stored under `pk` and visible to the caller; otherwise it answers NotFound, never Forbidden. */
  lemma RetrieveVisibility(table: seq<Borrowing>, caller: User, pk: nat)
    ensures forall b :: Retrieve(table, caller, pk) == Ok(b) ==> b in table && b.id == pk && (caller.isStaff || b.user.id == caller.id)
    ensures Retrieve(table, caller, pk).Err? <==>
      forall b :: b in table && b.id == pk ==> !caller.isStaff && b.user.id != caller.id
    ensures Retrieve(table, caller, pk).Err? ==> Retrieve(table, caller, pk) == Err(NotFound)
  {
    VisibleRows(table, caller);
  }

  /** A non-staff caller asking for someone else's borrowing gets NotFound, as for a missing one. */
  lemma RetrieveOthersIsNotFound(table: seq<Borrowing>, caller: User, pk: nat)
    requires UniqueIds(table) && !caller.isStaff
    requires exists i :: 0 <= i < |table| && table[i].id == pk && table[i].user.id != caller.id
    ensures Retrieve(table, caller, pk) == Err(NotFound)
  {
    var i :| 0 <= i < |table| && table[i].id == pk && table[i].user.id != caller.id;
    RetrieveVisibility(table, caller, pk);
    forall b | b in table && b.id == pk ensures b.user.id != caller.id {
      var j :| 0 <= j < |table| && table[j] == b;
      assert j == i;
    }
  }

  /** The state after a return request, and the response. */
  datatype Returned = Returned(state: State, response: Result<(), Refusal>)

  /**
   * `BorrowingReturnView.update`: look the row up among all rows, refuse a
   * caller who is not its owner, refuse a row already returned, then save the
   * supplied date (absent or null leaves it null) and, in the same
   * transaction, put the copy back on the shelf.
   */
  function ReturnStep(st: State, caller: User, pk: nat, date: Option<Day>, today: Day): Returned
    requires Consistent(st)
  {
    match Lookup(st.borrowings, pk)
    case None => Returned(st, Err(NotFound))
    case Some(b) =>
      if b.user.id != caller.id then Returned(st, Err(Forbidden))
      else if b.actualReturn.Some? then Returned(st, Err(AlreadyReturned))
      else
        var inst := Instance(Some(b.id), b.book, b.user, Some(b.borrowDate), b.expectedReturn, date);
        var s := SaveStep(st, inst, today);
        match s.result
        case Err(field) => Returned(st, Err(InvalidDate(field)))
        case Ok(_) =>
          var book := st.books[b.book];
          Returned(s.state.(books := s.state.books[b.book := book.(inventory := book.inventory + 1)]), Ok(()))
  }

  /** The row a return request is about. */
  predicate RowAt(st: State, pk: nat, b: Borrowing)
  {
    b in st.borrowings && b.id == pk
  }

  /** The refusals, in the order the view checks them; each leaves the database as it was. */
  lemma ReturnRefusals(st: State, caller: User, pk: nat, date: Option<Day>, today: Day)
    requires Consistent(st)
    ensures var r := ReturnStep(st, caller, pk, date, today);
      && ((forall b :: b in st.borrowings ==> b.id != pk) ==> r == Returned(st, Err(NotFound)))
      && (forall b :: RowAt(st, pk, b) && b.user.id != caller.id ==> r == Returned(st, Err(Forbidden)))
      && (forall b :: RowAt(st, pk, b) && b.user.id == caller.id && b.actualReturn.Some? ==>
            r == Returned(st, Err(AlreadyReturned)))
      && (forall b :: RowAt(st, pk, b) && b.user.id == caller.id && b.actualReturn.None? && EarlierThan(date, b.borrowDate) ==>
            r == Returned(st, Err(InvalidDate(ActualReturnDate))))
      && (r.response.Err? ==> r.state == st)
  {
    var found := Lookup(st.borrowings, pk);
    if found.Some? {
      RowUnique(st, pk, found.value);
      var b := found.value;
      assert Stored(st, b);
    }
  }

  /** Two rows with the same key are the same row. */
  lemma RowUnique(st: State, pk: nat, b: Borrowing)
    requires Consistent(st) && RowAt(st, pk, b)
    ensures forall c :: RowAt(st, pk, c) ==> c == b
  {
    forall c | RowAt(st, pk, c) ensures c == b {
      var i :| 0 <= i < |st.borrowings| && st.borrowings[i] == b;
      var j :| 0 <= j < |st.borrowings| && st.borrowings[j] == c;
      assert i == j;
    }
  }

  /**
   * The owner returning an active row with no date earlier than the borrow
   * date succeeds: the row's actual return date becomes the supplied one
   * (null if none was supplied), no other row changes, and only that book's
   * inventory goes up, by exactly one.
   */
  lemma ReturnSucceeds(st: State, caller: User, pk: nat, date: Option<Day>, today: Day, b: Borrowing)
    requires Consistent(st) && RowAt(st, pk, b)
    requires b.user.id == caller.id && b.actualReturn.None? && !EarlierThan(date, b.borrowDate)
    ensures var r := ReturnStep(st, caller, pk, date, today);
      && r.response == Ok(())
      && |r.state.borrowings| == |st.borrowings| && r.state.nextId == st.nextId
      && (forall i :: 0 <= i < |st.borrowings| ==>
            r.state.borrowings[i] == if st.borrowings[i].id == pk then b.(actualReturn := date) else st.borrowings[i])
      && b.(actualReturn := date) in r.state.borrowings
      && r.state.books.Keys == st.books.Keys
      && r.state.books[b.book].inventory == st.books[b.book].inventory + 1
      && r.state.books[b.book].title == st.books[b.book].title
      && (forall id :: id in st.books && id != b.book ==> r.state.books[id] == st.books[id])
  {
    RowUnique(st, pk, b);
    assert Stored(st, b);
    var inst := Instance(Some(b.id), b.book, b.user, Some(b.borrowDate), b.expectedReturn, date);
    assert Saveable(st, inst);
    SaveWrites(st, inst, today);
  }

  /** A return keeps the database invariant. */
  lemma ReturnPreservesConsistent(st: State, caller: User, pk: nat, date: Option<Day>, today: Day)
    requires Consistent(st)
    ensures Consistent(ReturnStep(st, caller, pk, date, today).state)
  {
    var found := Lookup(st.borrowings, pk);
    if found.Some? {
      var b := found.value;
      assert Stored(st, b);
      var inst := Instance(Some(b.id), b.book, b.user, Some(b.borrowDate), b.expectedReturn, date);
      assert Saveable(st, inst);
      SavePreservesConsistent(st, inst, today);
      if SaveStep(st, inst, today).result.Ok? {
        SaveWrites(st, inst, today);
      }
    }
  }

  /**
   * A return that records a date happens once: afterwards every further
   * return of that row is refused and changes nothing, so the book's
   * inventory has gone up by exactly one in all.
   */
  lemma DatedReturnHappensOnce(st: State, caller: User, pk: nat, d: Day, today: Day,
                               other: User, date2: Option<Day>, today2: Day, b: Borrowing)
    requires Consistent(st) && RowAt(st, pk, b)
    requires ReturnStep(st, caller, pk, Some(d), today).response.Ok?
    ensures var s1 := ReturnStep(st, caller, pk, Some(d), today).state;
      Consistent(s1) &&
      var s2 := ReturnStep(s1, other, pk, date2, today2);
      && s2.response.Err? && s2.state == s1
      && (s2.response == Err(AlreadyReturned) || s2.response == Err(Forbidden))
      && s2.state.books[b.book].inventory == st.books[b.book].inventory + 1
  {
    RowUnique(st, pk, b);
    ReturnRefusals(st, caller, pk, Some(d), today);
    assert b.user.id == caller.id && b.actualReturn.None? && !EarlierThan(Some(d), b.borrowDate);
    ReturnSucceeds(st, caller, pk, Some(d), today, b);
    var s1 := ReturnStep(st, caller, pk, Some(d), today).state;
    ReturnPreservesConsistent(st, caller, pk, Some(d), today);
    assert RowAt(s1, pk, b.(actualReturn := Some(d)));
    ReturnRefusals(s1, other, pk, date2, today2);
  }

  /**
   * A return with no date is answered as a success but leaves the row active,
   * so the same row can be "returned" again: two dateless returns raise the
   * book's inventory by two.
   */
  lemma DatelessReturnRepeats(st: State, caller: User, pk: nat, today: Day, b: Borrowing)
    requires Consistent(st) && RowAt(st, pk, b)
    requires b.user.id == caller.id && b.actualReturn.None?
    ensures var s1 := ReturnStep(st, caller, pk, None, today);
      && s1.response == Ok(())
      && Consistent(s1.state)
      && RowAt(s1.state, pk, b)
      && var s2 := ReturnStep(s1.state, caller, pk, None, today);
      && s2.response == Ok(())
      && s2.state.borrowings == st.borrowings
      && s2.state.books[b.book].inventory == st.books[b.book].inventory + 2
  {
    ReturnSucceeds(st, caller, pk, None, today, b);
    var s1 := ReturnStep(st, caller, pk, None, today);
    ReturnPreservesConsistent(st, caller, pk, None, today);
    assert b.(actualReturn := None) == b;
    assert s1.state.borrowings == st.borrowings;
    ReturnSucceeds(s1.state, caller, pk, None, today, b);
  }

  /** `BorrowingReturnView.update` on the database. `today` is the clock `save` would read for an unset borrow date. */
  method Return(db: Database, caller: User, pk: nat, date: Option<Day>, today: Day) returns (response: Result<(), Refusal>)
    requires db.Valid()
    modifies db
    ensures db.Valid()
    ensures db.Snapshot() == ReturnStep(old(db.Snapshot()), caller, pk, date, today).state
    ensures response == ReturnStep(old(db.Snapshot()), caller, pk, date, today).response
  {
    ghost var st := db.Snapshot();
    ReturnPreservesConsistent(st, caller, pk, date, today);
    var found := Lookup(db.borrowings, pk);
    if found.None? {
      return Err(NotFound);
    }
    var instance := found.value;
    if instance.user.id != caller.id {
      return Err(Forbidden);
    }
    if instance.actualReturn.Some? {
      return Err(AlreadyReturned);
    }
    assert Stored(st, instance);
    var book := db.books[instance.book];
    // transaction: the save and the inventory update commit together; a failed save writes nothing
    var saved := db.Save(Instance(Some(instance.id), instance.book, instance.user, Some(instance.borrowDate),
                                  instance.expectedReturn, date), today);
    if saved.Err? {
      return Err(InvalidDate(saved.error));
    }
    db.books := db.books[instance.book := book.(inventory := book.inventory + 1)];
    response := Ok(());
  }
}
