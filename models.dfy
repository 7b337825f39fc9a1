/**
 * The Borrowing entity (borrowings/models.py): its date rule `clean`, its
 * string form, the table's default ordering, and `save`, which fills in the
 * borrow date, validates and then writes the row.
 */
module Models {
  import opened Wrappers
  import opened Dates
  import opened Querysets

  type BookId = nat
  type UserId = nat

  /** A user is an external identity; two users are the same user when their ids are equal. */
  datatype User = User(id: UserId, email: string, firstName: string, lastName: string, isStaff: bool)

  /** The book fields the ledger uses: its title and its count of copies on the shelf. */
  datatype Book = Book(title: string, inventory: int)

  /** A stored borrowing row. A null actual return date means the book is still out. */
  datatype Borrowing = Borrowing(
    id: nat,
    book: BookId,
    user: User,
    borrowDate: Day,
    expectedReturn: Option<Day>,
    actualReturn: Option<Day>)

  /** `filter(user=u)`: the row belongs to the user with id `u`. */
  function OwnedBy(u: UserId): Borrowing -> bool
  {
    (b: Borrowing) => b.user.id == u
  }

  /** The field a date validation error is reported under. */
  datatype DateField = ExpectedReturnDate | ActualReturnDate

  /** `d and d < borrow_date`: a date object is always truthy, so only a null date escapes. */
  predicate EarlierThan(d: Option<Day>, borrowDate: Day)
  {
    d.Some? && d.value < borrowDate
  }

  /** Neither date, when set, lies before the borrow date. */
  predicate DatesInOrder(borrowDate: Day, expected: Option<Day>, actual: Option<Day>)
  {
    (expected.Some? ==> borrowDate <= expected.value) && (actual.Some? ==> borrowDate <= actual.value)
  }

  /**
   * `Borrowing.clean`: None when the dates are acceptable, otherwise the field
   * the first violated rule is keyed under. The expected date is checked first.
   */
  function Clean(borrowDate: Day, expected: Option<Day>, actual: Option<Day>): (r: Option<DateField>)
    ensures r.None? <==> DatesInOrder(borrowDate, expected, actual)
    ensures r == Some(ExpectedReturnDate) <==> expected.Some? && expected.value < borrowDate
    ensures r == Some(ActualReturnDate) <==>
      (expected.Some? ==> borrowDate <= expected.value) && actual.Some? && actual.value < borrowDate
  {
    if EarlierThan(expected, borrowDate) then Some(ExpectedReturnDate)
    else if EarlierThan(actual, borrowDate) then Some(ActualReturnDate)
    else None
  }

  /** The comparison is strict: null dates and dates equal to the borrow date pass. */
  lemma CleanAcceptsBoundary(borrowDate: Day, expected: Option<Day>, actual: Option<Day>)
    requires expected == None || expected == Some(borrowDate)
    requires actual == None || actual == Some(borrowDate)
    ensures Clean(borrowDate, expected, actual) == None
  {
  }

  /** How a date prints in an f-string: `None` for null, ISO form otherwise. */
  function DateText(d: Option<Day>): string
  {
    match d
    case None => "None"
    case Some(v) => IsoDate(v)
  }

  /** `Borrowing.__str__`, given the borrowed book. */
  function Describe(b: Borrowing, book: Book): string
  {
    b.user.firstName + " " + b.user.lastName + " borrows " + book.title + " till " + DateText(b.expectedReturn)
  }

  /** The string form names the borrower and the book, then ends with the expected return date. */
  lemma DescribeShape(b: Borrowing, book: Book)
    ensures var s := Describe(b, book);
      var head := b.user.firstName + " " + b.user.lastName + " borrows " + book.title + " till ";
      && |s| > |head|
      && s[..|head|] == head
      && (b.expectedReturn.None? ==> s[|head|..] == "None")
      && (b.expectedReturn.Some? ==> |s| == |head| + 10 && s[|head|..] == IsoDate(b.expectedReturn.value))
  {
  }

  function BorrowDateOf(b: Borrowing): int
  {
    b.borrowDate
  }

  /** `Borrowing.objects`: every row, in the default ordering by borrow date. */
  function Objects(table: seq<Borrowing>): seq<Borrowing>
  {
    OrderBy(table, BorrowDateOf)
  }

  /** The default queryset holds exactly the table's rows, by borrow date ascending. */
  lemma ObjectsOrdered(table: seq<Borrowing>)
    ensures SortedBy(Objects(table), BorrowDateOf)
    ensures multiset(Objects(table)) == multiset(table) && |Objects(table)| == |table|
  {
    OrderBySorted(table, BorrowDateOf);
  }

  /** The first row of `qs` with primary key `pk`, if any. */
  function Lookup(qs: seq<Borrowing>, pk: nat): (r: Option<Borrowing>)
    ensures r.Some? ==> r.value in qs && r.value.id == pk
    ensures r.None? <==> forall b :: b in qs ==> b.id != pk
  {
    if qs == [] then None
    else if qs[0].id == pk then Some(qs[0])
    else Lookup(qs[1..], pk)
  }

  /** The persistent state: the book table, the borrowing table in insertion order, and the next primary key. */
  datatype State = State(books: map<BookId, Book>, borrowings: seq<Borrowing>, nextId: nat)

  /** What every stored row satisfies: its book exists, its key was issued, and it passed `clean`. */
  predicate Stored(st: State, b: Borrowing)
  {
    b.book in st.books && b.id < st.nextId && DatesInOrder(b.borrowDate, b.expectedReturn, b.actualReturn)
  }

  predicate UniqueIds(table: seq<Borrowing>)
  {
    forall i, j :: 0 <= i < j < |table| ==> table[i].id != table[j].id
  }

  /** The database invariant: inventories are never negative and every row is well formed with its own key. */
  predicate Consistent(st: State)
  {
    && (forall id :: id in st.books ==> st.books[id].inventory >= 0)
    && (forall i :: 0 <= i < |st.borrowings| ==> Stored(st, st.borrowings[i]))
    && UniqueIds(st.borrowings)
  }

  /** A Borrowing object in memory, before `save`: it has a key only once it has been stored. */
  datatype Instance = Instance(
    pk: Option<nat>,
    book: BookId,
    user: User,
    borrowDate: Option<Day>,
    expectedReturn: Option<Day>,
    actualReturn: Option<Day>)

  /** The row with key `row.id` replaced by `row`; every other row as it was. */
  function Replace(table: seq<Borrowing>, row: Borrowing): (r: seq<Borrowing>)
    ensures |r| == |table|
  {
    seq(|table|, i requires 0 <= i < |table| => if table[i].id == row.id then row else table[i])
  }

  /** The state after a `save`, and what it returned or raised. */
  datatype Saved = Saved(state: State, result: Result<Borrowing, DateField>)

  /** What `save` may be given: its book exists and, when it already has a key, that row is stored. */
  predicate Saveable(st: State, inst: Instance)
  {
    inst.book in st.books && (inst.pk.Some? ==> exists i :: 0 <= i < |st.borrowings| && st.borrowings[i].id == inst.pk.value)
  }

  /**
   * `Borrowing.save`: default the borrow date to today, run `clean`, and only
   * then insert a new row (under the next key) or update the stored one.
   */
  function SaveStep(st: State, inst: Instance, today: Day): Saved
  {
    var date := inst.borrowDate.GetOr(today);
    match Clean(date, inst.expectedReturn, inst.actualReturn)
    case Some(field) => Saved(st, Err(field))
    case None =>
      match inst.pk
      case None =>
        var row := Borrowing(st.nextId, inst.book, inst.user, date, inst.expectedReturn, inst.actualReturn);
        Saved(State(st.books, st.borrowings + [row], st.nextId + 1), Ok(row))
      case Some(id) =>
        var row := Borrowing(id, inst.book, inst.user, date, inst.expectedReturn, inst.actualReturn);
        Saved(st.(borrowings := Replace(st.borrowings, row)), Ok(row))
  }

  /** `save` keeps a borrow date already set and uses today only for an unset one; the row it writes carries the instance's fields. */
  lemma SaveFillsBorrowDate(st: State, inst: Instance, today: Day)
    requires SaveStep(st, inst, today).result.Ok?
    ensures var row := SaveStep(st, inst, today).result.value;
      && row.borrowDate == (if inst.borrowDate.Some? then inst.borrowDate.value else today)
      && row.book == inst.book && row.user == inst.user
      && row.expectedReturn == inst.expectedReturn && row.actualReturn == inst.actualReturn
      && (inst.pk.Some? ==> row.id == inst.pk.value)
  {
  }

  /** `save` writes only when `clean` passes; when it raises, nothing is stored. */
  lemma SaveValidatesFirst(st: State, inst: Instance, today: Day)
    ensures var s := SaveStep(st, inst, today);
      var date := inst.borrowDate.GetOr(today);
      && (s.result.Err? <==> !DatesInOrder(date, inst.expectedReturn, inst.actualReturn))
      && (s.result.Err? ==> s.state == st && s.result.error == Clean(date, inst.expectedReturn, inst.actualReturn).value)
  {
  }

  /** A first `save` appends one row under a fresh key; an update rewrites the row with its key in place. Books are untouched. */
  lemma SaveWrites(st: State, inst: Instance, today: Day)
    requires Consistent(st) && Saveable(st, inst)
    requires SaveStep(st, inst, today).result.Ok?
    ensures var s := SaveStep(st, inst, today);
      var row := s.result.value;
      && s.state.books == st.books
      && (inst.pk.None? ==> s.state.borrowings == st.borrowings + [row] && row.id == st.nextId
                            && forall b :: b in st.borrowings ==> b.id != row.id)
      && (inst.pk.Some? ==>
            && |s.state.borrowings| == |st.borrowings|
            && row in s.state.borrowings
            && forall i :: 0 <= i < |st.borrowings| ==>
                 s.state.borrowings[i] == if st.borrowings[i].id == row.id then row else st.borrowings[i])
  {
    var s := SaveStep(st, inst, today);
    if inst.pk.Some? {
      var i :| 0 <= i < |st.borrowings| && st.borrowings[i].id == inst.pk.value;
      assert s.state.borrowings[i] == s.result.value;
    } else {
      forall b | b in st.borrowings ensures b.id != st.nextId {
        var i :| 0 <= i < |st.borrowings| && st.borrowings[i] == b;
        assert Stored(st, st.borrowings[i]);
      }
    }
  }

  /** `save` keeps the database invariant. */
  lemma SavePreservesConsistent(st: State, inst: Instance, today: Day)
    requires Consistent(st) && Saveable(st, inst)
    ensures Consistent(SaveStep(st, inst, today).state)
  {
    var s := SaveStep(st, inst, today);
    if s.result.Ok? {
      SaveWrites(st, inst, today);
      var row := s.result.value;
      var t := s.state.borrowings;
      if inst.pk.None? {
        forall i | 0 <= i < |t| ensures Stored(s.state, t[i]) {
          if i < |st.borrowings| { assert Stored(st, st.borrowings[i]); }
        }
        forall i, j | 0 <= i < j < |t| ensures t[i].id != t[j].id {
          if j == |st.borrowings| {
            assert t[i] in st.borrowings;
          }
        }
      } else {
        var k :| 0 <= k < |st.borrowings| && st.borrowings[k].id == inst.pk.value;
        assert Stored(st, st.borrowings[k]);
        forall i | 0 <= i < |t| ensures Stored(s.state, t[i]) {
          assert Stored(st, st.borrowings[i]);
        }
        forall i, j | 0 <= i < j < |t| ensures t[i].id != t[j].id {
          assert st.borrowings[i].id != st.borrowings[j].id;
        }
      }
    }
  }

  /** The database: the book and borrowing tables and the key sequence. */
  class Database {
    var books: map<BookId, Book>
    var borrowings: seq<Borrowing>
    var nextId: nat

    function Snapshot(): State
      reads this
    {
      State(books, borrowings, nextId)
    }

    predicate Valid()
      reads this
    {
      Consistent(Snapshot())
    }

    /** A database holding the given books and no borrowings yet. */
    constructor (catalog: map<BookId, Book>)
      requires forall id :: id in catalog ==> catalog[id].inventory >= 0
      ensures Valid()
      ensures books == catalog && borrowings == [] && nextId == 1
    {
      books, borrowings, nextId := catalog, [], 1;
    }

    /** `Borrowing.save` on an instance: fill the borrow date, validate, then write. */
    method Save(inst: Instance, today: Day) returns (r: Result<Borrowing, DateField>)
      requires Valid() && Saveable(Snapshot(), inst)
      modifies this
      ensures Valid()
      ensures Snapshot() == SaveStep(old(Snapshot()), inst, today).state
      ensures r == SaveStep(old(Snapshot()), inst, today).result
    {
      ghost var st := Snapshot();
      SavePreservesConsistent(st, inst, today);
      var date := inst.borrowDate.GetOr(today);
      var invalid := Clean(date, inst.expectedReturn, inst.actualReturn);
      if invalid.Some? {
        return Err(invalid.value);
      }
      var row;
      if inst.pk.None? {
        row := Borrowing(nextId, inst.book, inst.user, date, inst.expectedReturn, inst.actualReturn);
        borrowings := borrowings + [row];
        nextId := nextId + 1;
      } else {
        row := Borrowing(inst.pk.value, inst.book, inst.user, date, inst.expectedReturn, inst.actualReturn);
        borrowings := Replace(borrowings, row);
      }
      r := Ok(row);
    }
  }
}
