/**
 * `notify_overdue_borrowings` (borrowings/tasks.py): the daily scan. It reads
 * the borrowing table and posts messages; it writes nothing to the database.
 */
module Tasks {
  import opened Wrappers
  import opened Dates
  import opened Querysets
  import opened Models
  import opened Notifications

  /** `expected_return_date__lt=today, actual_return_date__isnull=True`; a null expected date never compares. */
  function OverdueOn(today: Day): Borrowing -> bool
  {
    (b: Borrowing) => b.actualReturn.None? && b.expectedReturn.Some? && b.expectedReturn.value < today
  }

  /** The overdue queryset, in the default ordering. */
  function OverdueQueryset(table: seq<Borrowing>, today: Day): seq<Borrowing>
  {
    Select(Objects(table), OverdueOn(today))
  }

  /** The overdue rows are exactly the stored active rows with an expected date strictly before today; they come by borrow date. */
  lemma OverdueRows(table: seq<Borrowing>, today: Day)
    ensures forall b :: b in OverdueQueryset(table, today) <==>
      b in table && b.actualReturn.None? && b.expectedReturn.Some? && b.expectedReturn.value < today
    ensures SortedBy(OverdueQueryset(table, today), BorrowDateOf)
    ensures |OverdueQueryset(table, today)| == |Select(table, OverdueOn(today))|
  {
    ObjectsOrdered(table);
    assert forall b :: b in Objects(table) <==> b in multiset(Objects(table));
    SelectSorted(Objects(table), OverdueOn(today), BorrowDateOf);
    SelectPermutation(Objects(table), table, OverdueOn(today));
    assert |multiset(OverdueQueryset(table, today))| == |multiset(Select(table, OverdueOn(today)))|;
  }

  /** A row due today, or with no expected date, is not overdue. */
  lemma DueTodayIsNotOverdue(table: seq<Borrowing>, today: Day, b: Borrowing)
    requires b.expectedReturn == None || b.expectedReturn == Some(today)
    ensures b !in OverdueQueryset(table, today)
  {
  }

  /** Every row's book is in the catalog, as the foreign key guarantees. */
  predicate BooksExist(st: State)
  {
    forall b :: b in st.borrowings ==> b.book in st.books
  }

  lemma ConsistentBooksExist(st: State)
    requires Consistent(st)
    ensures BooksExist(st)
  {
    forall b | b in st.borrowings ensures b.book in st.books {
      var i :| 0 <= i < |st.borrowings| && st.borrowings[i] == b;
      assert Stored(st, st.borrowings[i]);
    }
  }

  /** The message posted for one overdue row. */
  function DelayMessage(b: Borrowing, books: map<BookId, Book>): Message
    requires b.book in books && b.expectedReturn.Some?
  {
    Delay(b.user.email, books[b.book].title, b.borrowDate, b.expectedReturn.value)
  }

  /** Every row has its book in `books` and an expected date: what a Delay message needs. */
  predicate Reportable(q: seq<Borrowing>, books: map<BookId, Book>)
  {
    forall k :: 0 <= k < |q| ==> q[k].book in books && q[k].expectedReturn.Some?
  }

  /** One Delay message per row, in order. */
  function DelayMessages(q: seq<Borrowing>, books: map<BookId, Book>): (r: seq<Message>)
    requires Reportable(q, books)
  {
    seq(|q|, k requires 0 <= k < |q| => DelayMessage(q[k], books))
  }

  /** What one run posts: a single NoOverdue when nothing is overdue, otherwise one Delay per overdue row, in queryset order. */
  function OverdueReport(st: State, today: Day): seq<Message>
    requires BooksExist(st)
  {
    var q := OverdueQueryset(st.borrowings, today);
    OverdueRows(st.borrowings, today);
    assert forall i :: 0 <= i < |q| ==> q[i] in q;
    if |q| == 0 then [NoOverdue] else DelayMessages(q, st.books)
  }

  /** When something is overdue, the k-th message is the Delay message of the k-th overdue row. */
  lemma ReportEntries(st: State, today: Day)
    requires BooksExist(st)
    requires |OverdueQueryset(st.borrowings, today)| > 0
    ensures var q := OverdueQueryset(st.borrowings, today);
      && |OverdueReport(st, today)| == |q|
      && forall k :: 0 <= k < |q| ==>
           q[k] in st.borrowings && OverdueOn(today)(q[k]) && OverdueReport(st, today)[k] == DelayMessage(q[k], st.books)
  {
    OverdueRows(st.borrowings, today);
    var q := OverdueQueryset(st.borrowings, today);
    assert forall k :: 0 <= k < |q| ==> q[k] in q;
  }

  /** With nothing overdue, the run posts exactly one NoOverdue message and nothing else. */
  lemma QuietDay(st: State, today: Day)
    requires BooksExist(st)
    requires forall b :: b in st.borrowings ==> !OverdueOn(today)(b)
    ensures OverdueReport(st, today) == [NoOverdue]
  {
    OverdueRows(st.borrowings, today);
    SelectNone(st.borrowings, OverdueOn(today));
  }

  /**
   * With some row overdue, the run posts one message per overdue row and no
   * NoOverdue message. Each names that row's user email, book title, borrow
   * date and expected return date, and every overdue row gets one.
   */
  lemma BusyDay(st: State, today: Day)
    requires BooksExist(st)
    requires exists b :: b in st.borrowings && OverdueOn(today)(b)
    ensures var report := OverdueReport(st, today);
      && |report| == |Select(st.borrowings, OverdueOn(today))|
      && NoOverdue !in report
      && (forall m :: m in report ==> exists b :: b in st.borrowings && OverdueOn(today)(b) && m == DelayMessage(b, st.books))
      && (forall b :: b in st.borrowings && OverdueOn(today)(b) ==> DelayMessage(b, st.books) in report)
  {
    OverdueRows(st.borrowings, today);
    var q := OverdueQueryset(st.borrowings, today);
    var b0 :| b0 in st.borrowings && OverdueOn(today)(b0);
    assert b0 in q;
    var report := OverdueReport(st, today);
    forall m | m in report
      ensures exists b :: b in st.borrowings && OverdueOn(today)(b) && m == DelayMessage(b, st.books)
    {
      var i :| 0 <= i < |report| && report[i] == m;
      assert q[i] in q;
    }
    forall b | b in st.borrowings && OverdueOn(today)(b) ensures DelayMessage(b, st.books) in report {
      assert b in q;
      var i :| 0 <= i < |q| && q[i] == b;
      assert report[i] == DelayMessage(b, st.books);
    }
  }

  /** The task: select the overdue rows, then post NoOverdue or one Delay per row. It changes no row and no inventory. */
  method NotifyOverdue(db: Database, out: Outbox, today: Day)
    requires db.Valid()
    modifies out
    ensures db.Snapshot() == old(db.Snapshot())
    ensures BooksExist(db.Snapshot()) && out.sent == old(out.sent) + OverdueReport(db.Snapshot(), today)
  {
    var st := db.Snapshot();
    ConsistentBooksExist(st);
    var q := OverdueQueryset(st.borrowings, today);
    if |q| == 0 {
      out.Send(NoOverdue);
      return;
    }
    ReportEntries(st, today);
    SendDelays(out, q, st.books);
  }

  /** The loop of the task: one Delay message per selected row, in order. */
  method SendDelays(out: Outbox, q: seq<Borrowing>, books: map<BookId, Book>)
    requires Reportable(q, books)
    modifies out
    ensures out.sent == old(out.sent) + DelayMessages(q, books)
  {
    ghost var report := DelayMessages(q, books);
    for i := 0 to |q|
      invariant out.sent == old(out.sent) + report[..i]
    {
      var b := q[i];
      out.Send(DelayMessage(b, books));
      assert report[..i + 1] == report[..i] + [report[i]];
    }
    assert report[..|q|] == report;
  }
}
