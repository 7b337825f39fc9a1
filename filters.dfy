/**
 * `BorrowingFilter` (borrowings/filters.py): the `is_active` and `user_id`
 * query parameters narrowing a borrowing queryset.
 */
module Filters {
  import opened Wrappers
  import opened Querysets
  import opened Models

  /** The query parameters; an absent one applies no filter. */
  datatype Params = Params(isActive: Option<bool>, userId: Option<UserId>)

  /** `actual_return_date__isnull=True` */
  predicate ActualReturnIsNull(b: Borrowing)
  {
    b.actualReturn.None?
  }

  /** `filter_is_active`: true keeps the null return dates, false excludes them. */
  function FilterIsActive(qs: seq<Borrowing>, value: bool): seq<Borrowing>
  {
    if value then Select(qs, ActualReturnIsNull) else Exclude(qs, ActualReturnIsNull)
  }

  /** The `user_id` filter on `user__id`. */
  function FilterUserId(qs: seq<Borrowing>, u: UserId): seq<Borrowing>
  {
    Select(qs, OwnedBy(u))
  }

  /** `BorrowingFilter(params, queryset).qs`: the declared filters in order, each given parameter applied. */
  function Apply(qs: seq<Borrowing>, params: Params): seq<Borrowing>
  {
    var afterActive := if params.isActive.Some? then FilterIsActive(qs, params.isActive.value) else qs;
    if params.userId.Some? then FilterUserId(afterActive, params.userId.value) else afterActive
  }

  /** A row satisfies every parameter given. */
  predicate Matches(params: Params, b: Borrowing)
  {
    && (params.isActive.Some? ==> (b.actualReturn.None? <==> params.isActive.value))
    && (params.userId.Some? ==> b.user.id == params.userId.value)
  }

  /** Reference definition: one pass over the rows keeping those that match every parameter. */
  function Filtered(qs: seq<Borrowing>, params: Params): seq<Borrowing>
  {
    if qs == [] then []
    else (if Matches(params, qs[0]) then [qs[0]] else []) + Filtered(qs[1..], params)
  }

  /** The reference keeps exactly the rows that match every parameter. */
  lemma {:induction false} FilteredRows(qs: seq<Borrowing>, params: Params)
    ensures forall b :: b in Filtered(qs, params) <==> b in qs && Matches(params, b)
  {
    if qs != [] {
      FilteredRows(qs[1..], params);
      assert qs == [qs[0]] + qs[1..];
    }
  }

  /** `is_active=true` keeps exactly the active rows, `false` exactly the returned ones, in order. */
  lemma IsActiveFilter(qs: seq<Borrowing>, value: bool)
    ensures forall b :: b in FilterIsActive(qs, value) <==> b in qs && (b.actualReturn.None? <==> value)
    ensures IsSubsequence(FilterIsActive(qs, value), qs)
  {
    if value {
      SelectIsSubsequence(qs, ActualReturnIsNull);
    } else {
      ExcludeIsSubsequence(qs, ActualReturnIsNull);
    }
  }

  /** The two `is_active` results split the input: every row is in exactly one of them. */
  lemma IsActivePartition(qs: seq<Borrowing>)
    ensures multiset(FilterIsActive(qs, true)) + multiset(FilterIsActive(qs, false)) == multiset(qs)
    ensures forall b :: !(b in FilterIsActive(qs, true) && b in FilterIsActive(qs, false))
  {
    SelectExcludePartition(qs, ActualReturnIsNull);
  }

  /** `user_id=u` keeps exactly the rows of user u, in order. */
  lemma UserIdFilter(qs: seq<Borrowing>, u: UserId)
    ensures forall b :: b in FilterUserId(qs, u) <==> b in qs && b.user.id == u
    ensures IsSubsequence(FilterUserId(qs, u), qs)
  {
    SelectIsSubsequence(qs, OwnedBy(u));
  }

  /** Chaining the filters is the same as one pass checking all parameters: both filters give the intersection, in input order. */
  lemma {:induction false} ApplyIsFiltered(qs: seq<Borrowing>, params: Params)
    ensures Apply(qs, params) == Filtered(qs, params)
  {
    if qs != [] {
      ApplyIsFiltered(qs[1..], params);
      var x, rest := qs[0], qs[1..];
      assert qs == [x] + rest;
      var afterActive := if params.isActive.Some? then FilterIsActive(qs, params.isActive.value) else qs;
      var restActive := if params.isActive.Some? then FilterIsActive(rest, params.isActive.value) else rest;
      var keepX := params.isActive.None? || (x.actualReturn.None? <==> params.isActive.value);
      assert afterActive == (if keepX then [x] else []) + restActive;
      if params.userId.Some? {
        SelectAppend(if keepX then [x] else [], restActive, OwnedBy(params.userId.value));
      }
    }
  }

  /** Filters only remove rows: the result is an order-preserving subsequence, and a sorted input stays sorted. */
  lemma ApplyKeepsOrder(qs: seq<Borrowing>, params: Params)
    ensures IsSubsequence(Apply(qs, params), qs)
    ensures SortedBy(qs, BorrowDateOf) ==> SortedBy(Apply(qs, params), BorrowDateOf)
  {
    var afterActive := if params.isActive.Some? then FilterIsActive(qs, params.isActive.value) else qs;
    if params.isActive.Some? {
      IsActiveFilter(qs, params.isActive.value);
      if SortedBy(qs, BorrowDateOf) {
        if params.isActive.value {
          SelectSorted(qs, ActualReturnIsNull, BorrowDateOf);
        } else {
          ExcludeSorted(qs, ActualReturnIsNull, BorrowDateOf);
        }
      }
    } else {
      SubsequenceRefl(qs);
    }
    if params.userId.Some? {
      UserIdFilter(afterActive, params.userId.value);
      SubsequenceTrans(Apply(qs, params), afterActive, qs);
      if SortedBy(afterActive, BorrowDateOf) {
        SelectSorted(afterActive, OwnedBy(params.userId.value), BorrowDateOf);
      }
    }
  }
}
