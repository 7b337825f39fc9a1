/**
 * The notification channel. The service posts free-text messages to a
 * Telegram chat; here a message keeps only the fields it is built from, and
 * the chat is an append-only log of the messages sent, in order.
 */
module Notifications {
  import opened Dates
  import opened Wrappers

  datatype Message =
    /** Posted when a borrowing is created. */
    | NewBorrowing(email: string, title: string, borrowDate: Day, expectedReturn: Option<Day>)
    /** Posted by the daily scan for each overdue borrowing. */
    | Delay(email: string, title: string, borrowDate: Day, dueDate: Day)
    /** Posted by the daily scan when nothing is overdue: "No overdue borrowing today!". */
    | NoOverdue

  /** The chat the service posts to: every send appends one message. */
  class Outbox {
    var sent: seq<Message>

    constructor ()
      ensures sent == []
    {
      sent := [];
    }

    /** Sends one message; delivery is fire-and-forget. */
    method Send(m: Message)
      modifies this
      ensures sent == old(sent) + [m]
    {
      sent := sent + [m];
    }
  }
}
