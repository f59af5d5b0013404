/** The values a group's ledger is made of: expenses, split modes, the
    rejections the ledger reports, and the invariant every logged expense keeps. */
module Ledger {

  datatype Option<+T> = None | Some(value: T)

  /** Why an operation was refused; a refused operation changes nothing. */
  datatype Error =
    | InvalidAmount       // the total is zero, negative or not a number
    | EmptyName           // the member prompt was left empty or cancelled
    | DuplicateMember     // the name is already a member of the group
    | ExactExceedsTotal   // the exact amounts add up to more than the total
    | PercentExceeds100   // the percentages add up to more than 100

  datatype Result<+T> = Ok(value: T) | Err(error: Error)

  datatype Outcome = Pass | Fail(error: Error)

  /** The three ways a total is apportioned among the members. */
  datatype SplitMode = Equal | Exact | Percent

  /** One logged expense. `splits` maps each debtor to what they owe the payer;
      `settled` marks debtors whose share of this expense is resolved. The
      creation date is display-only and not part of the model. */
  datatype Expense = Expense(
    id: nat,
    paidBy: string,
    total: real,
    splits: map<string, real>,
    settled: map<string, bool>)

  /** The logged-in member whose balances are displayed. */
  const Viewer: string := "User"

  /** A person's share of `e` counts as resolved only when flagged true. */
  predicate IsSettled(e: Expense, p: string) {
    p in e.settled && e.settled[p]
  }

  /** No name occurs twice. */
  predicate Distinct(s: seq<string>) {
    forall i, j :: 0 <= i < j < |s| ==> s[i] != s[j]
  }

  /** What every expense the ledger creates satisfies: a positive total, the
      payer is never a debtor, and no debtor is stored with a zero or negative amount. */
  ghost predicate WellFormed(e: Expense) {
    && e.total > 0.0
    && e.paidBy !in e.splits
    && forall p :: p in e.splits ==> e.splits[p] > 0.0
  }

  ghost predicate AllWellFormed(es: seq<Expense>) {
    forall i :: 0 <= i < |es| ==> WellFormed(es[i])
  }
}
