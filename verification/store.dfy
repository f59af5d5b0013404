/** A group as the ledger keeps it: its members in display order and its
    expense log, changed in place by "add member" and "add expense". */
module Store {
  import opened Ledger
  import opened Split

  class Group {
    const name: string
    var members: seq<string>
    var expenses: seq<Expense>

    /** Member names are unique and every logged expense is well formed. */
    ghost predicate Valid()
      reads this
    {
      Distinct(members) && AllWellFormed(expenses)
    }

    /** The group created when no stored state exists. */
    constructor Seed()
      ensures Valid()
      ensures name == "Trip to Goa" && members == [Viewer, "Alice", "Bob"] && expenses == []
    {
      name := "Trip to Goa";
      members := [Viewer, "Alice", "Bob"];
      expenses := [];
    }

    /** Adds the name the prompt returned (None when the prompt was cancelled).
        An empty name or a name already present (exact match) is refused;
        otherwise the name goes at the end. */
    method AddMember(input: Option<string>) returns (r: Outcome)
      requires Valid()
      modifies this
      ensures Valid() && expenses == old(expenses)
      ensures input.None? || input.value == "" ==>
        r == Fail(EmptyName) && members == old(members)
      ensures input.Some? && input.value != "" && input.value in old(members) ==>
        r == Fail(DuplicateMember) && members == old(members)
      ensures input.Some? && input.value != "" && input.value !in old(members) ==>
        r == Pass && members == old(members) + [input.value]
    {
      if input.None? || input.value == "" {
        return Fail(EmptyName);
      }
      var newName := input.value;
      if newName in members {
        return Fail(DuplicateMember);
      }
      members := members + [newName];
      r := Pass;
    }

    /** Validates the total, computes the splits under `mode` from the current
        members and the per-member `inputs`, and on success appends exactly one
        expense with no settlement flags. A refusal changes nothing. */
    method AddExpense(id: nat, total: Option<real>, paidBy: string, mode: SplitMode,
                      inputs: map<string, real>) returns (r: Outcome)
      requires Valid()
      modifies this
      ensures Valid() && members == old(members)
      ensures match NewExpense(id, total, paidBy, mode, old(members), inputs)
        case Ok(e) => r == Pass && expenses == old(expenses) + [e]
        case Err(err) => r == Fail(err) && expenses == old(expenses)
    {
      if total.None? || total.value <= 0.0 {
        return Fail(InvalidAmount);
      }
      var t := total.value;
      var splits: map<string, real>;
      match mode {
        case Equal =>
          splits := FillEqual(members, paidBy, t);
        case Exact =>
          var sum;
          splits, sum := FillExact(members, paidBy, inputs);
          if t - sum < 0.0 {
            return Fail(ExactExceedsTotal);
          }
        case Percent =>
          var usedPercent;
          splits, usedPercent := FillPercent(members, paidBy, t, inputs);
          if usedPercent > 100.0 {
            return Fail(PercentExceeds100);
          }
      }
      var e := Expense(id, paidBy, t, splits, map[]);
      assert NewExpense(id, total, paidBy, mode, members, inputs) == Ok(e);
      expenses := expenses + [e];
      r := Pass;
    }
  }
}
