/** Balances for the viewer, always derived from the whole expense log:
    what the viewer owes others, and what each other person owes the viewer. */
module Balance {
  import opened Amounts
  import opened Ledger
  import opened Split

  /** What the viewer owes on one expense: their split, when someone else paid,
      the split is non-zero and the viewer's share is not settled. */
  function OweOn(e: Expense): (r: real)
    ensures r != 0.0 ==> e.paidBy != Viewer && !IsSettled(e, Viewer) && Viewer in e.splits && r == e.splits[Viewer]
    ensures e.paidBy != Viewer && Viewer in e.splits && !IsSettled(e, Viewer) ==> r == e.splits[Viewer]
    ensures WellFormed(e) ==> r >= 0.0
  {
    if e.paidBy != Viewer && Viewer in e.splits && e.splits[Viewer] != 0.0 && !IsSettled(e, Viewer)
    then e.splits[Viewer]
    else 0.0
  }

  /** "You owe": the viewer's outstanding shares over the whole log. */
  function YouOwe(es: seq<Expense>): (r: real)
    ensures AllWellFormed(es) ==> r >= 0.0
  {
    if |es| == 0 then 0.0
    else
      var init := es[..|es| - 1];
      assert AllWellFormed(es) ==> AllWellFormed(init) by {
        forall i | 0 <= i < |init| ensures init[i] == es[i] { }
      }
      YouOwe(init) + OweOn(es[|es| - 1])
  }

  /** The debtors of one expense whose share is not yet settled, with their amounts. */
  function Unsettled(e: Expense): (r: map<string, real>)
    ensures forall p :: p in r ==> p in e.splits && r[p] == e.splits[p]
    ensures forall p :: p in e.splits ==> (p in r <==> !IsSettled(e, p))
  {
    map p | p in e.splits && !IsSettled(e, p) :: e.splits[p]
  }

  /** "You are owed", per person: for each expense the viewer paid, every
      unsettled debtor's amount, accumulated by name. */
  function YouAreOwed(es: seq<Expense>): (r: map<string, real>)
    ensures AllWellFormed(es) ==> Viewer !in r && forall p :: p in r ==> r[p] > 0.0
  {
    if |es| == 0 then map[]
    else
      var init, e := es[..|es| - 1], es[|es| - 1];
      assert AllWellFormed(es) ==> AllWellFormed(init) && WellFormed(e) by {
        forall i | 0 <= i < |init| ensures init[i] == es[i] { }
      }
      var prev := YouAreOwed(init);
      if e.paidBy == Viewer then Merge(prev, Unsettled(e)) else prev
  }

  /** What person p is still owed over the log, expense by expense. */
  function OwedBy(es: seq<Expense>, p: string): real {
    if |es| == 0 then 0.0
    else
      var e := es[|es| - 1];
      OwedBy(es[..|es| - 1], p) + if e.paidBy == Viewer then Amount(Unsettled(e), p) else 0.0
  }

  /** The "you are owed" figure, summed expense by expense. */
  ghost function OwedTotal(es: seq<Expense>): real {
    if |es| == 0 then 0.0
    else
      var e := es[|es| - 1];
      OwedTotal(es[..|es| - 1]) + if e.paidBy == Viewer then SumValues(Unsettled(e)) else 0.0
  }

  /** The per-person map holds exactly the people with an unsettled share in
      some expense the viewer paid, each with the sum of those shares. */
  lemma {:induction false} OwedBreakdown(es: seq<Expense>, p: string)
    ensures Amount(YouAreOwed(es), p) == OwedBy(es, p)
    ensures p in YouAreOwed(es) <==>
      exists i :: 0 <= i < |es| && es[i].paidBy == Viewer && p in Unsettled(es[i])
  {
    if |es| > 0 {
      var init, e := es[..|es| - 1], es[|es| - 1];
      OwedBreakdown(init, p);
      if p in YouAreOwed(init) {
        var i :| 0 <= i < |init| && init[i].paidBy == Viewer && p in Unsettled(init[i]);
        assert es[i] == init[i];
      }
      if e.paidBy == Viewer && p in Unsettled(e) {
        assert es[|es| - 1] == e;
      }
      if exists i :: 0 <= i < |es| && es[i].paidBy == Viewer && p in Unsettled(es[i]) {
        var i :| 0 <= i < |es| && es[i].paidBy == Viewer && p in Unsettled(es[i]);
        if i < |es| - 1 {
          assert init[i] == es[i];
        }
      }
    }
  }

  /** The displayed total (the sum of the per-person map) is the sum, over the
      expenses the viewer paid, of their unsettled splits. */
  lemma {:induction false} OwedTotalIsSum(es: seq<Expense>)
    ensures SumValues(YouAreOwed(es)) == OwedTotal(es)
  {
    if |es| == 0 {
      assert YouAreOwed(es).Keys == {};
    } else {
      var init, e := es[..|es| - 1], es[|es| - 1];
      OwedTotalIsSum(init);
      if e.paidBy == Viewer {
        SumValuesMerge(YouAreOwed(init), Unsettled(e));
      }
    }
  }

  /** The "you owe" scan over the log. */
  method GetYouOwe(es: seq<Expense>) returns (owe: real)
    ensures owe == YouOwe(es)
  {
    owe := 0.0;
    for i := 0 to |es|
      invariant owe == YouOwe(es[..i])
    {
      assert es[..i + 1][..i] == es[..i];
      var e := es[i];
      if e.paidBy != Viewer && Viewer in e.splits && e.splits[Viewer] != 0.0 && !IsSettled(e, Viewer) {
        owe := owe + e.splits[Viewer];
      }
    }
    assert es[..|es|] == es;
  }

  /** The "you are owed" scan: builds the per-person map in place. */
  method GetYouAreOwed(es: seq<Expense>) returns (owed: map<string, real>)
    ensures owed == YouAreOwed(es)
  {
    owed := map[];
    for i := 0 to |es|
      invariant owed == YouAreOwed(es[..i])
    {
      assert es[..i + 1][..i] == es[..i];
      if es[i].paidBy == Viewer {
        owed := AddUnsettled(owed, es[i]);
      }
    }
    assert es[..|es|] == es;
  }

  /** The inner step of the scan: every unsettled debtor of `e` has their
      amount added to what the map already holds for them. */
  method AddUnsettled(owed: map<string, real>, e: Expense) returns (result: map<string, real>)
    ensures result == Merge(owed, Unsettled(e))
  {
    result := owed;
    var todo := e.splits.Keys;
    MergeRestrictNone(owed, Unsettled(e));
    assert e.splits.Keys - todo == {};
    while todo != {}
      invariant todo <= e.splits.Keys
      invariant result == Merge(owed, Restrict(Unsettled(e), e.splits.Keys - todo))
      decreases todo
    {
      var person :| person in todo;
      AddUnsettledStep(owed, e, todo, person);
      if !IsSettled(e, person) {
        result := result[person := Amount(result, person) + e.splits[person]];
      }
      todo := todo - {person};
    }
    RestrictAll(Unsettled(e), e.splits.Keys);
  }

  /** Visiting one more debtor keeps the accumulator equal to the merge of
      the debtors visited so far. */
  lemma AddUnsettledStep(owed: map<string, real>, e: Expense, todo: set<string>, person: string)
    requires person in todo && todo <= e.splits.Keys
    ensures var before := Merge(owed, Restrict(Unsettled(e), e.splits.Keys - todo));
      Merge(owed, Restrict(Unsettled(e), e.splits.Keys - (todo - {person})))
        == if IsSettled(e, person) then before
           else before[person := Amount(before, person) + e.splits[person]]
  {
    MergeRestrictStep(owed, Unsettled(e), e.splits.Keys - todo, person);
    assert e.splits.Keys - (todo - {person}) == (e.splits.Keys - todo) + {person};
  }

  /** Adds up the per-person map for display. */
  method SumOwed(owed: map<string, real>) returns (total: real)
    ensures total == SumValues(owed)
  {
    total := 0.0;
    var rest := owed;
    while rest.Keys != {}
      invariant total + SumValues(rest) == SumValues(owed)
      decreases rest.Keys
    {
      var p :| p in rest;
      SumValuesRemove(rest, p);
      total := total + rest[p];
      rest := rest - {p};
    }
  }

  /** The two figures the balance panel shows. */
  method RenderBalances(es: seq<Expense>) returns (youOwe: real, youAreOwed: real)
    ensures youOwe == YouOwe(es)
    ensures youAreOwed == OwedTotal(es)
  {
    youOwe := GetYouOwe(es);
    var owedMap := GetYouAreOwed(es);
    youAreOwed := SumOwed(owedMap);
    OwedTotalIsSum(es);
  }

  /** `later` is `earlier` with possibly more settlement flags raised and nothing else changed. */
  ghost predicate SettledSince(earlier: Expense, later: Expense) {
    && later.(settled := earlier.settled) == earlier
    && forall p :: IsSettled(earlier, p) ==> IsSettled(later, p)
  }

  ghost predicate LogSettledSince(earlier: seq<Expense>, later: seq<Expense>) {
    && |earlier| == |later|
    && forall i :: 0 <= i < |earlier| ==> SettledSince(earlier[i], later[i])
  }

  /** Comparing two snapshots of one log that differ only in raised
      settlement flags: the later one shows no larger balance either way. */
  lemma {:induction false} SettlingNeverRaisesBalances(earlier: seq<Expense>, later: seq<Expense>)
    requires AllWellFormed(earlier) && LogSettledSince(earlier, later)
    ensures YouOwe(later) <= YouOwe(earlier)
    ensures OwedTotal(later) <= OwedTotal(earlier)
  {
    if |earlier| > 0 {
      var n := |earlier| - 1;
      var e, l := earlier[n], later[n];
      assert WellFormed(e) && SettledSince(e, l);
      assert AllWellFormed(earlier[..n]) by {
        forall i | 0 <= i < n ensures earlier[..n][i] == earlier[i] { }
      }
      assert LogSettledSince(earlier[..n], later[..n]) by {
        forall i | 0 <= i < n ensures earlier[..n][i] == earlier[i] && later[..n][i] == later[i] { }
      }
      SettlingNeverRaisesBalances(earlier[..n], later[..n]);
      assert l.splits == e.splits && l.paidBy == e.paidBy;
      SumValuesSubmap(Unsettled(l), Unsettled(e));
    }
  }

  /** An equal split among distinct members that include the viewer and the
      payer: when someone else pays, the viewer owes one share more; when the
      viewer pays, they are owed everything but their own share. */
  lemma EqualExpenseBalances(es: seq<Expense>, id: nat, payer: string, total: real, members: seq<string>)
    requires Distinct(members) && Viewer in members && payer in members && total > 0.0
    ensures NewExpense(id, Some(total), payer, Equal, members, map[]).Ok?
    ensures var e := NewExpense(id, Some(total), payer, Equal, members, map[]).value;
      var share := total / (|members| as real);
      if payer == Viewer then
        YouOwe(es + [e]) == YouOwe(es) && OwedTotal(es + [e]) == OwedTotal(es) + (total - share)
      else
        YouOwe(es + [e]) == YouOwe(es) + share && OwedTotal(es + [e]) == OwedTotal(es)
  {
    var e := NewExpense(id, Some(total), payer, Equal, members, map[]).value;
    assert (es + [e])[..|es|] == es;
    assert e.splits == EqualSplits(members, payer, total);
    assert Unsettled(e) == e.splits;
    if payer == Viewer {
      EqualSplitsConserve(members, payer, total);
    } else {
      assert Viewer in e.splits;
    }
  }
}
