/** Worked cases on the seeded group ["User", "Alice", "Bob"]. */
module Scenarios {
  import opened Amounts
  import opened Ledger
  import opened Split
  import opened Balance

  const Trip: seq<string> := [Viewer, "Alice", "Bob"]

  /** The running sum over the seeded members, spelled out member by member. */
  lemma EnteredSumOfTrip(payer: string, inputs: map<string, real>)
    ensures EnteredSum(Trip, payer, inputs)
         == (if Viewer == payer then 0.0 else Amount(inputs, Viewer))
          + (if "Alice" == payer then 0.0 else Amount(inputs, "Alice"))
          + (if "Bob" == payer then 0.0 else Amount(inputs, "Bob"))
  {
    var one, two := [Viewer], [Viewer, "Alice"];
    assert one[..0] == [];
    assert EnteredSum(one, payer, inputs) == if Viewer == payer then 0.0 else Amount(inputs, Viewer);
    assert two[..1] == one;
    assert Trip[..2] == two;
  }

  /** The viewer pays 300, split equally: Alice and Bob owe 100 each, the viewer
      is owed 200; once Alice's share is settled, only Bob's 100 remains. */
  lemma EqualSplitScenario()
    ensures var r := NewExpense(1, Some(300.0), Viewer, Equal, Trip, map[]);
      && r.Ok?
      && r.value.splits == map["Alice" := 100.0, "Bob" := 100.0]
      && YouOwe([r.value]) == 0.0
      && OwedTotal([r.value]) == 200.0
      && YouAreOwed([r.value.(settled := map["Alice" := true])]) == map["Bob" := 100.0]
  {
    var e := NewExpense(1, Some(300.0), Viewer, Equal, Trip, map[]).value;
    EqualSplitOfTrip();
    assert [e][..0] == [];
    assert Unsettled(e) == e.splits;
    TwoHundred();
    var settledAlice := e.(settled := map["Alice" := true]);
    assert [settledAlice][..0] == [];
    assert Unsettled(settledAlice).Keys == {"Bob"};
  }

  lemma EqualSplitOfTrip()
    ensures EqualSplits(Trip, Viewer, 300.0) == map["Alice" := 100.0, "Bob" := 100.0]
  {
    var expected := map["Alice" := 100.0, "Bob" := 100.0];
    assert EqualSplits(Trip, Viewer, 300.0).Keys == expected.Keys;
  }

  lemma TwoHundred()
    ensures SumValues(map["Alice" := 100.0, "Bob" := 100.0]) == 200.0
  {
    var m := map["Alice" := 100.0, "Bob" := 100.0];
    SumValuesRemove(m, "Alice");
    SumValuesRemove(m - {"Alice"}, "Bob");
    assert m - {"Alice"} - {"Bob"} == map[];
  }

  /** Bob pays 90 with exact amounts User 30 and Alice 20: both are stored, Bob
      keeps 40 himself, and the viewer owes 30. */
  lemma ExactSplitScenario()
    ensures var inputs := map[Viewer := 30.0, "Alice" := 20.0];
      var r := NewExpense(2, Some(90.0), "Bob", Exact, Trip, inputs);
      && r.Ok?
      && r.value.splits == inputs
      && ExactRemaining(90.0, Trip, "Bob", inputs) == 40.0
      && YouOwe([r.value]) == 30.0
  {
    var inputs := map[Viewer := 30.0, "Alice" := 20.0];
    EnteredSumOfTrip("Bob", inputs);
    assert ExactSplits(Trip, "Bob", inputs).Keys == inputs.Keys;
    var e := NewExpense(2, Some(90.0), "Bob", Exact, Trip, inputs).value;
    assert [e][..0] == [];
  }

  /** The viewer pays 100 with Alice at 60% and Bob at 50%: 110% is refused. */
  lemma PercentOverflowScenario()
    ensures NewExpense(3, Some(100.0), Viewer, Percent, Trip, map["Alice" := 60.0, "Bob" := 50.0])
         == Err(PercentExceeds100)
  {
    var inputs := map["Alice" := 60.0, "Bob" := 50.0];
    EnteredSumOfTrip(Viewer, inputs);
  }

  /** A negative exact entry offsets the running sum but is not stored: with a
      total of 10, Alice at 20 and Bob at -15 pass the check (sum 5), yet the
      stored splits ask the others for 20, more than the total. */
  lemma NegativeExactEntryOvercommits()
    ensures var r := NewExpense(4, Some(10.0), Viewer, Exact, Trip, map["Alice" := 20.0, "Bob" := -15.0]);
      && r.Ok?
      && r.value.splits == map["Alice" := 20.0]
      && SumValues(r.value.splits) > r.value.total
  {
    var inputs := map["Alice" := 20.0, "Bob" := -15.0];
    EnteredSumOfTrip(Viewer, inputs);
    var s := ExactSplits(Trip, Viewer, inputs);
    assert s.Keys == {"Alice"};
    SumValuesRemove(s, "Alice");
    assert s - {"Alice"} == map[];
  }
}
