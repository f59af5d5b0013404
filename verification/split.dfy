/** The split engine: from a total, a payer, the member list and the
    per-member inputs, compute who owes the payer how much, under the equal,
    exact or percent strategy; and the "remaining" figures shown to the payer
    while the exact or percent inputs are being typed. */
module Split {
  import opened Amounts
  import opened Ledger

  /** Inputs that are all zero or more (what the split form is meant to receive). */
  predicate NonNegative(inputs: map<string, real>) {
    forall m :: m in inputs ==> inputs[m] >= 0.0
  }

  /** The running total the exact and percent loops keep: every non-payer
      member's input, blank as 0, zero and negative entries included. */
  function EnteredSum(members: seq<string>, payer: string, inputs: map<string, real>): (r: real)
    ensures NonNegative(inputs) ==> r >= 0.0
  {
    if |members| == 0 then 0.0
    else
      var last := members[|members| - 1];
      EnteredSum(members[..|members| - 1], payer, inputs)
        + (if last == payer then 0.0 else Amount(inputs, last))
  }

  /** The total of the non-payer inputs that are strictly positive. */
  function PositiveSum(members: seq<string>, payer: string, inputs: map<string, real>): real
  {
    if |members| == 0 then 0.0
    else
      var last := members[|members| - 1];
      PositiveSum(members[..|members| - 1], payer, inputs)
        + (if last == payer || Amount(inputs, last) <= 0.0 then 0.0 else Amount(inputs, last))
  }

  /** Every member but the payer mapped to the same amount c. */
  function Uniform(members: seq<string>, payer: string, c: real): map<string, real> {
    map m | m in members && m != payer :: c
  }

  /** Equal mode: every member but the payer owes the payer total / |members|. */
  function EqualSplits(members: seq<string>, payer: string, total: real): (r: map<string, real>)
    ensures forall m :: m in r <==> m in members && m != payer
    ensures forall m :: m in r ==> r[m] * (|members| as real) == total
  {
    if |members| == 0 then map[] else Uniform(members, payer, total / (|members| as real))
  }

  /** Exact mode: each non-payer member with a positive entry owes that entry. */
  function ExactSplits(members: seq<string>, payer: string, inputs: map<string, real>): (r: map<string, real>)
    ensures forall m :: m in r <==> m in members && m != payer && m in inputs && inputs[m] > 0.0
    ensures forall m :: m in r ==> r[m] == inputs[m]
  {
    map m | m in members && m != payer && Amount(inputs, m) > 0.0 :: Amount(inputs, m)
  }

  /** The amount p percent of `total` stands for, computed as total * p / 100. */
  function PercentOf(total: real, p: real): real {
    total * p / 100.0
  }

  lemma PercentOfAdd(total: real, p: real, q: real)
    ensures PercentOf(total, p) + PercentOf(total, q) == PercentOf(total, p + q)
  {
  }

  lemma PercentOfPositive(total: real, p: real)
    requires total > 0.0 && p > 0.0
    ensures PercentOf(total, p) > 0.0
  {
    assert total * p > 0.0;
  }

  lemma PercentOfAtMostTotal(total: real, p: real)
    requires total > 0.0 && p <= 100.0
    ensures PercentOf(total, p) <= total
  {
    assert total * p <= total * 100.0;
  }

  /** Percent mode: each non-payer member with a positive percentage p owes total * p / 100. */
  function PercentSplits(members: seq<string>, payer: string, total: real, inputs: map<string, real>): (r: map<string, real>)
    ensures forall m :: m in r <==> m in members && m != payer && m in inputs && inputs[m] > 0.0
    ensures forall m :: m in r ==> r[m] == PercentOf(total, inputs[m])
  {
    map m | m in members && m != payer && Amount(inputs, m) > 0.0 :: PercentOf(total, Amount(inputs, m))
  }

  /** Appending one member to the list adds at most that member to a splits map. */
  lemma UniformSnoc(init: seq<string>, last: string, payer: string, c: real)
    ensures Uniform(init + [last], payer, c)
         == if last == payer then Uniform(init, payer, c)
            else Uniform(init, payer, c)[last := c]
  {
    var after := Uniform(init + [last], payer, c);
    var before := Uniform(init, payer, c);
    assert forall m :: m in init + [last] <==> m in init || m == last;
    if last == payer {
      assert after.Keys == before.Keys;
    } else {
      assert after.Keys == before[last := c].Keys;
    }
  }

  lemma ExactSnoc(init: seq<string>, last: string, payer: string, inputs: map<string, real>)
    ensures ExactSplits(init + [last], payer, inputs)
         == if last == payer || Amount(inputs, last) <= 0.0 then ExactSplits(init, payer, inputs)
            else ExactSplits(init, payer, inputs)[last := Amount(inputs, last)]
  {
    var after := ExactSplits(init + [last], payer, inputs);
    var before := ExactSplits(init, payer, inputs);
    assert forall m :: m in init + [last] <==> m in init || m == last;
    if last == payer || Amount(inputs, last) <= 0.0 {
      assert after.Keys == before.Keys;
    } else {
      var b2 := before[last := Amount(inputs, last)];
      assert after.Keys == b2.Keys;
      assert forall m :: m in after ==> after[m] == b2[m];
    }
  }

  lemma PercentSnoc(init: seq<string>, last: string, payer: string, total: real, inputs: map<string, real>)
    ensures PercentSplits(init + [last], payer, total, inputs)
         == if last == payer || Amount(inputs, last) <= 0.0 then PercentSplits(init, payer, total, inputs)
            else PercentSplits(init, payer, total, inputs)[last := PercentOf(total, Amount(inputs, last))]
  {
    var after := PercentSplits(init + [last], payer, total, inputs);
    var before := PercentSplits(init, payer, total, inputs);
    assert forall m :: m in init + [last] <==> m in init || m == last;
    if last == payer || Amount(inputs, last) <= 0.0 {
      assert after.Keys == before.Keys;
    } else {
      var b2 := before[last := PercentOf(total, Amount(inputs, last))];
      assert after.Keys == b2.Keys;
      assert forall m :: m in after ==> after[m] == b2[m];
    }
  }

  /** The splits mapping for one strategy, or the rejection that aborts the expense. */
  function ComputeSplits(mode: SplitMode, members: seq<string>, payer: string, total: real,
                         inputs: map<string, real>): (r: Result<map<string, real>>)
    ensures r.Err? <==>
      || (mode == Exact && total - EnteredSum(members, payer, inputs) < 0.0)
      || (mode == Percent && EnteredSum(members, payer, inputs) > 100.0)
    ensures r.Err? ==> r.error == if mode == Exact then ExactExceedsTotal else PercentExceeds100
    ensures r.Ok? ==> payer !in r.value
    ensures r.Ok? ==> forall m :: m in r.value ==> m in members
    ensures r.Ok? && total > 0.0 ==> forall m :: m in r.value ==> r.value[m] > 0.0
  {
    match mode
    case Equal =>
      var s := EqualSplits(members, payer, total);
      assert total > 0.0 ==> forall m :: m in s ==> s[m] > 0.0 by {
        if total > 0.0 && |members| > 0 {
          assert total / (|members| as real) > 0.0;
        }
      }
      Ok(s)
    case Exact =>
      if total - EnteredSum(members, payer, inputs) < 0.0 then Err(ExactExceedsTotal)
      else Ok(ExactSplits(members, payer, inputs))
    case Percent =>
      if EnteredSum(members, payer, inputs) > 100.0 then Err(PercentExceeds100)
      else
        var s := PercentSplits(members, payer, total, inputs);
        assert total > 0.0 ==> forall m :: m in s ==> s[m] > 0.0 by {
          if total > 0.0 {
            forall m | m in s ensures s[m] > 0.0 {
              PercentOfPositive(total, Amount(inputs, m));
            }
          }
        }
        Ok(s)
  }

  /** The expense record an "add expense" request produces, or why it is refused.
      `total` is None when the entered total is not a number. */
  function NewExpense(id: nat, total: Option<real>, paidBy: string, mode: SplitMode,
                      members: seq<string>, inputs: map<string, real>): (r: Result<Expense>)
    ensures (total.None? || total.value <= 0.0) ==> r == Err(InvalidAmount)
    ensures total.Some? && total.value > 0.0 ==>
      (r.Ok? <==> ComputeSplits(mode, members, paidBy, total.value, inputs).Ok?)
    ensures total.Some? && total.value > 0.0 && r.Err? ==>
      r.error == ComputeSplits(mode, members, paidBy, total.value, inputs).error
    ensures r.Ok? ==>
      && r.value.id == id && r.value.paidBy == paidBy && total == Some(r.value.total)
      && r.value.splits == ComputeSplits(mode, members, paidBy, r.value.total, inputs).value
      && r.value.settled == map[]
      && WellFormed(r.value)
  {
    if total.None? || total.value <= 0.0 then Err(InvalidAmount)
    else
      match ComputeSplits(mode, members, paidBy, total.value, inputs)
      case Err(e) => Err(e)
      case Ok(s) => Ok(Expense(id, paidBy, total.value, s, map[]))
  }

  /** The equal-mode loop of "add expense". */
  method FillEqual(members: seq<string>, payer: string, total: real) returns (splits: map<string, real>)
    ensures splits == EqualSplits(members, payer, total)
  {
    splits := map[];
    if |members| == 0 {
      return;  // no member to visit, so nobody owes anything
    }
    var share := total / (|members| as real);
    for i := 0 to |members|
      invariant splits == Uniform(members[..i], payer, share)
    {
      assert members[..i + 1] == members[..i] + [members[i]];
      UniformSnoc(members[..i], members[i], payer, share);
      if members[i] != payer {
        splits := splits[members[i] := share];
      }
    }
    assert members[..|members|] == members;
  }

  /** The exact-mode loop of "add expense": the splits and the running sum of entries. */
  method FillExact(members: seq<string>, payer: string, inputs: map<string, real>)
    returns (splits: map<string, real>, sum: real)
    ensures splits == ExactSplits(members, payer, inputs)
    ensures sum == EnteredSum(members, payer, inputs)
  {
    splits, sum := map[], 0.0;
    for i := 0 to |members|
      invariant splits == ExactSplits(members[..i], payer, inputs)
      invariant sum == EnteredSum(members[..i], payer, inputs)
    {
      assert members[..i + 1] == members[..i] + [members[i]];
      ExactSnoc(members[..i], members[i], payer, inputs);
      assert members[..i + 1][..i] == members[..i];
      var m := members[i];
      if m != payer {
        var val := Amount(inputs, m);
        sum := sum + val;
        if val > 0.0 {
          splits := splits[m := val];
        }
      }
    }
    assert members[..|members|] == members;
  }

  /** The percent-mode loop of "add expense": the splits and the percentage used. */
  method FillPercent(members: seq<string>, payer: string, total: real, inputs: map<string, real>)
    returns (splits: map<string, real>, usedPercent: real)
    ensures splits == PercentSplits(members, payer, total, inputs)
    ensures usedPercent == EnteredSum(members, payer, inputs)
  {
    splits, usedPercent := map[], 0.0;
    for i := 0 to |members|
      invariant splits == PercentSplits(members[..i], payer, total, inputs)
      invariant usedPercent == EnteredSum(members[..i], payer, inputs)
    {
      assert members[..i + 1] == members[..i] + [members[i]];
      PercentSnoc(members[..i], members[i], payer, total, inputs);
      assert members[..i + 1][..i] == members[..i];
      var m := members[i];
      if m != payer {
        var p := Amount(inputs, m);
        usedPercent := usedPercent + p;
        if p > 0.0 {
          splits := splits[m := PercentOf(total, p)];
        }
      }
    }
    assert members[..|members|] == members;
  }

  /** How many entries of `members` are not the payer. */
  function NonPayers(members: seq<string>, payer: string): nat {
    if |members| == 0 then 0
    else NonPayers(members[..|members| - 1], payer) + if members[|members| - 1] == payer then 0 else 1
  }

  /** Among distinct members that include the payer, all but one are non-payers. */
  lemma {:induction false} NonPayersCount(members: seq<string>, payer: string)
    requires Distinct(members) && payer in members
    ensures NonPayers(members, payer) == |members| - 1
  {
    var init, last := members[..|members| - 1], members[|members| - 1];
    assert members == init + [last];
    assert Distinct(init);
    if last == payer {
      assert payer !in init;
      NoPayerCount(init, payer);
    } else {
      NonPayersCount(init, payer);
    }
  }

  lemma {:induction false} NoPayerCount(members: seq<string>, payer: string)
    requires payer !in members
    ensures NonPayers(members, payer) == |members|
  {
    if |members| > 0 {
      NoPayerCount(members[..|members| - 1], payer);
    }
  }

  /** c added up n times. */
  function Repeat(c: real, n: nat): real {
    if n == 0 then 0.0 else Repeat(c, n - 1) + c
  }

  lemma {:induction false} RepeatIsProduct(c: real, n: nat)
    ensures Repeat(c, n) == c * (n as real)
  {
    if n > 0 {
      RepeatIsProduct(c, n - 1);
      assert c * ((n - 1) as real) + c == c * (n as real);
    }
  }

  /** Summing c over the distinct non-payer members gives c once per non-payer. */
  lemma {:induction false} UniformSum(members: seq<string>, payer: string, c: real)
    requires Distinct(members)
    ensures SumValues(Uniform(members, payer, c)) == Repeat(c, NonPayers(members, payer))
  {
    if |members| == 0 {
      assert Uniform(members, payer, c).Keys == {};
    } else {
      var init, last := members[..|members| - 1], members[|members| - 1];
      assert members == init + [last];
      assert Distinct(init);
      assert last !in init;
      UniformSum(init, payer, c);
      UniformSnoc(init, last, payer, c);
      var k := NonPayers(init, payer);
      if last != payer {
        assert NonPayers(members, payer) == k + 1;
        assert last !in Uniform(init, payer, c);
        SumValuesUpdate(Uniform(init, payer, c), last, c);
        assert Repeat(c, k + 1) == Repeat(c, k) + c;
      } else {
        assert NonPayers(members, payer) == k;
      }
    }
  }

  /** Equal mode collects everything but the payer's own share: with the payer
      among distinct members, the splits add up to total - total / |members|. */
  lemma EqualSplitsConserve(members: seq<string>, payer: string, total: real)
    requires Distinct(members) && payer in members
    ensures var share := total / (|members| as real);
      SumValues(EqualSplits(members, payer, total)) == total - share
  {
    var share := total / (|members| as real);
    UniformSum(members, payer, share);
    NonPayersCount(members, payer);
    RepeatIsProduct(share, |members| - 1);
    ShareRest(total, |members|);
  }

  /** n - 1 shares of total / n make up the total less one share. */
  lemma ShareRest(total: real, n: nat)
    requires n > 0
    ensures (total / (n as real)) * ((n - 1) as real) == total - total / (n as real)
  {
    var share := total / (n as real);
    assert share * (n as real) == total;
    assert share * ((n - 1) as real) == share * (n as real) - share;
  }

  /** The running sum never exceeds the total of the positive entries, and
      equals it when no entry is negative. */
  lemma {:induction false} EnteredSumBound(members: seq<string>, payer: string, inputs: map<string, real>)
    ensures EnteredSum(members, payer, inputs) <= PositiveSum(members, payer, inputs)
    ensures NonNegative(inputs) ==> EnteredSum(members, payer, inputs) == PositiveSum(members, payer, inputs)
  {
    if |members| > 0 {
      EnteredSumBound(members[..|members| - 1], payer, inputs);
    }
  }

  /** Exact mode stores exactly the positive entries, so over distinct members
      the splits add up to the positive entries' total. */
  lemma {:induction false} ExactSplitsSum(members: seq<string>, payer: string, inputs: map<string, real>)
    requires Distinct(members)
    ensures SumValues(ExactSplits(members, payer, inputs)) == PositiveSum(members, payer, inputs)
  {
    if |members| > 0 {
      var init, last := members[..|members| - 1], members[|members| - 1];
      assert members == init + [last];
      assert Distinct(init);
      ExactSplitsSum(init, payer, inputs);
      ExactSnoc(init, last, payer, inputs);
      if last != payer && Amount(inputs, last) > 0.0 {
        assert last !in init;
        SumValuesUpdate(ExactSplits(init, payer, inputs), last, Amount(inputs, last));
      }
    }
  }

  /** Percent mode over distinct members: the splits add up to total times the
      positive percentages over 100. */
  lemma {:induction false} PercentSplitsSum(members: seq<string>, payer: string, total: real, inputs: map<string, real>)
    requires Distinct(members)
    ensures SumValues(PercentSplits(members, payer, total, inputs))
         == PercentOf(total, PositiveSum(members, payer, inputs))
  {
    if |members| > 0 {
      var init, last := members[..|members| - 1], members[|members| - 1];
      assert members == init + [last];
      assert Distinct(init);
      PercentSplitsSum(init, payer, total, inputs);
      PercentSnoc(init, last, payer, total, inputs);
      if last != payer && Amount(inputs, last) > 0.0 {
        assert last !in init;
        var p := Amount(inputs, last);
        SumValuesUpdate(PercentSplits(init, payer, total, inputs), last, PercentOf(total, p));
        PercentOfAdd(total, PositiveSum(init, payer, inputs), p);
      }
    }
  }

  /** An accepted exact split with non-negative entries never collects more than
      the total, and the payer's implicit share is what the entries leave over. */
  lemma ExactWithinTotal(members: seq<string>, payer: string, total: real, inputs: map<string, real>)
    requires Distinct(members) && NonNegative(inputs)
    requires ComputeSplits(Exact, members, payer, total, inputs).Ok?
    ensures var s := ComputeSplits(Exact, members, payer, total, inputs).value;
      SumValues(s) <= total && total - SumValues(s) == total - EnteredSum(members, payer, inputs)
  {
    ExactSplitsSum(members, payer, inputs);
    EnteredSumBound(members, payer, inputs);
  }

  /** An accepted percent split of a positive total with non-negative entries
      never collects more than the total. */
  lemma PercentWithinTotal(members: seq<string>, payer: string, total: real, inputs: map<string, real>)
    requires Distinct(members) && NonNegative(inputs) && total > 0.0
    requires ComputeSplits(Percent, members, payer, total, inputs).Ok?
    ensures SumValues(ComputeSplits(Percent, members, payer, total, inputs).value) <= total
  {
    PercentSplitsSum(members, payer, total, inputs);
    EnteredSumBound(members, payer, inputs);
    PercentOfAtMostTotal(total, PositiveSum(members, payer, inputs));
  }

  /** The payer's leftover shown in exact mode: the total less the entries,
      never below zero. */
  function ExactRemaining(total: real, members: seq<string>, payer: string, inputs: map<string, real>): (r: real)
    ensures r >= 0.0 && r >= total - EnteredSum(members, payer, inputs)
    ensures r == 0.0 || r == total - EnteredSum(members, payer, inputs)
  {
    var left := total - EnteredSum(members, payer, inputs);
    if left > 0.0 then left else 0.0
  }

  /** The payer's leftover percentage shown in percent mode, never below zero. */
  function PercentRemaining(members: seq<string>, payer: string, inputs: map<string, real>): (r: real)
    ensures r >= 0.0 && r >= 100.0 - EnteredSum(members, payer, inputs)
    ensures r == 0.0 || r == 100.0 - EnteredSum(members, payer, inputs)
  {
    var left := 100.0 - EnteredSum(members, payer, inputs);
    if left > 0.0 then left else 0.0
  }

  /** The amount shown beside every non-payer member in percent mode. For the
      members that will owe something it is exactly their split. */
  function PercentShown(total: real, members: seq<string>, payer: string, inputs: map<string, real>): (r: map<string, real>)
    ensures forall m :: m in r <==> m in members && m != payer
    ensures forall m :: m in PercentSplits(members, payer, total, inputs) ==>
      m in r && r[m] == PercentSplits(members, payer, total, inputs)[m]
  {
    map m | m in members && m != payer :: PercentOf(total, Amount(inputs, m))
  }

  lemma ShownSnoc(total: real, init: seq<string>, last: string, payer: string, inputs: map<string, real>)
    ensures PercentShown(total, init + [last], payer, inputs)
         == if last == payer then PercentShown(total, init, payer, inputs)
            else PercentShown(total, init, payer, inputs)[last := PercentOf(total, Amount(inputs, last))]
  {
    var after := PercentShown(total, init + [last], payer, inputs);
    var before := PercentShown(total, init, payer, inputs);
    assert forall m :: m in init + [last] <==> m in init || m == last;
    if last == payer {
      assert after.Keys == before.Keys;
    } else {
      var b2 := before[last := PercentOf(total, Amount(inputs, last))];
      assert after.Keys == b2.Keys;
      assert forall m :: m in after ==> after[m] == b2[m];
    }
  }

  /** The exact-mode "remaining" refresh. */
  method UpdateExactRemaining(total: real, members: seq<string>, payer: string, inputs: map<string, real>)
    returns (remaining: real)
    ensures remaining == ExactRemaining(total, members, payer, inputs)
  {
    var sum := 0.0;
    for i := 0 to |members|
      invariant sum == EnteredSum(members[..i], payer, inputs)
    {
      assert members[..i + 1][..i] == members[..i];
      if members[i] != payer {
        sum := sum + Amount(inputs, members[i]);
      }
    }
    assert members[..|members|] == members;
    remaining := if total - sum > 0.0 then total - sum else 0.0;
  }

  /** The percent-mode "remaining" refresh: each member's shown amount, the
      payer's leftover percentage and the amount it stands for. */
  method UpdatePercentRemaining(total: real, members: seq<string>, payer: string, inputs: map<string, real>)
    returns (shown: map<string, real>, remainingPercent: real, remainingAmount: real)
    ensures shown == PercentShown(total, members, payer, inputs)
    ensures remainingPercent == PercentRemaining(members, payer, inputs)
    ensures remainingAmount == PercentOf(total, remainingPercent)
  {
    var usedPercent := 0.0;
    shown := map[];
    for i := 0 to |members|
      invariant usedPercent == EnteredSum(members[..i], payer, inputs)
      invariant shown == PercentShown(total, members[..i], payer, inputs)
    {
      assert members[..i + 1] == members[..i] + [members[i]];
      ShownSnoc(total, members[..i], members[i], payer, inputs);
      assert members[..i + 1][..i] == members[..i];
      var m := members[i];
      if m != payer {
        var val := Amount(inputs, m);
        usedPercent := usedPercent + val;
        shown := shown[m := PercentOf(total, val)];
      }
    }
    assert members[..|members|] == members;
    remainingPercent := if 100.0 - usedPercent > 0.0 then 100.0 - usedPercent else 0.0;
    remainingAmount := PercentOf(total, remainingPercent);
  }

  /** What the exact-mode form shows the payer is the share the expense leaves
      them: the leftover if the expense would be accepted, and 0 when it would be
      refused; with non-negative entries the leftover is the total less the splits. */
  lemma ExactRemainingIsPayerShare(total: real, members: seq<string>, payer: string, inputs: map<string, real>)
    requires Distinct(members) && NonNegative(inputs)
    ensures var r := ComputeSplits(Exact, members, payer, total, inputs);
      && (r.Ok? ==> ExactRemaining(total, members, payer, inputs) == total - SumValues(r.value))
      && (r.Err? ==> ExactRemaining(total, members, payer, inputs) == 0.0)
  {
    if ComputeSplits(Exact, members, payer, total, inputs).Ok? {
      ExactWithinTotal(members, payer, total, inputs);
    }
  }

  /** In an accepted percent split with non-negative entries, the leftover
      amount shown to the payer and the splits together make up the total. */
  lemma PercentRemainingCompletes(total: real, members: seq<string>, payer: string, inputs: map<string, real>)
    requires Distinct(members) && NonNegative(inputs)
    requires ComputeSplits(Percent, members, payer, total, inputs).Ok?
    ensures PercentOf(total, PercentRemaining(members, payer, inputs))
          + SumValues(ComputeSplits(Percent, members, payer, total, inputs).value) == total
  {
    PercentSplitsSum(members, payer, total, inputs);
    EnteredSumBound(members, payer, inputs);
    var used := EnteredSum(members, payer, inputs);
    assert PercentRemaining(members, payer, inputs) == 100.0 - used;
    PercentOfAdd(total, 100.0 - used, used);
  }
}
