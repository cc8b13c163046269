/** Batching of register reads: the registers of a poll are merged into ranges of consecutive addresses. */
module ReadPlan {
  import opened Common
  import opened Registers

  datatype Range = Range(start: Word, count: Word, registers: seq<Register>)

  function Sub16(a: Word, b: Word): Word {
    (a - b) % 0x1_0000
  }

  // ----- addresses -----

  /** A register with at least one word and none past the last address. */
  predicate Addressable(r: Register) {
    r.count >= 1 && r.address + r.count <= 0x1_0000
  }

  /** A register that ends at the last address, where its end no longer fits in 16 bits. */
  predicate AtTop(r: Register) {
    r.address + r.count == 0x1_0000
  }

  predicate AllAddressable(regs: seq<Register>) {
    forall i :: 0 <= i < |regs| ==> Addressable(regs[i])
  }

  predicate Holds(r: Register, a: int) {
    r.address <= a < r.address + r.count
  }

  predicate Reads(range: Range, a: int) {
    range.start <= a < End(range)
  }

  function End(range: Range): nat {
    range.start + range.count
  }

  predicate Sorted(regs: seq<Register>) {
    forall i, j :: 0 <= i < j < |regs| ==> regs[i].address <= regs[j].address
  }

  // ----- what makes a plan good -----

  /** A range reads all words of its registers and no others. */
  ghost predicate Exact(range: Range) {
    && range.registers != []
    && AllAddressable(range.registers)
    && (forall i :: 0 <= i < |range.registers| ==> Within(range, range.registers[i]))
    && (forall a :: Reads(range, a) ==> HeldBySome(range.registers, a))
    && range.count >= 1 && End(range) <= 0x1_0000
  }

  predicate Within(range: Range, r: Register) {
    range.start <= r.address && r.address + r.count <= End(range)
  }

  ghost predicate HeldBySome(regs: seq<Register>, a: int) {
    exists i :: 0 <= i < |regs| && Holds(regs[i], a)
  }

  /** Between one range and the next at least one address is not read. */
  predicate Apart(plan: seq<Range>) {
    forall i, j :: 0 <= i < j < |plan| ==> End(plan[i]) < plan[j].start
  }

  function Planned(plan: seq<Range>): seq<Register> {
    if plan == [] then [] else Planned(plan[..|plan| - 1]) + plan[|plan| - 1].registers
  }

  ghost predicate ExactPlan(plan: seq<Range>) {
    Apart(plan) && forall i :: 0 <= i < |plan| ==> Exact(plan[i])
  }

  ghost predicate ReadBySome(plan: seq<Range>, a: int) {
    exists i :: 0 <= i < |plan| && Reads(plan[i], a)
  }

  // ----- building a plan -----

  function Insert(r: Register, regs: seq<Register>): (s: seq<Register>)
    requires Sorted(regs)
    ensures |s| == |regs| + 1 && Sorted(s)
    ensures s[0].address == if regs == [] then r.address else Min(r.address, regs[0].address)
  {
    if regs == [] || r.address <= regs[0].address then [r] + regs
    else [regs[0]] + Insert(r, regs[1..])
  }

  lemma {:induction false} InsertKeepsAll(r: Register, regs: seq<Register>)
    requires Sorted(regs)
    ensures multiset(Insert(r, regs)) == multiset(regs) + multiset{r}
    decreases |regs|
  {
    if regs == [] || r.address <= regs[0].address {
    } else {
      InsertKeepsAll(r, regs[1..]);
      assert regs == [regs[0]] + regs[1..];
    }
  }

  /** Some ordering by address; which of the registers at one address comes first is left open to callers. */
  method SortByAddress(regs: seq<Register>) returns (sorted: seq<Register>)
    ensures Sorted(sorted) && multiset(sorted) == multiset(regs)
  {
    sorted := [];
    for i := 0 to |regs|
      invariant Sorted(sorted) && multiset(sorted) == multiset(regs[..i])
    {
      InsertKeepsAll(regs[i], sorted);
      sorted := Insert(regs[i], sorted);
      assert regs[..i + 1] == regs[..i] + [regs[i]];
    }
    assert regs[..|regs|] == regs;
  }

  /** Adding a register that starts inside a range, or right behind it. */
  lemma Grow(range: Range, reg: Register, grown: Range)
    requires Exact(range) && Addressable(reg)
    requires range.start <= reg.address <= End(range)
    requires grown.start == range.start && grown.registers == range.registers + [reg]
    requires End(grown) == if reg.address + reg.count > End(range) then reg.address + reg.count else End(range)
    ensures Exact(grown)
  {
    var n := |range.registers|;
    forall a | Reads(grown, a) ensures HeldBySome(grown.registers, a) {
      if a < End(range) {
        assert Reads(range, a);
        var i :| 0 <= i < n && Holds(range.registers[i], a);
        assert Holds(grown.registers[i], a);
      } else {
        assert Holds(grown.registers[n], a);
      }
    }
  }

  lemma Single(reg: Register)
    requires Addressable(reg)
    ensures Exact(Range(reg.address, reg.count, [reg]))
  {
    var range := Range(reg.address, reg.count, [reg]);
    forall a | Reads(range, a) ensures HeldBySome(range.registers, a) {
      assert Holds(range.registers[0], a);
    }
  }

  lemma PlannedOne(plan: seq<Range>, range: Range)
    ensures Planned(plan + [range]) == Planned(plan) + range.registers
  {
    assert (plan + [range])[..|plan|] == plan;
  }

  /** The state of the merge once it has placed some registers: finished ranges and the one that may still grow. */
  ghost predicate Merged(plan: seq<Range>, current: Range, placed: seq<Register>) {
    && ExactPlan(plan) && Exact(current)
    && (forall i :: 0 <= i < |plan| ==> End(plan[i]) < current.start)
    && Planned(plan) + current.registers == placed
  }

  lemma Finish(plan: seq<Range>, current: Range, placed: seq<Register>)
    requires Merged(plan, current, placed)
    ensures ExactPlan(plan + [current]) && Planned(plan + [current]) == placed
  {
    PlannedOne(plan, current);
  }

  /** How one more register, in the order of addresses, changes the state when no sum wraps: it joins the growing range
      if it starts in it or right behind it, and otherwise starts the next one. */
  predicate MergedNext(m: Merging, reg: Register, n: Merging) {
    var regEnd := reg.address + reg.count;
    if reg.address <= End(m.current) then
      && n.plan == m.plan && n.current.start == m.current.start
      && End(n.current) == (if regEnd > End(m.current) then regEnd else End(m.current))
      && n.current.registers == m.current.registers + [reg]
    else n.plan == m.plan + [m.current] && n.current == Range(reg.address, reg.count, [reg])
  }

  lemma MergeStep(m: Merging, placed: seq<Register>, reg: Register, n: Merging)
    requires Merged(m.plan, m.current, placed) && Addressable(reg) && m.current.start <= reg.address
    requires MergedNext(m, reg, n)
    ensures Merged(n.plan, n.current, placed + [reg])
  {
    if reg.address <= End(m.current) {
      Grow(m.current, reg, n.current);
      assert Planned(m.plan) + (m.current.registers + [reg]) == placed + [reg];
    } else {
      Single(reg);
      Finish(m.plan, m.current, placed);
    }
  }

  // ----- the merge -----

  /** Finished ranges and the one that may still grow. */
  datatype Merging = Merging(plan: seq<Range>, current: Range)

  /** One round of the merge, with its sums in 16 bits. */
  function Placed(m: Merging, reg: Register): Merging {
    var currentEnd, regEnd := Add16(m.current.start, m.current.count), Add16(reg.address, reg.count);
    if reg.address <= currentEnd then
      var count := if regEnd > currentEnd then Sub16(regEnd, m.current.start) else m.current.count;
      Merging(m.plan, Range(m.current.start, count, m.current.registers + [reg]))
    else Merging(m.plan + [m.current], Range(reg.address, reg.count, [reg]))
  }

  function First(reg: Register): Merging {
    Merging([], Range(reg.address, reg.count, [reg]))
  }

  function MergedUpTo(regs: seq<Register>, k: nat): Merging
    requires 1 <= k <= |regs|
  {
    if k == 1 then First(regs[0]) else Placed(MergedUpTo(regs, k - 1), regs[k - 1])
  }

  /** The plan for registers in their order of address. */
  function PlanOf(regs: seq<Register>): seq<Range> {
    if regs == [] then []
    else
      var m := MergedUpTo(regs, |regs|);
      m.plan + [m.current]
  }

  method Merge(filtered: seq<Register>) returns (plan: seq<Range>)
    requires filtered != []
    ensures plan == PlanOf(filtered)
  {
    plan := [];
    var current := Range(filtered[0].address, filtered[0].count, [filtered[0]]);
    for k := 1 to |filtered|
      invariant Merging(plan, current) == MergedUpTo(filtered, k)
    {
      var reg := filtered[k];
      var currentEnd := Add16(current.start, current.count);
      var regEnd := Add16(reg.address, reg.count);
      if reg.address <= currentEnd {
        if regEnd > currentEnd {
          current := current.(count := Sub16(regEnd, current.start));
        }
        current := current.(registers := current.registers + [reg]);
        continue;
      }
      plan := plan + [current];
      current := Range(reg.address, reg.count, [reg]);
    }
    plan := plan + [current];
  }

  /** Every register is in the plan once, in the order of addresses, whatever the registers; and the plan reads them
      exactly, with gaps between its ranges, unless one at the top of the address space touches another. */
  method BuildReadPlanForRegisters(regs: seq<Register>) returns (plan: seq<Range>)
    ensures Sorted(Planned(plan)) && multiset(Planned(plan)) == multiset(regs)
    ensures plan == PlanOf(Planned(plan))
    ensures AllAddressable(regs) && TopApart(regs) ==> ExactPlan(plan)
  {
    if |regs| == 0 {
      return [];
    }
    var filtered := SortByAddress(regs);
    assert |multiset(filtered)| == |filtered|;
    plan := Merge(filtered);
    PlanKeepsOrder(filtered);
    if AllAddressable(regs) && TopApart(regs) {
      SameAddressable(regs, filtered);
      TopApartPermutes(regs, filtered);
      PlanIsExact(filtered);
    }
  }

  // ----- when the plan is exact -----

  /** Whatever ends at the last address is alone: every other register ends before it, with a gap. */
  predicate TopApart(regs: seq<Register>) {
    forall i, j :: 0 <= i < |regs| && 0 <= j < |regs| && i != j && AtTop(regs[i]) ==>
                     EndsBelow(regs[j], regs[i].address)
  }

  predicate EndsBelow(r: Register, a: int) {
    r.address + r.count < a
  }

  /** The same said of registers in no order. */
  ghost predicate AloneAtTop(regs: multiset<Register>) {
    forall t, r :: t in regs && r in regs && AtTop(t) ==> (r == t && regs[t] == 1) || EndsBelow(r, t.address)
  }

  lemma TopApartInAnyOrder(regs: seq<Register>)
    requires AllAddressable(regs)
    ensures TopApart(regs) <==> AloneAtTop(multiset(regs))
  {
    if TopApart(regs) {
      forall t, r | t in multiset(regs) && r in multiset(regs) && AtTop(t)
        ensures (r == t && multiset(regs)[t] == 1) || EndsBelow(r, t.address)
      {
        var i :| 0 <= i < |regs| && regs[i] == t;
        var j :| 0 <= j < |regs| && regs[j] == r;
        if i == j {
          OnlyOne(regs, i);
        }
      }
    }
    if AloneAtTop(multiset(regs)) {
      forall i, j | 0 <= i < |regs| && 0 <= j < |regs| && i != j && AtTop(regs[i])
        ensures EndsBelow(regs[j], regs[i].address)
      {
        assert regs[i] in multiset(regs) && regs[j] in multiset(regs);
        if regs[i] == regs[j] {
          TwoOf(regs, if i < j then i else j, if i < j then j else i);
        }
      }
    }
  }

  lemma OnlyOne(regs: seq<Register>, i: nat)
    requires i < |regs| && forall j :: 0 <= j < |regs| && j != i ==> regs[j] != regs[i]
    ensures multiset(regs)[regs[i]] == 1
  {
    var before, after := regs[..i], regs[i + 1..];
    assert regs == before + [regs[i]] + after;
    assert regs[i] !in before && regs[i] !in after;
  }

  lemma TwoOf(regs: seq<Register>, i: nat, j: nat)
    requires i < j < |regs| && regs[i] == regs[j]
    ensures multiset(regs)[regs[i]] >= 2
  {
    assert regs == regs[..i] + [regs[i]] + regs[i + 1..j] + [regs[j]] + regs[j + 1..];
  }

  lemma TopApartPermutes(regs: seq<Register>, sorted: seq<Register>)
    requires AllAddressable(regs) && AllAddressable(sorted) && multiset(sorted) == multiset(regs)
    ensures TopApart(sorted) <==> TopApart(regs)
  {
    TopApartInAnyOrder(regs);
    TopApartInAnyOrder(sorted);
  }

  lemma OneMore(regs: seq<Register>, k: nat)
    requires 1 <= k <= |regs|
    ensures regs[..k] == regs[..k - 1] + [regs[k - 1]]
  {
  }

  /** The registers that have been placed, in their order. */
  function Placing(m: Merging): seq<Register> {
    Planned(m.plan) + m.current.registers
  }

  lemma PlacedKeepsOrder(m: Merging, reg: Register)
    ensures Placing(Placed(m, reg)) == Placing(m) + [reg]
  {
    PlannedOne(m.plan, m.current);
  }

  lemma {:induction false} MergeKeepsOrder(regs: seq<Register>, k: nat)
    requires 1 <= k <= |regs|
    ensures Placing(MergedUpTo(regs, k)) == regs[..k]
  {
    OneMore(regs, k);
    if k > 1 {
      MergeKeepsOrder(regs, k - 1);
      PlacedKeepsOrder(MergedUpTo(regs, k - 1), regs[k - 1]);
    }
  }

  lemma PlanKeepsOrder(regs: seq<Register>)
    ensures Planned(PlanOf(regs)) == regs
  {
    if regs != [] {
      var m := MergedUpTo(regs, |regs|);
      MergeKeepsOrder(regs, |regs|);
      PlannedOne(m.plan, m.current);
      assert regs[..|regs|] == regs;
    }
  }

  /** Below the top the 16-bit sums are the true ones. */
  lemma PlacedIsNext(m: Merging, reg: Register)
    requires End(m.current) < 0x1_0000 && Addressable(reg) && m.current.start <= reg.address
    requires AtTop(reg) ==> reg.address > End(m.current)
    ensures MergedNext(m, reg, Placed(m, reg))
  {
  }

  predicate NoneAtTop(regs: seq<Register>, k: nat)
    requires k <= |regs|
  {
    forall i :: 0 <= i < k ==> !AtTop(regs[i])
  }

  lemma {:induction false} MergeIsExact(regs: seq<Register>, k: nat)
    requires Sorted(regs) && AllAddressable(regs) && 1 <= k <= |regs| && NoneAtTop(regs, k)
    ensures var m := MergedUpTo(regs, k);
            Merged(m.plan, m.current, regs[..k]) && End(m.current) < 0x1_0000 && m.current.start <= regs[k - 1].address
  {
    if k == 1 {
      Single(regs[0]);
      assert regs[..1] == [regs[0]];
    } else {
      var m := MergedUpTo(regs, k - 1);
      MergeIsExact(regs, k - 1);
      PlacedIsNext(m, regs[k - 1]);
      MergeStep(m, regs[..k - 1], regs[k - 1], MergedUpTo(regs, k));
      OneMore(regs, k);
    }
  }

  lemma BeforeTopInOrder(regs: seq<Register>, i: nat, j: nat)
    requires Sorted(regs) && AllAddressable(regs) && TopApart(regs)
    requires i < |regs| && j < |regs| && i != j
    ensures AtTop(regs[i]) ==> j < i
  {
    assert AtTop(regs[i]) ==> EndsBelow(regs[j], regs[i].address);
    assert i < j ==> regs[i].address <= regs[j].address;
  }

  /** Only the last register can be at the top. */
  lemma TopIsLast(regs: seq<Register>, i: nat)
    requires Sorted(regs) && AllAddressable(regs) && TopApart(regs) && i < |regs|
    ensures AtTop(regs[i]) ==> i == |regs| - 1
  {
    if i < |regs| - 1 {
      BeforeTopInOrder(regs, i, i + 1);
    }
  }

  lemma NoneAtTopBefore(regs: seq<Register>, n: nat)
    requires Sorted(regs) && AllAddressable(regs) && TopApart(regs)
    requires n <= |regs| && (n == |regs| ==> n == 0 || !AtTop(regs[n - 1]))
    ensures NoneAtTop(regs, n)
  {
    forall i | 0 <= i < n ensures !AtTop(regs[i]) {
      TopIsLast(regs, i);
    }
  }

  lemma EndsBefore(regs: seq<Register>, m: Merging, k: nat, a: int)
    requires k <= |regs| && Merged(m.plan, m.current, regs[..k])
    requires forall j :: 0 <= j < k ==> EndsBelow(regs[j], a)
    ensures End(m.current) < a
  {
    var last := End(m.current) - 1;
    assert Reads(m.current, last);
    var i :| 0 <= i < |m.current.registers| && Holds(m.current.registers[i], last);
    var n := |Planned(m.plan)|;
    assert regs[..k][n + i] == m.current.registers[i];
  }

  /** What comes before a register at the top is exact and ends before it. */
  lemma BeforeTop(regs: seq<Register>)
    requires Sorted(regs) && AllAddressable(regs) && TopApart(regs) && |regs| >= 2 && AtTop(regs[|regs| - 1])
    ensures var m, n := MergedUpTo(regs, |regs| - 1), |regs| - 1;
            Merged(m.plan, m.current, regs[..n]) && End(m.current) < regs[n].address
  {
    var n := |regs| - 1;
    NoneAtTopBefore(regs, n);
    MergeIsExact(regs, n);
    EndsBefore(regs, MergedUpTo(regs, n), n, regs[n].address);
  }

  lemma TopStep(m: Merging, placed: seq<Register>, reg: Register)
    requires Merged(m.plan, m.current, placed) && Addressable(reg) && End(m.current) < reg.address
    ensures var n := Placed(m, reg); Merged(n.plan, n.current, placed + [reg])
  {
    PlacedIsNext(m, reg);
    MergeStep(m, placed, reg, Placed(m, reg));
  }

  lemma FinishedExact(regs: seq<Register>, m: Merging, placed: seq<Register>)
    requires regs != [] && m == MergedUpTo(regs, |regs|) && Merged(m.plan, m.current, placed)
    ensures ExactPlan(PlanOf(regs))
  {
    Finish(m.plan, m.current, placed);
  }

  lemma LastRound(regs: seq<Register>, m: Merging, reg: Register)
    requires |regs| >= 2 && m == MergedUpTo(regs, |regs| - 1) && reg == regs[|regs| - 1]
    ensures MergedUpTo(regs, |regs|) == Placed(m, reg)
  {
  }

  lemma LastAtTopExact(regs: seq<Register>, m: Merging, placed: seq<Register>, reg: Register)
    requires |regs| >= 2 && m == MergedUpTo(regs, |regs| - 1) && reg == regs[|regs| - 1]
    requires Merged(m.plan, m.current, placed) && Addressable(reg) && End(m.current) < reg.address
    ensures ExactPlan(PlanOf(regs))
  {
    LastRound(regs, m, reg);
    var after := Placed(m, reg);
    TopStep(m, placed, reg);
    FinishedExact(regs, after, placed + [reg]);
  }

  lemma OnlyOneExact(regs: seq<Register>)
    requires |regs| == 1 && Addressable(regs[0])
    ensures ExactPlan(PlanOf(regs))
  {
    Single(regs[0]);
    FinishedExact(regs, First(regs[0]), [regs[0]]);
  }

  lemma PlanIsExact(regs: seq<Register>)
    requires Sorted(regs) && AllAddressable(regs) && TopApart(regs) && regs != []
    ensures ExactPlan(PlanOf(regs))
  {
    var n := |regs|;
    if n == 1 {
      OnlyOneExact(regs);
    } else if AtTop(regs[n - 1]) {
      BeforeTop(regs);
      LastAtTopExact(regs, MergedUpTo(regs, n - 1), regs[..n - 1], regs[n - 1]);
    } else {
      NoneAtTopBefore(regs, n);
      MergeIsExact(regs, n);
      FinishedExact(regs, MergedUpTo(regs, n), regs[..n]);
    }
  }

  lemma SumsInOneWord(a: Word, b: Word)
    ensures a + b < 0x1_0000 ==> Add16(a, b) == a + b
    ensures a + b == 0x1_0000 ==> Add16(a, b) == 0
    ensures a >= b ==> Sub16(a, b) == a - b
  {
  }

  lemma PlacedBelowTop(m: Merging, reg: Register)
    requires Addressable(reg) && m.current.start <= reg.address && End(m.current) <= 0x1_0000
    ensures var c := Placed(m, reg).current;
            && End(c) <= 0x1_0000 && c.start <= reg.address
            && (End(c) == 0x1_0000 ==> c == Range(reg.address, reg.count, [reg]))
  {
    var currentEnd, regEnd := Add16(m.current.start, m.current.count), Add16(reg.address, reg.count);
    SumsInOneWord(m.current.start, m.current.count);
    SumsInOneWord(reg.address, reg.count);
    SumsInOneWord(regEnd, m.current.start);
    if End(m.current) == 0x1_0000 {
      assert m.current.start >= 1;
    }
  }

  /** A range that reaches the top is one fresh register: a range that has grown ends below it. */
  lemma {:induction false} ReachesTop(regs: seq<Register>, k: nat)
    requires Sorted(regs) && AllAddressable(regs) && 1 <= k <= |regs|
    ensures var c, x := MergedUpTo(regs, k).current, regs[k - 1];
            && End(c) <= 0x1_0000 && c.start <= x.address
            && (End(c) == 0x1_0000 ==> c == Range(x.address, x.count, [x]))
  {
    if k > 1 {
      ReachesTop(regs, k - 1);
      assert regs[k - 2].address <= regs[k - 1].address;
      PlacedBelowTop(MergedUpTo(regs, k - 1), regs[k - 1]);
    }
  }

  lemma InRangeOfPlan(plan: seq<Range>, r: Register) returns (i: nat)
    requires ExactPlan(plan) && r in Planned(plan)
    ensures i < |plan| && r in plan[i].registers && Within(plan[i], r)
  {
    var k;
    i, k := PlannedWhere(plan, r);
    assert Exact(plan[i]);
  }

  lemma ExactMeansTopApart(regs: seq<Register>)
    requires Sorted(regs) && AllAddressable(regs) && regs != [] && ExactPlan(PlanOf(regs))
    ensures TopApart(regs)
  {
    var n := |regs|;
    var m := MergedUpTo(regs, n);
    PlanKeepsOrder(regs);
    PlannedOne(m.plan, m.current);
    ReachesTop(regs, n);
    forall i, j | 0 <= i < n && 0 <= j < n && i != j && AtTop(regs[i]) ensures EndsBelow(regs[j], regs[i].address) {
      assert regs[i] in regs;
      TopInCurrent(m, regs[i]);
      var p := Planned(m.plan);
      assert regs == p + [regs[i]] && |p| == n - 1;
      if i < n - 1 {
        assert p[i] == regs[i];
        BelowCurrent(m, regs[i]);
      }
      if j < n - 1 {
        assert p[j] == regs[j];
        BelowCurrent(m, regs[j]);
      }
    }
  }

  lemma BelowCurrent(m: Merging, r: Register)
    requires ExactPlan(m.plan + [m.current]) && r in Planned(m.plan)
    ensures r.address + r.count < m.current.start
  {
    var plan := m.plan + [m.current];
    var i, k := PlannedWhere(m.plan, r);
    assert plan[i] == m.plan[i] && Exact(plan[i]);
    assert End(plan[i]) < plan[|m.plan|].start;
  }

  lemma TopInCurrent(m: Merging, t: Register)
    requires ExactPlan(m.plan + [m.current]) && AtTop(t) && t in Planned(m.plan + [m.current])
    ensures t in m.current.registers && End(m.current) == 0x1_0000
  {
    var plan := m.plan + [m.current];
    var i := InRangeOfPlan(plan, t);
    assert Exact(plan[i]);
    assert i < |m.plan| ==> End(plan[i]) < plan[|m.plan|].start;
  }

  /** The plan of registers within the address space is exact if and only if none at its top touches another. */
  lemma PlanIsExactIff(regs: seq<Register>)
    requires Sorted(regs) && AllAddressable(regs)
    ensures ExactPlan(PlanOf(regs)) <==> TopApart(regs)
  {
    if regs != [] {
      if TopApart(regs) {
        PlanIsExact(regs);
      }
      if ExactPlan(PlanOf(regs)) {
        ExactMeansTopApart(regs);
      }
    }
  }

  /** Of two registers side by side at the top the second is never read: its end wraps to zero, so its range does not
      grow to take it in. */
  lemma TopNotRead(a: Register, b: Register)
    requires a.address == 0xFFFE && b.address == 0xFFFF && a.count == b.count == 1
    ensures PlanOf([a, b]) == [Range(0xFFFE, 1, [a, b])] && !ReadBySome(PlanOf([a, b]), 0xFFFF)
  {
    var regs := [a, b];
    assert MergedUpTo(regs, 1) == First(a);
    assert MergedUpTo(regs, 2) == Merging([], Range(0xFFFE, 1, [a, b]));
  }

  lemma SameAddressable(regs: seq<Register>, sorted: seq<Register>)
    requires AllAddressable(regs) && multiset(sorted) == multiset(regs)
    ensures AllAddressable(sorted) && |sorted| == |regs|
  {
    assert |multiset(sorted)| == |sorted|;
    forall i | 0 <= i < |sorted| ensures Addressable(sorted[i]) {
      assert sorted[i] in multiset(regs);
    }
  }

  // ----- what a plan reads -----

  lemma {:induction false} PlannedHas(plan: seq<Range>, i: nat, k: nat)
    requires i < |plan| && k < |plan[i].registers|
    ensures plan[i].registers[k] in Planned(plan)
    decreases |plan|
  {
    if i < |plan| - 1 {
      PlannedHas(plan[..|plan| - 1], i, k);
    }
  }

  lemma {:induction false} PlannedWhere(plan: seq<Range>, r: Register) returns (i: nat, k: nat)
    requires r in Planned(plan)
    ensures i < |plan| && k < |plan[i].registers| && plan[i].registers[k] == r
    decreases |plan|
  {
    var last := |plan| - 1;
    if r in Planned(plan[..last]) {
      i, k := PlannedWhere(plan[..last], r);
    } else {
      i := last;
      k :| 0 <= k < |plan[i].registers| && plan[i].registers[k] == r;
    }
  }

  /** A plan reads the words of its registers and nothing else. */
  lemma PlanReadsExactly(plan: seq<Range>, regs: seq<Register>, a: int)
    requires ExactPlan(plan) && multiset(Planned(plan)) == multiset(regs)
    ensures ReadBySome(plan, a) <==> HeldBySome(regs, a)
  {
    if ReadBySome(plan, a) {
      var i :| 0 <= i < |plan| && Reads(plan[i], a);
      var k :| 0 <= k < |plan[i].registers| && Holds(plan[i].registers[k], a);
      PlannedHas(plan, i, k);
      assert plan[i].registers[k] in multiset(regs);
      var n :| 0 <= n < |regs| && regs[n] == plan[i].registers[k];
    }
    if HeldBySome(regs, a) {
      var n :| 0 <= n < |regs| && Holds(regs[n], a);
      assert regs[n] in multiset(Planned(plan));
      var i, k := PlannedWhere(plan, regs[n]);
      assert Within(plan[i], plan[i].registers[k]);
      assert Reads(plan[i], a);
    }
  }

  // ----- no smaller set of ranges reads the same -----

  datatype Interval = Interval(from: int, to: int)

  predicate Covers(c: Interval, a: int) {
    c.from <= a < c.to
  }

  ghost predicate CoveredBySome(cover: set<Interval>, a: int) {
    exists c :: c in cover && Covers(c, a)
  }

  ghost predicate SameAddresses(plan: seq<Range>, cover: set<Interval>) {
    forall a :: ReadBySome(plan, a) <==> CoveredBySome(cover, a)
  }

  /** Nothing reads the address right behind a range that another one follows. */
  lemma GapUnread(plan: seq<Range>, i: nat, j: nat)
    requires ExactPlan(plan) && i < j < |plan|
    ensures !ReadBySome(plan, End(plan[i])) && plan[i].start < End(plan[i]) < plan[j].start
  {
    assert Exact(plan[i]);
    forall k | 0 <= k < |plan| ensures !Reads(plan[k], End(plan[i])) {
      assert Exact(plan[k]);
    }
  }

  /** An interval that covers the starts of two ranges covers the gap between them, which nothing reads. */
  lemma OneStartEach(plan: seq<Range>, cover: set<Interval>, c: Interval, i: nat, j: nat)
    requires ExactPlan(plan) && SameAddresses(plan, cover) && c in cover
    requires i < j < |plan| && Covers(c, plan[i].start)
    ensures !Covers(c, plan[j].start)
  {
    var gap := End(plan[i]);
    assert Covers(c, gap) ==> CoveredBySome(cover, gap);
    GapUnread(plan, i, j);
  }

  lemma {:induction false} Pigeonhole(points: seq<int>, cover: set<Interval>)
    requires forall i :: 0 <= i < |points| ==> CoveredBySome(cover, points[i])
    requires forall c, i, j :: c in cover && 0 <= i < j < |points| && Covers(c, points[i]) ==> !Covers(c, points[j])
    ensures |points| <= |cover|
    decreases |points|
  {
    if points != [] {
      var n := |points| - 1;
      assert CoveredBySome(cover, points[n]);
      var c :| c in cover && Covers(c, points[n]);
      var rest := cover - {c};
      forall i | 0 <= i < n ensures CoveredBySome(rest, points[i]) {
        assert CoveredBySome(cover, points[i]);
        var d :| d in cover && Covers(d, points[i]);
        assert d in rest && Covers(d, points[i]);
      }
      Pigeonhole(points[..n], rest);
      assert |cover| == |rest| + 1;
    }
  }

  /** However the same addresses are cut into intervals, there are at least as many of them as the plan has ranges. */
  lemma PlanIsMinimal(plan: seq<Range>, cover: set<Interval>)
    requires ExactPlan(plan) && SameAddresses(plan, cover)
    ensures |plan| <= |cover|
  {
    var starts := seq(|plan|, i requires 0 <= i < |plan| => plan[i].start as int);
    forall i | 0 <= i < |starts| ensures CoveredBySome(cover, starts[i]) {
      assert Exact(plan[i]) && Reads(plan[i], starts[i]);
      assert ReadBySome(plan, starts[i]);
    }
    forall c, i, j | c in cover && 0 <= i < j < |starts| && Covers(c, starts[i]) ensures !Covers(c, starts[j]) {
      OneStartEach(plan, cover, c, i, j);
    }
    Pigeonhole(starts, cover);
  }

  // ----- payloads -----

  /** A byte of a Modbus payload. */
  type Octet = n: int | 0 <= n < 0x100

  /** Words in the order and with the byte order in which the protocol sends them, the high byte first. */
  function Bytes(words: seq<Word>): (data: seq<Octet>)
    ensures |data| == 2 * |words|
  {
    seq(2 * |words|, i requires 0 <= i < 2 * |words| =>
      if i % 2 == 0 then words[i / 2] / 0x100 else words[i / 2] % 0x100)
  }

  function WordAt(high: int, low: int): int {
    high * 0x100 + low
  }

  /** The words that pairs of bytes make; a last byte without a partner is left out. */
  function Words(data: seq<Octet>): (words: seq<Word>)
    ensures |words| == |data| / 2
  {
    seq(|data| / 2, i requires 0 <= i < |data| / 2 => WordAt(data[2 * i], data[2 * i + 1]))
  }

  method WordsFromBytes(data: seq<Octet>, expectedWords: Word) returns (r: Result<seq<Word>>)
    ensures r.Ok? <==> |data| % 2 == 0 && |data| >= 2 * expectedWords
    ensures r.Ok? ==> r.value == Words(data)
    ensures r.Ok? ==> 2 * |r.value| == |data|
    ensures r.Ok? ==> forall i :: 0 <= i < |r.value| ==> r.value[i] == (data[2 * i] as int) * 256 + data[2 * i + 1]
  {
    if |data| % 2 != 0 {
      return Err;
    }
    var words := new Word[|data| / 2];
    for i := 0 to words.Length
      invariant forall k :: 0 <= k < i ==> words[k] == WordAt(data[2 * k], data[2 * k + 1])
    {
      words[i] := WordAt(data[2 * i], data[2 * i + 1]);
    }
    if words.Length < expectedWords {
      return Err;
    }
    return Ok(words[..]);
  }

  lemma Halves(i: nat)
    ensures 2 * i % 2 == 0 && 2 * i / 2 == i && (2 * i + 1) % 2 == 1 && (2 * i + 1) / 2 == i
  {
  }

  lemma WordOfParts(w: Word)
    ensures WordAt(w / 0x100, w % 0x100) == w
  {
  }

  /** Words survive the way into bytes and back. */
  lemma WordsOfBytes(words: seq<Word>)
    ensures Words(Bytes(words)) == words
  {
    var data := Bytes(words);
    forall i | 0 <= i < |words| ensures Words(data)[i] == words[i] {
      Halves(i);
      WordOfParts(words[i]);
      assert data[2 * i] == words[i] / 0x100 && data[2 * i + 1] == words[i] % 0x100;
    }
  }

  /** An even number of bytes survives the way into words and back. */
  lemma BytesOfWords(data: seq<Octet>)
    requires |data| % 2 == 0
    ensures Bytes(Words(data)) == data
  {
    var words := Words(data);
    forall i | 0 <= i < |data| ensures Bytes(words)[i] == data[i] {
      var k := i / 2;
      assert words[k] == WordAt(data[2 * k], data[2 * k + 1]);
      assert i == 2 * k || i == 2 * k + 1;
    }
  }

  // ----- the device -----

  /** The holding registers of the device at one moment. */
  type Memory = Word -> Word

  function ReadWords(memory: Memory, start: Word, count: Word): (words: seq<Word>)
    requires start + count <= 0x1_0000
    ensures |words| == count
  {
    seq(count, i requires 0 <= i < count => memory(start + i))
  }
}
