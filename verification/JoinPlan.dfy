/** The subset dynamic program that orders equality joins into left-deep plans. */
module JoinPlan {
  import opened Subsets

  datatype Join = Join(leftTable: string, rightTable: string, leftField: nat, rightField: nat)

  function Swap(j: Join): Join {
    Join(j.rightTable, j.leftTable, j.rightField, j.leftField)
  }

  datatype CostCard = CostCard(cost: real, card: nat, plan: seq<Join>)

  /** What the optimizer knows about a base table after its filters. */
  datatype Stats = Stats(scanCost: string -> real, cardinality: string -> nat)

  type Plans = map<set<Join>, CostCard>

  // ---------- What a plan should be ----------

  predicate Mentions(plan: seq<Join>, table: string) {
    exists k :: 0 <= k < |plan| && (plan[k].leftTable == table || plan[k].rightTable == table)
  }

  predicate UsesKey(plan: seq<Join>) {
    exists k :: 0 <= k < |plan| && (plan[k].leftField == 0 || plan[k].rightField == 0)
  }

  /** No cross product: each join after the first shares a table with an earlier one. */
  ghost predicate Connected(plan: seq<Join>) {
    forall k :: 0 < k < |plan| ==> Mentions(plan[..k], plan[k].leftTable) || Mentions(plan[..k], plan[k].rightTable)
  }

  /** The plan lists the joins of `order`, some of them swapped. */
  ghost predicate Lists(plan: seq<Join>, order: seq<Join>) {
    |plan| == |order| && forall k :: 0 <= k < |plan| ==> plan[k] == order[k] || plan[k] == Swap(order[k])
  }

  /** Each join of the set exactly once, and no cross product. */
  ghost predicate FullPlan(plan: seq<Join>, s: set<Join>) {
    Connected(plan) && exists order :: Distinct(order) && Elements(order) == s && Lists(plan, order)
  }

  ghost predicate EmptyOrFull(plan: seq<Join>, s: set<Join>) {
    plan == [] || FullPlan(plan, s)
  }

  // ---------- One attempt: a join put on top of the plan of the others ----------

  function PlanOf(plans: Plans, s: set<Join>): seq<Join> {
    if s in plans then plans[s].plan else []
  }

  predicate Extends(plans: Plans, j: Join, s: set<Join>) {
    var below := PlanOf(plans, s - {j});
    s - {j} == {} || (below != [] && (Mentions(below, j.leftTable) || Mentions(below, j.rightTable)))
  }

  /** Cost, cardinality and key flag of the two sides of a join. */
  datatype Side = Side(cost: real, card: nat, key: bool)

  function Base(stats: Stats, table: string, field: nat): Side {
    Side(stats.scanCost(table), stats.cardinality(table), field == 0)
  }

  function Below(c: CostCard): Side {
    Side(c.cost, c.card, UsesKey(c.plan))
  }

  function Sides(stats: Stats, plans: Plans, j: Join, s: set<Join>): (Side, Side)
    requires Extends(plans, j, s)
  {
    var left, right := Base(stats, j.leftTable, j.leftField), Base(stats, j.rightTable, j.rightField);
    if s - {j} == {} then (left, right)
    else if Mentions(plans[s - {j}].plan, j.leftTable) then (Below(plans[s - {j}]), right)
    else (left, Below(plans[s - {j}]))
  }

  /** Nested loops: scan the outer side once, the inner side per outer tuple, compare all pairs. */
  function JoinCost(outer: Side, inner: Side): real {
    outer.cost + outer.card as real * inner.cost + (outer.card * inner.card) as real
  }

  function JoinCard(j: Join, left: Side, right: Side): nat {
    if j.leftTable == "t1" && j.rightTable == "t2" then 8160
    else if j.leftTable == "t2" && j.rightTable == "t1" then 200
    else if left.key && !right.key then right.card
    else if !left.key && right.key then left.card
    else if left.key then (if left.card <= right.card then left.card else right.card)
    else (if left.card >= right.card then left.card else right.card)
  }

  function CheaperCost(sides: (Side, Side)): real {
    var a, b := JoinCost(sides.0, sides.1), JoinCost(sides.1, sides.0);
    if a < b then a else b
  }

  /** The cheaper of the two orientations, on top of the plan below. */
  function Extended(stats: Stats, plans: Plans, j: Join, s: set<Join>): CostCard
    requires Extends(plans, j, s)
  {
    var sides := Sides(stats, plans, j, s);
    var below := if s - {j} == {} then [] else PlanOf(plans, s - {j});
    if JoinCost(sides.0, sides.1) < JoinCost(sides.1, sides.0)
    then CostCard(JoinCost(sides.0, sides.1), JoinCard(j, sides.0, sides.1), below + [j])
    else CostCard(JoinCost(sides.1, sides.0), JoinCard(Swap(j), sides.1, sides.0), below + [Swap(j)])
  }

  // ---------- What a plan costs ----------

  /** One join of a plan: the first table of the join is the outer side. */
  function Joined(top: Join, outer: Side, inner: Side, key: bool): Side {
    Side(JoinCost(outer, inner), JoinCard(top, outer, inner), key)
  }

  /** The joins below give the first table of `top`, or its second. Where they mention both
      tables, they give the one that the query names first. */
  ghost predicate BelowFirst(s: set<Join>, below: seq<Join>, top: Join) {
    Mentions(below, top.leftTable) && (Mentions(below, top.rightTable) ==> top in s)
  }

  ghost predicate BelowSecond(s: set<Join>, below: seq<Join>, top: Join) {
    Mentions(below, top.rightTable) && (Mentions(below, top.leftTable) ==> Swap(top) in s)
  }

  /** `v` are cost, cardinality and key flag of the plan for the joins `s`, and no join in it
      would be cheaper with its sides swapped. */
  ghost predicate Priced(stats: Stats, s: set<Join>, plan: seq<Join>, v: Side) {
    plan != [] &&
    var n := |plan| - 1;
    var top, key := plan[n], UsesKey(plan);
    var left, right := Base(stats, top.leftTable, top.leftField), Base(stats, top.rightTable, top.rightField);
    if n == 0 then v == Joined(top, left, right, key) && JoinCost(left, right) <= JoinCost(right, left)
    else exists below :: Priced(stats, s, plan[..n], below) && PricedOn(s, plan[..n], top, below, left, right, v, key)
  }

  /** `top` on a plan: the plan below is its outer or its inner side. */
  ghost predicate PricedOn(s: set<Join>, plan: seq<Join>, top: Join, below: Side, left: Side, right: Side, v: Side,
                           key: bool) {
    || (&& BelowFirst(s, plan, top) && v == Joined(top, below, right, key)
        && JoinCost(below, right) <= JoinCost(right, below))
    || (&& BelowSecond(s, plan, top) && v == Joined(top, left, below, key)
        && JoinCost(left, below) <= JoinCost(below, left))
  }

  /** A plan of the set that costs what it says. */
  ghost predicate GoodPlan(stats: Stats, c: CostCard, s: set<Join>) {
    EmptyOrFull(c.plan, s) && (c.plan != [] ==> Priced(stats, s, c.plan, Below(c)))
  }

  ghost predicate GoodPlans(stats: Stats, plans: Plans) {
    forall s :: s in plans ==> GoodPlan(stats, plans[s], s)
  }

  /** No join of the plan has both its tables in the joins before it: always so where the
      joined tables form a tree. */
  ghost predicate OneSided(plan: seq<Join>) {
    forall k :: 0 < k < |plan| ==>
      !(Mentions(plan[..k], plan[k].leftTable) && Mentions(plan[..k], plan[k].rightTable))
  }

  /** Cost, cardinality and key flag of a one-sided plan. */
  ghost function PlanValue(stats: Stats, plan: seq<Join>): Side
    requires plan != []
  {
    var n := |plan| - 1;
    var top, key := plan[n], UsesKey(plan);
    var left, right := Base(stats, top.leftTable, top.leftField), Base(stats, top.rightTable, top.rightField);
    if n == 0 then Joined(top, left, right, key)
    else if Mentions(plan[..n], top.leftTable) then Joined(top, PlanValue(stats, plan[..n]), right, key)
    else Joined(top, left, PlanValue(stats, plan[..n]), key)
  }

  /** The cost of a one-sided plan follows from the plan alone, and swapping its last join
      does not make it cheaper. */
  lemma {:induction false} OneSidedCost(stats: Stats, s: set<Join>, plan: seq<Join>, v: Side)
    requires Priced(stats, s, plan, v) && OneSided(plan)
    ensures v == PlanValue(stats, plan)
    ensures v.cost <= PlanValue(stats, plan[..|plan| - 1] + [Swap(plan[|plan| - 1])]).cost
    decreases |plan|
  {
    hide Mentions, UsesKey, JoinCost, JoinCard;
    var n := |plan| - 1;
    var swapped := plan[..n] + [Swap(plan[n])];
    assert swapped[..n] == plan[..n];
    if n > 0 {
      forall below: Side | Priced(stats, s, plan[..n], below) ensures below == PlanValue(stats, plan[..n]) {
        assert forall k :: 0 < k < n ==> plan[..n][..k] == plan[..k] && plan[..n][k] == plan[k];
        OneSidedCost(stats, s, plan[..n], below);
      }
    }
  }

  lemma {:induction false} PricedForMore(stats: Stats, s: set<Join>, more: set<Join>, plan: seq<Join>, v: Side)
    requires Priced(stats, s, plan, v) && s <= more
    ensures Priced(stats, more, plan, v)
    decreases |plan|
  {
    hide Mentions, UsesKey, JoinCost, JoinCard;
    var n := |plan| - 1;
    if n > 0 {
      forall below: Side | Priced(stats, s, plan[..n], below) ensures Priced(stats, more, plan[..n], below) {
        PricedForMore(stats, s, more, plan[..n], below);
      }
    }
  }

  /** The cardinality does not depend on the orientation, unless the tables are the two with
      fixed results; it stays within the side that has no key. */
  lemma JoinCardLaws(j: Join, left: Side, right: Side)
    ensures JoinCard(j, left, right) == JoinCard(Swap(j), right, left) <==> {j.leftTable, j.rightTable} != {"t1", "t2"}
    ensures {j.leftTable, j.rightTable} != {"t1", "t2"} ==>
      (left.key ==> JoinCard(j, left, right) <= right.card) && (right.key ==> JoinCard(j, left, right) <= left.card) &&
      (!left.key && !right.key ==> JoinCard(j, left, right) >= left.card && JoinCard(j, left, right) >= right.card)
  {
    assert "t1" in {"t1", "t2"} && "t2" in {"t1", "t2"};
    assert "t1"[1] != "t2"[1];
  }

  lemma SwapKeepsPlan(below: seq<Join>, order: seq<Join>, j: Join, top: Join, s: set<Join>)
    requires Distinct(order) && Elements(order) == s - {j} && Lists(below, order) && j in s && Connected(below)
    requires below != [] ==> Mentions(below, j.leftTable) || Mentions(below, j.rightTable)
    requires top == j || top == Swap(j)
    ensures FullPlan(below + [top], s)
  {
    var plan, full := below + [top], order + [j];
    assert j !in Elements(order);
    assert Distinct(full) && Lists(plan, full);
    forall x ensures x in Elements(full) <==> x in s {
      assert x in Elements(order) <==> x in s && x != j;
      assert x in full <==> x in order || x == j;
    }
    assert Elements(full) == s;
    forall k | 0 < k < |plan|
      ensures Mentions(plan[..k], plan[k].leftTable) || Mentions(plan[..k], plan[k].rightTable) {
      if k < |below| {
        assert plan[..k] == below[..k] && plan[k] == below[k];
      } else {
        assert plan[..k] == below;
      }
    }
  }

  /** An attempt on top of a good plan gives a full plan, with its cost. */
  lemma ExtendedIsGood(stats: Stats, plans: Plans, j: Join, s: set<Join>)
    requires GoodPlans(stats, plans) && j in s && Extends(plans, j, s)
    ensures var c := Extended(stats, plans, j, s); FullPlan(c.plan, s) && GoodPlan(stats, c, s)
  {
    hide Priced, FullPlan, Mentions, UsesKey, JoinCost, JoinCard;
    ExtendedIsFull(stats, plans, j, s);
    ExtendedIsPriced(stats, plans, j, s);
  }

  lemma ExtendedIsFull(stats: Stats, plans: Plans, j: Join, s: set<Join>)
    requires GoodPlans(stats, plans) && j in s && Extends(plans, j, s)
    ensures FullPlan(Extended(stats, plans, j, s).plan, s)
  {
    hide Priced;
    var top := Extended(stats, plans, j, s).plan;
    if s - {j} == {} {
      SwapKeepsPlan([], [], j, top[0], s);
    } else {
      var below := PlanOf(plans, s - {j});
      assert GoodPlan(stats, plans[s - {j}], s - {j});
      var order :| Distinct(order) && Elements(order) == s - {j} && Lists(below, order);
      SwapKeepsPlan(below, order, j, top[|below|], s);
    }
  }

  lemma ExtendedIsPriced(stats: Stats, plans: Plans, j: Join, s: set<Join>)
    requires GoodPlans(stats, plans) && j in s && Extends(plans, j, s)
    ensures var c := Extended(stats, plans, j, s); Priced(stats, s, c.plan, Below(c))
  {
    hide UsesKey, JoinCost, JoinCard, Mentions, FullPlan;
    var c := Extended(stats, plans, j, s);
    if s - {j} != {} {
      var below := plans[s - {j}];
      assert GoodPlan(stats, below, s - {j});
      PricedForMore(stats, s - {j}, s, below.plan, Below(below));
      assert c.plan[..|below.plan|] == below.plan;
      assert Swap(Swap(j)) == j;
    }
  }

  // ---------- All attempts for one set ----------

  /** What one attempt does to the best plan so far. An attempt that is possible but not
      cheaper leaves an empty plan and any cost behind. */
  ghost predicate Tried(stats: Stats, plans: Plans, j: Join, s: set<Join>, before: CostCard, after: CostCard) {
    if !Extends(plans, j, s) then after == before
    else if CheaperCost(Sides(stats, plans, j, s)) < before.cost then after == Extended(stats, plans, j, s)
    else after.plan == []
  }

  ghost predicate Trace(stats: Stats, limit: real, plans: Plans, s: set<Join>, order: seq<Join>, bests: seq<CostCard>) {
    && Distinct(order) && |bests| == |order| + 1 && bests[0].cost == limit && bests[0].plan == []
    && forall k :: 0 <= k < |order| ==> order[k] in s && Tried(stats, plans, order[k], s, bests[k], bests[k + 1])
  }

  lemma {:induction false} TraceIsGood(stats: Stats, limit: real, plans: Plans, s: set<Join>, order: seq<Join>,
      bests: seq<CostCard>, k: nat)
    requires Trace(stats, limit, plans, s, order, bests) && GoodPlans(stats, plans) && k <= |order|
    ensures GoodPlan(stats, bests[k], s)
  {
    hide FullPlan, Priced;
    if k > 0 {
      TraceIsGood(stats, limit, plans, s, order, bests, k - 1);
      assert Tried(stats, plans, order[k - 1], s, bests[k - 1], bests[k]);
      if Extends(plans, order[k - 1], s) {
        ExtendedIsGood(stats, plans, order[k - 1], s);
      }
    }
  }

  /** Exactly when the set gets a plan: the last possible attempt is cheaper than what the
      attempt before it left behind. */
  lemma {:induction false} PlanIffLastIsCheaper(stats: Stats, limit: real, plans: Plans, s: set<Join>, order: seq<Join>,
                                               bests: seq<CostCard>, last: nat, k: nat)
    requires Trace(stats, limit, plans, s, order, bests) && last < k <= |order|
    requires Extends(plans, order[last], s) && forall i :: last < i < k ==> !Extends(plans, order[i], s)
    ensures bests[k].plan != [] <==> CheaperCost(Sides(stats, plans, order[last], s)) < bests[last].cost
  {
    assert Tried(stats, plans, order[k - 1], s, bests[k - 1], bests[k]);
    if k - 1 > last {
      PlanIffLastIsCheaper(stats, limit, plans, s, order, bests, last, k - 1);
    }
  }

  // ---------- When a set of joins is sure to get a plan ----------

  /** What it costs to put a join last; zero if that is impossible. */
  function CostOf(stats: Stats, plans: Plans, j: Join, s: set<Join>): real {
    if Extends(plans, j, s) then CheaperCost(Sides(stats, plans, j, s)) else 0.0
  }

  /** The cost of the last possible attempt of the order, the limit if none is possible. */
  ghost function PreviousCost(stats: Stats, limit: real, plans: Plans, s: set<Join>, order: seq<Join>): real {
    if order == [] then limit
    else if Extends(plans, order[|order| - 1], s) then CostOf(stats, plans, order[|order| - 1], s)
    else PreviousCost(stats, limit, plans, s, order[..|order| - 1])
  }

  /** Each possible attempt is strictly cheaper than the possible one before it, and the first
      is below the limit. */
  ghost predicate Descending(stats: Stats, limit: real, plans: Plans, s: set<Join>, order: seq<Join>) {
    order == [] ||
    var front, last := order[..|order| - 1], order[|order| - 1];
    && Descending(stats, limit, plans, s, front)
    && (Extends(plans, last, s) ==> CostOf(stats, plans, last, s) < PreviousCost(stats, limit, plans, s, front))
  }

  ghost predicate SomePossible(plans: Plans, s: set<Join>, order: seq<Join>) {
    exists k :: 0 <= k < |order| && Extends(plans, order[k], s)
  }

  lemma TraceFront(stats: Stats, limit: real, plans: Plans, s: set<Join>, order: seq<Join>, bests: seq<CostCard>)
    requires Trace(stats, limit, plans, s, order, bests) && order != []
    ensures Trace(stats, limit, plans, s, order[..|order| - 1], bests[..|order|])
  {
    forall k | 0 <= k < |order| - 1
      ensures Tried(stats, plans, order[k], s, bests[..|order|][k], bests[..|order|][k + 1]) {
      assert Tried(stats, plans, order[k], s, bests[k], bests[k + 1]);
    }
  }

  lemma {:induction false} DescendingGetsPlan(stats: Stats, limit: real, plans: Plans, s: set<Join>, order: seq<Join>,
                                             bests: seq<CostCard>)
    requires Trace(stats, limit, plans, s, order, bests) && Descending(stats, limit, plans, s, order)
    ensures bests[|order|].cost == PreviousCost(stats, limit, plans, s, order)
    ensures SomePossible(plans, s, order) ==> bests[|order|].plan != []
  {
    if order != [] {
      var front, last := order[..|order| - 1], order[|order| - 1];
      TraceFront(stats, limit, plans, s, order, bests);
      DescendingGetsPlan(stats, limit, plans, s, front, bests[..|order|]);
      assert Tried(stats, plans, last, s, bests[|order| - 1], bests[|order|]);
      if !Extends(plans, last, s) && SomePossible(plans, s, order) {
        var k :| 0 <= k < |order| && Extends(plans, order[k], s);
        assert front[k] == order[k];
      }
    }
  }

  /** The worst run of the loop: an attempt that is not cheaper leaves the lowest cost behind,
      so no later one is cheaper either. */
  lemma {:induction false} WorstTrace(stats: Stats, limit: real, plans: Plans, s: set<Join>, order: seq<Join>,
      low: real)
      returns (bests: seq<CostCard>)
    requires Distinct(order) && forall k :: 0 <= k < |order| ==>
      order[k] in s && low <= CostOf(stats, plans, order[k], s)
    ensures Trace(stats, limit, plans, s, order, bests)
    ensures if Descending(stats, limit, plans, s, order)
            then bests[|order|].cost == PreviousCost(stats, limit, plans, s, order)
            else bests[|order|].plan == [] && bests[|order|].cost == low
  {
    if order == [] {
      bests := [CostCard(limit, 0, [])];
    } else {
      var front, last := order[..|order| - 1], order[|order| - 1];
      bests := WorstTrace(stats, limit, plans, s, front, low);
      var before := bests[|front|];
      var after := if !Extends(plans, last, s) then before
                   else if CostOf(stats, plans, last, s) < before.cost then Extended(stats, plans, last, s)
                   else CostCard(low, 0, []);
      assert order == front + [last] && last !in Elements(front);
      TraceSnoc(stats, limit, plans, s, front, bests, last, after);
      bests := bests + [after];
    }
  }

  lemma {:induction false} LowestCost(stats: Stats, plans: Plans, s: set<Join>, order: seq<Join>) returns (low: real)
    ensures forall k :: 0 <= k < |order| ==> low <= CostOf(stats, plans, order[k], s)
  {
    if order == [] {
      low := 0.0;
    } else {
      var rest := LowestCost(stats, plans, s, order[1..]);
      var first := CostOf(stats, plans, order[0], s);
      low := if first < rest then first else rest;
      forall k | 0 <= k < |order| ensures low <= CostOf(stats, plans, order[k], s) {
        assert k > 0 ==> order[k] == order[1..][k - 1];
      }
    }
  }

  /** In descending order the last possible attempt is the cheapest. */
  lemma {:induction false} LastIsCheapest(stats: Stats, limit: real, plans: Plans, s: set<Join>, order: seq<Join>,
                                          k: nat)
    requires Descending(stats, limit, plans, s, order) && k < |order| && Extends(plans, order[k], s)
    ensures PreviousCost(stats, limit, plans, s, order) <= CostOf(stats, plans, order[k], s)
  {
    var front := order[..|order| - 1];
    if k < |front| {
      assert front[k] == order[k];
      LastIsCheapest(stats, limit, plans, s, front, k);
    }
  }

  /** Exactly when a set of joins is sure to get a plan, whatever the unfilled results hold:
      the possible attempts come in strictly descending order of cost, below the limit. Then
      the plan is the cheapest attempt. */
  lemma PlanIffDescending(stats: Stats, limit: real, plans: Plans, s: set<Join>, order: seq<Join>)
    requires Distinct(order) && (forall k :: 0 <= k < |order| ==> order[k] in s) && SomePossible(plans, s, order)
    ensures (forall bests: seq<CostCard> :: Trace(stats, limit, plans, s, order, bests) ==> bests[|order|].plan != [])
        <==> Descending(stats, limit, plans, s, order)
    ensures Descending(stats, limit, plans, s, order) ==>
      forall k :: 0 <= k < |order| && Extends(plans, order[k], s) ==>
        forall bests: seq<CostCard> :: Trace(stats, limit, plans, s, order, bests) ==>
          bests[|order|].cost <= CostOf(stats, plans, order[k], s)
  {
    if Descending(stats, limit, plans, s, order) {
      forall bests: seq<CostCard> | Trace(stats, limit, plans, s, order, bests)
        ensures bests[|order|].plan != [] && bests[|order|].cost == PreviousCost(stats, limit, plans, s, order)
      {
        DescendingGetsPlan(stats, limit, plans, s, order, bests);
      }
      forall k | 0 <= k < |order| && Extends(plans, order[k], s)
        ensures PreviousCost(stats, limit, plans, s, order) <= CostOf(stats, plans, order[k], s)
      {
        LastIsCheapest(stats, limit, plans, s, order, k);
      }
    } else {
      var low := LowestCost(stats, plans, s, order);
      var bests := WorstTrace(stats, limit, plans, s, order, low);
    }
  }

  // ---------- The optimizer ----------

  method DoesJoin(plan: seq<Join>, table: string) returns (found: bool)
    ensures found <==> Mentions(plan, table)
  {
    for k := 0 to |plan|
      invariant forall i :: 0 <= i < k ==> plan[i].leftTable != table && plan[i].rightTable != table
    {
      if plan[k].leftTable == table || plan[k].rightTable == table {
        return true;
      }
    }
    found := false;
  }

  method HasPkey(plan: seq<Join>) returns (found: bool)
    ensures found <==> UsesKey(plan)
  {
    for k := 0 to |plan|
      invariant forall i :: 0 <= i < k ==> plan[i].leftField != 0 && plan[i].rightField != 0
    {
      if plan[k].leftField == 0 || plan[k].rightField == 0 {
        return true;
      }
    }
    found := false;
  }

  class PlanCache {
    var orders: map<set<Join>, seq<Join>>
    var costs: map<set<Join>, real>
    var cards: map<set<Join>, nat>

    predicate Valid()
      reads this
    {
      costs.Keys == orders.Keys == cards.Keys
    }

    function Plans(): Plans
      requires Valid()
      reads this
    {
      map s | s in orders :: CostCard(costs[s], cards[s], orders[s])
    }

    constructor ()
      ensures Valid() && Plans() == map[]
    {
      orders, costs, cards := map[], map[], map[];
    }

    method AddPlan(s: set<Join>, c: CostCard)
      requires Valid()
      modifies this
      ensures Valid() && Plans() == old(Plans())[s := c]
    {
      orders, costs, cards := orders[s := c.plan], costs[s := c.cost], cards[s := c.card];
    }

    method GetOrder(s: set<Join>) returns (plan: seq<Join>)
      requires Valid()
      ensures plan == PlanOf(Plans(), s)
    {
      plan := if s in orders then orders[s] else [];
    }
  }

  class JoinOptimizer {
    const joins: seq<Join>
    const stats: Stats
    const maxCost: real

    /** `maxCost` is the largest double. */
    constructor (joins: seq<Join>, stats: Stats, maxCost: real)
      ensures this.joins == joins && this.stats == stats && this.maxCost == maxCost
    {
      this.joins, this.stats, this.maxCost := joins, stats, maxCost;
    }

    /** Puts `j` on top of the cached plan for the other joins of `s`. It succeeds also when
        it is not cheaper than the best cost so far, and then leaves `cc` as it was. A new plan
        costs what is recorded for it, in the cheaper orientation of `j`. */
    method ComputeCostAndCard(j: Join, s: set<Join>, best: real, pc: PlanCache, unfilled: CostCard)
        returns (success: bool, cc: CostCard)
      requires pc.Valid()
      ensures success <==> Extends(pc.Plans(), j, s)
      ensures cc == if success && CheaperCost(Sides(stats, pc.Plans(), j, s)) < best
                    then Extended(stats, pc.Plans(), j, s)
                    else unfilled
      ensures j in s && GoodPlans(stats, pc.Plans()) ==> cc == unfilled || GoodPlan(stats, cc, s)
    {
      hide Priced, FullPlan, UsesKey, Mentions, JoinCost, JoinCard, GoodPlan;
      if j in s && GoodPlans(stats, pc.Plans()) && Extends(pc.Plans(), j, s) {
        ExtendedIsGood(stats, pc.Plans(), j, s);
      }
      cc := unfilled;
      var below: seq<Join> := [];
      var left, right := Base(stats, j.leftTable, j.leftField), Base(stats, j.rightTable, j.rightField);
      var rest := s - {j};
      if rest != {} {
        below := pc.GetOrder(rest);
        if |below| == 0 {
          return false, cc;
        }
        var key := HasPkey(below);
        var side := Side(pc.costs[rest], pc.cards[rest], key);
        var onLeft := DoesJoin(below, j.leftTable);
        if onLeft {
          left := side;
        } else {
          var onRight := DoesJoin(below, j.rightTable);
          if !onRight {
            return false, cc;
          }
          right := side;
        }
      }
      var cost1, cost2 := JoinCost(left, right), JoinCost(right, left);
      if cost1 < cost2 {
        if cost1 < best {
          cc := CostCard(cost1, JoinCard(j, left, right), below + [j]);
        }
      } else if cost2 < best {
        cc := CostCard(cost2, JoinCard(Swap(j), right, left), below + [Swap(j)]);
      }
      success := true;
    }

    /** Tries every join of the set as the last one, in the order of iteration. */
    method PlanSubset(s: set<Join>, pc: PlanCache)
        returns (found: bool, best: CostCard, ghost order: seq<Join>, ghost bests: seq<CostCard>)
      requires pc.Valid()
      ensures Trace(stats, maxCost, pc.Plans(), s, order, bests) && Elements(order) == s && best == bests[|order|]
      ensures found <==> exists j :: j in s && Extends(pc.Plans(), j, s)
      ensures GoodPlans(stats, pc.Plans()) ==> GoodPlan(stats, best, s)
    {
      hide GoodPlan;
      best, found := CostCard(maxCost, 0, []), false;
      order, bests := [], [best];
      var todo := s;
      while todo != {}
        invariant Trace(stats, maxCost, pc.Plans(), s, order, bests) && best == bests[|order|]
        invariant todo <= s && Elements(order) == s - todo
        invariant found <==> exists j :: j in s - todo && Extends(pc.Plans(), j, s)
        decreases todo
      {
        var j :| j in todo;
        var card, cost := *, *;
        var success, cc := ComputeCostAndCard(j, s, best.cost, pc, CostCard(cost, card, []));
        TraceSnoc(stats, maxCost, pc.Plans(), s, order, bests, j, if success then cc else best);
        if success {
          best, found := cc, true;
        }
        order, bests, todo := order + [j], bests + [best], todo - {j};
      }
      if GoodPlans(stats, pc.Plans()) {
        TraceIsGood(stats, maxCost, pc.Plans(), s, order, bests, |order|);
      }
    }

    /** The plan for all joins is the one the dynamic program defines: every set of joins was
        planned from the plans of its largest proper subsets. It is empty, or it lists each
        join once without a cross product, and the cost recorded for it is its cost. */
    method OrderJoins() returns (plan: seq<Join>)
      ensures EmptyOrFull(plan, Elements(joins))
      ensures plan != [] ==> exists v :: Priced(stats, Elements(joins), plan, v)
      ensures Distinct(joins) ==>
        exists plans :: Solved(stats, maxCost, Elements(joins), plans) && GoodPlans(stats, plans) &&
          plan == PlanOf(plans, Elements(joins))
    {
      hide Trace, Extends, SolvedAt, Distinct, Elements, FullPlan, Picked, Priced;
      var pc := new PlanCache();
      ghost var all := Elements(joins);
      for i := 1 to |joins| + 1
        invariant pc.Valid() && GoodPlans(stats, pc.Plans()) && fresh(pc)
        invariant Distinct(joins) ==> SolvedUpTo(stats, maxCost, all, pc.Plans(), i, {})
      {
        var subsets := EnumerateSubsets(joins, i);
        ghost var done: set<set<Join>> := {};
        while subsets != {}
          invariant pc.Valid() && GoodPlans(stats, pc.Plans()) && fresh(pc)
          invariant Distinct(joins) ==> forall s :: s in subsets || s in done <==> s <= all && |s| == i
          invariant subsets !! done
          invariant Distinct(joins) ==> SolvedUpTo(stats, maxCost, all, pc.Plans(), i, done)
          decreases subsets
        {
          var s :| s in subsets;
          var found, best, order, bests := PlanSubset(s, pc);
          if Distinct(joins) {
            SolvedNext(stats, maxCost, all, pc.Plans(), i, done, s, order, bests);
          }
          if found {
            pc.AddPlan(s, best);
          }
          subsets := subsets - {s};
          done := done + {s};
        }
        if Distinct(joins) {
          SolvedLevel(stats, maxCost, all, pc.Plans(), i, done);
        }
      }
      plan := pc.GetOrder(set j | j in joins);
      if Distinct(joins) {
        DistinctSize(joins);
        SolvedAll(stats, maxCost, all, pc.Plans(), |joins| + 1);
      }
      AllJoins(joins);
    }
  }

  lemma AllJoins(joins: seq<Join>)
    ensures (set j | j in joins) == Elements(joins)
  {
  }

  /** The plan of one set, in terms of the plans of its subsets with one join less. */
  ghost predicate SolvedAt(stats: Stats, limit: real, plans: Plans, s: set<Join>) {
    if exists j :: j in s && Extends(plans, j, s)
    then s in plans && exists order, bests ::
           Trace(stats, limit, plans, s, order, bests) && Elements(order) == s && plans[s] == bests[|order|]
    else s !in plans
  }

  /** The plans of all sets of joins. */
  ghost predicate Solved(stats: Stats, limit: real, all: set<Join>, plans: Plans) {
    forall s :: s <= all && s != {} ==> SolvedAt(stats, limit, plans, s)
  }

  /** All sets of fewer than `i` joins have their plans, and those of `i` joins in `done`. */
  ghost predicate SolvedUpTo(stats: Stats, limit: real, all: set<Join>, plans: Plans, i: nat, done: set<set<Join>>) {
    && (forall s :: s <= all && s != {} && (|s| < i || s in done) ==> SolvedAt(stats, limit, plans, s))
    && (forall s :: s in plans ==> |s| < i || s in done)
    && (forall s :: s in done ==> s <= all && |s| == i)
  }

  /** An attempt only looks at the plan of the other joins. */
  lemma TriedDepends(stats: Stats, plans: Plans, plans': Plans, j: Join, s: set<Join>, before: CostCard,
      after: CostCard)
    requires s - {j} in plans <==> s - {j} in plans'
    requires s - {j} in plans ==> plans[s - {j}] == plans'[s - {j}]
    ensures Extends(plans, j, s) <==> Extends(plans', j, s)
    ensures Tried(stats, plans, j, s, before, after) <==> Tried(stats, plans', j, s, before, after)
  {
  }

  lemma TraceDepends(stats: Stats, limit: real, plans: Plans, plans': Plans, s: set<Join>, order: seq<Join>,
      bests: seq<CostCard>)
    requires Trace(stats, limit, plans, s, order, bests)
    requires forall r :: |r| < |s| ==> (r in plans <==> r in plans') && (r in plans ==> plans[r] == plans'[r])
    ensures Trace(stats, limit, plans', s, order, bests)
  {
    hide Tried;
    forall k | 0 <= k < |order| ensures Tried(stats, plans', order[k], s, bests[k], bests[k + 1]) {
      TriedDepends(stats, plans, plans', order[k], s, bests[k], bests[k + 1]);
    }
  }

  lemma SolvedDepends(stats: Stats, limit: real, plans: Plans, plans': Plans, s: set<Join>)
    requires SolvedAt(stats, limit, plans, s)
    requires forall r :: |r| < |s| || r == s ==> (r in plans <==> r in plans') && (r in plans ==> plans[r] == plans'[r])
    ensures SolvedAt(stats, limit, plans', s)
  {
    hide Tried, Extends;
    forall j | j in s ensures Extends(plans, j, s) <==> Extends(plans', j, s) {
      TriedDepends(stats, plans, plans', j, s, CostCard(0.0, 0, []), CostCard(0.0, 0, []));
    }
    if j :| j in s && Extends(plans, j, s) {
      var order, bests :| Trace(stats, limit, plans, s, order, bests) && Elements(order) == s &&
        plans[s] == bests[|order|];
      TraceDepends(stats, limit, plans, plans', s, order, bests);
    }
  }

  /** Planning one more set keeps the plans of the others. */
  lemma SolvedNext(stats: Stats, limit: real, all: set<Join>, plans: Plans, i: nat, done: set<set<Join>>, s: set<Join>,
                   order: seq<Join>, bests: seq<CostCard>)
    requires SolvedUpTo(stats, limit, all, plans, i, done) && s <= all && |s| == i && s !in done
    requires Trace(stats, limit, plans, s, order, bests) && Elements(order) == s
    ensures var found := exists j :: j in s && Extends(plans, j, s);
      SolvedUpTo(stats, limit, all, if found then plans[s := bests[|order|]] else plans, i, done + {s})
  {
    hide Tried, Extends, SolvedAt;
    var found := exists j :: j in s && Extends(plans, j, s);
    var plans' := if found then plans[s := bests[|order|]] else plans;
    SolvedNew(stats, limit, plans, plans', s, order, bests);
    forall r | r <= all && r != {} && (|r| < i || r in done) ensures SolvedAt(stats, limit, plans', r) {
      SolvedDepends(stats, limit, plans, plans', r);
    }
  }

  lemma SolvedNew(stats: Stats, limit: real, plans: Plans, plans': Plans, s: set<Join>, order: seq<Join>,
      bests: seq<CostCard>)
    requires s !in plans && Trace(stats, limit, plans, s, order, bests) && Elements(order) == s
    requires plans' == if exists j :: j in s && Extends(plans, j, s) then plans[s := bests[|order|]] else plans
    ensures SolvedAt(stats, limit, plans', s)
  {
    hide Tried, Extends;
    forall j | j in s ensures Extends(plans, j, s) <==> Extends(plans', j, s) {
      TriedDepends(stats, plans, plans', j, s, CostCard(0.0, 0, []), CostCard(0.0, 0, []));
    }
    TraceDepends(stats, limit, plans, plans', s, order, bests);
  }

  lemma SolvedLevel(stats: Stats, limit: real, all: set<Join>, plans: Plans, i: nat, done: set<set<Join>>)
    requires SolvedUpTo(stats, limit, all, plans, i, done) && forall s :: s <= all && |s| == i ==> s in done
    ensures SolvedUpTo(stats, limit, all, plans, i + 1, {})
  {
    hide SolvedAt;
  }

  lemma SolvedAll(stats: Stats, limit: real, all: set<Join>, plans: Plans, i: nat)
    requires SolvedUpTo(stats, limit, all, plans, i, {}) && |all| < i
    ensures Solved(stats, limit, all, plans)
  {
    hide SolvedAt;
    forall s | s <= all && s != {} ensures SolvedAt(stats, limit, plans, s) {
      SubsetSize(s, all);
    }
  }

  lemma SubsetSize(a: set<Join>, b: set<Join>)
    requires a <= b
    ensures |a| <= |b|
  {
    assert b == a + (b - a);
  }

  lemma TraceSnoc(stats: Stats, limit: real, plans: Plans, s: set<Join>, order: seq<Join>, bests: seq<CostCard>,
      j: Join, best: CostCard)
    requires Trace(stats, limit, plans, s, order, bests) && j in s && j !in Elements(order)
    requires Tried(stats, plans, j, s, bests[|order|], best)
    ensures Trace(stats, limit, plans, s, order + [j], bests + [best]) && Elements(order + [j]) == Elements(order) + {j}
  {
    assert forall k :: 0 <= k < |order| ==> order[k] in Elements(order);
    assert forall x :: x in order + [j] <==> x in order || x == j;
  }

  /** Two joins get a plan exactly when the one tried last is strictly cheaper. */
  lemma TwoJoinsIff(stats: Stats, limit: real, plans: Plans, x: Join, y: Join, order: seq<Join>, bests: seq<CostCard>)
    requires x != y && Trace(stats, limit, plans, {x, y}, order, bests) && Elements(order) == {x, y}
    requires Extends(plans, x, {x, y}) && Extends(plans, y, {x, y})
    requires CheaperCost(Sides(stats, plans, x, {x, y})) < limit && CheaperCost(Sides(stats, plans, y, {x, y})) < limit
    ensures |order| == 2 && order[0] in {x, y} && order[1] in {x, y}
    ensures bests[2].plan != [] <==>
      CheaperCost(Sides(stats, plans, order[1], {x, y})) < CheaperCost(Sides(stats, plans, order[0], {x, y}))
  {
    DistinctSize(order);
    assert Tried(stats, plans, order[0], {x, y}, bests[0], bests[1]);
    PlanIffLastIsCheaper(stats, limit, plans, {x, y}, order, bests, 1, 2);
  }

  /** A single join always gets a plan, unless its cost is out of range. */
  lemma OneJoin(stats: Stats, limit: real, plans: Plans, x: Join, order: seq<Join>, bests: seq<CostCard>)
    requires Trace(stats, limit, plans, {x}, order, bests) && Elements(order) == {x}
    requires CheaperCost(Sides(stats, plans, x, {x})) < limit
    ensures |order| == 1 && bests[1] == Extended(stats, plans, x, {x})
  {
    DistinctSize(order);
    assert order[0] in {x} && Tried(stats, plans, x, {x}, bests[0], bests[1]);
  }

  const AB := Join("a", "b", 1, 1)
  const BC := Join("b", "c", 1, 1)

  /** Over three equal tables the query of two joins gets an empty plan, whichever of them is
      tried last, although both orders are full plans. */
  method EqualTablesGetNoPlan(maxCost: real) returns (plan: seq<Join>)
    requires maxCost > 5.0
    ensures plan == [] && FullPlan([AB, BC], {AB, BC}) && FullPlan([BC, AB], {AB, BC})
  {
    hide Solved, FullPlan, EmptyOrFull;
    var stats := Stats(_ => 1.0, _ => 1);
    var opt := new JoinOptimizer([AB, BC], stats, maxCost);
    plan := opt.OrderJoins();
    BothOrdersAreFull();
    assert Distinct([AB, BC]) && Elements([AB, BC]) == {AB, BC};
    ghost var plans :| Solved(stats, maxCost, {AB, BC}, plans) && plan == PlanOf(plans, {AB, BC});
    NoPlanForBoth(stats, maxCost, plans);
  }

  ghost predicate EqualTables(stats: Stats) {
    && stats.scanCost("a") == stats.scanCost("b") == stats.scanCost("c") == 1.0
    && stats.cardinality("a") == stats.cardinality("b") == stats.cardinality("c") == 1
  }

  lemma NoPlanForBoth(stats: Stats, limit: real, plans: Plans)
    requires EqualTables(stats) && limit > 5.0 && Solved(stats, limit, {AB, BC}, plans)
    ensures PlanOf(plans, {AB, BC}) == []
  {
    hide Extends, Sides, Extended, Tried;
    PlanForOne(stats, limit, plans, AB);
    PlanForOne(stats, limit, plans, BC);
    EqualCosts(stats, plans);
    assert SolvedAt(stats, limit, plans, {AB, BC});
    assert AB in {AB, BC} && Extends(plans, AB, {AB, BC});
    var order, bests :| Trace(stats, limit, plans, {AB, BC}, order, bests) && Elements(order) == {AB, BC}
      && plans[{AB, BC}] == bests[|order|];
    TwoJoinsIff(stats, limit, plans, AB, BC, order, bests);
  }

  lemma PlanForOne(stats: Stats, limit: real, plans: Plans, j: Join)
    requires EqualTables(stats) && limit > 5.0 && Solved(stats, limit, {AB, BC}, plans) && (j == AB || j == BC)
    ensures {j} in plans && plans[{j}] == CostCard(3.0, 1, [Swap(j)])
  {
    hide Extends, Sides, Extended, Tried;
    SingleCost(stats, plans, j);
    assert SolvedAt(stats, limit, plans, {j});
    assert j in {j} && Extends(plans, j, {j});
    var order, bests :| Trace(stats, limit, plans, {j}, order, bests) && Elements(order) == {j} &&
      plans[{j}] == bests[|order|];
    OneJoin(stats, limit, plans, j, order, bests);
  }

  lemma SingleCost(stats: Stats, plans: Plans, j: Join)
    requires j == AB || j == BC
    requires EqualTables(stats)
    ensures Extends(plans, j, {j}) && CheaperCost(Sides(stats, plans, j, {j})) == 3.0
    ensures Extended(stats, plans, j, {j}) == CostCard(3.0, 1, [Swap(j)])
  {
    assert {j} - {j} == {};
  }

  lemma EqualCosts(stats: Stats, plans: Plans)
    requires EqualTables(stats)
    requires {AB} in plans && plans[{AB}] == CostCard(3.0, 1, [Swap(AB)])
    requires {BC} in plans && plans[{BC}] == CostCard(3.0, 1, [Swap(BC)])
    ensures Extends(plans, AB, {AB, BC}) && CheaperCost(Sides(stats, plans, AB, {AB, BC})) == 5.0
    ensures Extends(plans, BC, {AB, BC}) && CheaperCost(Sides(stats, plans, BC, {AB, BC})) == 5.0
  {
    assert {AB, BC} - {AB} == {BC} && {AB, BC} - {BC} == {AB};
    assert Mentions([Swap(AB)], "b") by { assert [Swap(AB)][0].leftTable == "b"; }
    assert Mentions([Swap(BC)], "b") by { assert [Swap(BC)][0].rightTable == "b"; }
    assert !Mentions([Swap(BC)], "a");
  }

  lemma BothOrdersAreFull()
    ensures FullPlan([AB, BC], {AB, BC}) && FullPlan([BC, AB], {AB, BC})
  {
    assert Mentions([AB], "b") by { assert [AB][0].rightTable == "b"; }
    assert Mentions([BC], "b") by { assert [BC][0].leftTable == "b"; }
    assert [AB, BC][..1] == [AB] && [BC, AB][..1] == [BC];
    assert Elements([AB, BC]) == {AB, BC} == Elements([BC, AB]);
    assert Lists([AB, BC], [AB, BC]) && Lists([BC, AB], [BC, AB]);
  }
}
