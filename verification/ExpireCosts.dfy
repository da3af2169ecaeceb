/** The contracts of expire_items_single_map in dpdk-nfs/perf-contracts/expirator-contracts.cpp: a
    numeric one that loops over the expired flows, and a symbolic one. */
module ExpireCosts {
  import opened PerfFormulas
  import opened MapCosts

  function Max0(x: int): int {
    if x > 0 then x else 0
  }

  /** Expiring one flow: the chain, the map, and borrowing and returning the key. */
  function ExpireOne(m: Metric, hash: KeyType, eq: KeyType, t: int, c: int): int {
    DchainExpireOne(m, true) + MapErase(m, hash, eq, t, c) + VectorBorrow(m) + VectorReturn(m)
  }

  /** The penalised flows: each meets one traversal and one collision less than the one before. */
  function Penalised(m: Metric, hash: KeyType, eq: KeyType, t: int, c: int, flows: int): int
    decreases Max0(flows)
  {
    if flows <= 0 then 0
    else ExpireOne(m, hash, eq, t, c) + Penalised(m, hash, eq, Max0(t - 1), Max0(c - 1), flows - 1)
  }

  function ExpireConstant(m: Metric): nat {
    Pick(m, 38, 21, 11, 3)
  }

  function PerExpired(m: Metric): nat {
    Pick(m, 19, 4, 14, 4)
  }

  /** The "+ 2" that the numeric contract has and the formula cannot express. */
  function LlvmExtra(m: Metric): nat {
    if m == LlvmInstructionCount then 2 else 0
  }

  function UniqueFlows(e: int, c: int): int {
    Max0(e - c - 1)
  }

  function PenalisedFlows(e: int, c: int): int {
    if e >= c + 1 then c + 1 else e
  }

  function ExpireCost(m: Metric, hash: KeyType, eq: KeyType, t: int, c: int, e: int): int {
    ExpireConstant(m) + DchainExpireOne(m, false) + PerExpired(m) * e + LlvmExtra(m)
    + if e > 0
      then ExpireOne(m, hash, eq, t, 0) * UniqueFlows(e, c) + Penalised(m, hash, eq, t, c, PenalisedFlows(e, c))
      else 0
  }

  /** The loop over the penalised flows, added to what the others cost. */
  method AddPenalised(m: Metric, hash: KeyType, eq: KeyType, t: int, c: int, flows: int, start: int) returns (cost: int)
    ensures cost == start + Penalised(m, hash, eq, t, c, flows)
  {
    hide ExpireOne;
    cost := start;
    var i, t', c' := 0, t, c;
    while i < flows
      invariant 0 <= i && (i <= flows || flows < 0)
      invariant cost + Penalised(m, hash, eq, t', c', flows - i) == start + Penalised(m, hash, eq, t, c, flows)
    {
      cost := cost + ExpireOne(m, hash, eq, t', c');
      t', c' := t' - 1, c' - 1;
      if t' < 0 { t' := 0; }
      if c' < 0 { c' := 0; }
      i := i + 1;
    }
  }

  /** expire_items_single_map_contract_0. */
  method ExpireContract(m: Metric, hash: KeyType, eq: KeyType, t: int, c: int, e: int) returns (cost: int)
    ensures cost == ExpireCost(m, hash, eq, t, c, e)
  {
    hide ExpireConstant, PerExpired, LlvmExtra, DchainExpireOne, ExpireOne, Penalised;
    var constant, dynamic := ExpireConstant(m), PerExpired(m) * e + LlvmExtra(m);
    var constantDependency := DchainExpireOne(m, false);
    var dynamicDependency := 0;
    if e > 0 {
      var uniqueFlowHashes := if e - c - 1 > 0 then e - c - 1 else 0;
      var penalisedFlows := if e >= c + 1 then c + 1 else e;
      assert uniqueFlowHashes == UniqueFlows(e, c) && penalisedFlows == PenalisedFlows(e, c);
      hide UniqueFlows, PenalisedFlows;
      dynamicDependency := ExpireOne(m, hash, eq, t, 0) * uniqueFlowHashes;
      dynamicDependency := AddPenalised(m, hash, eq, t, c, penalisedFlows, dynamicDependency);
    }
    cost := constant + constantDependency + dynamic + dynamicDependency;
  }

  // ----- the symbolic contract

  /** Cost per expired flow that depends on no counter. */
  function ExpireBase(m: Metric, hash: KeyType, eq: KeyType): int {
    DchainExpireOne(m, true) + EraseBase(m, hash, eq) + VectorBorrow(m) + VectorReturn(m)
  }

  /** expire_items_single_map_formula_contract_0. */
  method ExpireFormula(m: Metric, hash: KeyType, eq: KeyType) returns (f: Formula)
    ensures CheckFormula(f, LoopCtrs) && f.Keys == {"constant", "e", "et", "ec"}
    ensures forall v :: Value(f, v) == FormulaValue(m, hash, eq, v)
  {
    hide CheckFormula, Eval, IsProduct, Plus, Value, Pick, KeyEq, KeyHash, IsLinear;
    var b, c := EraseTraversal(m), EraseCollision(m) + KeyEq(m, eq);
    var erase := MapEraseFormula(m, hash, eq);
    var dynamic: Formula := map[CONSTANT := DchainExpireOne(m, true)];
    ConstantTerm(DchainExpireOne(m, true));
    LinearPlusConstant(erase, EraseBase(m, hash, eq), b, c, DchainExpireOne(m, true));
    dynamic := Add(dynamic, erase, LoopCtrs);
    ghost var k := EraseBase(m, hash, eq) + DchainExpireOne(m, true);
    ConstantTerm(VectorBorrow(m));
    LinearPlusConstant(dynamic, k, b, c, VectorBorrow(m));
    dynamic := Add(dynamic, map[CONSTANT := VectorBorrow(m)], LoopCtrs);
    ConstantTerm(VectorReturn(m));
    LinearPlusConstant(dynamic, k + VectorBorrow(m), b, c, VectorReturn(m));
    dynamic := Add(dynamic, map[CONSTANT := VectorReturn(m)], LoopCtrs);
    f := map["e" := 1];
    PerFlow(dynamic, k + VectorBorrow(m) + VectorReturn(m), b, c);
    f := Multiply(f, dynamic);
    ghost var product := f;
    FlowKeys(product, dynamic);
    PerFlowValue(product, dynamic, k + VectorBorrow(m) + VectorReturn(m), b, c);
    var static_: Formula := map[CONSTANT := ExpireConstant(m), "e" := PerExpired(m)];
    StaticValue(ExpireConstant(m), PerExpired(m));
    SumValue(product, static_);
    f := Add(f, static_, LoopCtrs);
    ConstantTerm(DchainExpireOne(m, false));
    PlusKeys(product, static_);
    PlusKeys(f, map[CONSTANT := DchainExpireOne(m, false)]);
    SumValue(f, map[CONSTANT := DchainExpireOne(m, false)]);
    f := Add(f, map[CONSTANT := DchainExpireOne(m, false)], LoopCtrs);
  }

  /** What the formula evaluates to. */
  function FormulaValue(m: Metric, hash: KeyType, eq: KeyType, v: Counters): int {
    v.e * (ExpireBase(m, hash, eq) + EraseTraversal(m) * v.t + (EraseCollision(m) + KeyEq(m, eq)) * v.c)
    + ExpireConstant(m) + PerExpired(m) * v.e + DchainExpireOne(m, false)
  }

  lemma LinearPlusConstant(f: Formula, constant: int, t: int, c: int, x: int)
    requires IsLinear(f, constant, t, c)
    ensures CheckFormula(f, LoopCtrs)
    ensures IsLinear(Plus(f, map[CONSTANT := x]), constant + x, t, c)
    ensures IsLinear(Plus(map[CONSTANT := x], f), constant + x, t, c)
  {
    ConstantTerm(x);
    LinearPlus(f, constant, t, c, map[CONSTANT := x], x, 0);
    PlusCommutes(f, map[CONSTANT := x]);
  }

  /** The keys of a product with the expired flows, spelt with the flow counter first. */
  lemma FlowKeys(r: Formula, f: Formula)
    requires IsProduct(r, map["e" := 1], f) && f.Keys == {CONSTANT, "t", "c"}
    ensures r.Keys == {"e", "et", "ec"}
  {
    var e: Formula := map["e" := 1];
    assert e.Keys == {"e"} && "e" != CONSTANT && "t" != CONSTANT && "c" != CONSTANT && "e" + "" == "e";
    assert ProductKey("e", CONSTANT) == "e" && ProductKey("e", "t") == "e" + "t" && ProductKey("e", "c") == "e" + "c";
    assert "e" + "t" == "et" && "e" + "c" == "ec";
    assert Image({"e"}, {CONSTANT, "t", "c"}) == {"e", "et", "ec"};
  }

  lemma PlusKeys(a: Formula, b: Formula)
    ensures Plus(a, b).Keys == a.Keys + b.Keys
  {
  }

  lemma PerFlow(f: Formula, constant: int, t: int, c: int)
    requires IsLinear(f, constant, t, c)
    ensures CheckFormula(map["e" := 1], LoopCtrs) && CheckFormula(f, LoopCtrs)
  {
  }

  lemma PerFlowValue(r: Formula, f: Formula, constant: int, t: int, c: int)
    requires IsLinear(f, constant, t, c) && IsProduct(r, map["e" := 1], f)
    ensures CheckFormula(r, LoopCtrs)
    ensures forall v :: Value(r, v) == v.e * (constant + t * v.t + c * v.c)
  {
    var e: Formula := map["e" := 1];
    PerFlow(f, constant, t, c);
    ProductKeepsCheck(r, e, f);
    assert e.Keys == {"e"};
    assert NoCollision(e.Keys, f.Keys) by {
      DisjointFromE();
    }
    forall v
      ensures Value(r, v) == v.e * (constant + t * v.t + c * v.c)
    {
      Letters(v);
      SingleValue("e", 1, v);
      ProductValue(r, e, f, v);
    }
  }

  lemma DisjointFromE()
    ensures NoCollision({"e"}, {CONSTANT, "t", "c"})
  {
    Letters(Counters(0, 0, 0, 0));
    DisjointMeansNoCollision({"e"}, {CONSTANT, "t", "c"});
  }

  lemma StaticValue(x: int, y: int)
    ensures CheckFormula(map[CONSTANT := x, "e" := y], LoopCtrs)
    ensures forall v :: Value(map[CONSTANT := x, "e" := y], v) == x + y * v.e
  {
    forall v
      ensures Value(map[CONSTANT := x, "e" := y], v) == x + y * v.e
    {
      Letters(v);
      SingleValue(CONSTANT, x, v);
      var one: Formula := map[CONSTANT := x];
      EvalInsert(one, k => Monomial(v, k), "e", y);
      assert one - {"e"} == one;
      assert one["e" := y] == map[CONSTANT := x, "e" := y];
    }
  }

  lemma SumValue(a: Formula, b: Formula)
    ensures forall v :: Value(Plus(a, b), v) == Value(a, v) + Value(b, v)
  {
    forall v
      ensures Value(Plus(a, b), v) == Value(a, v) + Value(b, v)
    {
      PlusAddsValues(a, b, k => Monomial(v, k));
    }
  }

  // ----- how far the formula is from the loop

  function Triangle(p: int): int
    decreases Max0(p)
  {
    if p <= 0 then 0 else p - 1 + Triangle(p - 1)
  }

  lemma {:induction false} TriangleClosed(p: nat)
    ensures Triangle(p) == p * (p - 1) / 2
  {
    if p > 0 {
      TriangleClosed(p - 1);
      TwiceTriangle(p - 1);
      TwiceTriangle(p);
    }
  }

  lemma {:induction false} TwiceTriangle(p: nat)
    ensures 2 * Triangle(p) == p * (p - 1)
  {
    if p > 0 {
      TwiceTriangle(p - 1);
      assert p * (p - 1) == (p - 1) * (p - 2) + 2 * (p - 1);
    }
  }

  /** The penalised flows cost their number times the first one's cost, less the traversal and
      collision that each successive flow saves. */
  lemma {:induction false} PenalisedClosed(m: Metric, hash: KeyType, eq: KeyType, t: int, c: int, p: nat)
    requires p <= c + 1 <= t
    ensures var b, k := EraseTraversal(m), EraseCollision(m) + KeyEq(m, eq);
            Penalised(m, hash, eq, t, c, p)
            == p * (ExpireBase(m, hash, eq) + b * t + k * c) - (b + k) * Triangle(p)
  {
    hide MapErase, Pick, KeyEq, KeyHash, EraseTraversal, EraseCollision, EraseBase;
    hide DchainExpireOne, VectorBorrow, VectorReturn;
    if p > 0 {
      EraseIsLinear(m, hash, eq, t, c);
      var b, k, base := EraseTraversal(m), EraseCollision(m) + KeyEq(m, eq), ExpireBase(m, hash, eq);
      if p > 1 {
        PenalisedClosed(m, hash, eq, t - 1, c - 1, p - 1);
      }
      PenaltyStep(base, b, k, t, c, p, Triangle(p - 1));
    }
  }

  lemma PenaltyStep(base: int, b: int, k: int, t: int, c: int, p: int, tri: int)
    ensures base + b * t + k * c + (p - 1) * (base + b * (t - 1) + k * (c - 1)) - (b + k) * tri
            == p * (base + b * t + k * c) - (b + k) * (p - 1 + tri)
  {
    var x := base + b * t + k * c;
    assert base + b * (t - 1) + k * (c - 1) == x - (b + k);
    assert (p - 1) * (x - (b + k)) == (p - 1) * x - (p - 1) * (b + k);
  }

  /** The symbolic contract exceeds the numeric one by exactly this much: it charges all
      collisions to the flows the loop treats as collision-free, and charges the penalised flows
      as if none saved anything; it lacks the loop's extra 2 in one metric. */
  lemma ExpireExcess(m: Metric, hash: KeyType, eq: KeyType, v: Counters)
    requires v.t >= 1 && 0 <= v.c < v.t && v.e >= 0
    ensures var b, k := EraseTraversal(m), EraseCollision(m) + KeyEq(m, eq);
            var u, p := UniqueFlows(v.e, v.c), PenalisedFlows(v.e, v.c);
            FormulaValue(m, hash, eq, v) - ExpireCost(m, hash, eq, v.t, v.c, v.e)
            == k * v.c * u + (b + k) * (p * (p - 1) / 2) - LlvmExtra(m)
  {
    hide MapErase, Pick, KeyEq, KeyHash, EraseTraversal, EraseCollision, EraseBase;
    hide DchainExpireOne, VectorBorrow, VectorReturn, ExpireConstant, PerExpired;
    var b, k, base := EraseTraversal(m), EraseCollision(m) + KeyEq(m, eq), ExpireBase(m, hash, eq);
    var u, p := UniqueFlows(v.e, v.c), PenalisedFlows(v.e, v.c);
    TriangleClosed(p);
    EraseIsLinear(m, hash, eq, v.t, 0);
    PenalisedClosed(m, hash, eq, v.t, v.c, p);
    ExcessArithmetic(base, b, k, v.t, v.c, u, p, Triangle(p));
    if v.e == 0 {
      assert p == 0 && u == 0;
    } else {
      assert v.e == u + p;
    }
  }

  lemma ExcessArithmetic(base: int, b: int, k: int, t: int, c: int, u: int, p: int, tri: int)
    ensures (u + p) * (base + b * t + k * c) - (base + b * t + k * 0) * u - (p * (base + b * t + k * c) - (b + k) * tri)
            == k * c * u + (b + k) * tri
  {
    var x := base + b * t;
    assert (u + p) * (x + k * c) == u * x + u * (k * c) + p * (x + k * c);
  }

  /** The two terms of the excess: collisions charged to flows that have none, and savings not made. */
  function Overcharged(m: Metric, eq: KeyType, v: Counters): int {
    (EraseCollision(m) + KeyEq(m, eq)) * v.c * UniqueFlows(v.e, v.c)
  }

  function Unsaved(m: Metric, eq: KeyType, v: Counters): int {
    (EraseTraversal(m) + EraseCollision(m) + KeyEq(m, eq)) * Triangle(PenalisedFlows(v.e, v.c))
  }

  lemma ExcessTerms(m: Metric, hash: KeyType, eq: KeyType, v: Counters)
    requires v.t >= 1 && 0 <= v.c < v.t && v.e >= 0
    ensures FormulaValue(m, hash, eq, v) - ExpireCost(m, hash, eq, v.t, v.c, v.e)
            == Overcharged(m, eq, v) + Unsaved(m, eq, v) - LlvmExtra(m)
  {
    ExpireExcess(m, hash, eq, v);
    TriangleClosed(PenalisedFlows(v.e, v.c));
    hide FormulaValue, ExpireCost, EraseTraversal, EraseCollision, KeyEq, LlvmExtra;
    hide UniqueFlows, PenalisedFlows, Triangle;
  }

  lemma TermSigns(m: Metric, eq: KeyType, v: Counters)
    requires v.c >= 0 && v.e >= 0
    ensures Overcharged(m, eq, v) >= 0 && (v.c == 0 || UniqueFlows(v.e, v.c) == 0 ==> Overcharged(m, eq, v) == 0)
    ensures if PenalisedFlows(v.e, v.c) <= 1 then Unsaved(m, eq, v) == 0 else Unsaved(m, eq, v) >= 2
  {
    CoefficientsLarge(m, eq);
    var u, p := UniqueFlows(v.e, v.c), PenalisedFlows(v.e, v.c);
    var b, k := EraseTraversal(m), EraseCollision(m) + KeyEq(m, eq);
    NonNegative(k, v.c, u);
    AtLeastOne(b + k, p);
    hide EraseTraversal, EraseCollision, KeyEq, Triangle;
  }

  /** So the formula bounds the loop from above except in one metric, where it falls short by up to
      2 when there is nothing else to over-charge. */
  lemma FormulaIsBoundIff(m: Metric, hash: KeyType, eq: KeyType, v: Counters)
    requires v.t >= 1 && 0 <= v.c < v.t && v.e >= 0
    ensures ExpireCost(m, hash, eq, v.t, v.c, v.e) <= FormulaValue(m, hash, eq, v)
            <==> m != LlvmInstructionCount || (v.e >= 2 && v.c >= 1)
  {
    hide ExpireCost, FormulaValue, Overcharged, Unsaved;
    ExcessTerms(m, hash, eq, v);
    TermSigns(m, eq, v);
    Verdict(m == LlvmInstructionCount, v.e, v.c, Overcharged(m, eq, v), Unsaved(m, eq, v));
  }

  /** The sign of the excess, from when its two terms vanish. */
  lemma Verdict(llvm: bool, e: nat, c: nat, first: int, second: int)
    requires first >= 0 && (c == 0 || UniqueFlows(e, c) == 0 ==> first == 0)
    requires if PenalisedFlows(e, c) <= 1 then second == 0 else second >= 2
    ensures first + second - (if llvm then 2 else 0) >= 0 <==> !llvm || (e >= 2 && c >= 1)
  {
  }

  lemma CoefficientsLarge(m: Metric, eq: KeyType)
    ensures EraseTraversal(m) >= 2
  {
  }

  lemma NonNegative(x: nat, y: nat, z: nat)
    ensures x * y * z >= 0
    ensures y == 0 || z == 0 ==> x * y * z == 0
  {
    assert x * y >= 0;
  }

  lemma AtLeastOne(x: nat, p: nat)
    ensures if p <= 1 then Triangle(p) == 0 && x * Triangle(p) == 0 else x * Triangle(p) >= x
  {
    if p > 1 {
      TriangleGrows(p);
      assert x * (Triangle(p) - 1) >= 0;
      assert x * (Triangle(p) - 1) == x * Triangle(p) - x;
    }
  }

  lemma {:induction false} TriangleGrows(p: nat)
    ensures Triangle(p) >= 0 && (p >= 2 ==> Triangle(p) >= 1)
  {
    if p > 0 {
      TriangleGrows(p - 1);
    }
  }

  // ----- in numbers

  /** Four numbers, one per metric. */
  predicate Costs(cost: Metric -> int, instr: int, mem: int, llvmInstr: int, llvmMem: int) {
    && cost(InstructionCount) == instr && cost(MemoryInstructions) == mem
    && cost(LlvmInstructionCount) == llvmInstr && cost(LlvmMemoryInstructions) == llvmMem
  }

  /** What an expiry costs that finds nothing to expire, whatever the other arguments. */
  lemma ExpireNothingCosts(hash: KeyType, eq: KeyType, t: int, c: int)
    ensures Costs(m => ExpireCost(m, hash, eq, t, c, 0), 70, 39, 37, 9)
  {
  }

  /** What one expired flow adds that met t traversals and no collision. */
  lemma ExpireOneCosts(t: nat)
    requires t >= 1
    ensures var more := t - 1;
            && Costs(m => Added(m, FlowId, t), 246 + 19 * more, 124 + 4 * more, 208 + 23 * more, 57 + 5 * more)
            && Costs(m => Added(m, EtherAddr, t), 215 + 19 * more, 116 + 4 * more, 136 + 23 * more, 41 + 5 * more)
            && Costs(m => Added(m, LbFlow, t), 215 + 19 * more, 117 + 4 * more, 179 + 23 * more, 51 + 5 * more)
            && Costs(m => Added(m, LbIp, t), 187 + 19 * more, 109 + 4 * more, 136 + 23 * more, 42 + 5 * more)
  {
    forall m: Metric, k: KeyType
      ensures Added(m, k, t) == PerExpired(m) + ExpireOne(m, k, k, t, 0)
    {
      OneFlow(m, k, t);
    }
  }

  function Added(m: Metric, k: KeyType, t: nat): int {
    ExpireCost(m, k, k, t, 0, 1) - ExpireCost(m, k, k, t, 0, 0)
  }

  lemma OneFlow(m: Metric, k: KeyType, t: nat)
    ensures Added(m, k, t) == PerExpired(m) + ExpireOne(m, k, k, t, 0)
  {
    hide ExpireOne, PerExpired, DchainExpireOne, ExpireConstant;
    assert Penalised(m, k, k, t, 0, 1) == ExpireOne(m, k, k, t, 0) + Penalised(m, k, k, Max0(t - 1), 0, 0);
  }

  /** A lookup that ends at the first bucket, with a hit and with a miss. */
  lemma GetCosts()
    ensures Costs(m => MapGet(m, true, FlowId, FlowId, 1, 0), 155, 76, 132, 32)
    ensures Costs(m => MapGet(m, false, FlowId, FlowId, 1, 0), 122, 55, 82, 18)
    ensures Costs(m => MapGet(m, true, EtherAddr, EtherAddr, 1, 0), 124, 68, 60, 16)
    ensures Costs(m => MapGet(m, false, EtherAddr, EtherAddr, 1, 0), 80, 50, 54, 14)
    ensures Costs(m => MapGet(m, true, LbFlow, LbFlow, 1, 0), 124, 69, 103, 26)
    ensures Costs(m => MapGet(m, false, LbFlow, LbFlow, 1, 0), 98, 52, 69, 16)
    ensures Costs(m => MapGet(m, true, LbIp, LbIp, 1, 0), 96, 61, 60, 17)
    ensures Costs(m => MapGet(m, false, LbIp, LbIp, 1, 0), 79, 49, 50, 13)
  {
  }

  /** The bridge's lookups and erasures with t traversals and c collisions. */
  lemma BridgeCosts(t: nat, c: nat)
    requires t >= 1 && c < t
    ensures Costs(m => MapGet(m, true, EtherAddr, EtherAddr, t, c),
                  124 + 18 * (t - 1) + 41 * c, 68 + 4 * (t - 1) + 19 * c, 60 + 23 * (t - 1) + 2 * c, 16 + 4 * (t - 1))
    ensures Costs(m => MapGet(m, false, EtherAddr, EtherAddr, t, c),
                  80 + 18 * (t - 1) + 41 * c, 50 + 4 * (t - 1) + 19 * c, 54 + 23 * (t - 1) + 2 * c, 14 + 4 * (t - 1))
    ensures Costs(m => MapErase(m, EtherAddr, EtherAddr, t, c),
                  129 + 19 * (t - 1) + 51 * c, 74 + 4 * (t - 1) + 26 * c, 65 + 23 * (t - 1) + 4 * c, 18 + 5 * (t - 1))
  {
  }
}
