/** The numeric and the symbolic performance contracts of map get, map erase and expiry in
    dpdk-nfs/perf-contracts, for the four count metrics. */
module MapCosts {
  import opened PerfFormulas

  datatype Metric = InstructionCount | MemoryInstructions | LlvmInstructionCount | LlvmMemoryInstructions

  /** The key types that index the equality and hash contracts. */
  datatype KeyType = FlowId | EtherAddr | LbFlow | LbIp | PolicerFlow

  // ----- helper contracts (helper-contracts.cpp, dchain-contracts.cpp, vector-contracts.cpp)

  function Pick(m: Metric, instr: nat, mem: nat, llvmInstr: nat, llvmMem: nat): nat {
    match m
    case InstructionCount => instr
    case MemoryInstructions => mem
    case LlvmInstructionCount => llvmInstr
    case LlvmMemoryInstructions => llvmMem
  }

  function KeyEq(m: Metric, k: KeyType): nat {
    match k
    case FlowId => Pick(m, 20, 12, 46, 12)
    case EtherAddr => Pick(m, 31, 9, 2, 0)
    case LbFlow => Pick(m, 13, 8, 30, 8)
    case LbIp => Pick(m, 4, 3, 6, 2)
    case PolicerFlow => 0
  }

  function KeyHash(m: Metric, k: KeyType): nat {
    match k
    case FlowId => Pick(m, 45, 8, 35, 6)
    case EtherAddr => Pick(m, 3, 3, 7, 2)
    case LbFlow => Pick(m, 21, 5, 22, 4)
    case LbIp => Pick(m, 2, 2, 3, 1)
    case PolicerFlow => 0
  }

  function DchainExpireOne(m: Metric, success: bool): nat {
    if success then Pick(m, 50, 25, 47, 16) else Pick(m, 32, 18, 24, 6)
  }

  function VectorBorrow(m: Metric): nat {
    Pick(m, 16, 11, 9, 3)
  }

  function VectorReturn(m: Metric): nat {
    Pick(m, 1, 2, 1, 0)
  }

  // ----- numeric contracts (map-impl-contracts.cpp, map-contracts.cpp)

  function MapImplGet(m: Metric, success: bool, eq: KeyType, t: int, c: int): int {
    var hit, rem := KeyEq(m, eq), t - c - 1;
    match m
    case InstructionCount =>
      if success then (if t == 1 then 65 + hit else 65 + hit + c * (28 + KeyEq(m, eq)) + rem * 18)
      else 52 + c * (28 + KeyEq(m, eq)) + rem * 18
    case MemoryInstructions =>
      if success then (if t == 1 then 37 + hit else 37 + hit + c * (14 + KeyEq(m, eq)) + rem * 4)
      else 28 + c * (14 + KeyEq(m, eq)) + rem * 4
    case LlvmInstructionCount =>
      (if success then 32 + hit else 28) + c * (23 + KeyEq(m, eq)) + rem * 23
    case LlvmMemoryInstructions =>
      (if success then 6 + hit else 4) + c * (4 + KeyEq(m, eq)) + rem * 4
  }

  function MapImplErase(m: Metric, eq: KeyType, t: int, c: int): int {
    var hit, rem := KeyEq(m, eq), t - c - 1;
    match m
    case InstructionCount =>
      if t == 1 then 69 + hit else 69 + hit + c * (39 + KeyEq(m, eq)) + 19 * rem
    case MemoryInstructions =>
      if t == 1 then 43 + hit else 43 + hit + c * (21 + KeyEq(m, eq)) + 4 * rem
    case LlvmInstructionCount =>
      35 + hit + c * (25 + KeyEq(m, eq)) + 23 * rem
    case LlvmMemoryInstructions =>
      7 + hit + c * (5 + KeyEq(m, eq)) + 5 * rem
  }

  function GetWrapper(m: Metric): nat {
    Pick(m, 25, 19, 19, 8)
  }

  function EraseWrapper(m: Metric): nat {
    Pick(m, 26, 19, 21, 9)
  }

  /** map_get_contract_0 (hit) and map_get_contract_1 (miss). */
  function MapGet(m: Metric, success: bool, hash: KeyType, eq: KeyType, t: int, c: int): int {
    GetWrapper(m) + MapImplGet(m, success, eq, t, c) + KeyHash(m, hash)
  }

  function MapErase(m: Metric, hash: KeyType, eq: KeyType, t: int, c: int): int {
    EraseWrapper(m) + MapImplErase(m, eq, t, c) + KeyHash(m, hash)
  }

  // ----- symbolic contracts

  /** constant + t * traversals + c * collisions, as three map entries. */
  function Linear(constant: int, t: int, c: int): Formula {
    map[CONSTANT := constant, "t" := t, "c" := c]
  }

  lemma Letters(v: Counters)
    ensures Monomial(v, "e") == v.e && Monomial(v, "t") == v.t && Monomial(v, "c") == v.c
    ensures Monomial(v, CONSTANT) == 1
    ensures CounterWord("e") && CounterWord("t") && CounterWord("c") && CounterWord("et") && CounterWord("ec")
  {
    assert |CONSTANT| == 8 && Word(v, "") == 1;
    assert "e"[1..] == "" && "t"[1..] == "" && "c"[1..] == "";
    assert Word(v, "e") == CounterValue(v, 'e') * Word(v, "e"[1..]);
    assert Word(v, "t") == CounterValue(v, 't') * Word(v, "t"[1..]);
    assert Word(v, "c") == CounterValue(v, 'c') * Word(v, "c"[1..]);
    assert "e" == ['e'] && "t" == ['t'] && "c" == ['c'];
  }

  lemma SingleValue(key: string, x: int, v: Counters)
    ensures Value(map[key := x], v) == x * Monomial(v, key)
  {
    var none: Formula := map[];
    EvalInsert(none, k => Monomial(v, k), key, x);
    assert none[key := x] == map[key := x];
    assert none - {key} == none;
  }

  lemma LinearValue(constant: int, t: int, c: int, v: Counters)
    ensures Value(Linear(constant, t, c), v) == constant + t * v.t + c * v.c
    ensures CheckFormula(Linear(constant, t, c), LoopCtrs)
  {
    var w := k => Monomial(v, k);
    Letters(v);
    SingleValue(CONSTANT, constant, v);
    var one := map[CONSTANT := constant];
    EvalInsert(one, w, "t", t);
    assert one - {"t"} == one;
    var two := one["t" := t];
    EvalInsert(two, w, "c", c);
    assert two - {"c"} == two;
    assert two["c" := c] == Linear(constant, t, c);
  }

  /** A checked formula with these keys and this linear value. */
  ghost predicate IsLinear(f: Formula, constant: int, t: int, c: int) {
    && CheckFormula(f, LoopCtrs) && f.Keys == {CONSTANT, "t", "c"}
    && (forall v :: Value(f, v) == constant + t * v.t + c * v.c)
  }

  lemma LinearIsLinear(constant: int, t: int, c: int)
    ensures IsLinear(Linear(constant, t, c), constant, t, c)
  {
    forall v
      ensures Value(Linear(constant, t, c), v) == constant + t * v.t + c * v.c
    {
      LinearValue(constant, t, c, v);
    }
    LinearValue(constant, t, c, Counters(0, 0, 0, 0));
  }

  /** What a term over some of these keys adds to a linear formula. */
  lemma LinearPlus(f: Formula, constant: int, t: int, c: int, g: Formula, constant': int, c': int)
    requires IsLinear(f, constant, t, c) && CheckFormula(g, LoopCtrs) && g.Keys <= {CONSTANT, "t", "c"}
    requires forall v :: Value(g, v) == constant' + c' * v.c
    ensures IsLinear(Plus(f, g), constant + constant', t, c + c')
  {
    hide CheckFormula, Eval;
    PlusKeepsCheck(f, g, LoopCtrs);
    forall v
      ensures Value(Plus(f, g), v) == (constant + constant') + t * v.t + (c + c') * v.c
    {
      PlusAddsValues(f, g, k => Monomial(v, k));
      Distribute(c, c', v.c);
    }
  }

  lemma ConstantTerm(x: int)
    ensures CheckFormula(map[CONSTANT := x], LoopCtrs)
    ensures forall v :: Value(map[CONSTANT := x], v) == x + 0 * v.c
  {
    forall v
      ensures Value(map[CONSTANT := x], v) == x + 0 * v.c
    {
      Letters(v);
      SingleValue(CONSTANT, x, v);
    }
  }

  lemma CollisionTerm(r: Formula, x: int)
    requires IsProduct(r, map["c" := 1], map[CONSTANT := x])
    ensures CheckFormula(r, LoopCtrs) && r.Keys <= {CONSTANT, "t", "c"}
    ensures forall v :: Value(r, v) == 0 + x * v.c
  {
    var a: Formula, b: Formula := map["c" := 1], map[CONSTANT := x];
    Letters(Counters(0, 0, 0, 0));
    assert a.Keys == {"c"} && b.Keys == {CONSTANT};
    ProductKeepsCheck(r, a, b);
    forall key | key in r
      ensures key == "c"
    {
      var k1, k2 :| k1 in a && k2 in b && ProductKey(k1, k2) == key;
      assert "c" + "" == "c";
    }
    hide IsProduct, CheckFormula, Value;
    forall v
      ensures Value(r, v) == 0 + x * v.c
    {
      CollisionValue(r, x, v);
    }
  }

  lemma CollisionValue(r: Formula, x: int, v: Counters)
    requires IsProduct(r, map["c" := 1], map[CONSTANT := x])
    ensures Value(r, v) == x * v.c
  {
    Letters(v);
    SingleValue("c", 1, v);
    SingleValue(CONSTANT, x, v);
    ProductValue(r, map["c" := 1], map[CONSTANT := x], v);
  }

  /** The coefficients of map_impl_get's formula, before the key comparisons are added. */
  function GetConstant(m: Metric, success: bool): nat {
    if success then Pick(m, 47, 33, 9, 2) else Pick(m, 34, 24, 5, 0)
  }

  function GetTraversal(m: Metric): nat {
    Pick(m, 18, 4, 23, 4)
  }

  function GetCollision(m: Metric): nat {
    Pick(m, 10, 10, 0, 0)
  }

  function EraseConstant(m: Metric): nat {
    Pick(m, 50, 39, 12, 2)
  }

  function EraseTraversal(m: Metric): nat {
    Pick(m, 19, 4, 23, 5)
  }

  function EraseCollision(m: Metric): nat {
    Pick(m, 20, 17, 2, 0)
  }

  /** map_impl_get_formula_contract and map_impl_erase_formula_contract differ only in their
      coefficients: the key comparison is charged once on a hit and once per collision. */
  method ImplFormula(m: Metric, eq: KeyType, constant: int, t: int, c: int, hit: bool) returns (f: Formula)
    ensures IsLinear(f, constant + (if hit then KeyEq(m, eq) else 0), t, c + KeyEq(m, eq))
  {
    hide CheckFormula, Eval, IsProduct;
    f := Linear(constant, t, c);
    LinearIsLinear(constant, t, c);
    var constantDependency := map[CONSTANT := if hit then KeyEq(m, eq) else 0];
    ConstantTerm(if hit then KeyEq(m, eq) else 0);
    var dynamicDependency: Formula := map["c" := 1];
    ConstantTerm(KeyEq(m, eq));
    CollisionCheck();
    dynamicDependency := Multiply(dynamicDependency, map[CONSTANT := KeyEq(m, eq)]);
    CollisionTerm(dynamicDependency, KeyEq(m, eq));
    LinearPlus(f, constant, t, c, constantDependency, if hit then KeyEq(m, eq) else 0, 0);
    f := Add(f, constantDependency, LoopCtrs);
    LinearPlus(f, constant + (if hit then KeyEq(m, eq) else 0), t, c, dynamicDependency, 0, KeyEq(m, eq));
    f := Add(f, dynamicDependency, LoopCtrs);
  }

  lemma CollisionCheck()
    ensures CheckFormula(map["c" := 1], LoopCtrs)
  {
  }

  /** The wrappers map_get_formula_contract_0 and map_erase_formula_contract_0: their own constant,
      then the implementation's formula, then the hash. */
  method WrapFormula(own: int, impl: Formula, hashCost: int,
                     ghost constant: int, ghost t: int, ghost c: int) returns (f: Formula)
    requires IsLinear(impl, constant, t, c)
    ensures IsLinear(f, own + constant + hashCost, t, c)
  {
    hide CheckFormula, Eval;
    ConstantTerm(own);
    f := map[CONSTANT := own];
    LinearPlus(impl, constant, t, c, f, own, 0);
    PlusCommutes(f, impl);
    f := Add(f, impl, LoopCtrs);
    ConstantTerm(hashCost);
    LinearPlus(f, constant + own, t, c, map[CONSTANT := hashCost], hashCost, 0);
    f := Add(f, map[CONSTANT := hashCost], LoopCtrs);
  }

  lemma PlusCommutes(a: Formula, b: Formula)
    ensures Plus(a, b) == Plus(b, a)
  {
    assert Plus(a, b).Keys == Plus(b, a).Keys;
  }

  method MapGetFormula(m: Metric, success: bool, hash: KeyType, eq: KeyType) returns (f: Formula)
    ensures CheckFormula(f, LoopCtrs)
    ensures forall v: Counters :: v.t >= 1 && 0 <= v.c < v.t ==> Value(f, v) == MapGet(m, success, hash, eq, v.t, v.c)
  {
    var constant := GetConstant(m, success);
    var impl := ImplFormula(m, eq, constant, GetTraversal(m), GetCollision(m), success);
    f := WrapFormula(GetWrapper(m), impl, KeyHash(m, hash),
                     constant + (if success then KeyEq(m, eq) else 0), GetTraversal(m), GetCollision(m) + KeyEq(m, eq));
    forall v: Counters | v.t >= 1 && 0 <= v.c < v.t
      ensures Value(f, v) == MapGet(m, success, hash, eq, v.t, v.c)
    {
      GetIsLinear(m, success, hash, eq, v.t, v.c);
    }
  }

  method MapEraseFormula(m: Metric, hash: KeyType, eq: KeyType) returns (f: Formula)
    ensures IsLinear(f, EraseBase(m, hash, eq), EraseTraversal(m), EraseCollision(m) + KeyEq(m, eq))
    ensures forall v: Counters :: v.t >= 1 && 0 <= v.c < v.t ==> Value(f, v) == MapErase(m, hash, eq, v.t, v.c)
  {
    var impl := ImplFormula(m, eq, EraseConstant(m), EraseTraversal(m), EraseCollision(m), true);
    f := WrapFormula(EraseWrapper(m), impl, KeyHash(m, hash),
                     EraseConstant(m) + KeyEq(m, eq), EraseTraversal(m), EraseCollision(m) + KeyEq(m, eq));
    forall v: Counters | v.t >= 1 && 0 <= v.c < v.t
      ensures Value(f, v) == MapErase(m, hash, eq, v.t, v.c)
    {
      EraseIsLinear(m, hash, eq, v.t, v.c);
    }
  }

  function EraseBase(m: Metric, hash: KeyType, eq: KeyType): int {
    EraseWrapper(m) + EraseConstant(m) + KeyEq(m, eq) + KeyHash(m, hash)
  }

  lemma GetIsLinear(m: Metric, success: bool, hash: KeyType, eq: KeyType, t: int, c: int)
    requires t >= 1 && 0 <= c < t
    ensures MapGet(m, success, hash, eq, t, c)
            == GetWrapper(m) + GetConstant(m, success) + (if success then KeyEq(m, eq) else 0) + KeyHash(m, hash)
               + GetTraversal(m) * t + (GetCollision(m) + KeyEq(m, eq)) * c
  {
    hide KeyEq, KeyHash;
    var k := KeyEq(m, eq);
    Distribute(GetCollision(m), k, c);
    Distribute(GetTraversal(m) + GetCollision(m), k, c);
  }

  lemma EraseIsLinear(m: Metric, hash: KeyType, eq: KeyType, t: int, c: int)
    requires t >= 1 && 0 <= c < t
    ensures MapErase(m, hash, eq, t, c)
            == EraseBase(m, hash, eq) + EraseTraversal(m) * t + (EraseCollision(m) + KeyEq(m, eq)) * c
  {
    hide KeyEq, KeyHash;
    var k := KeyEq(m, eq);
    Distribute(EraseCollision(m), k, c);
    Distribute(EraseTraversal(m) + EraseCollision(m), k, c);
  }
}
