/** The performance-formula algebra of dpdk-nfs/perf-contracts/perf-contracts.cpp: formulas are
    sums of monomials over loop counters, stored as a map from the monomial's spelling to its
    coefficient. */
module PerfFormulas {

  type Formula = map<string, int>

  /** Level of abstraction: loop counters, or the given function names. */
  datatype Abstraction = LoopCtrs | FnCalls(names: set<string>)

  const CONSTANT: string := "constant"

  predicate Supported(abs: Abstraction, symbol: string) {
    match abs
    case LoopCtrs => symbol in {"e", "t", "c", "s", CONSTANT}
    case FnCalls(names) => symbol in names || symbol == CONSTANT
  }

  predicate CounterWord(key: string) {
    forall i :: 0 <= i < |key| ==> Supported(LoopCtrs, [key[i]])
  }

  /** check_formula. */
  predicate CheckFormula(f: Formula, abs: Abstraction) {
    forall key :: key in f ==> Supported(abs, key) || (abs == LoopCtrs && CounterWord(key))
  }

  /** Over loop counters a formula passes the check exactly when every key is "constant" or a word in the letters
      of the four counters, the empty word included; over function calls, when every key is one of the names. */
  lemma CheckedIff(f: Formula, names: set<string>)
    ensures CheckFormula(f, LoopCtrs)
            <==> forall key :: key in f ==> key == "constant" || forall ch :: ch in key ==> ch in {'e', 't', 'c', 's'}
    ensures CheckFormula(f, FnCalls(names)) <==> forall key :: key in f ==> key in names || key == "constant"
  {
    forall key
      ensures Supported(LoopCtrs, key) || CounterWord(key)
              <==> key == "constant" || forall ch :: ch in key ==> ch in {'e', 't', 'c', 's'}
    {
      LetterWord(key);
    }
  }

  lemma LetterWord(key: string)
    ensures CounterWord(key) <==> forall ch :: ch in key ==> ch in {'e', 't', 'c', 's'}
    ensures Supported(LoopCtrs, key) ==> key == "constant" || CounterWord(key)
  {
    forall ch: char
      ensures Supported(LoopCtrs, [ch]) <==> ch in {'e', 't', 'c', 's'}
    {
      assert |CONSTANT| == 8;
      assert [ch][0] == ch;
    }
    if CounterWord(key) {
      forall ch | ch in key
        ensures ch in {'e', 't', 'c', 's'}
      {
        var i :| 0 <= i < |key| && key[i] == ch;
        assert Supported(LoopCtrs, [key[i]]);
      }
    }
    if forall ch :: ch in key ==> ch in {'e', 't', 'c', 's'} {
      forall i | 0 <= i < |key|
        ensures Supported(LoopCtrs, [key[i]])
      {
        assert key[i] in key;
      }
    }
  }

  // ----- meaning

  /** The value of a formula when each key weighs w(key). */
  ghost function Eval(f: Formula, w: string -> int): int {
    if f == map[] then 0
    else
      var k :| k in f;
      f[k] * w(k) + Eval(f - {k}, w)
  }

  lemma {:induction false} EvalRemove(f: Formula, w: string -> int, k: string)
    requires k in f
    ensures Eval(f, w) == f[k] * w(k) + Eval(f - {k}, w)
    decreases |f|
  {
    var j :| j in f && Eval(f, w) == f[j] * w(j) + Eval(f - {j}, w);
    if j != k {
      EvalRemove(f - {j}, w, k);
      EvalRemove(f - {k}, w, j);
      assert f - {j} - {k} == f - {k} - {j};
    }
  }

  lemma EvalInsert(f: Formula, w: string -> int, k: string, x: int)
    ensures Eval(f[k := x], w) == Eval(f - {k}, w) + x * w(k)
  {
    EvalRemove(f[k := x], w, k);
    assert f[k := x] - {k} == f - {k};
  }

  function Coefficient(f: Formula, k: string): int {
    if k in f then f[k] else 0
  }

  lemma EvalWithout(f: Formula, w: string -> int, k: string)
    ensures Eval(f, w) == Coefficient(f, k) * w(k) + Eval(f - {k}, w)
  {
    if k in f {
      EvalRemove(f, w, k);
    } else {
      assert f - {k} == f;
    }
  }

  // ----- sums

  function Plus(a: Formula, b: Formula): Formula {
    map k | k in a.Keys + b.Keys :: Coefficient(a, k) + Coefficient(b, k)
  }

  lemma PlusKeepsCheck(a: Formula, b: Formula, abs: Abstraction)
    requires CheckFormula(a, abs) && CheckFormula(b, abs)
    ensures CheckFormula(Plus(a, b), abs)
  {
  }

  /** add_perf_formula. The terms of ip2 may come in any order. */
  method Add(ip1: Formula, ip2: Formula, abs: Abstraction) returns (result: Formula)
    requires CheckFormula(ip1, abs) && CheckFormula(ip2, abs)
    ensures result == Plus(ip1, ip2)
    ensures CheckFormula(result, abs)
  {
    hide CheckFormula, Plus;
    PlusKeepsCheck(ip1, ip2, abs);
    result := ip1;
    var todo := ip2;
    while todo != map[]
      invariant Plus(result, todo) == Plus(ip1, ip2)
      decreases |todo|
    {
      var k :| k in todo;
      PlusMove(result, todo, k);
      if k in result && result[k] != 0 {
        result := result[k := result[k] + todo[k]];
      } else {
        result := result[k := todo[k]];
      }
      todo := todo - {k};
    }
    PlusNothing(result, k => 0);
  }

  lemma PlusMove(a: Formula, b: Formula, k: string)
    requires k in b
    ensures Plus(a[k := Coefficient(a, k) + b[k]], b - {k}) == Plus(a, b)
  {
    var moved := Plus(a[k := Coefficient(a, k) + b[k]], b - {k});
    assert moved.Keys == Plus(a, b).Keys;
    assert forall j :: j in moved ==> moved[j] == Plus(a, b)[j];
  }

  lemma PlusParts(a: Formula, b: Formula, k: string)
    ensures Plus(a, b) - {k} == Plus(a - {k}, b - {k})
    ensures Coefficient(Plus(a, b), k) == Coefficient(a, k) + Coefficient(b, k)
  {
  }

  lemma PlusNothing(a: Formula, w: string -> int)
    ensures Plus(a, map[]) == a && Eval(map[], w) == 0
  {
  }

  /** Adding formulas adds their values, whatever the keys stand for. */
  lemma {:induction false} PlusAddsValues(a: Formula, b: Formula, w: string -> int)
    ensures Eval(Plus(a, b), w) == Eval(a, w) + Eval(b, w)
    decreases |b|
  {
    hide Eval, Plus, Coefficient;
    if b == map[] {
      PlusNothing(a, w);
    } else {
      var k :| k in b;
      PlusAddsValues(a - {k}, b - {k}, w);
      PlusParts(a, b, k);
      EvalWithout(a, w, k);
      EvalWithout(b, w, k);
      EvalWithout(Plus(a, b), w, k);
      Distribute(Coefficient(a, k), Coefficient(b, k), w(k));
    }
  }

  lemma Distribute(x: int, y: int, z: int)
    ensures (x + y) * z == x * z + y * z
  {
  }

  // ----- products of loop-counter formulas

  function ProductKey(k1: string, k2: string): string {
    var term1 := if k1 == CONSTANT then "" else k1;
    var term2 := if term1 == "" then k2 else if k2 == CONSTANT then "" else k2;
    term1 + term2
  }

  ghost function Image(k1s: set<string>, k2s: set<string>): set<string> {
    set k1, k2 | k1 in k1s && k2 in k2s :: ProductKey(k1, k2)
  }

  /** What term-by-term multiplication can produce: every product key holds the product of one of
      the pairs that lead to it (the last one written). */
  ghost predicate IsProduct(r: Formula, a: Formula, b: Formula) {
    && r.Keys == Image(a.Keys, b.Keys)
    && (forall key :: key in r ==>
          exists k1, k2 :: k1 in a && k2 in b && ProductKey(k1, k2) == key && r[key] == a[k1] * b[k2])
  }

  ghost predicate NoCollision(k1s: set<string>, k2s: set<string>) {
    forall k1, k2, l1, l2 ::
      k1 in k1s && k2 in k2s && l1 in k1s && l2 in k2s && ProductKey(k1, k2) == ProductKey(l1, l2) ==>
        k1 == l1 && k2 == l2
  }

  /** Values of the loop counters: expired flows, traversals, collisions, lookup stages. */
  datatype Counters = Counters(e: int, t: int, c: int, s: int)

  function CounterValue(v: Counters, ch: char): int {
    if ch == 'e' then v.e else if ch == 't' then v.t else if ch == 'c' then v.c else if ch == 's' then v.s else 1
  }

  function Word(v: Counters, key: string): int {
    if key == "" then 1 else CounterValue(v, key[0]) * Word(v, key[1..])
  }

  /** The monomial a key spells. */
  function Monomial(v: Counters, key: string): int {
    if key == CONSTANT then 1 else Word(v, key)
  }

  ghost function Value(f: Formula, v: Counters): int {
    Eval(f, key => Monomial(v, key))
  }

  ghost predicate ValidKey(key: string) {
    key == CONSTANT || CounterWord(key)
  }

  lemma ConstantIsNoWord(key: string)
    requires CounterWord(key)
    ensures key != CONSTANT
  {
    assert CONSTANT[1] == 'o';
  }

  lemma {:induction false} WordConcat(v: Counters, a: string, b: string)
    ensures Word(v, a + b) == Word(v, a) * Word(v, b)
  {
    if a == "" {
      assert a + b == b;
    } else {
      WordConcat(v, a[1..], b);
      assert (a + b)[1..] == a[1..] + b;
      MulAssoc(CounterValue(v, a[0]), Word(v, a[1..]), Word(v, b));
    }
  }

  lemma MulAssoc(x: int, y: int, z: int)
    ensures x * (y * z) == x * y * z
  {
  }

  lemma ProductKeyMultiplies(v: Counters, k1: string, k2: string)
    requires ValidKey(k1) && ValidKey(k2)
    ensures ValidKey(ProductKey(k1, k2))
    ensures Monomial(v, ProductKey(k1, k2)) == Monomial(v, k1) * Monomial(v, k2)
  {
    assert "" + k2 == k2 && k1 + "" == k1;
    if k1 != CONSTANT && k1 != "" && k2 != CONSTANT {
      WordConcat(v, k1, k2);
      ConstantIsNoWord(k1 + k2);
    }
  }

  ghost predicate ProductSoFar(r: Formula, a: Formula, b: Formula, done: set<(string, string)>) {
    && (forall p :: p in done ==> p.0 in a && p.1 in b && ProductKey(p.0, p.1) in r)
    && (forall key :: key in r ==>
          exists p :: p in done && p.0 in a && p.1 in b && ProductKey(p.0, p.1) == key && r[key] == a[p.0] * b[p.1])
  }

  lemma OneMoreTerm(r: Formula, a: Formula, b: Formula, done: set<(string, string)>, k1: string, k2: string)
    requires ProductSoFar(r, a, b, done) && k1 in a && k2 in b
    ensures ProductSoFar(r[ProductKey(k1, k2) := a[k1] * b[k2]], a, b, done + {(k1, k2)})
  {
    var key := ProductKey(k1, k2);
    var r' := r[key := a[k1] * b[k2]];
    forall j | j in r'
      ensures exists p :: p in done + {(k1, k2)} && p.0 in a && p.1 in b
                          && ProductKey(p.0, p.1) == j && r'[j] == a[p.0] * b[p.1]
    {
      if j == key {
        assert (k1, k2) in done + {(k1, k2)};
      } else {
        var p :| p in done && p.0 in a && p.1 in b && ProductKey(p.0, p.1) == j && r[j] == a[p.0] * b[p.1];
        assert p in done + {(k1, k2)};
      }
    }
  }

  lemma AllTermsDone(r: Formula, a: Formula, b: Formula, done: set<(string, string)>)
    requires ProductSoFar(r, a, b, done)
    requires forall k1, k2 :: k1 in a && k2 in b ==> (k1, k2) in done
    ensures IsProduct(r, a, b)
  {
    forall key | key in r
      ensures key in Image(a.Keys, b.Keys)
      ensures exists k1, k2 :: k1 in a && k2 in b && ProductKey(k1, k2) == key && r[key] == a[k1] * b[k2]
    {
      var p :| p in done && p.0 in a && p.1 in b && ProductKey(p.0, p.1) == key && r[key] == a[p.0] * b[p.1];
      assert p.0 in a && p.1 in b && ProductKey(p.0, p.1) == key;
    }
    forall key | key in Image(a.Keys, b.Keys)
      ensures key in r
    {
      var k1, k2 :| k1 in a && k2 in b && ProductKey(k1, k2) == key;
      assert (k1, k2) in done;
    }
  }

  /** multiply_perf_formula, with the terms of either formula in any order. */
  method Multiply(ip1: Formula, ip2: Formula) returns (result: Formula)
    requires CheckFormula(ip1, LoopCtrs) && CheckFormula(ip2, LoopCtrs)
    ensures IsProduct(result, ip1, ip2)
  {
    hide CheckFormula, IsProduct, ProductSoFar, ProductKey;
    result := map[];
    ghost var done: set<(string, string)> := {};
    assert ProductSoFar(result, ip1, ip2, done) by {
      NothingDone(ip1, ip2);
    }
    var todo1 := ip1;
    while todo1 != map[]
      invariant todo1.Keys <= ip1.Keys
      invariant ProductSoFar(result, ip1, ip2, done)
      invariant forall j1, j2 :: j1 in ip1 && j1 !in todo1 && j2 in ip2 ==> (j1, j2) in done
      decreases |todo1|
    {
      var k1 :| k1 in todo1;
      var todo2 := ip2;
      while todo2 != map[]
        invariant todo2.Keys <= ip2.Keys
        invariant ProductSoFar(result, ip1, ip2, done)
        invariant forall j1, j2 :: j1 in ip1 && j1 !in todo1 && j2 in ip2 ==> (j1, j2) in done
        invariant forall j2 :: j2 in ip2 && j2 !in todo2 ==> (k1, j2) in done
        decreases |todo2|
      {
        var k2 :| k2 in todo2;
        OneMoreTerm(result, ip1, ip2, done, k1, k2);
        result := result[ProductKey(k1, k2) := ip1[k1] * ip2[k2]];
        done := done + {(k1, k2)};
        todo2 := todo2 - {k2};
      }
      todo1 := todo1 - {k1};
    }
    AllTermsDone(result, ip1, ip2, done);
  }

  lemma NothingDone(a: Formula, b: Formula)
    ensures ProductSoFar(map[], a, b, {})
  {
  }

  lemma ProductKeepsCheck(r: Formula, a: Formula, b: Formula)
    requires CheckFormula(a, LoopCtrs) && CheckFormula(b, LoopCtrs) && IsProduct(r, a, b)
    ensures CheckFormula(r, LoopCtrs)
  {
    hide ProductKey, Monomial;
    forall key | key in r
      ensures ValidKey(key)
    {
      var k1, k2 :| k1 in a && k2 in b && ProductKey(k1, k2) == key;
      ProductKeyMultiplies(Counters(0, 0, 0, 0), k1, k2);
    }
  }

  // ----- when multiplication preserves the value

  ghost predicate Multiplicative(w: string -> int, k1s: set<string>, k2s: set<string>) {
    forall k1, k2 :: k1 in k1s && k2 in k2s ==> w(ProductKey(k1, k2)) == w(k1) * w(k2)
  }

  /** One term times a whole formula. */
  ghost predicate IsRow(r: Formula, k1: string, x: int, b: Formula) {
    && (forall k2 :: k2 in b ==> ProductKey(k1, k2) in r && r[ProductKey(k1, k2)] == x * b[k2])
    && (forall key :: key in r ==> exists k2 :: k2 in b && ProductKey(k1, k2) == key)
  }

  lemma RowWithout(r: Formula, k1: string, x: int, b: Formula, k2: string)
    requires IsRow(r, k1, x, b) && NoCollision({k1}, b.Keys) && k2 in b
    ensures ProductKey(k1, k2) in r && r[ProductKey(k1, k2)] == x * b[k2]
    ensures IsRow(r - {ProductKey(k1, k2)}, k1, x, b - {k2}) && NoCollision({k1}, (b - {k2}).Keys)
  {
    hide ProductKey;
    var key := ProductKey(k1, k2);
    forall l2 | l2 in b - {k2}
      ensures ProductKey(k1, l2) != key
    {
      assert k1 in {k1} && k2 in b.Keys && l2 in b.Keys;
    }
    forall j | j in r - {key}
      ensures exists l2 :: l2 in b - {k2} && ProductKey(k1, l2) == j
    {
      var l2 :| l2 in b && ProductKey(k1, l2) == j;
    }
  }

  lemma MultiplicativeAt(w: string -> int, k1s: set<string>, k2s: set<string>, k1: string, k2: string)
    requires Multiplicative(w, k1s, k2s) && k1 in k1s && k2 in k2s
    ensures w(ProductKey(k1, k2)) == w(k1) * w(k2)
    ensures Multiplicative(w, k1s, k2s - {k2})
  {
    hide ProductKey;
  }

  lemma {:induction false} RowValue(r: Formula, k1: string, x: int, b: Formula, w: string -> int)
    requires IsRow(r, k1, x, b) && NoCollision({k1}, b.Keys) && Multiplicative(w, {k1}, b.Keys)
    ensures Eval(r, w) == x * w(k1) * Eval(b, w)
    decreases b.Keys
  {
    hide ProductKey, Eval, NoCollision, Multiplicative;
    if b == map[] {
      assert r == map[];
      PlusNothing(map[], w);
    } else {
      var k2 :| k2 in b;
      var key := ProductKey(k1, k2);
      RowWithout(r, k1, x, b, k2);
      MultiplicativeAt(w, {k1}, b.Keys, k1, k2);
      assert (b - {k2}).Keys == b.Keys - {k2};
      RowValue(r - {key}, k1, x, b - {k2}, w);
      EvalRemove(r, w, key);
      EvalRemove(b, w, k2);
      RowArithmetic(x, b[k2], w(k1), w(k2), Eval(b - {k2}, w));
    }
  }

  lemma RowArithmetic(x: int, y: int, m: int, n: int, rest: int)
    ensures x * y * (m * n) + x * m * rest == x * m * (y * n + rest)
  {
  }

  function Restrict(f: Formula, keys: set<string>): Formula {
    map key | key in f && key in keys :: f[key]
  }

  lemma EvalSplit(f: Formula, keys: set<string>, w: string -> int)
    ensures Eval(f, w) == Eval(Restrict(f, keys), w) + Eval(f - keys, w)
  {
    assert f == Plus(Restrict(f, keys), f - keys);
    PlusAddsValues(Restrict(f, keys), f - keys, w);
  }

  lemma ProductAt(r: Formula, a: Formula, b: Formula, k1: string, k2: string)
    requires IsProduct(r, a, b) && NoCollision(a.Keys, b.Keys) && k1 in a && k2 in b
    ensures ProductKey(k1, k2) in r && r[ProductKey(k1, k2)] == a[k1] * b[k2]
  {
    hide ProductKey;
    var key := ProductKey(k1, k2);
    assert k1 in a.Keys && k2 in b.Keys && key in Image(a.Keys, b.Keys);
    var l1, l2 :| l1 in a && l2 in b && ProductKey(l1, l2) == key && r[key] == a[l1] * b[l2];
    assert l1 in a.Keys && l2 in b.Keys;
  }

  /** Splitting off one term of a splits off its row of the product. */
  lemma ProductRow(r: Formula, a: Formula, b: Formula, k1: string)
    requires IsProduct(r, a, b) && NoCollision(a.Keys, b.Keys) && k1 in a
    ensures IsRow(Restrict(r, Image({k1}, b.Keys)), k1, a[k1], b)
  {
    hide ProductKey, IsProduct, NoCollision;
    forall k2 | k2 in b
      ensures ProductKey(k1, k2) in Image({k1}, b.Keys)
      ensures ProductKey(k1, k2) in r && r[ProductKey(k1, k2)] == a[k1] * b[k2]
    {
      assert k1 in {k1} && k2 in b.Keys;
      ProductAt(r, a, b, k1, k2);
    }
    forall key | key in Restrict(r, Image({k1}, b.Keys))
      ensures exists k2 :: k2 in b && ProductKey(k1, k2) == key
    {
      var j1, k2 :| j1 in {k1} && k2 in b.Keys && ProductKey(j1, k2) == key;
      assert k2 in b && ProductKey(k1, k2) == key;
    }
  }

  lemma ProductRest(r: Formula, a: Formula, b: Formula, k1: string)
    requires IsProduct(r, a, b) && NoCollision(a.Keys, b.Keys) && k1 in a
    ensures IsProduct(r - Image({k1}, b.Keys), a - {k1}, b) && NoCollision((a - {k1}).Keys, b.Keys)
  {
    hide ProductKey;
    var r', a' := r - Image({k1}, b.Keys), a - {k1};
    forall key | key in r'
      ensures key in Image(a'.Keys, b.Keys)
      ensures exists l1, l2 :: l1 in a' && l2 in b && ProductKey(l1, l2) == key && r'[key] == a'[l1] * b[l2]
    {
      var l1, l2 :| l1 in a && l2 in b && ProductKey(l1, l2) == key && r[key] == a[l1] * b[l2];
      assert l1 != k1;
      assert l1 in a' && l2 in b;
    }
    forall key | key in Image(a'.Keys, b.Keys)
      ensures key in r'
    {
      var l1, l2 :| l1 in a'.Keys && l2 in b.Keys && ProductKey(l1, l2) == key;
      assert l1 in a.Keys && key in Image(a.Keys, b.Keys);
      assert key !in Image({k1}, b.Keys);
    }
  }

  lemma {:induction false} ProductEval(r: Formula, a: Formula, b: Formula, w: string -> int)
    requires IsProduct(r, a, b) && NoCollision(a.Keys, b.Keys) && Multiplicative(w, a.Keys, b.Keys)
    ensures Eval(r, w) == Eval(a, w) * Eval(b, w)
    decreases a.Keys
  {
    hide ProductKey, Eval, IsProduct, IsRow, Restrict, Image, Multiplicative;
    if a == map[] {
      EmptyProduct(r, b);
      PlusNothing(map[], w);
    } else {
      var k1 :| k1 in a;
      var row := Image({k1}, b.Keys);
      ProductRow(r, a, b, k1);
      ProductRest(r, a, b, k1);
      MultiplicativeOn(w, a.Keys, b.Keys, k1);
      assert (a - {k1}).Keys == a.Keys - {k1};
      RowValue(Restrict(r, row), k1, a[k1], b, w);
      ProductEval(r - row, a - {k1}, b, w);
      EvalSplit(r, row, w);
      EvalRemove(a, w, k1);
      Distribute(a[k1] * w(k1), Eval(a - {k1}, w), Eval(b, w));
    }
  }

  lemma MultiplicativeOn(w: string -> int, k1s: set<string>, k2s: set<string>, k1: string)
    requires Multiplicative(w, k1s, k2s) && k1 in k1s
    ensures Multiplicative(w, {k1}, k2s) && Multiplicative(w, k1s - {k1}, k2s)
  {
    hide ProductKey;
  }

  lemma EmptyProduct(r: Formula, b: Formula)
    requires IsProduct(r, map[], b)
    ensures r == map[]
  {
  }

  /** The product's value is the product of the values, provided no two pairs share a key. */
  lemma ProductValue(r: Formula, a: Formula, b: Formula, v: Counters)
    requires CheckFormula(a, LoopCtrs) && CheckFormula(b, LoopCtrs)
    requires IsProduct(r, a, b) && NoCollision(a.Keys, b.Keys)
    ensures Value(r, v) == Value(a, v) * Value(b, v)
  {
    var w := key => Monomial(v, key);
    forall k1, k2 | k1 in a.Keys && k2 in b.Keys
      ensures w(ProductKey(k1, k2)) == w(k1) * w(k2)
    {
      ProductKeyMultiplies(v, k1, k2);
    }
    ProductEval(r, a, b, w);
  }

  ghost predicate NoCommonLetter(a: string, b: string) {
    forall i, j :: 0 <= i < |a| && 0 <= j < |b| ==> a[i] != b[j]
  }

  /** No letter occurs on both sides; the empty product is spelled "constant", never "". */
  ghost predicate DisjointCounters(k1s: set<string>, k2s: set<string>) {
    && "" !in k1s && "" !in k2s
    && (forall k1, k2 :: k1 in k1s && k2 in k2s && k1 != CONSTANT && k2 != CONSTANT ==> NoCommonLetter(k1, k2))
  }

  function Spell(key: string): string {
    if key == CONSTANT then "" else key
  }

  lemma SplitPoint(x: string, y: string, p: string, q: string)
    requires x + y == p + q && |x| < |p|
    ensures |y| > 0 && y[0] == p[|x|]
  {
    assert (x + y)[|x|] == (p + q)[|x|];
  }

  lemma DisjointPair(k1s: set<string>, k2s: set<string>, k1: string, k2: string, l1: string, l2: string)
    requires DisjointCounters(k1s, k2s)
    requires forall k :: k in k1s + k2s ==> ValidKey(k)
    requires k1 in k1s && l1 in k1s && k2 in k2s && l2 in k2s && ProductKey(k1, k2) == ProductKey(l1, l2)
    ensures |Spell(k1)| >= |Spell(l1)|
  {
    if |Spell(k1)| < |Spell(l1)| {
      assert l1 in k1s + k2s && k2 in k1s + k2s && l2 in k1s + k2s;
      if k1 == CONSTANT {
        assert "" + k2 == k2;
        if k2 == CONSTANT {
          assert CounterWord(l1 + Spell(l2));
          ConstantIsNoWord(l1 + Spell(l2));
        } else {
          SplitPoint("", k2, l1, Spell(l2));
        }
      } else {
        SplitPoint(k1, Spell(k2), l1, Spell(l2));
      }
      assert false;
    }
  }

  /** The assumption the source writes down suffices. */
  lemma DisjointMeansNoCollision(k1s: set<string>, k2s: set<string>)
    requires DisjointCounters(k1s, k2s)
    requires forall k :: k in k1s + k2s ==> ValidKey(k)
    ensures NoCollision(k1s, k2s)
  {
    forall k1, k2, l1, l2 | k1 in k1s && k2 in k2s && l1 in k1s && l2 in k2s && ProductKey(k1, k2) == ProductKey(l1, l2)
      ensures k1 == l1 && k2 == l2
    {
      DisjointPair(k1s, k2s, k1, k2, l1, l2);
      DisjointPair(k1s, k2s, l1, l2, k1, k2);
      SameSplit(k1, k2, l1, l2);
    }
  }

  lemma SameSplit(k1: string, k2: string, l1: string, l2: string)
    requires k1 != "" && k2 != "" && l1 != "" && l2 != "" && |Spell(k1)| == |Spell(l1)|
    requires ProductKey(k1, k2) == ProductKey(l1, l2)
    ensures k1 == l1 && k2 == l2
  {
    var n := |Spell(k1)|;
    if k1 == CONSTANT {
      assert "" + k2 == k2 && "" + l2 == l2;
    } else {
      assert ProductKey(k1, k2)[..n] == k1 && ProductKey(l1, l2)[..n] == l1;
      assert ProductKey(k1, k2)[n..] == Spell(k2) && ProductKey(l1, l2)[n..] == Spell(l2);
    }
  }

  /** A counter on both sides is enough for two pairs to share a key. */
  lemma SharedCounterCollides(k1s: set<string>, k2s: set<string>, k: string)
    requires k in k1s && k in k2s && CONSTANT in k1s && CONSTANT in k2s && k != CONSTANT && k != ""
    ensures !NoCollision(k1s, k2s)
  {
    assert k + "" == k && "" + k == k;
    assert ProductKey(k, CONSTANT) == ProductKey(CONSTANT, k);
  }

  // ----- and only then

  function Ones(keys: set<string>): Formula {
    map k | k in keys :: 1
  }

  const ALL_ONE: Counters := Counters(1, 1, 1, 1)

  lemma {:induction false} WordOne(key: string)
    ensures Word(ALL_ONE, key) == 1
  {
    if key != "" {
      WordOne(key[1..]);
    }
  }

  lemma {:induction false} OnesValue(keys: set<string>)
    ensures Value(Ones(keys), ALL_ONE) == |keys|
  {
    var w := key => Monomial(ALL_ONE, key);
    if keys != {} {
      var k :| k in keys;
      OnesValue(keys - {k});
      WordOne(k);
      EvalRemove(Ones(keys), w, k);
      assert Ones(keys) - {k} == Ones(keys - {k});
    }
  }

  ghost function Pairs(k1s: set<string>, k2s: set<string>): set<(string, string)> {
    set k1, k2 | k1 in k1s && k2 in k2s :: (k1, k2)
  }

  ghost function KeysOf(pairs: set<(string, string)>): set<string> {
    set p | p in pairs :: ProductKey(p.0, p.1)
  }

  lemma {:induction false} KeysOfSize(pairs: set<(string, string)>)
    ensures |KeysOf(pairs)| <= |pairs|
  {
    hide ProductKey;
    if pairs != {} {
      var p :| p in pairs;
      KeysOfSize(pairs - {p});
      assert KeysOf(pairs) == KeysOf(pairs - {p}) + {ProductKey(p.0, p.1)};
    }
  }

  lemma {:induction false} RowSize(k1: string, k2s: set<string>)
    ensures |Pairs({k1}, k2s)| == |k2s|
  {
    if k2s == {} {
      assert Pairs({k1}, k2s) == {};
    } else {
      var k2 :| k2 in k2s;
      RowSize(k1, k2s - {k2});
      assert Pairs({k1}, k2s) == Pairs({k1}, k2s - {k2}) + {(k1, k2)};
    }
  }

  lemma PairsSplit(k1s: set<string>, k2s: set<string>, k1: string)
    requires k1 in k1s
    ensures |Pairs(k1s, k2s)| == |Pairs(k1s - {k1}, k2s)| + |Pairs({k1}, k2s)|
  {
    assert Pairs(k1s, k2s) == Pairs(k1s - {k1}, k2s) + Pairs({k1}, k2s);
    assert Pairs(k1s - {k1}, k2s) !! Pairs({k1}, k2s);
  }

  lemma RowArea(n: int, m: int)
    ensures (n - 1) * m + m == n * m
  {
  }

  lemma {:induction false} PairsSize(k1s: set<string>, k2s: set<string>)
    ensures |Pairs(k1s, k2s)| == |k1s| * |k2s|
  {
    if k1s == {} {
      assert Pairs(k1s, k2s) == {};
    } else {
      var k1 :| k1 in k1s;
      PairsSize(k1s - {k1}, k2s);
      RowSize(k1, k2s);
      PairsSplit(k1s, k2s, k1);
      RowArea(|k1s|, |k2s|);
    }
  }

  lemma CollisionShrinks(k1s: set<string>, k2s: set<string>)
    requires !NoCollision(k1s, k2s)
    ensures |Image(k1s, k2s)| < |k1s| * |k2s|
  {
    hide ProductKey;
    var k1, k2, l1, l2 :| k1 in k1s && k2 in k2s && l1 in k1s && l2 in k2s
                          && ProductKey(k1, k2) == ProductKey(l1, l2) && !(k1 == l1 && k2 == l2);
    var all := Pairs(k1s, k2s);
    var fewer := all - {(k1, k2)};
    assert (k1, k2) in all && (l1, l2) in fewer;
    ImageWithout(k1s, k2s, k1, k2, l1, l2);
    KeysOfSize(fewer);
    PairsSize(k1s, k2s);
  }

  lemma ImageWithout(k1s: set<string>, k2s: set<string>, k1: string, k2: string, l1: string, l2: string)
    requires k1 in k1s && k2 in k2s && l1 in k1s && l2 in k2s && (k1, k2) != (l1, l2)
    requires ProductKey(k1, k2) == ProductKey(l1, l2)
    ensures Image(k1s, k2s) == KeysOf(Pairs(k1s, k2s) - {(k1, k2)})
  {
    hide ProductKey;
    var fewer := Pairs(k1s, k2s) - {(k1, k2)};
    forall key | key in Image(k1s, k2s)
      ensures key in KeysOf(fewer)
    {
      var j1, j2 :| j1 in k1s && j2 in k2s && ProductKey(j1, j2) == key;
      var p := if (j1, j2) == (k1, k2) then (l1, l2) else (j1, j2);
      assert p in fewer && ProductKey(p.0, p.1) == key;
    }
    forall key | key in KeysOf(fewer)
      ensures key in Image(k1s, k2s)
    {
      var p :| p in fewer && ProductKey(p.0, p.1) == key;
      assert p.0 in k1s && p.1 in k2s;
    }
  }

  lemma OnesProduct(k1s: set<string>, k2s: set<string>)
    ensures IsProduct(Ones(Image(k1s, k2s)), Ones(k1s), Ones(k2s))
  {
    hide ProductKey;
    var a, b, r := Ones(k1s), Ones(k2s), Ones(Image(k1s, k2s));
    assert a.Keys == k1s && b.Keys == k2s && r.Keys == Image(k1s, k2s);
    forall key | key in r
      ensures exists k1, k2 :: k1 in a && k2 in b && ProductKey(k1, k2) == key && r[key] == a[k1] * b[k2]
    {
      var k1, k2 :| k1 in k1s && k2 in k2s && ProductKey(k1, k2) == key;
      assert k1 in a && k2 in b && ProductKey(k1, k2) == key;
    }
  }

  ghost predicate AlwaysExact(k1s: set<string>, k2s: set<string>) {
    forall r, a: Formula, b: Formula, v ::
      a.Keys == k1s && b.Keys == k2s && IsProduct(r, a, b) ==> Value(r, v) == Value(a, v) * Value(b, v)
  }

  /** Term-by-term multiplication of formulas with these keys preserves the value, for all
      coefficients and all counters, exactly when no two pairs of keys spell the same product. */
  lemma MultiplyExactIff(k1s: set<string>, k2s: set<string>)
    requires forall k :: k in k1s + k2s ==> ValidKey(k)
    ensures AlwaysExact(k1s, k2s) <==> NoCollision(k1s, k2s)
  {
    if NoCollision(k1s, k2s) {
      forall r, a: Formula, b: Formula, v | a.Keys == k1s && b.Keys == k2s && IsProduct(r, a, b)
        ensures Value(r, v) == Value(a, v) * Value(b, v)
      {
        CheckedKeys(a, k1s, k1s + k2s);
        CheckedKeys(b, k2s, k1s + k2s);
        ProductValue(r, a, b, v);
      }
    } else {
      OnesProduct(k1s, k2s);
      CollisionShrinks(k1s, k2s);
      OnesValue(k1s);
      OnesValue(k2s);
      OnesValue(Image(k1s, k2s));
      assert Ones(k1s).Keys == k1s && Ones(k2s).Keys == k2s;
    }
  }

  lemma CheckedKeys(f: Formula, keys: set<string>, all: set<string>)
    requires f.Keys == keys && keys <= all && forall k :: k in all ==> ValidKey(k)
    ensures CheckFormula(f, LoopCtrs)
  {
  }
}
