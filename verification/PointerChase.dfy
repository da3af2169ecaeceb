/** The pointer-chasing buffer of ir-perf/generate_load_latency_ir.py: the two loops of the emitted
    init_buffer write a successor map over the buffer's lines, and bench_loop walks it. */
module PointerChase {
  import opened Modulo
  import opened Gcds

  // ----- sizing

  function BufferElements(bufferSize: nat, line: nat): nat
    requires line > 0
  {
    if bufferSize / line < 1 then 1 else bufferSize / line
  }

  function ActualBufferSize(bufferSize: nat, line: nat): nat
    requires line > 0
  {
    var needed := BufferElements(bufferSize, line) * line + line;
    if bufferSize < needed then needed else bufferSize
  }

  /** Whatever size is asked for, the buffer is exactly one line longer than its elements. */
  lemma SizeIsWholeLines(bufferSize: nat, line: nat)
    requires line > 0
    ensures ActualBufferSize(bufferSize, line) == (BufferElements(bufferSize, line) + 1) * line
  {
    var q, r := bufferSize / line, bufferSize % line;
    assert bufferSize == q * line + r;
    assert (q + 1) * line == q * line + line;
  }

  /** The elements are the whole lines of the size asked for, at least one; the buffer is the least number of
      whole lines that is longer than that size and than a line. */
  lemma SizeInBytes(bufferSize: nat, line: nat)
    requires line > 0
    ensures var n, size := BufferElements(bufferSize, line), ActualBufferSize(bufferSize, line);
            && n >= 1
            && (bufferSize >= line ==> n * line <= bufferSize < (n + 1) * line)
            && (bufferSize < line ==> n == 1)
            && size == (n + 1) * line && size > bufferSize && size > line
            && forall m: nat :: m * line > bufferSize && m * line > line ==> size <= m * line
  {
    SizeIsWholeLines(bufferSize, line);
    var n, q := BufferElements(bufferSize, line), bufferSize / line;
    assert q * line <= bufferSize < (q + 1) * line by {
      assert bufferSize == q * line + bufferSize % line && (q + 1) * line == q * line + line;
    }
    if q < 1 {
      Smaller(q + 1, 1, line);
    } else {
      Smaller(1, q, line);
    }
    Smaller(1, n, line);
    forall m: nat | m * line > bufferSize && m * line > line
      ensures (n + 1) * line <= m * line
    {
      if m <= n {
        Smaller(m, n, line);
      } else {
        Smaller(n + 1, m, line);
      }
    }
  }

  lemma Smaller(a: nat, b: nat, line: nat)
    requires a <= b
    ensures a * line <= b * line
  {
    assert (b - a) * line == b * line - a * line;
  }

  // ----- the successor map

  /** Which line the pointer stored in line i names, with n elements and a stride of s lines. */
  function Succ(n: nat, s: nat, i: nat): int {
    if i == n then 0 else if i + s <= n then i + s else i + s - n
  }

  function Pred(n: nat, s: nat, t: nat): int {
    if t == 0 then n else if t >= s then t - s else t + n - s
  }

  ghost predicate Config(n: nat, s: nat) {
    n >= 2 && 1 <= s <= n + 1
  }

  /** The successor map is a permutation of the n + 1 lines. */
  lemma SuccIsPermutation(n: nat, s: nat)
    requires Config(n, s)
    ensures forall i :: 0 <= i <= n ==> 0 <= Succ(n, s, i) <= n && Pred(n, s, Succ(n, s, i)) == i
    ensures forall t :: 0 <= t <= n ==> 0 <= Pred(n, s, t) <= n && Succ(n, s, Pred(n, s, t)) == t
  {
  }

  // ----- the emitted initialisation

  /** The byte address of line i. */
  function Addr(i: nat, line: nat): nat {
    i * line
  }

  lemma AddrOrder(i: nat, j: nat, line: nat)
    requires line > 0
    ensures i < j <==> Addr(i, line) < Addr(j, line)
    ensures i < j ==> Addr(i, line) + line <= Addr(j, line)
    ensures Addr(i, line) + Addr(j, line) == Addr(i + j, line)
  {
    if i < j {
      MulAtLeast(j - i, line);
      assert (j - i) * line == j * line - i * line;
    } else if j < i {
      MulAtLeast(i - j, line);
      assert (i - j) * line == i * line - j * line;
    }
    assert (i + j) * line == i * line + j * line;
  }

  /** Lines below upto hold their successor's address. */
  ghost predicate ChainedBelow(mem: seq<int>, line: nat, n: nat, s: nat, upto: nat) {
    forall i :: 0 <= i < upto && Addr(i, line) < |mem| ==> mem[Addr(i, line)] == Addr(Succ(n, s, i), line)
  }

  lemma StoreNext(mem: seq<int>, line: nat, n: nat, s: nat, i: nat)
    requires line > 0 && Config(n, s) && i <= n && |mem| == Addr(n + 1, line)
    requires ChainedBelow(mem, line, n, s, i)
    ensures Addr(i, line) + line <= |mem|
    ensures ChainedBelow(mem[Addr(i, line) := Addr(Succ(n, s, i), line)], line, n, s, i + 1)
  {
    AddrOrder(i, n + 1, line);
    forall j | 0 <= j < i
      ensures Addr(j, line) != Addr(i, line)
    {
      AddrOrder(j, i, line);
    }
  }

  /** The first store loop of init_buffer: the lines whose successor is in the buffer. Pointers are byte
      offsets into the buffer; each store writes the eight bytes at its address, kept here as the word at
      that address. */
  method StoreInBounds(buffer: array<int>, n: nat, s: nat, line: nat) returns (current: nat)
    requires Config(n, s) && line >= 8 && buffer.Length == Addr(n + 1, line)
    modifies buffer
    ensures current == Addr(n + 1 - s, line) && ChainedBelow(buffer[..], line, n, s, n + 1 - s)
  {
    var end, stride := buffer.Length, s * line;
    assert stride == Addr(s, line) && Addr(0, line) == 0 && Addr(1, line) == line;
    hide Addr, ChainedBelow;
    current := 0;
    ghost var i := 0;
    AddrOrder(s, n + 1, line);
    if stride < end {
      var next := stride;
      while true
        invariant 0 <= i && i + s <= n
        invariant current == Addr(i, line) && next == Addr(i + s, line)
        invariant ChainedBelow(buffer[..], line, n, s, i)
        decreases n - i
      {
        StoreNext(buffer[..], line, n, s, i);
        ghost var before := buffer[..];
        buffer[current] := next;
        assert buffer[..] == before[current := next];
        AddrOrder(i, 1, line);
        AddrOrder(i + 1, s, line);
        AddrOrder(i + 1 + s, n + 1, line);
        current := current + line;
        next := current + stride;
        i := i + 1;
        if !(next < end) {
          break;
        }
      }
    }
  }

  /** The second store loop: the lines whose successor is beyond the end. */
  method StoreOutOfBounds(buffer: array<int>, n: nat, s: nat, line: nat, start: nat) returns (current: nat)
    requires Config(n, s) && line >= 8 && buffer.Length == Addr(n + 1, line)
    requires start == Addr(n + 1 - s, line) && ChainedBelow(buffer[..], line, n, s, n + 1 - s)
    modifies buffer
    ensures current == Addr(n, line) && ChainedBelow(buffer[..], line, n, s, n)
  {
    var stride, nextOut := s * line, line;
    assert stride == Addr(s, line) && nextOut == Addr(1, line);
    hide Addr, ChainedBelow;
    current := start;
    ghost var i := n + 1 - s;
    AddrOrder(1, s, line);
    if nextOut < stride {
      while true
        invariant n + 1 - s <= i < n
        invariant current == Addr(i, line) && nextOut == Addr(i + s - n, line)
        invariant ChainedBelow(buffer[..], line, n, s, i)
        decreases n - i
      {
        StoreNext(buffer[..], line, n, s, i);
        ghost var before := buffer[..];
        buffer[current] := nextOut;
        assert buffer[..] == before[current := nextOut];
        AddrOrder(i, 1, line);
        AddrOrder(i + s - n, 1, line);
        AddrOrder(i + 1 + s - n, s, line);
        current := current + line;
        nextOut := nextOut + line;
        i := i + 1;
        if !(nextOut < stride) {
          break;
        }
      }
    }
  }

  /** Both loops; the last line points back to the start. */
  method InitChain(buffer: array<int>, n: nat, s: nat, line: nat)
    requires Config(n, s) && line >= 8 && buffer.Length == Addr(n + 1, line)
    modifies buffer
    ensures ChainedBelow(buffer[..], line, n, s, n + 1)
  {
    var current := StoreInBounds(buffer, n, s, line);
    current := StoreOutOfBounds(buffer, n, s, line, current);
    assert Addr(0, line) == 0;
    StoreNext(buffer[..], line, n, s, n);
    ghost var before := buffer[..];
    hide Addr, ChainedBelow;
    buffer[current] := 0;
    assert buffer[..] == before[current := 0];
  }

  /** Every line holds its successor's address; a single element its own. */
  ghost predicate Initialised(mem: seq<int>, line: nat, n: nat, s: nat) {
    if n == 1 then |mem| > 0 && mem[0] == 0 else ChainedBelow(mem, line, n, s, n + 1)
  }

  /** init_buffer: a single element points to itself. */
  method InitBuffer(buffer: array<int>, n: nat, s: nat, line: nat)
    requires 1 <= n && 1 <= s <= n + 1 && line >= 8 && buffer.Length == Addr(n + 1, line)
    modifies buffer
    ensures Initialised(buffer[..], line, n, s)
  {
    if n <= 1 {
      AddrOrder(0, n + 1, line);
      buffer[0] := 0;
    } else {
      InitChain(buffer, n, s, line);
    }
  }

  // ----- the walk

  /** The line reached from line 0 after k loads. */
  function Walk(n: nat, s: nat, k: nat): int
    requires Config(n, s)
    ensures 0 <= Walk(n, s, k) <= n
  {
    if k == 0 then 0 else Succ(n, s, Walk(n, s, k - 1))
  }

  /** The residue of x modulo n, taken in 1..n. */
  function Rep(x: int, n: nat): int
    requires n > 0
  {
    (x - 1) % n + 1
  }

  lemma RepStep(n: nat, s: nat, x: int)
    requires Config(n, s) && Rep(x, n) != n
    ensures Succ(n, s, Rep(x, n)) == Rep(x + s, n)
  {
    var i := Rep(x, n);
    SumMod(x - 1, s, n);
    var v := if i + s <= n then i - 1 + s else i + s - n - 1;
    Mod(i - 1 + s, n, if i + s <= n then 0 else 1, v);
  }

  lemma RepIsN(x: int, n: nat)
    requires n > 0
    ensures Rep(x, n) == n <==> x % n == 0
  {
    var q, r := (x - 1) / n, (x - 1) % n;
    assert x == q * n + (r + 1);
    if r == n - 1 {
      assert x == (q + 1) * n;
      MultipleMod(q + 1, n);
    } else {
      Mod(x, n, q, r + 1);
    }
  }

  /** Steps before the walk is back at line 0. */
  function Lap(n: nat, s: nat): nat
    requires Config(n, s)
  {
    GcdDivides(n, s);
    n / Gcd(n, s)
  }

  lemma LapFacts(n: nat, s: nat)
    requires Config(n, s)
    ensures Gcd(n, s) > 0 && Lap(n, s) > 0
    ensures n == Lap(n, s) * Gcd(n, s) && s == (s / Gcd(n, s)) * Gcd(n, s)
    ensures (Lap(n, s) * s) % n == 0
  {
    GcdDivides(n, s);
    var g := Gcd(n, s);
    ExactQuotient(n, g);
    ExactQuotient(s, g);
    SwapFactors(n / g, s / g, g);
    MultipleMod(s / g, n);
  }

  lemma SwapFactors(m: int, c: int, g: int)
    ensures m * (c * g) == c * (m * g)
  {
  }

  /** Until the lap is done, k loads lead to the k-th multiple of the stride, modulo n. */
  lemma {:induction false} WalkIsMultiple(n: nat, s: nat, k: nat)
    requires Config(n, s) && 1 <= k <= Lap(n, s)
    ensures Walk(n, s, k) == Rep(k * s, n)
    ensures Walk(n, s, k) == n <==> k == Lap(n, s)
  {
    LapFacts(n, s);
    RepIsN(k * s, n);
    if k < Lap(n, s) && (k * s) % n == 0 {
      CoprimePart(n, s, k);
      Mod(k, Lap(n, s), 0, k);
      assert false;
    }
    if k == 1 {
      Mod(s - 1, n, if s <= n then 0 else 1, if s <= n then s - 1 else 0);
    } else {
      WalkIsMultiple(n, s, k - 1);
      RepStep(n, s, (k - 1) * s);
      assert (k - 1) * s + s == k * s;
    }
  }

  /** The walk returns to line 0 after exactly n / gcd(n, s) + 1 loads, and repeats. */
  lemma {:induction false} WalkPeriod(n: nat, s: nat, k: nat)
    requires Config(n, s)
    ensures Walk(n, s, k + Lap(n, s) + 1) == Walk(n, s, k)
    ensures 1 <= k <= Lap(n, s) ==> Walk(n, s, k) != 0
  {
    LapFacts(n, s);
    WalkIsMultiple(n, s, Lap(n, s));
    if 1 <= k <= Lap(n, s) {
      WalkIsMultiple(n, s, k);
    }
    if k > 0 {
      WalkPeriod(n, s, k - 1);
    }
  }

  /** Within one lap no line is loaded twice. */
  lemma {:induction false} WalkDistinct(n: nat, s: nat, j: nat, k: nat)
    requires Config(n, s) && j < k <= Lap(n, s)
    ensures Walk(n, s, j) != Walk(n, s, k)
  {
    WalkPeriod(n, s, k);
    if j > 0 {
      WalkDistinct(n, s, j - 1, k - 1);
      SuccIsPermutation(n, s);
    }
  }

  lemma {:induction false} WalkStaysOnMultiples(n: nat, s: nat, k: nat)
    requires Config(n, s)
    ensures Gcd(n, s) > 0 && Divides(Gcd(n, s), Walk(n, s, k))
  {
    GcdDivides(n, s);
    var g := Gcd(n, s);
    if k == 0 {
      MultipleMod(0, g);
    } else {
      WalkStaysOnMultiples(n, s, k - 1);
      var i := Walk(n, s, k - 1);
      DividesCombination(g, i, s, 1);
      DividesCombination(g, i + s, n, -1);
      MultipleMod(0, g);
    }
  }

  /** A load count that leads to a given multiple of the gcd. */
  lemma ReachMultiple(n: nat, s: nat, t: nat) returns (k: nat)
    requires Config(n, s) && 1 <= t <= n && Gcd(n, s) > 0 && Divides(Gcd(n, s), t)
    ensures 1 <= k <= Lap(n, s) && Walk(n, s, k) == t
  {
    LapFacts(n, s);
    BezoutIdentity(n, s);
    var g, m := Gcd(n, s), Lap(n, s);
    var (x, y) := Bezout(n, s);
    ExactQuotient(t, g);
    var c := t / g;
    var d;
    k, d := Residue(c * y, m);
    SolveCongruence(n, s, g, m, s / g, x, y, c, d, k);
    RepAt(k * s, n, t, c * x + d * (s / g));
    WalkIsMultiple(n, s, k);
  }

  lemma Residue(a: int, m: nat) returns (k: nat, d: int)
    requires m > 0
    ensures a == d * m + k && 1 <= k <= m
  {
    k := if a % m == 0 then m else a % m;
    d := if a % m == 0 then a / m - 1 else a / m;
  }

  lemma RepAt(x: int, n: nat, t: int, q: int)
    requires 1 <= t <= n && x == t - q * n
    ensures Rep(x, n) == t
  {
    Mod(x - 1, n, -q, t - 1);
  }

  lemma SolveCongruence(n: int, s: int, g: int, m: int, r: int, x: int, y: int, c: int, d: int, k: int)
    requires x * n + y * s == g && n == m * g && s == r * g && c * y == d * m + k
    ensures k * s == c * g - (c * x + d * r) * n
  {
    assert c * (x * n + y * s) == (c * x) * n + (c * y) * s;
    assert (d * m) * s == (d * r) * n by {
      assert (d * m) * (r * g) == (d * r) * (m * g);
    }
    assert (d * m + k) * s == (d * m) * s + k * s;
    assert (c * x + d * r) * n == (c * x) * n + (d * r) * n;
  }

  ghost predicate Visited(n: nat, s: nat, t: nat)
    requires Config(n, s)
  {
    exists k: nat :: Walk(n, s, k) == t
  }

  /** Chasing from the start of the buffer visits exactly the lines divisible by gcd(n, s). */
  lemma VisitedLines(n: nat, s: nat, t: nat)
    requires Config(n, s) && t <= n
    ensures Gcd(n, s) > 0
    ensures Visited(n, s, t) <==> Divides(Gcd(n, s), t)
  {
    GcdDivides(n, s);
    if k: nat :| Walk(n, s, k) == t {
      WalkStaysOnMultiples(n, s, k);
    }
    if Divides(Gcd(n, s), t) {
      if t == 0 {
        assert Walk(n, s, 0) == 0;
      } else {
        var k := ReachMultiple(n, s, t);
      }
    }
  }

  /** So the benchmark touches the whole buffer exactly when elements and stride are coprime. */
  lemma WholeBufferIff(n: nat, s: nat)
    requires Config(n, s)
    ensures (forall t: nat :: t <= n ==> Visited(n, s, t)) <==> Gcd(n, s) == 1
  {
    GcdDivides(n, s);
    var g := Gcd(n, s);
    forall t: nat | t <= n
      ensures Visited(n, s, t) <==> Divides(g, t)
    {
      VisitedLines(n, s, t);
    }
    if g == 1 {
      forall t: nat | t <= n
        ensures Divides(g, t)
      {
        MultipleMod(t, 1);
      }
    } else {
      Mod(1, g, 0, 1);
      assert !Divides(g, 1);
    }
  }

  // ----- the emitted benchmark loop

  /** The line reached after k loads; a single element is its own successor. */
  function Chase(n: nat, s: nat, k: nat): (r: nat)
    requires 1 <= n && 1 <= s <= n + 1
    ensures r <= n
  {
    if n == 1 then 0 else Walk(n, s, k)
  }

  lemma LoadStep(mem: seq<int>, n: nat, s: nat, line: nat, k: nat)
    requires 1 <= n && 1 <= s <= n + 1 && line >= 8 && |mem| == Addr(n + 1, line) && Initialised(mem, line, n, s)
    ensures Addr(Chase(n, s, k), line) < |mem|
    ensures mem[Addr(Chase(n, s, k), line)] == Addr(Chase(n, s, k + 1), line)
  {
    AddrOrder(Chase(n, s, k), n + 1, line);
    if n == 1 {
      assert Addr(0, line) == 0;
    }
  }

  /** bench_loop: the buffer is initialised, then chased. The counter is compared before it is
      incremented, so a count of iterations gives one round more than asked for, and at least one. */
  method BenchLoop(buffer: array<int>, n: nat, s: nat, line: nat, iterations: int, instructions: nat) returns (ptr: int)
    requires 1 <= n && 1 <= s <= n + 1 && line >= 8 && buffer.Length == Addr(n + 1, line) && instructions > 0
    modifies buffer
    ensures Initialised(buffer[..], line, n, s)
    ensures var rounds := if iterations < 0 then 1 else iterations + 1;
            ptr == Addr(Chase(n, s, Loads(rounds, instructions)), line)
  {
    InitBuffer(buffer, n, s, line);
    hide Initialised, Addr, Chase, Loads;
    FirstLine(n, s, line, instructions);
    ptr := 0;
    var iv := 0;
    ghost var loads: nat := 0;
    while true
      invariant 0 <= iv && (iv > 0 ==> iv <= iterations) && loads == Loads(iv, instructions)
      invariant ptr == Addr(Chase(n, s, loads), line) && Initialised(buffer[..], line, n, s)
      decreases iterations - iv
    {
      var j := 0;
      while j < instructions
        invariant 0 <= j <= instructions && loads == Loads(iv, instructions) + j
        invariant Initialised(buffer[..], line, n, s)
        invariant ptr == Addr(Chase(n, s, loads), line)
      {
        LoadStep(buffer[..], n, s, line, loads);
        ptr := buffer[..][ptr];
        loads := loads + 1;
        j := j + 1;
      }
      OneMoreRound(iv, instructions);
      var again := iv < iterations;
      iv := iv + 1;
      if !again {
        break;
      }
    }
  }

  lemma FirstLine(n: nat, s: nat, line: nat, instructions: nat)
    requires 1 <= n && 1 <= s <= n + 1
    ensures Addr(Chase(n, s, 0), line) == 0 && Loads(0, instructions) == 0
  {
  }

  /** The loads of that many rounds. */
  function Loads(rounds: nat, instructions: nat): nat {
    rounds * instructions
  }

  lemma OneMoreRound(rounds: nat, instructions: nat)
    ensures Loads(rounds + 1, instructions) == Loads(rounds, instructions) + instructions
  {
  }

  // ----- from the size and stride asked for

  ghost predicate Touched(n: nat, s: nat, t: nat)
    requires 1 <= n && 1 <= s <= n + 1
  {
    exists k: nat :: Chase(n, s, k) == t
  }

  /** For a size and a stride in bytes, with n the whole lines of the size and at least one: the buffer has
      n + 1 lines, and the chase touches all of them exactly when the size holds two lines and n is coprime
      to the stride in lines. */
  lemma BufferTouchedIff(bufferSize: nat, line: nat, stride: nat)
    requires line > 0 && stride % line == 0 && line <= stride <= ActualBufferSize(bufferSize, line)
    ensures var n, s := if bufferSize < line then 1 else bufferSize / line, stride / line;
            && ActualBufferSize(bufferSize, line) == Addr(n + 1, line) && 1 <= n && 1 <= s <= n + 1
            && ((forall t: nat :: t <= n ==> Touched(n, s, t)) <==> bufferSize >= 2 * line && Gcd(n, s) == 1)
  {
    SizeInBytes(bufferSize, line);
    var n, s := if bufferSize < line then 1 else bufferSize / line, stride / line;
    WholeLines(bufferSize, line, n);
    StrideInLines(stride, line, n);
    assert ActualBufferSize(bufferSize, line) == Addr(n + 1, line);
    if n == 1 {
      assert !Touched(n, s, 1);
    } else {
      WholeBufferIff(n, s);
      forall t: nat | t <= n
        ensures Touched(n, s, t) <==> Visited(n, s, t)
      {
        SameWalk(n, s, t);
      }
    }
  }

  lemma SameWalk(n: nat, s: nat, t: nat)
    requires Config(n, s)
    ensures Touched(n, s, t) <==> Visited(n, s, t)
  {
    if k: nat :| Chase(n, s, k) == t {
      assert Walk(n, s, k) == t;
    }
    if k: nat :| Walk(n, s, k) == t {
      assert Chase(n, s, k) == t;
    }
  }

  lemma WholeLines(bufferSize: nat, line: nat, n: nat)
    requires line > 0 && n == if bufferSize < line then 1 else bufferSize / line
    ensures BufferElements(bufferSize, line) == n
    ensures n >= 2 <==> bufferSize >= 2 * line
  {
    var q := bufferSize / line;
    assert q * line <= bufferSize < (q + 1) * line by {
      assert bufferSize == q * line + bufferSize % line && (q + 1) * line == q * line + line;
    }
    if q < 1 {
      Smaller(q + 1, 1, line);
    } else if q < 2 {
      Smaller(q + 1, 2, line);
    } else {
      Smaller(2, q, line);
    }
  }

  lemma StrideInLines(stride: nat, line: nat, n: nat)
    requires line > 0 && stride % line == 0 && line <= stride <= (n + 1) * line
    ensures 1 <= stride / line <= n + 1 && stride == (stride / line) * line
  {
    var s := stride / line;
    assert stride == s * line;
    AtMost(1, s, line);
    AtMost(s, n + 1, line);
  }

  lemma AtMost(a: nat, b: nat, line: nat)
    requires line > 0
    ensures a <= b <==> a * line <= b * line
  {
    if a <= b {
      Smaller(a, b, line);
    } else {
      MulAtLeast(a - b, line);
      assert (a - b) * line == a * line - b * line;
    }
  }

  /** The generated program: a buffer of the computed size, and the benchmark on it. */
  method Generated(bufferSize: nat, line: nat, stride: nat, iterations: int, instructions: nat)
    returns (buffer: array<int>, ptr: int)
    requires line >= 8 && stride % line == 0 && line <= stride <= ActualBufferSize(bufferSize, line) && instructions > 0
    ensures var n, s := if bufferSize < line then 1 else bufferSize / line, stride / line;
            && 1 <= n && 1 <= s <= n + 1
            && fresh(buffer) && buffer.Length == (n + 1) * line && Initialised(buffer[..], line, n, s)
            && var rounds := if iterations < 0 then 1 else iterations + 1;
               ptr == Addr(Chase(n, s, Loads(rounds, instructions)), line)
  {
    BufferTouchedIff(bufferSize, line, stride);
    ghost var n := if bufferSize < line then 1 else bufferSize / line;
    WholeLines(bufferSize, line, n);
    hide Initialised, Chase, Loads, ActualBufferSize, BufferElements;
    buffer := new int[ActualBufferSize(bufferSize, line)];
    ptr := BenchLoop(buffer, BufferElements(bufferSize, line), stride / line, line, iterations, instructions);
  }
}
