/**
 Coordinator-node selection (`get_location`, `connect_random_IP`): a probe whose stride grows
 by one at every step, so that its positions are start + m*offset + m(m-1)/2.
 */
module NodeBalancer {

  const MAX_CN: nat := 128
  const WORD: nat := 0x1_0000_0000  // `unsigned int` arithmetic
  const HALF_WORD: nat := 0x8000_0000

  // ---------------------------------------------------------------- congruences

  ghost predicate Cong(a: int, b: int, n: int)
    requires n > 0
  {
    exists q: int :: Shifted(a, b, n, q)
  }

  ghost predicate Shifted(a: int, b: int, n: int, q: int) {
    a == b + q * n
  }

  lemma CongBy(a: int, b: int, n: int, q: int)
    requires n > 0 && a == b + q * n
    ensures Cong(a, b, n)
  {
    assert Shifted(a, b, n, q);
  }

  lemma CongMod(a: int, n: int)
    requires n > 0
    ensures Cong(a % n, a, n)
  {
    assert a % n == a + (-(a / n)) * n;
    CongBy(a % n, a, n, -(a / n));
  }

  lemma CongTrans(a: int, b: int, c: int, n: int)
    requires n > 0 && Cong(a, b, n) && Cong(b, c, n)
    ensures Cong(a, c, n)
  {
    var p :| Shifted(a, b, n, p);
    var q :| Shifted(b, c, n, q);
    assert (p + q) * n == p * n + q * n;
    CongBy(a, c, n, p + q);
  }

  lemma CongAdd(a: int, b: int, c: int, d: int, n: int)
    requires n > 0 && Cong(a, b, n) && Cong(c, d, n)
    ensures Cong(a + c, b + d, n)
  {
    var p :| Shifted(a, b, n, p);
    var q :| Shifted(c, d, n, q);
    assert (p + q) * n == p * n + q * n;
    CongBy(a + c, b + d, n, p + q);
  }

  lemma CongSym(a: int, b: int, n: int)
    requires n > 0 && Cong(a, b, n)
    ensures Cong(b, a, n)
  {
    var p :| Shifted(a, b, n, p);
    assert (-p) * n == -(p * n);
    CongBy(b, a, n, -p);
  }

  lemma CongDivisor(a: int, b: int, n: int, d: int, e: int)
    requires n > 0 && d > 0 && n == d * e && Cong(a, b, n)
    ensures Cong(a, b, d)
  {
    var p :| Shifted(a, b, n, p);
    assert p * n == (p * e) * d by { assert p * (d * e) == (p * e) * d; }
    CongBy(a, b, d, p * e);
  }

  lemma CongSmallEqual(a: int, b: int, n: int)
    requires n > 0 && 0 <= a < n && 0 <= b < n && Cong(a, b, n)
    ensures a == b
  {
    var p :| Shifted(a, b, n, p);
    assert p >= 1 ==> p * n >= n;
    assert p <= -1 ==> p * n <= -n;
  }

  // ---------------------------------------------------------------- the probe sequence

  function Pow2(k: nat): (r: nat)
    ensures r > 0
  {
    if k == 0 then 1 else 2 * Pow2(k - 1)
  }

  ghost predicate IsPow2(n: int) {
    exists k: nat :: n == Pow2(k)
  }

  /** The stride counter (an `int`, wrapping at 2^32) after `m` increments. */
  function Advance(off: nat, m: nat): nat {
    if m == 0 then off else (Advance(off, m - 1) + 1) % WORD
  }

  /** Position after `m` probes that start at `ind` with stride counter `off`. */
  function Probe(n: nat, ind: nat, off: nat, m: nat): nat
    requires n > 0
  {
    if m == 0 then ind else Step(n, Probe(n, ind, off, m - 1), Advance(off, m - 1))
  }

  function Step(n: nat, ind: nat, stride: nat): nat
    requires n > 0
  {
    ((ind + stride) % WORD) % n
  }

  function Triangle(m: nat): nat {
    if m == 0 then 0 else Triangle(m - 1) + (m - 1)
  }

  lemma {:induction false} TriangleDouble(m: nat)
    ensures 2 * Triangle(m) == m * (m - 1)
  {
    if m > 0 {
      TriangleDouble(m - 1);
      assert m * (m - 1) == (m - 1) * (m - 2) + 2 * (m - 1);
    }
  }

  lemma {:induction false} Pow2Monotone(j: nat, k: nat)
    requires j <= k
    ensures Pow2(j) <= Pow2(k)
    ensures Pow2(k) == Pow2(j) * Pow2(k - j)
    decreases k
  {
    if j < k {
      Pow2Monotone(j, k - 1);
      assert 2 * (Pow2(j) * Pow2(k - 1 - j)) == Pow2(j) * (2 * Pow2(k - 1 - j));
    }
  }

  lemma Pow2Word()
    ensures Pow2(32) == WORD && Pow2(7) == MAX_CN && Pow2(8) == 256
  {
    assert Pow2(4) == 16;
    assert Pow2(8) == 256;
    Pow2Monotone(8, 16);
    assert Pow2(16) == 0x1_0000;
    Pow2Monotone(16, 32);
  }

  lemma Pow2DividesWord(n: nat, k: nat)
    requires n == Pow2(k) && n <= MAX_CN
    ensures k <= 32 && WORD == n * Pow2(32 - k)
  {
    Pow2Word();
    if k > 7 {
      Pow2Monotone(8, k);
    }
    Pow2Monotone(k, 32);
  }

  lemma {:induction false} AdvanceCong(off: nat, m: nat)
    ensures Cong(Advance(off, m), off + m, WORD)
  {
    if m == 0 {
      CongBy(off, off, WORD, 0);
    } else {
      AdvanceCong(off, m - 1);
      CongBy(1, 1, WORD, 0);
      CongAdd(Advance(off, m - 1), off + m - 1, 1, 1, WORD);
      CongMod(Advance(off, m - 1) + 1, WORD);
      CongTrans(Advance(off, m), Advance(off, m - 1) + 1, off + m, WORD);
    }
  }

  /** With a node count dividing 2^32 the wrap-around of `unsigned int` is invisible. */
  lemma {:induction false} ProbeClosedForm(n: nat, e: nat, ind: nat, off: nat, m: nat)
    requires n > 0 && WORD == n * e
    ensures Cong(Probe(n, ind, off, m), ind + m * off + Triangle(m), n)
  {
    if m == 0 {
      CongBy(ind, ind, n, 0);
    } else {
      ProbeClosedForm(n, e, ind, off, m - 1);
      AdvanceCong(off, m - 1);
      StepCong(n, e, Probe(n, ind, off, m - 1), ind + (m - 1) * off + Triangle(m - 1), Advance(off, m - 1), off + m - 1);
      assert ind + (m - 1) * off + Triangle(m - 1) + (off + m - 1) == ind + m * off + Triangle(m);
    }
  }

  lemma StepCong(n: nat, e: nat, prev: nat, at: int, stride: nat, inc: int)
    requires n > 0 && WORD == n * e && Cong(prev, at, n) && Cong(stride, inc, WORD)
    ensures Cong(Step(n, prev, stride), at + inc, n)
  {
    var total := prev + stride;
    CongDivisor(stride, inc, WORD, n, e);
    CongAdd(prev, at, stride, inc, n);
    CongMod(total, WORD);
    var sum := total % WORD;
    CongDivisor(sum, total, WORD, n, e);
    CongTrans(sum, total, at + inc, n);
    CongMod(sum, n);
    CongTrans(sum % n, sum, at + inc, n);
  }

  lemma LiftIdentity(i: int, h: int, c: int)
    ensures (i + h) * (2 * (i + h) + c) == i * (2 * i + c) + (4 * i + 2 * h + c) * h
  {
  }

  lemma ScaleEven(q: int, h: int)
    requires q % 2 == 0
    ensures q * h == (q / 2) * (2 * h)
  {
    assert q == 2 * (q / 2);
  }

  lemma Distribute(p: int, q: int, n: int)
    ensures p * n + q * n == (p + q) * n
  {
  }

  /** j*(2j+c) with c odd takes every residue modulo 2^k (the solution is lifted bit by bit). */
  lemma {:induction false} SolveQuadratic(k: nat, c: int, t: int) returns (j: nat)
    requires c % 2 == 1
    ensures j < Pow2(k) && Cong(j * (2 * j + c), t, Pow2(k))
  {
    if k == 0 {
      j := 0;
      CongBy(0, t, 1, -t);
    } else {
      var h := Pow2(k - 1);
      var i := SolveQuadratic(k - 1, c, t);
      var q :| Shifted(i * (2 * i + c), t, h, q);
      j := SolveLift(h, c, t, i, q);
    }
  }

  lemma SolveLift(h: nat, c: int, t: int, i: nat, q: int) returns (j: nat)
    requires h > 0 && c % 2 == 1 && i < h && i * (2 * i + c) == t + q * h
    ensures j < 2 * h && Cong(j * (2 * j + c), t, 2 * h)
  {
    if q % 2 == 0 {
      j := i;
      ScaleEven(q, h);
      CongBy(j * (2 * j + c), t, 2 * h, q / 2);
    } else {
      j := i + h;
      var p := 4 * i + 2 * h + c;
      LiftIdentity(i, h, c);
      Distribute(q, p, h);
      ScaleEven(q + p, h);
      CongBy(j * (2 * j + c), t, 2 * h, (q + p) / 2);
    }
  }

  lemma ProbeIdentity(j: nat, off: nat)
    ensures (2 * j) * off + Triangle(2 * j) == j * (2 * j + (2 * off - 1))
  {
    TriangleDouble(2 * j);
    assert Triangle(2 * j) == j * (2 * j - 1);
    assert j * (2 * j + (2 * off - 1)) == j * (2 * j - 1) + j * (2 * off);
    assert (2 * j) * off == j * (2 * off);
  }

  /** Power-of-two node count: from any start and any stride, every node is met in fewer than 2n probes. */
  lemma ProbeReaches(n: nat, ind: nat, off: nat, target: nat) returns (m: nat)
    requires IsPow2(n) && n <= MAX_CN && ind < n && target < n
    ensures m < 2 * n && Probe(n, ind, off, m) == target
  {
    var k: nat :| n == Pow2(k);
    Pow2DividesWord(n, k);
    var c := 2 * off - 1;
    var j := SolveQuadratic(k, c, target - ind);
    m := 2 * j;
    ProbeIdentity(j, off);
    ProbeClosedForm(n, Pow2(32 - k), ind, off, m);
    CongBy(ind, ind, n, 0);
    CongAdd(j * (2 * j + c), target - ind, ind, ind, n);
    CongTrans(Probe(n, ind, off, m), ind + m * off + Triangle(m), target, n);
    ProbeInRange(n, ind, off, m);
    CongSmallEqual(Probe(n, ind, off, m), target, n);
  }

  lemma ProbeInRange(n: nat, ind: nat, off: nat, m: nat)
    requires n > 0 && ind < n
    ensures Probe(n, ind, off, m) < n
  {
  }

  // ---------------------------------------------------------------- node counts that are not powers of two

  ghost predicate Reaches(n: nat, ind: nat, off: nat, target: nat, bound: nat)
    requires n > 0
  {
    exists m: nat :: m < bound && Probe(n, ind, off, m) == target
  }

  lemma {:induction false} OddDivisor(n: nat) returns (q: nat, e: nat)
    requires n > 0
    ensures n == q * e && q % 2 == 1 && e > 0
    ensures q == 1 ==> IsPow2(n)
  {
    if n % 2 == 1 {
      q, e := n, 1;
      assert n == 1 ==> n == Pow2(0);
    } else {
      var f: nat;
      q, f := OddDivisor(n / 2);
      e := 2 * f;
      assert q * (2 * f) == 2 * (q * f);
      if q == 1 {
        var k: nat :| n / 2 == Pow2(k);
        assert n == Pow2(k + 1);
      }
    }
  }

  lemma {:induction false} TriangleShift(m: nat, q: nat)
    ensures Triangle(m + q) == Triangle(m) + m * q + Triangle(q)
  {
    TriangleDouble(m + q);
    TriangleDouble(m);
    TriangleDouble(q);
    assert (m + q) * (m + q - 1) == m * (m - 1) + 2 * (m * q) + q * (q - 1);
  }

  /** Modulo an odd number the triangular numbers are periodic. */
  lemma {:induction false} TrianglePeriod(m: nat, q: nat)
    requires q % 2 == 1
    ensures Cong(Triangle(m), Triangle(m % q), q)
  {
    if m < q {
      ModSmall(m, q);
      CongBy(Triangle(m), Triangle(m), q, 0);
    } else {
      var l := m - q;
      TrianglePeriod(l, q);
      TrianglePeriodStep(l, q);
      ModMinus(m, q);
      CongTrans(Triangle(m), Triangle(l), Triangle(m % q), q);
    }
  }

  lemma TrianglePeriodStep(l: nat, q: nat)
    requires q % 2 == 1
    ensures Cong(Triangle(l + q), Triangle(l), q)
  {
    TriangleShift(l, q);
    var half := (q - 1) / 2;
    TriangleOdd(half);
    Distribute(l, half, q);
    CongBy(Triangle(l + q), Triangle(l), q, l + half);
  }

  lemma TriangleOdd(half: nat)
    ensures Triangle(2 * half + 1) == half * (2 * half + 1)
  {
    TriangleDouble(2 * half + 1);
    assert (2 * half + 1) * (2 * half) == 2 * (half * (2 * half + 1));
  }

  lemma ModSmall(m: nat, q: nat)
    requires m < q
    ensures m % q == m
  {
  }

  lemma ModMinus(m: nat, q: nat)
    requires 0 < q <= m
    ensures m % q == (m - q) % q
  {
    CongMod(m, q);
    CongMod(m - q, q);
    CongBy(m - q, m, q, -1);
    CongTrans((m - q) % q, m - q, m, q);
    CongSym(m % q, m, q);
    CongTrans((m - q) % q, m, m % q, q);
    CongSmallEqual((m - q) % q, m % q, q);
  }

  ghost function TriangleResidues(k: nat, q: nat): set<int>
    requires q > 0
  {
    set m | 1 <= m < k :: Triangle(m) % q
  }

  lemma {:induction false} ResiduesSize(k: nat, q: nat)
    requires q > 0 && k >= 1
    ensures |TriangleResidues(k, q)| <= k - 1
  {
    if k == 1 {
      assert TriangleResidues(1, q) == {};
    } else {
      ResiduesSize(k - 1, q);
      assert TriangleResidues(k, q) == TriangleResidues(k - 1, q) + {Triangle(k - 1) % q};
    }
  }

  lemma {:induction false} IntervalSize(q: nat, s: set<int>)
    requires forall t :: 0 <= t < q ==> t in s
    ensures |s| >= q
  {
    if q > 0 {
      IntervalSize(q - 1, s - {q - 1});
    }
  }

  /** Since 0 and 1 have the same triangular number, an odd modulus above 1 leaves some residue out. */
  lemma MissedResidue(q: nat) returns (t: nat)
    requires q % 2 == 1 && q > 1
    ensures t < q && forall m: nat :: Triangle(m) % q != t
  {
    ResiduesSize(q, q);
    if forall t :: 0 <= t < q ==> t in TriangleResidues(q, q) {
      IntervalSize(q, TriangleResidues(q, q));
      assert false;
    }
    t :| 0 <= t < q && t !in TriangleResidues(q, q);
    forall m: nat
      ensures Triangle(m) % q != t
    {
      var l := m % q;
      TrianglePeriod(m, q);
      CongMod(Triangle(m), q);
      CongMod(Triangle(l), q);
      CongSym(Triangle(l) % q, Triangle(l), q);
      CongTrans(Triangle(m), Triangle(l), Triangle(l) % q, q);
      CongTrans(Triangle(m) % q, Triangle(m), Triangle(l) % q, q);
      CongSmallEqual(Triangle(m) % q, Triangle(l) % q, q);
      assert Triangle(1) == Triangle(0) == 0;
      assert Triangle(if l == 0 then 1 else l) % q in TriangleResidues(q, q);
    }
  }

  lemma {:induction false} ProbeWithoutWrap(n: nat, ind: nat, m: nat)
    requires 0 < n <= MAX_CN && ind < n && m <= HALF_WORD
    ensures Cong(Probe(n, ind, 0, m), ind + Triangle(m), n)
  {
    hide Cong, Step;
    if m == 0 {
      CongBy(ind, ind, n, 0);
    } else {
      ProbeWithoutWrap(n, ind, m - 1);
      ProbeInRange(n, ind, 0, m - 1);
      AdvanceSmall(m - 1);
      StepWithoutWrap(n, Probe(n, ind, 0, m - 1), ind + Triangle(m - 1), m - 1);
    }
  }

  lemma {:induction false} AdvanceSmall(m: nat)
    requires m < WORD
    ensures Advance(0, m) == m
  {
    if m > 0 {
      AdvanceSmall(m - 1);
      ModSmall(m, WORD);
    }
  }

  lemma StepWithoutWrap(n: nat, prev: nat, sum: int, stride: nat)
    requires 0 < n && Cong(prev, sum, n) && prev + stride < WORD
    ensures Cong(Step(n, prev, stride), sum + stride, n)
  {
    ModSmall(prev + stride, WORD);
    CongBy(stride, stride, n, 0);
    CongAdd(prev, sum, stride, stride, n);
    var total := prev + stride;
    CongMod(total, n);
    CongTrans(total % n, total, sum + stride, n);
  }

  /** Any other node count: from every start with a fresh stride some node is never met
      before the stride counter would overflow. */
  lemma ProbeMisses(n: nat, ind: nat) returns (target: nat)
    requires !IsPow2(n) && 0 < n <= MAX_CN && ind < n
    ensures target < n && !Reaches(n, ind, 0, target, HALF_WORD)
  {
    var q, e := OddDivisor(n);
    var t := MissedResidue(q);
    DivisorBound(n, q, e);
    target := (ind + t) % n;
    forall m: nat | m < HALF_WORD
      ensures Probe(n, ind, 0, m) != target
    {
      if Probe(n, ind, 0, m) == target {
        ProbeWithoutWrap(n, ind, m);
        CongMod(ind + t, n);
        HitGivesResidue(n, q, e, ind, t, target, Triangle(m));
        assert false;
      }
    }
  }

  lemma HitGivesResidue(n: nat, q: nat, e: nat, ind: nat, t: nat, target: int, x: nat)
    requires n > 0 && n == q * e && t < q
    requires Cong(target, ind + x, n) && Cong(target, ind + t, n)
    ensures x % q == t
  {
    CongSym(target, ind + x, n);
    CongTrans(ind + x, target, ind + t, n);
    CongDivisor(ind + x, ind + t, n, q, e);
    CongBy(0 - ind, 0 - ind, q, 0);
    CongAdd(ind + x, ind + t, 0 - ind, 0 - ind, q);
    CongMod(x, q);
    CongTrans(x % q, x, t, q);
    CongSmallEqual(x % q, t, q);
  }

  lemma DivisorBound(n: nat, q: nat, e: nat)
    requires n > 0 && n == q * e
    ensures q <= n
  {
    assert e >= 1;
    assert q * e >= q * 1;
  }

  /** The inner loop is sure to end, within 2n steps, exactly for power-of-two node counts. */
  lemma ProbeCoverage(n: nat)
    requires 0 < n <= MAX_CN
    ensures IsPow2(n) <==> forall ind: nat, off: nat, t: nat :: ind < n && t < n ==> Reaches(n, ind, off, t, 2 * n)
  {
    if IsPow2(n) {
      forall ind: nat, off: nat, t: nat | ind < n && t < n
        ensures Reaches(n, ind, off, t, 2 * n)
      {
        var m := ProbeReaches(n, ind, off, t);
      }
    } else {
      var t := ProbeMisses(n, 0);
      assert !Reaches(n, 0, 0, t, 2 * n);
    }
  }

  // ---------------------------------------------------------------- get_location

  const WRONG := 2

  class CnEntry {
    var ipStatus: array<int>
    var step: array<nat>  // stride counters, modulo 2^32
    var ipCount: int

    ghost predicate Valid()
      reads this, step
    {
      && ipStatus.Length == step.Length == MAX_CN
      && ipCount <= MAX_CN
      && (forall j :: 0 <= j < MAX_CN ==> step[j] < WORD)
    }

    constructor (status: seq<int>, count: int)
      requires |status| == MAX_CN && count <= MAX_CN
      ensures Valid() && fresh(ipStatus) && fresh(step)
      ensures ipStatus[..] == status && ipCount == count && forall j :: 0 <= j < MAX_CN ==> step[j] == 0
    {
      ipStatus := new int[MAX_CN](i requires 0 <= i < MAX_CN => status[i]);
      step := new nat[MAX_CN](i => 0);
      ipCount := count;
    }
  }

  function CountVisited(s: seq<bool>): (c: nat)
    ensures c <= |s|
    ensures c == |s| <==> forall j :: 0 <= j < |s| ==> s[j]
  {
    if s == [] then 0 else (if s[|s| - 1] then 1 else 0) + CountVisited(s[..|s| - 1])
  }

  lemma {:induction false} CountSet(s: seq<bool>, j: nat)
    requires j < |s| && !s[j]
    ensures CountVisited(s[j := true]) == CountVisited(s) + 1
  {
    var t := s[j := true];
    if j == |s| - 1 {
      assert t[..|s| - 1] == s[..|s| - 1];
    } else {
      assert t[..|s| - 1] == s[..|s| - 1][j := true];
      CountSet(s[..|s| - 1], j);
    }
  }

  /** What one call may do to the `visited` array: the returned node was free and is not WRONG;
      apart from it only WRONG nodes are marked; -1 means that no node is left. */
  ghost predicate Located(n: nat, status: seq<int>, before: seq<bool>, after: seq<bool>, ind: int)
    requires n <= |status| && |before| == |after| == |status|
  {
    && (forall j :: 0 <= j < |before| && before[j] ==> after[j])
    && (forall j :: 0 <= j < |after| && after[j] && !before[j] ==> j < n && (j == ind || status[j] == WRONG))
    && if ind == -1 then forall j :: 0 <= j < n ==> after[j]
       else 0 <= ind < n && !before[ind] && after[ind] && status[ind] != WRONG
  }

  // ---------------------------------------------------------------- when a call ends

  /** What a call of `get_location` is about: the statuses, the nodes visited before, the node it starts at and
      the stride counter of that node. */
  datatype Search = Search(n: nat, status: seq<int>, was: seq<bool>, slot: nat, off: nat)

  ghost predicate Proper(q: Search) {
    0 < q.n <= MAX_CN && |q.status| == |q.was| == MAX_CN && q.slot < q.n
  }

  function Position(q: Search, m: nat): nat
    requires q.n > 0
  {
    Probe(q.n, q.slot, q.off, m)
  }

  ghost predicate MetBy(q: Search, j: nat, m: nat)
    requires q.n > 0
  {
    Reaches(q.n, q.slot, q.off, j, m)
  }

  /** Every node has been visited before, or is WRONG and met in the first `m` probes. */
  ghost predicate UsedUp(q: Search, m: nat)
    requires Proper(q)
  {
    forall j: nat :: j < q.n ==> q.was[j] || (q.status[j] == WRONG && MetBy(q, j, m))
  }

  /** The call ends at probe `m`: the node met is free and not WRONG, or no node is left. */
  ghost predicate Stops(q: Search, m: nat)
    requires Proper(q)
  {
    ProbeInRange(q.n, q.slot, q.off, m);
    (!q.was[Position(q, m)] && q.status[Position(q, m)] != WRONG) || UsedUp(q, m + 1)
  }

  /** The call ends within `fuel` probes. */
  ghost predicate Ends(q: Search, fuel: nat)
    requires Proper(q)
  {
    exists m: nat :: m <= fuel && Stops(q, m)
  }

  /** With a power of two of nodes every call ends within 2n probes. */
  lemma PowerEnds(q: Search, fuel: nat)
    requires Proper(q) && IsPow2(q.n) && fuel >= 2 * q.n
    ensures Ends(q, fuel)
  {
    if j: nat :| j < q.n && !q.was[j] && q.status[j] != WRONG {
      var m := ProbeReaches(q.n, q.slot, q.off, j);
      assert Stops(q, m);
    } else {
      var bound := 2 * q.n + 1;
      forall j: nat | j < q.n
        ensures MetBy(q, j, bound)
      {
        var m := ProbeReaches(q.n, q.slot, q.off, j);
      }
      assert Stops(q, bound - 1);
    }
  }

  /** A usable node that the probes do not meet keeps a call going, when all others are WRONG or visited. */
  lemma NeverEnds(q: Search, target: nat, fuel: nat)
    requires Proper(q) && target < q.n && !q.was[target] && q.status[target] != WRONG && !MetBy(q, target, fuel + 1)
    requires forall j: nat :: j < q.n && j != target ==> q.was[j] || q.status[j] == WRONG
    ensures !Ends(q, fuel)
  {
    forall m: nat | m <= fuel
      ensures !Stops(q, m)
    {
      ProbeInRange(q.n, q.slot, q.off, m);
      assert Position(q, m) != target;
    }
  }

  /** For a node count that is no power of two there are such statuses, for every start, with a fresh stride
      counter and nothing visited: the call goes on until its counter overflows. */
  lemma SomeNeverEnds(n: nat, slot: nat) returns (status: seq<int>)
    requires !IsPow2(n) && 0 < n <= MAX_CN && slot < n
    ensures |status| == MAX_CN && exists j :: 0 <= j < n && status[j] != WRONG
    ensures forall fuel: nat :: fuel < HALF_WORD ==> !Ends(Search(n, status, NONE_VISITED, slot, 0), fuel)
  {
    var target := ProbeMisses(n, slot);
    status := seq(MAX_CN, j => if j == target then 0 else WRONG);
    assert status[target] != WRONG;
    var q := Search(n, status, NONE_VISITED, slot, 0);
    forall fuel: nat | fuel < HALF_WORD
      ensures !Ends(q, fuel)
    {
      NeverEnds(q, target, fuel);
    }
  }

  const NONE_VISITED: seq<bool> := seq(MAX_CN, i => false)

  /** Three nodes: from `slot` the probes meet this one and the next, never the third. */
  lemma ThreeNodes(status: seq<int>, slot: nat, fuel: nat)
    requires |status| == MAX_CN && slot < 3 && fuel < HALF_WORD
    requires status[slot] == WRONG && status[(slot + 1) % 3] == WRONG && status[(slot + 2) % 3] != WRONG
    ensures !Ends(Search(3, status, NONE_VISITED, slot, 0), fuel)
  {
    var q, target := Search(3, status, NONE_VISITED, slot, 0), (slot + 2) % 3;
    forall m: nat | m <= fuel
      ensures Probe(3, slot, 0, m) != target
    {
      if Probe(3, slot, 0, m) == target {
        ProbeWithoutWrap(3, slot, m);
        CongMod(slot + 2, 3);
        HitGivesResidue(3, 3, 1, slot, 2, target, Triangle(m));
        ThirdResidue(m);
      }
    }
    forall j: nat | j < 3 && j != target
      ensures status[j] == WRONG
    {
      assert j == slot || j == (slot + 1) % 3;
    }
    NeverEnds(q, target, fuel);
  }

  /** No triangular number leaves 2 modulo 3. */
  lemma ThirdResidue(m: nat)
    ensures Triangle(m) % 3 != 2
  {
    TrianglePeriod(m, 3);
    assert Triangle(0) == 0 && Triangle(1) == 0 && Triangle(2) == 1;
    var q :| Shifted(Triangle(m), Triangle(m % 3), 3, q);
  }

  // ---------------------------------------------------------------- the probes of a call

  /** After `d` probes that did not end the call, the nodes met are visited too. */
  ghost predicate Probed(q: Search, vis: seq<bool>, d: nat)
    requires Proper(q)
  {
    && |vis| == MAX_CN
    && (forall j :: q.n <= j < MAX_CN ==> vis[j] == q.was[j])
    && (forall j: nat :: j < q.n ==> (vis[j] <==> q.was[j] || MetBy(q, j, d)))
    && (forall l: nat :: l < d ==> !Stops(q, l))
  }

  lemma StartProbed(q: Search)
    requires Proper(q)
    ensures Probed(q, q.was, 0)
  {
  }

  lemma MetOneMore(q: Search, j: nat, d: nat)
    requires q.n > 0
    ensures MetBy(q, j, d + 1) <==> MetBy(q, j, d) || Position(q, d) == j
  {
    if MetBy(q, j, d) {
      var l: nat :| l < d && Probe(q.n, q.slot, q.off, l) == j;
    }
    if MetBy(q, j, d + 1) {
      var l: nat :| l < d + 1 && Probe(q.n, q.slot, q.off, l) == j;
    }
  }

  /** A node met before and not visited at the start is WRONG. */
  lemma MetIsWrong(q: Search, vis: seq<bool>, d: nat, j: nat)
    requires Proper(q) && Probed(q, vis, d) && j < q.n && vis[j] && !q.was[j]
    ensures q.status[j] == WRONG
  {
    var l: nat :| l < d && Probe(q.n, q.slot, q.off, l) == j;
    assert !Stops(q, l) && Position(q, l) == j;
  }

  lemma ProbedPassed(q: Search, vis: seq<bool>, d: nat)
    requires Proper(q) && Probed(q, vis, d)
    ensures Passed(q.n, q.status, q.was, vis)
  {
    forall j: nat | j < q.n && vis[j] && !q.was[j]
      ensures q.status[j] == WRONG
    {
      MetIsWrong(q, vis, d, j);
    }
  }

  /** One probe more: the node met is visited or WRONG. The call ends there if and only if no node is left. */
  lemma ProbeOn(q: Search, vis: seq<bool>, d: nat)
    requires Proper(q) && Probed(q, vis, d) && Position(q, d) < q.n
    requires vis[Position(q, d)] || q.status[Position(q, d)] == WRONG
    ensures var after := vis[Position(q, d) := true];
            && Passed(q.n, q.status, q.was, after)
            && ((forall j :: 0 <= j < q.n ==> after[j]) <==> Stops(q, d))
            && (!Stops(q, d) ==> Probed(q, after, d + 1))
  {
    var p := Position(q, d);
    var after := vis[p := true];
    forall j: nat | j < q.n
      ensures after[j] <==> q.was[j] || MetBy(q, j, d + 1)
      ensures after[j] && !q.was[j] ==> q.status[j] == WRONG
    {
      MetOneMore(q, j, d);
      if vis[j] && !q.was[j] {
        MetIsWrong(q, vis, d, j);
      }
    }
    assert UsedUp(q, d + 1) <==> forall j :: 0 <= j < q.n ==> after[j];
  }

  ghost predicate VisitedAt(q: Search, vis: seq<bool>, m: nat)
    requires Proper(q)
  {
    Position(q, m) < q.n <= |vis| && vis[Position(q, m)]
  }

  /** Over visited nodes nothing changes. */
  lemma {:induction false} OverVisited(q: Search, vis: seq<bool>, d: nat, e: nat)
    requires Proper(q) && d <= e && Probed(q, vis, d) && !(forall j :: 0 <= j < q.n ==> vis[j])
    requires forall l: nat :: d <= l < e ==> VisitedAt(q, vis, l)
    ensures Probed(q, vis, e)
    decreases e - d
  {
    hide Probed, Stops, Position, Passed;
    if d < e {
      assert VisitedAt(q, vis, d);
      OneProbeMore(q, vis, d);
      OverVisited(q, vis, d + 1, e);
    }
  }

  lemma OneProbeMore(q: Search, vis: seq<bool>, d: nat)
    requires Proper(q) && Probed(q, vis, d) && !(forall j :: 0 <= j < q.n ==> vis[j]) && VisitedAt(q, vis, d)
    ensures Probed(q, vis, d + 1)
  {
    hide Probed, Stops, Position, Passed;
    ProbeOn(q, vis, d);
    assert vis[Position(q, d) := true] == vis;
  }

  /** The probes of the inner loop go on where the earlier ones stopped. */
  lemma {:induction false} ProbeSplit(n: nat, ind: nat, off: nat, d: nat, m: nat)
    requires n > 0
    ensures Advance(Advance(off, d), m) == Advance(off, d + m)
    ensures Probe(n, Probe(n, ind, off, d), Advance(off, d), m) == Probe(n, ind, off, d + m)
  {
    hide Step;
    if m > 0 {
      ProbeSplit(n, ind, off, d, m - 1);
      assert d + m - 1 == d + (m - 1);
    }
  }

  // ---------------------------------------------------------------- the loops

  /** The first `m` positions of the probe sequence are all marked. */
  ghost predicate AllMet(vis: seq<bool>, n: nat, ind: nat, off: nat, m: nat)
    requires n > 0
  {
    forall l: nat :: l < m ==> Probe(n, ind, off, l) < |vis| && vis[Probe(n, ind, off, l)]
  }

  lemma MetMore(vis: seq<bool>, n: nat, ind: nat, off: nat, m: nat)
    requires n > 0
    ensures AllMet(vis, n, ind, off, 0)
    ensures AllMet(vis, n, ind, off, m) && Probe(n, ind, off, m) < |vis| && vis[Probe(n, ind, off, m)]
            ==> AllMet(vis, n, ind, off, m + 1)
  {
    hide Probe;
  }

  lemma NextProbe(n: nat, ind: nat, off: nat, m: nat)
    requires n > 0
    ensures Probe(n, ind, off, 0) == ind && Advance(off, 0) == off
    ensures Probe(n, ind, off, m + 1) == ((Probe(n, ind, off, m) + Advance(off, m)) % WORD) % n < n
    ensures Advance(off, m + 1) == (Advance(off, m) + 1) % WORD < WORD
  {
  }

  /** The body of the inner loop. */
  method OneProbe(entry: CnEntry, slot: nat, ind0: nat, ghost start: nat, ghost off: nat, ghost m: nat) returns (ind: nat)
    requires entry.Valid() && 0 < entry.ipCount && slot < MAX_CN
    requires ind0 == Probe(entry.ipCount, start, off, m) && entry.step[slot] == Advance(off, m)
    modifies entry.step
    ensures entry.Valid() && ind == Probe(entry.ipCount, start, off, m + 1) < entry.ipCount
    ensures entry.step[..] == old(entry.step[..])[slot := Advance(off, m + 1)]
  {
    NextProbe(entry.ipCount, start, off, m);
    hide Probe, Advance;
    ind := (ind0 + entry.step[slot]) % WORD;
    entry.step[slot] := (entry.step[slot] + 1) % WORD;
    ind := ind % entry.ipCount;
  }

  /** The inner loop: advance until a free node is found. `fuel` bounds the number of probes,
      `probes` is the number made. */
  method ProbeForFree(visited: array<bool>, entry: CnEntry, slot: nat, start: nat, visitedCount: nat, fuel: nat)
    returns (ind: nat, ended: bool, probes: nat)
    requires entry.Valid() && 0 < entry.ipCount && start < entry.ipCount && slot < MAX_CN
    requires visited.Length == MAX_CN
    requires visitedCount == CountVisited(visited[..entry.ipCount])
    modifies entry.step
    ensures entry.Valid()
    ensures ind < entry.ipCount
    ensures ended <==> !visited[ind] || visitedCount == entry.ipCount
    ensures probes <= fuel && (!ended ==> probes == fuel) && (visitedCount == entry.ipCount ==> probes == 0)
    ensures ind == Probe(entry.ipCount, start, old(entry.step[slot]), probes)
    ensures AllMet(visited[..], entry.ipCount, start, old(entry.step[slot]), probes)
    ensures entry.step[..] == old(entry.step[..])[slot := Advance(old(entry.step[slot]), probes)]
  {
    hide AllMet, CountVisited, Probe, Advance;
    ghost var n: nat := entry.ipCount;
    ghost var off: nat := entry.step[slot];
    probes := 0;
    ind := start;
    NextProbe(n, start, off, 0);
    MetMore(visited[..], n, start, off, 0);
    while visited[ind] && visitedCount != entry.ipCount && probes < fuel
      invariant probes <= fuel && ind < n && n == entry.ipCount
      invariant ind == Probe(n, start, off, probes) && (visitedCount == n ==> probes == 0)
      invariant entry.Valid() && entry.step[slot] == Advance(off, probes)
      invariant entry.step[..] == old(entry.step[..])[slot := Advance(off, probes)]
      invariant AllMet(visited[..], n, start, off, probes)
      decreases fuel - probes
    {
      MetMore(visited[..], n, start, off, probes);
      ind := OneProbe(entry, slot, ind, start, off, probes);
      probes := probes + 1;
    }
    ended := !(visited[ind] && visitedCount != entry.ipCount);
  }

  method RandomSlot(draw: nat, n: nat) returns (slot: nat)
    requires n > 0
    ensures slot == draw % n && slot < n
  {
    slot := draw % n;
  }

  method Mark(visited: array<bool>, ind: nat, visitedCount: nat, n: nat) returns (count: nat)
    requires ind < n <= visited.Length && !visited[ind] && visitedCount == CountVisited(visited[..n])
    modifies visited
    ensures visited[..] == old(visited[..])[ind := true]
    ensures count == visitedCount + 1 == CountVisited(visited[..n])
  {
    CountSet(visited[..n], ind);
    visited[ind] := true;
    assert visited[..n] == old(visited[..n])[ind := true];
    count := visitedCount + 1;
  }

  /** While nodes are passed over, only WRONG ones are marked. */
  ghost predicate Passed(n: nat, status: seq<int>, before: seq<bool>, after: seq<bool>) {
    && n <= |status| && |before| == |after| == |status|
    && (forall j :: 0 <= j < |before| && before[j] ==> after[j])
    && (forall j :: 0 <= j < |after| && after[j] && !before[j] ==> j < n && status[j] == WRONG)
  }

  lemma PassedOn(n: nat, status: seq<int>, before: seq<bool>, after: seq<bool>, ind: nat)
    requires Passed(n, status, before, after) && ind < n && !after[ind]
    ensures status[ind] == WRONG ==> Passed(n, status, before, after[ind := true])
    ensures status[ind] != WRONG ==> Located(n, status, before, after[ind := true], ind)
  {
  }

  lemma NoneLeft(n: nat, status: seq<int>, before: seq<bool>, after: seq<bool>)
    requires Passed(n, status, before, after) && CountVisited(after[..n]) == n
    ensures Located(n, status, before, after, -1)
  {
    assert forall j :: 0 <= j < n ==> after[j] == after[..n][j];
  }

  lemma NotAll(s: seq<bool>, ind: nat)
    requires ind < |s| && !s[ind]
    ensures CountVisited(s) != |s|
  {
  }

  lemma AllVisited(vis: seq<bool>, n: nat)
    requires n <= |vis|
    ensures CountVisited(vis[..n]) == n <==> forall j :: 0 <= j < n ==> vis[j]
  {
    assert forall j :: 0 <= j < n ==> vis[..n][j] == vis[j];
  }

  /** One turn of the outer loop, at a node that is visited or WRONG after `d` probes: it ends at a further
      probe `next`, or at `d` when no node is left, or runs out of probes. */
  method PassNode(visited: array<bool>, entry: CnEntry, ghost q: Search, ghost d: nat, cur0: nat, count0: nat, slot: nat, fuel: nat)
    returns (cur: nat, count: nat, ended: bool, probes: nat)
    requires entry.Valid() && visited.Length == MAX_CN && 0 < entry.ipCount && Proper(q) && q.n == entry.ipCount
    requires q.status == entry.ipStatus[..] && Probed(q, visited[..], d) && slot == q.slot && cur0 == Position(q, d) < q.n
    requires entry.step[slot] == Advance(q.off, d) && count0 == CountVisited(visited[..q.n]) && count0 != q.n
    requires visited[cur0] || entry.ipStatus[cur0] == WRONG
    modifies visited, entry.step
    ensures entry.Valid() && cur < entry.ipCount && count == CountVisited(visited[..q.n]) && probes <= fuel
    ensures entry.step[slot] == Advance(q.off, d + probes)
    ensures ended && count != q.n ==>
              probes > 0 && cur == Position(q, d + probes) && !visited[cur] && Probed(q, visited[..], d + probes)
    ensures ended && count == q.n ==> Stops(q, d) && visited[cur] && Passed(q.n, q.status, q.was, visited[..])
    ensures !ended ==> probes == fuel && Probed(q, visited[..], d + fuel + 1)
  {
    hide Probed, Stops, CountVisited, AllMet, Passed, Position;
    ghost var before := visited[..];
    count := count0;
    ProbeOn(q, before, d);
    if !visited[cur0] {
      count := Mark(visited, cur0, count, entry.ipCount);
    }
    assert visited[..] == before[cur0 := true];
    AllVisited(visited[..], q.n);
    cur, ended, probes := ProbeForFree(visited, entry, slot, cur0, count, fuel);
    if count != q.n {
      InnerProbes(q, visited[..], d, cur0, probes);
      ProbeSplit(q.n, q.slot, q.off, d, probes);
    }
    AdvanceSplit(q, d, probes);
    if !ended {
      LastVisited(q, visited[..], d, probes);
    }
  }

  lemma AdvanceSplit(q: Search, d: nat, m: nat)
    requires q.n > 0
    ensures Advance(Advance(q.off, d), m) == Advance(q.off, d + m)
  {
    ProbeSplit(q.n, q.slot, q.off, d, m);
  }

  /** The probes of the inner loop went over visited nodes. */
  lemma InnerProbes(q: Search, vis: seq<bool>, d: nat, cur0: nat, probes: nat)
    requires Proper(q) && Probed(q, vis, d + 1) && cur0 == Position(q, d) && !(forall j :: 0 <= j < q.n ==> vis[j])
    requires |vis| == MAX_CN && AllMet(vis, q.n, cur0, Advance(q.off, d), probes)
    ensures Position(q, d + probes) == Probe(q.n, cur0, Advance(q.off, d), probes) < q.n
    ensures Probed(q, vis, if probes == 0 then d + 1 else d + probes)
  {
    ProbeSplit(q.n, q.slot, q.off, d, probes);
    ProbeInRange(q.n, q.slot, q.off, d + probes);
    forall l: nat | d + 1 <= l < d + probes
      ensures VisitedAt(q, vis, l)
    {
      InnerVisited(q, vis, d, l - d, probes);
    }
    hide Probed, Stops, Position, AllMet, VisitedAt;
    if probes > 0 {
      OverVisited(q, vis, d + 1, d + probes);
    }
  }

  lemma InnerVisited(q: Search, vis: seq<bool>, d: nat, l: nat, probes: nat)
    requires Proper(q) && |vis| == MAX_CN && l < probes
    requires AllMet(vis, q.n, Position(q, d), Advance(q.off, d), probes)
    ensures VisitedAt(q, vis, d + l)
  {
    ProbeSplit(q.n, q.slot, q.off, d, l);
    ProbeInRange(q.n, q.slot, q.off, d + l);
    assert vis[Probe(q.n, Position(q, d), Advance(q.off, d), l)];
  }

  lemma LastVisited(q: Search, vis: seq<bool>, d: nat, probes: nat)
    requires Proper(q) && VisitedAt(q, vis, d + probes) && !(forall j :: 0 <= j < q.n ==> vis[j])
    requires Probed(q, vis, if probes == 0 then d + 1 else d + probes)
    ensures Probed(q, vis, d + probes + 1)
  {
    hide Probed, VisitedAt;
    if probes > 0 {
      OneProbeMore(q, vis, d + probes);
    }
  }

  /** The loop over nodes that are WRONG or visited. */
  method PassOver(visited: array<bool>, entry: CnEntry, visitedCount: nat, slot: nat, fuel: nat, ghost q: Search)
    returns (cur: nat, count: nat, ended: bool)
    requires entry.Valid() && visited.Length == MAX_CN && 0 < entry.ipCount && slot < entry.ipCount
    requires visitedCount == CountVisited(visited[..entry.ipCount])
    requires q == Search(entry.ipCount, entry.ipStatus[..], visited[..], slot, entry.step[slot])
    modifies visited, entry.step
    ensures entry.Valid() && cur < entry.ipCount && count == CountVisited(visited[..entry.ipCount])
    ensures Passed(entry.ipCount, entry.ipStatus[..], old(visited[..]), visited[..]) || !ended
    ensures ended ==> count == entry.ipCount || (entry.ipStatus[cur] != WRONG && !visited[cur])
    ensures ended ==> (visited[cur] <==> count == entry.ipCount)
    ensures ended <==> Ends(q, fuel)
  {
    hide Passed, CountVisited, Probed, Stops, Position, MetBy, Ends;
    cur, count, ended := slot, visitedCount, true;
    var left: nat := fuel;
    ghost var d: nat := 0;
    SlotFirst(q);
    StartProbed(q);
    AllVisited(visited[..], q.n);
    while (entry.ipStatus[cur] == WRONG || visited[cur]) && count != entry.ipCount
      invariant cur < q.n == entry.ipCount && entry.Valid() && ended && entry.ipStatus[..] == q.status
      invariant count == CountVisited(visited[..q.n]) && left + d == fuel && entry.step[slot] == Advance(q.off, d)
      invariant count != q.n || d == 0 ==> cur == Position(q, d) && Probed(q, visited[..], d)
      invariant count == q.n && d > 0 ==> false
      decreases left, if count == q.n then 0 else 1
    {
      var probes;
      ghost var at := d;
      cur, count, ended, probes := PassNode(visited, entry, q, d, cur, count, slot, left);
      d, left := d + probes, left - probes;
      if !ended {
        NotWithin(q, visited[..], fuel);
        return;
      }
      if count == entry.ipCount {
        EndsAt(q, at, fuel);
        return;
      }
    }
    ProbedPassed(q, visited[..], d);
    AllVisited(visited[..], q.n);
    FreeOrFull(q, visited[..], d);
    EndsAt(q, d, fuel);
  }

  lemma SlotFirst(q: Search)
    requires q.n > 0
    ensures Position(q, 0) == q.slot && Advance(q.off, 0) == q.off
  {
  }

  lemma EndsAt(q: Search, m: nat, fuel: nat)
    requires Proper(q) && Stops(q, m) && m <= fuel
    ensures Ends(q, fuel)
  {
    hide Stops;
  }

  lemma NotWithin(q: Search, vis: seq<bool>, fuel: nat)
    requires Proper(q) && Probed(q, vis, fuel + 1)
    ensures !Ends(q, fuel)
  {
    hide Stops;
  }

  lemma FreeOrFull(q: Search, vis: seq<bool>, d: nat)
    requires Proper(q) && Probed(q, vis, d) && Position(q, d) < q.n
    requires (q.status[Position(q, d)] != WRONG && !vis[Position(q, d)]) || (forall j :: 0 <= j < q.n ==> vis[j])
    ensures Stops(q, d)
  {
    if forall j :: 0 <= j < q.n ==> vis[j] {
      ProbeOn(q, vis, d);
    }
  }

  /** One draw of a node. `start` stands for the result of `rand()`; `ended` is false only when the probes
      used up `fuel`. The call ends, exactly, when the probes meet a free node that is not WRONG, or
      when all nodes have been marked. */
  method GetLocation(visited: array<bool>, entry: CnEntry, visitedCount: nat, start: nat, fuel: nat)
    returns (ind: int, count: nat, ended: bool)
    requires entry.Valid() && visited.Length == MAX_CN
    requires entry.ipCount > 0 ==> visitedCount == CountVisited(visited[..entry.ipCount])
    modifies visited, entry.step
    ensures entry.Valid()
    ensures entry.ipCount <= 0 ==> ended && ind == -1 && count == visitedCount && visited[..] == old(visited[..])
    ensures entry.ipCount > 0 ==> count == CountVisited(visited[..entry.ipCount])
    ensures entry.ipCount > 0 && ended ==>
              Located(entry.ipCount, entry.ipStatus[..], old(visited[..]), visited[..], ind)
    ensures entry.ipCount > 0 ==>
              var slot := start % entry.ipCount;
              ended <==> Ends(Search(entry.ipCount, entry.ipStatus[..], old(visited[..]), slot, old(entry.step[slot])), fuel)
    ensures entry.ipCount > 0 && IsPow2(entry.ipCount) && fuel >= 2 * entry.ipCount ==> ended
  {
    hide CountVisited, IsPow2, Passed, Located, Ends;
    if entry.ipCount <= 0 {
      return -1, visitedCount, true;
    }
    var slot := RandomSlot(start, entry.ipCount);
    ghost var q := Search(entry.ipCount, entry.ipStatus[..], visited[..], slot, entry.step[slot]);
    if IsPow2(entry.ipCount) && fuel >= 2 * entry.ipCount {
      PowerEnds(q, fuel);
    }
    var cur;
    cur, count, ended := PassOver(visited, entry, visitedCount, slot, fuel, q);
    if !ended {
      return -1, count, false;
    }
    if visited[cur] {
      NoneLeft(entry.ipCount, entry.ipStatus[..], old(visited[..]), visited[..]);
      return -1, count, true;
    }
    NotAll(visited[..entry.ipCount], cur);
    PassedOn(entry.ipCount, entry.ipStatus[..], old(visited[..]), visited[..], cur);
    count := Mark(visited, cur, count, entry.ipCount);
    return cur, count, true;
  }

  // ---------------------------------------------------------------- connect_random_IP

  ghost predicate Distinct(s: seq<nat>) {
    forall i, j :: 0 <= i < j < |s| ==> s[i] != s[j]
  }

  /** `reachable` is the outcome of the preliminary check of all nodes, `connects[j]` says whether
      node j accepts the connection, `draws` are the values of `rand()`. */
  method ConnectRandomIp(entry: CnEntry, reachable: bool, connects: seq<bool>, draws: nat -> nat, fuel: nat)
    returns (ok: bool, tried: seq<nat>, ended: bool)
    requires entry.Valid() && |connects| == MAX_CN
    modifies entry.step
    ensures entry.Valid()
    ensures !reachable ==> !ok && tried == [] && ended
    ensures Distinct(tried)
    ensures forall i :: 0 <= i < |tried| ==> tried[i] < entry.ipCount && entry.ipStatus[tried[i]] != WRONG
    ensures ok ==> ended && tried != [] && connects[tried[|tried| - 1]]
    ensures forall i :: 0 <= i < |tried| - (if ok then 1 else 0) ==> !connects[tried[i]]
    ensures reachable && ended && !ok ==>
              forall j: nat :: j < entry.ipCount && entry.ipStatus[j] != WRONG ==> j in tried && !connects[j]
    ensures entry.ipCount > 0 && IsPow2(entry.ipCount) && fuel >= 2 * entry.ipCount ==> ended
    ensures reachable && entry.ipCount > 0 ==>
              var slot := draws(0) % entry.ipCount;
              !Ends(Search(entry.ipCount, entry.ipStatus[..], NONE_VISITED, slot, old(entry.step[slot])), fuel) ==> !ended && tried == []
  {
    hide Ends, CountVisited, IsPow2;
    ok, tried, ended := false, [], true;
    if !reachable {
      return;
    }
    var visited := new bool[MAX_CN](i => false);
    var count: nat := 0;
    assert entry.ipCount > 0 ==> CountVisited(visited[..entry.ipCount]) == 0 by {
      if entry.ipCount > 0 { NoneVisited(visited[..entry.ipCount]); }
    }
    ghost var slot := if entry.ipCount > 0 then draws(0) % entry.ipCount else 0;
    ghost var ends := entry.ipCount > 0 && Ends(Search(entry.ipCount, entry.ipStatus[..], NONE_VISITED, slot, entry.step[slot]), fuel);
    assert visited[..] == NONE_VISITED;
    while true
      invariant tried == [] ==> visited[..] == NONE_VISITED && entry.step[..] == old(entry.step[..])
      invariant tried != [] ==> ends
      invariant entry.Valid() && fresh(visited) && visited.Length == MAX_CN
      invariant !ok && ended && Distinct(tried)
      invariant entry.ipCount > 0 ==> count == CountVisited(visited[..entry.ipCount])
      invariant entry.ipCount <= 0 ==> tried == []
      invariant forall i :: 0 <= i < |tried| ==>
                  tried[i] < entry.ipCount && entry.ipStatus[tried[i]] != WRONG && !connects[tried[i]] && visited[tried[i]]
      invariant forall j: nat :: j < MAX_CN && visited[j] && entry.ipStatus[j] != WRONG ==> j in tried
      decreases MAX_CN - |tried|
    {
      var ind;
      ind, count, ended := GetLocation(visited, entry, count, draws(|tried|), fuel);
      if ind == -1 || !ended {
        return false, tried, ended;
      }
      tried := tried + [ind];
      if connects[ind] {
        ok := true;
        return;
      }
      TriedBound(tried);
    }
  }

  /** The run that does not end: three nodes, fresh stride counters, the node drawn first and the next one
      WRONG, the third one usable. */
  method UsableNodeMissed(status: seq<int>, connects: seq<bool>, draws: nat -> nat, fuel: nat) returns (ended: bool)
    requires |status| == |connects| == MAX_CN && fuel < HALF_WORD
    requires var slot := draws(0) % 3;
             status[slot] == WRONG && status[(slot + 1) % 3] == WRONG && status[(slot + 2) % 3] != WRONG
    ensures !ended
  {
    var entry := new CnEntry(status, 3);
    ThreeNodes(status, draws(0) % 3, fuel);
    var ok, tried;
    ok, tried, ended := ConnectRandomIp(entry, true, connects, draws, fuel);
  }

  lemma {:induction false} NoneVisited(s: seq<bool>)
    requires forall j :: 0 <= j < |s| ==> !s[j]
    ensures CountVisited(s) == 0
  {
    if s != [] { NoneVisited(s[..|s| - 1]); }
  }

  lemma {:induction false} TriedBound(tried: seq<nat>)
    requires Distinct(tried) && forall i :: 0 <= i < |tried| ==> tried[i] < MAX_CN
    ensures |tried| <= MAX_CN
  {
    DistinctSize(tried, MAX_CN);
  }

  lemma {:induction false} DistinctSize(s: seq<nat>, n: nat)
    requires Distinct(s) && forall i :: 0 <= i < |s| ==> s[i] < n
    ensures |s| <= n
  {
    if s == [] {
    } else if n - 1 in s {
      var i :| 0 <= i < |s| && s[i] == n - 1;
      DistinctSize(s[..i] + s[i + 1..], n - 1);
    } else {
      assert s[0] < n - 1;
      DistinctSize(s, n - 1);
    }
  }
}
