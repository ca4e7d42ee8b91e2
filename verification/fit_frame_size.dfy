/** Exact-ratio resolution limiting (vtsrtc/src/rtc_videosource.hpp).

    A frame that is too large for a bounding box is replaced by the largest size
    that keeps the input ratio exactly, has two even sides and fits the box.
    C++ `int` arithmetic is exact here: every product is at most a side of the box.
  */
module FrameFit {

  datatype Size = Size(width: int, height: int)

  predicate Positive(s: Size) { s.width > 0 && s.height > 0 }

  predicate Fits(s: Size, box: Size) { s.width <= box.width && s.height <= box.height }

  /** Equal ratios, by cross multiplication. */
  predicate SameRatio(s: Size, t: Size) { s.width * t.height == t.width * s.height }

  /** The sizes the limiter may choose from. */
  predicate Candidate(input: Size, box: Size, s: Size) {
    && Positive(s) && Fits(s, box)
    && s.width % 2 == 0 && s.height % 2 == 0
    && SameRatio(s, input)
  }

  ghost predicate Feasible(input: Size, box: Size) {
    exists s :: Candidate(input, box, s)
  }

  predicate LimitApplies(input: Size, box: Size) {
    Positive(input) && Positive(box) && !Fits(input, box)
  }

  /** What the limiter promises: the largest candidate, or the input when the limit
      does not apply or nothing qualifies. */
  ghost predicate IsFit(input: Size, box: Size, r: Size) {
    if LimitApplies(input, box) && Feasible(input, box) then
      && Candidate(input, box, r)
      && forall s :: Candidate(input, box, s) ==> Fits(s, r)
    else
      r == input
  }

  // ----- Euclid's loop -----

  /** What the loop computes. */
  function Gcd(divisor: int, remainder: int): int
    requires remainder >= 0
    decreases remainder
  {
    if remainder == 0 then divisor else Gcd(remainder, divisor % remainder)
  }

  /** The sides without their greatest common divisor. */
  function Reduced(input: Size): Size
    requires Positive(input)
  {
    var divisor := Gcd(input.width, input.height);
    if divisor == 0 then input else Size(input.width / divisor, input.height / divisor)
  }

  /** The divisor divides both numbers and is a combination of them. */
  lemma {:induction false} GcdCombines(m: int, n: int) returns (p: int, q: int, a: int, b: int)
    requires m > 0 && n >= 0
    ensures Gcd(m, n) > 0
    ensures m == p * Gcd(m, n) && n == q * Gcd(m, n)
    ensures Gcd(m, n) == a * m + b * n
    decreases n
  {
    if n == 0 {
      p, q, a, b := 1, 0, 1, 0;
    } else {
      var k, p', q', a', b' := m / n, 0, 0, 0, 0;
      p', q', a', b' := GcdCombines(n, m % n);
      DivisionStep(m, n, k, m % n, p', q', a', b', Gcd(m, n));
      p, q, a, b := k * p' + q', p', b', a' - k * b';
    }
  }

  lemma DivisionStep(m: int, n: int, k: int, next: int, p: int, q: int, a: int, b: int, divisor: int)
    requires m == k * n + next && n == p * divisor && next == q * divisor && divisor == a * n + b * next
    ensures m == (k * p + q) * divisor
    ensures divisor == b * m + (a - k * b) * n
  {
    assert k * (p * divisor) == (k * p) * divisor;
    assert b * (k * n) == (k * b) * n;
  }

  /** The reduced sides are coprime: a combination of them is 1. */
  lemma ReducedIsCoprime(input: Size) returns (divisor: int, a: int, b: int)
    requires Positive(input)
    ensures divisor == Gcd(input.width, input.height) > 0
    ensures var ratio := Reduced(input);
      && Positive(ratio)
      && ratio == Size(input.width / divisor, input.height / divisor)
      && input == Size(ratio.width * divisor, ratio.height * divisor)
      && a * ratio.width + b * ratio.height == 1
  {
    var p, q;
    p, q, a, b := GcdCombines(input.width, input.height);
    divisor := Gcd(input.width, input.height);
    DivideExactly(input.width, p, divisor);
    DivideExactly(input.height, q, divisor);
    BezoutOfQuotients(p, q, divisor, a, b, input.width, input.height);
    QuotientPositive(p, divisor);
    QuotientPositive(q, divisor);
  }

  lemma QuotientPositive(p: int, divisor: int)
    requires divisor > 0 && p * divisor > 0
    ensures p > 0
  {
    assert p <= 0 ==> p * divisor <= 0;
  }

  lemma DivideExactly(side: int, p: int, divisor: int)
    requires divisor > 0 && side == p * divisor
    ensures side / divisor == p
  {
    var k := side / divisor;
    assert side == k * divisor + side % divisor;
    assert (p - k) * divisor == p * divisor - k * divisor;
    SmallMultipleIsZero(p - k, divisor);
  }

  lemma SmallMultipleIsZero(n: int, d: int)
    requires 0 <= n * d < d
    ensures n == 0
  {
    assert n >= 1 ==> n * d >= d;
    assert n <= -1 ==> n * d <= -d;
  }

  /** The reduced sides are coprime, in Bezout's form. */
  lemma BezoutOfQuotients(p: int, q: int, divisor: int, a: int, b: int, width: int, height: int)
    requires divisor > 0 && width == p * divisor && height == q * divisor
    requires divisor == a * width + b * height
    ensures a * p + b * q == 1
  {
    assert a * (p * divisor) == (a * p) * divisor && b * (q * divisor) == (b * q) * divisor;
    assert (a * p + b * q) * divisor == 1 * divisor;
    CancelFactor(a * p + b * q, 1, divisor);
  }

  lemma CancelFactor(x: int, y: int, k: int)
    requires k != 0 && x * k == y * k
    ensures x == y
  {
    assert (x - y) * k == 0;
  }

  // ----- Candidates are the even multiples of the reduced ratio -----

  /** A candidate is m times the reduced ratio, and m is even because the ratio is coprime. */
  lemma CandidateIsEvenMultiple(input: Size, ratio: Size, divisor: int, a: int, b: int, box: Size, s: Size)
    requires divisor > 0 && Positive(ratio)
    requires input == Size(ratio.width * divisor, ratio.height * divisor)
    requires a * ratio.width + b * ratio.height == 1
    requires Candidate(input, box, s)
    ensures var m := a * s.width + b * s.height;
      s == Size(ratio.width * m, ratio.height * m) && m > 0 && m % 2 == 0
  {
    var p, q, m := ratio.width, ratio.height, a * s.width + b * s.height;
    assert s.width * (q * divisor) == (s.width * q) * divisor;
    assert (p * divisor) * s.height == (p * s.height) * divisor;
    CancelFactor(s.width * q, p * s.height, divisor);
    Recover(p, q, a, b, s.width, s.height);
    Recover(q, p, b, a, s.height, s.width);
    assert m <= 0 ==> p * m <= 0;
    var i, j := s.width / 2, s.height / 2;
    assert m == 2 * (a * i + b * j);
  }

  lemma Recover(p: int, q: int, a: int, b: int, x: int, y: int)
    requires a * p + b * q == 1 && x * q == p * y
    ensures x == p * (a * x + b * y)
  {
    assert p * (a * x + b * y) == (a * p) * x + b * (p * y);
    assert b * (x * q) == (b * q) * x;
    assert (a * p) * x + (b * q) * x == (a * p + b * q) * x;
  }

  lemma MultipleFits(m: int, side: int, limit: int)
    requires side > 0 && side * m <= limit
    ensures m <= limit / side
  {
    var k := limit / side;
    assert limit == side * k + limit % side;
    assert m > k ==> side * (k + 1) <= side * m;
  }

  lemma Monotone(side: int, m: int, n: int)
    requires side > 0 && m <= n
    ensures side * m <= side * n
  {
  }

  lemma EvenMultipleIsCandidate(input: Size, ratio: Size, divisor: int, box: Size, m: int)
    requires divisor > 0 && Positive(ratio) && Positive(box)
    requires input == Size(ratio.width * divisor, ratio.height * divisor)
    requires 0 < m <= box.width / ratio.width && m <= box.height / ratio.height && m % 2 == 0
    ensures Candidate(input, box, Size(ratio.width * m, ratio.height * m))
  {
    var p, q := ratio.width, ratio.height;
    MultipleBelow(p, m, box.width);
    MultipleBelow(q, m, box.height);
    EvenProduct(p, m);
    EvenProduct(q, m);
    assert (p * m) * (q * divisor) == (p * divisor) * (q * m);
  }

  lemma MultipleBelow(side: int, m: int, limit: int)
    requires side > 0 && 0 < m <= limit / side
    ensures 0 < side * m <= limit
  {
    assert side * m <= side * (limit / side);
    assert limit == side * (limit / side) + limit % side;
  }

  lemma EvenProduct(side: int, m: int)
    requires m % 2 == 0
    ensures side * m % 2 == 0
  {
    assert side * m == 2 * (side * (m / 2));
  }

  // ----- The limiter -----

  /** Reduces a positive size by its greatest common divisor. */
  method ReducedRatio(width: int, height: int) returns (divisor: int, ratio: Size)
    requires width > 0 && height > 0
    ensures divisor == Gcd(width, height) > 0
    ensures ratio == Reduced(Size(width, height))
    ensures Size(width, height) == Size(ratio.width * divisor, ratio.height * divisor)
  {
    ghost var _, _, _ := ReducedIsCoprime(Size(width, height));
    divisor := width;
    var remainder := height;
    while remainder != 0
      invariant divisor > 0 && remainder >= 0
      invariant Gcd(divisor, remainder) == Gcd(width, height)
      decreases remainder
    {
      var nextRemainder := divisor % remainder;
      divisor := remainder;
      remainder := nextRemainder;
    }
    ratio := Size(width / divisor, height / divisor);
  }

  /** The multiple the limiter picks bounds that of every candidate. */
  lemma MultipleBoundsCandidates(input: Size, ratio: Size, divisor: int, a: int, b: int, box: Size, multiple: int)
    requires divisor > 0 && Positive(ratio)
    requires input == Size(ratio.width * divisor, ratio.height * divisor)
    requires a * ratio.width + b * ratio.height == 1
    requires multiple % 2 == 0
    requires multiple + 2 > box.width / ratio.width || multiple + 2 > box.height / ratio.height
    ensures forall s :: Candidate(input, box, s) ==>
      multiple > 0 && Fits(s, Size(ratio.width * multiple, ratio.height * multiple))
  {
    hide SameRatio;
    forall s | Candidate(input, box, s)
      ensures multiple > 0 && Fits(s, Size(ratio.width * multiple, ratio.height * multiple))
    {
      CandidateIsEvenMultiple(input, ratio, divisor, a, b, box, s);
      var m := a * s.width + b * s.height;
      MultipleFits(m, ratio.width, box.width);
      MultipleFits(m, ratio.height, box.height);
      Monotone(ratio.width, m, multiple);
      Monotone(ratio.height, m, multiple);
    }
  }

  lemma QuotientNonnegative(n: int, d: int)
    requires n > 0 && d > 0
    ensures n / d >= 0
  {
  }

  lemma EvenMultipleIsFit(input: Size, ratio: Size, divisor: int, a: int, b: int, box: Size, multiple: int)
    requires LimitApplies(input, box)
    requires divisor > 0 && Positive(ratio)
    requires input == Size(ratio.width * divisor, ratio.height * divisor)
    requires a * ratio.width + b * ratio.height == 1
    requires 0 <= multiple <= box.width / ratio.width && multiple <= box.height / ratio.height
    requires multiple % 2 == 0
    requires multiple + 2 > box.width / ratio.width || multiple + 2 > box.height / ratio.height
    ensures IsFit(input, box,
              if multiple == 0 then input else Size(ratio.width * multiple, ratio.height * multiple))
  {
    MultipleBoundsCandidates(input, ratio, divisor, a, b, box, multiple);
    if multiple == 0 {
      assert !Feasible(input, box);
    } else {
      EvenMultipleIsCandidate(input, ratio, divisor, box, multiple);
    }
  }

  /** The largest even multiple of the ratio that stays inside the box. */
  method EvenMultiple(ratio: Size, box: Size) returns (multiple: int)
    requires Positive(ratio) && Positive(box)
    ensures 0 <= multiple <= box.width / ratio.width && multiple <= box.height / ratio.height
    ensures multiple % 2 == 0
    ensures multiple + 2 > box.width / ratio.width || multiple + 2 > box.height / ratio.height
  {
    var widthMultiple := box.width / ratio.width;
    var heightMultiple := box.height / ratio.height;
    QuotientNonnegative(box.width, ratio.width);
    QuotientNonnegative(box.height, ratio.height);
    multiple := if widthMultiple < heightMultiple then widthMultiple else heightMultiple;
    multiple := multiple - multiple % 2;
  }

  method FitFrameSize(input: Size, box: Size) returns (r: Size)
    ensures IsFit(input, box, r)
  {
    if input.width <= 0 || input.height <= 0 || box.width <= 0 || box.height <= 0 ||
       (input.width <= box.width && input.height <= box.height) {
      return input;
    }
    var divisor, ratio := ReducedRatio(input.width, input.height);
    ghost var _, a, b := ReducedIsCoprime(input);
    var multiple := EvenMultiple(ratio, box);
    EvenMultipleIsFit(input, ratio, divisor, a, b, box, multiple);
    r := if multiple == 0 then input else Size(ratio.width * multiple, ratio.height * multiple);
  }

  // ----- Consequences -----

  /** The contract determines the result, so it says all there is to say. */
  lemma FitIsUnique(input: Size, box: Size, r: Size, r': Size)
    requires IsFit(input, box, r) && IsFit(input, box, r')
    ensures r == r'
  {
    if LimitApplies(input, box) && Feasible(input, box) {
      assert Fits(r, r') && Fits(r', r);
    }
  }

  /** The box is violated exactly when no exact-ratio even size fits it. */
  lemma BoxIsMetIffFeasible(input: Size, box: Size, r: Size)
    requires IsFit(input, box, r) && Positive(input) && Positive(box)
    ensures Fits(r, box) <==> Fits(input, box) || Feasible(input, box)
  {
  }

  /** The box has room for twice the reduced ratio, so the multiple chosen is not zero. */
  predicate HasRoom(input: Size, box: Size)
    requires Positive(input)
  {
    2 * Reduced(input).width <= box.width && 2 * Reduced(input).height <= box.height
  }

  /** An even size of the exact ratio exists exactly when the box has that room. */
  lemma FeasibleIffRoom(input: Size, box: Size)
    requires Positive(input) && Positive(box)
    ensures Feasible(input, box) <==> HasRoom(input, box)
  {
    var ratio := Reduced(input);
    var divisor, a, b := ReducedIsCoprime(input);
    if HasRoom(input, box) {
      MultipleFits(2, ratio.width, box.width);
      MultipleFits(2, ratio.height, box.height);
      EvenMultipleIsCandidate(input, ratio, divisor, box, 2);
    }
    forall s | Candidate(input, box, s) ensures HasRoom(input, box) {
      CandidateIsEvenMultiple(input, ratio, divisor, a, b, box, s);
      var m := a * s.width + b * s.height;
      Monotone(ratio.width, 2, m);
      Monotone(ratio.height, 2, m);
    }
  }

  /** Limiting again with the same box changes nothing. */
  lemma Idempotent(input: Size, box: Size, r: Size, r': Size)
    requires IsFit(input, box, r) && IsFit(r, box, r')
    ensures r' == r
  {
  }

  lemma SameRatioTransitive(s: Size, t: Size, u: Size)
    requires t.height > 0 && SameRatio(s, t) && SameRatio(t, u)
    ensures SameRatio(s, u)
  {
    assert (s.width * u.height) * t.height == (s.width * t.height) * u.height;
    assert (t.width * s.height) * u.height == (t.width * u.height) * s.height;
    assert (u.width * t.height) * s.height == (u.width * s.height) * t.height;
    CancelFactor(s.width * u.height, u.width * s.height, t.height);
  }

  /** The order of two sizes of one ratio is decided by either side. */
  lemma SameRatioOrder(s: Size, t: Size)
    requires Positive(s) && Positive(t) && SameRatio(s, t)
    ensures s.width <= t.width <==> s.height <= t.height
  {
    assert s.width <= t.width ==> s.width * t.height <= t.width * t.height;
    assert s.width <= t.width && s.height > t.height ==> t.width * s.height > t.width * t.height;
    assert s.height <= t.height ==> t.width * s.height <= t.width * t.height;
    assert s.height <= t.height && s.width > t.width ==> s.width * t.height > t.width * t.height;
  }

  /** Whatever the limiter returns for a positive input is positive and of its ratio,
      and no side grows. */
  lemma FitKeepsRatio(input: Size, box: Size, r: Size)
    requires Positive(input) && IsFit(input, box, r)
    ensures Positive(r) && SameRatio(r, input) && Fits(r, input)
  {
    if r != input {
      assert Candidate(input, box, r);
      SameRatioOrder(r, input);
    }
  }

  /** Both limiting stages together keep the exact input ratio and never enlarge a side. */
  lemma TwoStagesKeepRatio(input: Size, box1: Size, box2: Size, r1: Size, r2: Size)
    requires Positive(input) && IsFit(input, box1, r1) && IsFit(r1, box2, r2)
    ensures Positive(r2) && SameRatio(r2, input) && Fits(r2, input)
  {
    FitKeepsRatio(input, box1, r1);
    FitKeepsRatio(r1, box2, r2);
    SameRatioTransitive(r2, r1, input);
  }

  /** The box both stages allow. */
  function Meet(box1: Size, box2: Size): Size {
    Size(if box1.width <= box2.width then box1.width else box2.width,
         if box1.height <= box2.height then box1.height else box2.height)
  }

  lemma CandidateForSameRatio(input: Size, r: Size, box: Size, s: Size)
    requires Positive(input) && Positive(r) && SameRatio(r, input)
    ensures Candidate(input, box, s) <==> Candidate(r, box, s)
  {
    if Positive(s) {
      if SameRatio(s, input) { SameRatioTransitive(s, input, r); }
      if SameRatio(s, r) { SameRatioTransitive(s, r, input); }
    }
  }

  lemma FeasibleForSameRatio(input: Size, r: Size, box: Size)
    requires Positive(input) && Positive(r) && SameRatio(r, input)
    ensures Feasible(input, box) <==> Feasible(r, box)
  {
    forall s ensures Candidate(input, box, s) <==> Candidate(r, box, s) {
      CandidateForSameRatio(input, r, box, s);
    }
  }

  lemma CandidateShrinks(input: Size, box: Size, s: Size)
    requires Positive(input) && !Fits(input, box) && Candidate(input, box, s)
    ensures Fits(s, input)
  {
    SameRatioOrder(s, input);
    SameRatioOrder(input, s);
  }

  /** When the first limit leaves the input alone, one limit with the smaller box agrees. */
  lemma SecondStageOnly(input: Size, box1: Size, box2: Size, r2: Size, r: Size)
    requires Positive(input) && Positive(box1) && Positive(box2) && Fits(input, box1)
    requires IsFit(input, box2, r2) && IsFit(input, Meet(box1, box2), r)
    ensures r2 == r
  {
    var box := Meet(box1, box2);
    if !Fits(input, box2) {
      forall s | Candidate(input, box2, s) ensures Candidate(input, box, s) {
        CandidateShrinks(input, box2, s);
      }
      forall s | Candidate(input, box, s) ensures Candidate(input, box2, s) {}
      assert IsFit(input, box, r2);
      FitIsUnique(input, box, r2, r);
    }
  }

  /** When the first limit finds a size, one limit with the smaller box agrees as long as
      the second box can be met, and gives up as soon as it cannot. */
  lemma FirstStageShrinks(input: Size, box1: Size, box2: Size, r1: Size, r2: Size, r: Size)
    requires Positive(input) && Positive(box1) && Positive(box2)
    requires !Fits(input, box1) && HasRoom(input, box1)
    requires IsFit(input, box1, r1) && IsFit(r1, box2, r2) && IsFit(input, Meet(box1, box2), r)
    ensures r2 == r <==> HasRoom(input, box2)
  {
    var box := Meet(box1, box2);
    FeasibleIffRoom(input, box1);
    FeasibleIffRoom(input, box2);
    FeasibleForSameRatio(input, r1, box2);
    forall s | Candidate(input, box, s) ensures Candidate(input, box1, s) && Candidate(input, box2, s) {}
    if Fits(r1, box2) {
      assert Candidate(input, box, r1) && Candidate(input, box2, r1);
      FitIsUnique(input, box, r1, r);
    } else if Feasible(input, box2) {
      CandidateForSameRatio(input, r1, box2, r2);
      CandidateShrinks(r1, box2, r2);
      assert Candidate(input, box, r2);
      forall s | Candidate(input, box, s) ensures Fits(s, r2) {
        CandidateForSameRatio(input, r1, box2, s);
      }
      FitIsUnique(input, box, r2, r);
    } else {
      assert !Feasible(input, box);
    }
  }

  /** Running the two limits one after the other is the same as one limit with the
      smaller box, except when the first limit applies and exactly one of the two boxes has room
      (unless that is the second and the input fits it). */
  lemma TwoStagesAreOne(input: Size, box1: Size, box2: Size, r1: Size, r2: Size, r: Size)
    requires Positive(input) && Positive(box1) && Positive(box2)
    requires IsFit(input, box1, r1) && IsFit(r1, box2, r2) && IsFit(input, Meet(box1, box2), r)
    ensures r2 == r <==>
      || Fits(input, box1)
      || (HasRoom(input, box1) <==> HasRoom(input, box2))
      || (!HasRoom(input, box1) && Fits(input, box2))
  {
    FeasibleIffRoom(input, box1);
    FeasibleIffRoom(input, box2);
    if Fits(input, box1) {
      SecondStageOnly(input, box1, box2, r2, r);
    } else if HasRoom(input, box1) {
      FirstStageShrinks(input, box1, box2, r1, r2, r);
    } else {
      assert forall s :: Candidate(input, Meet(box1, box2), s) ==> Candidate(input, box1, s);
      assert r1 == input && r == input;
    }
  }

  /** A frame the two limits in a row make smaller than one limit does: 64x48 for the boxes 32x32
      and 6x6. The first finds 32x24; neither the second nor the smaller box has room. */
  lemma TwoLimitsCanDiffer()
    ensures var input, box1, box2 := Size(64, 48), Size(32, 32), Size(6, 6);
      && IsFit(input, box1, Size(32, 24)) && IsFit(Size(32, 24), box2, Size(32, 24))
      && IsFit(input, Meet(box1, box2), input)
  {
    assert Candidate(Size(64, 48), Size(32, 32), Size(32, 24));
  }
}
