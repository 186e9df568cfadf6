/** The primes from which FIPS 180-4 derives the constants of SHA-256: the table holds them all, in order, without gaps. */
module Primes {
  import opened Bytes

  /** The first 64 primes. */
  function NthPrime(t: nat): nat
    requires t < 64
  {
    if t < 8 then [2, 3, 5, 7, 11, 13, 17, 19][t] else
    if t < 16 then [23, 29, 31, 37, 41, 43, 47, 53][t - 8] else
    if t < 24 then [59, 61, 67, 71, 73, 79, 83, 89][t - 16] else
    if t < 32 then [97, 101, 103, 107, 109, 113, 127, 131][t - 24] else
    if t < 40 then [137, 139, 149, 151, 157, 163, 167, 173][t - 32] else
    if t < 48 then [179, 181, 191, 193, 197, 199, 211, 223][t - 40] else
    if t < 56 then [227, 229, 233, 239, 241, 251, 257, 263][t - 48] else
    [269, 271, 277, 281, 283, 293, 307, 311][t - 56]
  }

  predicate Divides(d: nat, p: nat)
    requires d > 0
  {
    p % d == 0
  }

  predicate IsPrime(p: nat) {
    p >= 2 && forall d :: 2 <= d < p ==> !Divides(d, p)
  }

  /** A divisor above 17 of a number below 18 * 18 comes with one of at most 17. */
  lemma SmallCofactor(p: nat, d: nat) returns (e: nat)
    requires 18 <= d < p < 324 && Divides(d, p)
    ensures 2 <= e <= 17 && e < p && Divides(e, p)
  {
    e := p / d;
    assert p == d * e;
    assert e >= 2;
    assert e < 18 by {
      MulDiff(d, 17, e);
    }
    DivModUnique(p, e, d, 0);
  }

  /** Trial division by the primes up to 17. */
  predicate Trial(p: nat) {
    && p >= 2
    && (p == 2 || p % 2 != 0)
    && (p == 3 || p % 3 != 0)
    && (p == 5 || p % 5 != 0)
    && (p == 7 || p % 7 != 0)
    && (p == 11 || p % 11 != 0)
    && (p == 13 || p % 13 != 0)
    && (p == 17 || p % 17 != 0)
  }

  lemma DividesTransitive(q: nat, d: nat, p: nat)
    requires q > 0 && d > 0 && Divides(q, d) && Divides(d, p)
    ensures Divides(q, p)
  {
    var f, e := d / q, p / d;
    assert d == q * f && p == d * e;
    assert p == q * (f * e);
    DivModUnique(p, q, f * e, 0);
  }

  /** Each of 2 .. 17 is divisible by one of the seven trial divisors. */
  lemma SmallDivisor(p: nat, d: nat)
    requires 2 <= d <= 17 && d < p && Divides(d, p)
    ensures !Trial(p)
  {
    var q := if d % 2 == 0 then 2 else if d % 3 == 0 then 3 else if d == 5 || d == 15 then 5 else d;
    DividesTransitive(q, d, p);
    assert q in {2, 3, 5, 7, 11, 13, 17};
  }

  lemma TrialDivision(p: nat)
    requires p < 324
    ensures Trial(p) <==> IsPrime(p)
  {
    if p >= 2 && !Trial(p) {
      assert exists d :: 2 <= d < p && Divides(d, p) by {
        assert Divides(2, p) || Divides(3, p) || Divides(5, p) || Divides(7, p) || Divides(11, p) || Divides(13, p)
            || Divides(17, p);
      }
    }
    hide Divides, Trial;
    forall d | 2 <= d < p && Divides(d, p)
      ensures !Trial(p)
    {
      if d <= 17 {
        SmallDivisor(p, d);
      } else {
        var e := SmallCofactor(p, d);
        SmallDivisor(p, e);
      }
    }
  }

  /** None of the numbers lo .. hi - 1 passes the trial. */
  predicate NonePasses(lo: nat, hi: nat)
    decreases hi - lo
  {
    lo >= hi || (!Trial(lo) && NonePasses(lo + 1, hi))
  }

  lemma {:induction false} NoneMeans(lo: nat, hi: nat, p: nat)
    requires NonePasses(lo, hi) && lo <= p < hi
    ensures !Trial(p)
    decreases hi - lo
  {
    if p > lo {
      NoneMeans(lo + 1, hi, p);
    }
  }

  /** q is the next prime after p. */
  predicate Follows(p: nat, q: nat) {
    p < q && Trial(q) && NonePasses(p + 1, q)
  }

  lemma Next0()
    ensures Follows(1, 2) && Follows(2, 3) && Follows(3, 5) && Follows(5, 7)
  {}

  lemma Next4()
    ensures Follows(7, 11) && Follows(11, 13) && Follows(13, 17) && Follows(17, 19)
  {}

  lemma Next8()
    ensures Follows(19, 23) && Follows(23, 29) && Follows(29, 31) && Follows(31, 37)
  {}

  lemma Next12()
    ensures Follows(37, 41) && Follows(41, 43) && Follows(43, 47) && Follows(47, 53)
  {}

  lemma Next16()
    ensures Follows(53, 59) && Follows(59, 61) && Follows(61, 67) && Follows(67, 71)
  {}

  lemma Next20()
    ensures Follows(71, 73) && Follows(73, 79) && Follows(79, 83) && Follows(83, 89)
  {}

  lemma Next24()
    ensures Follows(89, 97) && Follows(97, 101) && Follows(101, 103) && Follows(103, 107)
  {}

  lemma Next28()
    ensures Follows(107, 109) && Follows(109, 113) && Follows(113, 127) && Follows(127, 131)
  {}

  lemma Next32()
    ensures Follows(131, 137) && Follows(137, 139) && Follows(139, 149) && Follows(149, 151)
  {}

  lemma Next36()
    ensures Follows(151, 157) && Follows(157, 163) && Follows(163, 167) && Follows(167, 173)
  {}

  lemma Next40()
    ensures Follows(173, 179) && Follows(179, 181) && Follows(181, 191) && Follows(191, 193)
  {}

  lemma Next44()
    ensures Follows(193, 197) && Follows(197, 199) && Follows(199, 211) && Follows(211, 223)
  {}

  lemma Next48()
    ensures Follows(223, 227) && Follows(227, 229) && Follows(229, 233) && Follows(233, 239)
  {}

  lemma Next52()
    ensures Follows(239, 241) && Follows(241, 251) && Follows(251, 257) && Follows(257, 263)
  {}

  lemma Next56()
    ensures Follows(263, 269) && Follows(269, 271) && Follows(271, 277) && Follows(277, 281)
  {}

  lemma Next60()
    ensures Follows(281, 283) && Follows(283, 293) && Follows(293, 307) && Follows(307, 311)
  {}

  /** Entry t of the table comes next after the entry before it. */
  lemma TableStep(t: nat)
    requires t < 64
    ensures Follows(if t == 0 then 1 else NthPrime(t - 1), NthPrime(t))
  {
    hide Follows;
    Next0();
    Next4();
    Next8();
    Next12();
    Next16();
    Next20();
    Next24();
    Next28();
    Next32();
    Next36();
    Next40();
    Next44();
    Next48();
    Next52();
    Next56();
    Next60();
  }

  /** The entries increase. */
  lemma {:induction false} Increasing(s: nat, t: nat)
    requires s < t < 64
    ensures NthPrime(s) < NthPrime(t)
    decreases t
  {
    hide NthPrime;
    TableStep(t);
    if s < t - 1 {
      Increasing(s, t - 1);
    }
  }

  lemma AtMost311(t: nat)
    requires t < 64
    ensures NthPrime(t) <= 311
  {
    assert NthPrime(63) == 311;
    hide NthPrime;
    if t < 63 {
      Increasing(t, 63);
    }
  }

  ghost predicate InTable(p: nat, t: nat)
    requires t < 64
  {
    exists s :: 0 <= s <= t && NthPrime(s) == p
  }

  /** Up to entry t, the primes are the entries of the table. */
  lemma {:induction false} PrimesUpTo(t: nat, p: nat)
    requires t < 64 && p <= NthPrime(t)
    ensures IsPrime(p) <==> InTable(p, t)
    decreases t
  {
    hide NthPrime, IsPrime, Trial;
    TableStep(t);
    AtMost311(t);
    TrialDivision(p);
    if p == NthPrime(t) {
      assert InTable(p, t);
    } else if t > 0 && p <= NthPrime(t - 1) {
      PrimesUpTo(t - 1, p);
      assert InTable(p, t) <==> InTable(p, t - 1);
    } else {
      Between(t, p);
    }
  }

  /** What lies strictly between two entries, or below 2, is no prime and not in the table. */
  lemma Between(t: nat, p: nat)
    requires t < 64 && p < NthPrime(t) && (t > 0 ==> p > NthPrime(t - 1))
    ensures !Trial(p) && !InTable(p, t)
  {
    hide NthPrime;
    TableStep(t);
    var before := if t == 0 then 1 else NthPrime(t - 1);
    if p > before {
      NoneMeans(before + 1, NthPrime(t), p);
    }
    forall s | 0 <= s <= t
      ensures NthPrime(s) != p
    {
      if s < t - 1 {
        Increasing(s, t - 1);
      }
    }
  }

  /** The table lists all primes up to 311 and nothing else. As its entries increase, they are the first 64 primes. */
  lemma FirstPrimes(p: nat)
    requires p <= 311
    ensures IsPrime(p) <==> exists t :: 0 <= t < 64 && NthPrime(t) == p
  {
    assert NthPrime(63) == 311;
    hide NthPrime, IsPrime;
    PrimesUpTo(63, p);
  }
}
