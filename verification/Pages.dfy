/** Page arithmetic: rounding, the pages a byte range touches, and the power-of-two test. */
module Pages {
  import opened Bits
  import opened Words

  /** The number of the page that holds an address; without a page size there is only one page. */
  function PageOf(address: nat, pageSize: nat): nat {
    if pageSize == 0 then 0
    else
      QuotientNat(address, pageSize);
      address / pageSize
  }

  /** `address & ~(pageSize - 1)` in a 64-bit register. */
  function RoundDown(address: u64, pageSize: u64): nat
    requires pageSize > 0
  {
    And(address, TWO_64 - pageSize)
  }

  predicate IsPowerOfTwo(n: nat) {
    n != 0 && And(n, n - 1) == 0
  }

  lemma PageUnique(address: nat, pageSize: nat, page: nat, rest: nat)
    requires rest < pageSize && address == pageSize * page + rest
    ensures PageOf(address, pageSize) == page
  {
    var q, r := address / pageSize, address % pageSize;
    assert address == pageSize * q + r;
    if q > page {
      Times(pageSize, q, page);
    } else if q < page {
      Times(pageSize, page, q);
    }
  }

  lemma Times(p: nat, a: int, b: int)
    requires a > b
    ensures p * a >= p * b + p
  {
    assert p * a == p * b + p * (a - b);
    assert p * (a - b) == p + p * (a - b - 1);
  }

  lemma PageBounds(address: nat, pageSize: nat)
    requires pageSize > 0
    ensures pageSize * PageOf(address, pageSize) <= address < pageSize * PageOf(address, pageSize) + pageSize
  {
    assert address == pageSize * (address / pageSize) + address % pageSize;
  }

  lemma PageMonotone(a: nat, b: nat, pageSize: nat)
    requires a <= b
    ensures PageOf(a, pageSize) <= PageOf(b, pageSize)
  {
    if pageSize > 0 {
      PageBounds(a, pageSize);
      PageBounds(b, pageSize);
      if PageOf(b, pageSize) < PageOf(a, pageSize) {
        Times(pageSize, PageOf(a, pageSize), PageOf(b, pageSize));
      }
    }
  }

  lemma {:induction false} PowerOfTwo(n: nat) returns (k: nat)
    requires IsPowerOfTwo(n)
    ensures n == Pow2(k)
    decreases n
  {
    if n == 1 {
      k := 0;
    } else if n % 2 == 1 {
      AndUnfold(n, n - 1);
      AndSelf(n / 2);
      assert false;
    } else {
      AndUnfold(n, n - 1);
      assert (n - 1) / 2 == n / 2 - 1;
      var j := PowerOfTwo(n / 2);
      k := j + 1;
    }
  }

  lemma {:induction false} AndSelf(n: nat)
    ensures And(n, n) == n
  {
    if n > 0 { AndSelf(n / 2); }
  }

  /** The power-of-two test accepts exactly the powers of two. */
  lemma {:induction false} PowerOfTwoIff(n: nat)
    ensures IsPowerOfTwo(n) <==> exists k: nat :: n == Pow2(k)
  {
    if IsPowerOfTwo(n) {
      var k := PowerOfTwo(n);
    } else if k: nat :| n == Pow2(k) {
      AndLowOnes(n, k);
      DecomposeUnique(n, k, 1, 0);
    }
  }

  lemma Pow2Below(k: nat)
    requires Pow2(k) < TWO_64
    ensures k < 64 && Pow2(64 - k) * Pow2(k) == TWO_64
  {
    Pow2At64();
    if k >= 64 { Pow2Monotone(64, k); }
    Pow2Add(64 - k, k);
  }

  lemma QuotientBelow(address: nat, p: nat, q: nat)
    requires p > 0 && address < p * q
    ensures address / p < q
  {
    PageBounds(address, p);
    if address / p > q { Times(p, address / p, q); }
  }

  /** Masking off the low bits rounds down to the page. */
  lemma RoundDownIs(address: u64, pageSize: u64)
    requires IsPowerOfTwo(pageSize)
    ensures RoundDown(address, pageSize) == pageSize * PageOf(address, pageSize) <= address
  {
    var k := PowerOfTwo(pageSize);
    Pow2Below(k);
    AndField(address, k, 64 - k);
    MinusOne(Pow2(64 - k), pageSize);
    ShrLow(address, k, pageSize);
    PageBounds(address, pageSize);
    MulSwapped(pageSize, Pow2(64 - k));
    QuotientBelow(address, pageSize, Pow2(64 - k));
    LowSmall(address / pageSize, 64 - k);
    MulSwapped(pageSize, address / pageSize);
  }

  lemma MinusOne(a: int, b: int)
    ensures (a - 1) * b == a * b - b
  {
  }

  lemma MulSwapped(a: int, b: int)
    ensures a * b == b * a
  {
  }
}
