/** Sums of a name's characters weighted by powers, which the hash functions are built on. */
module CharSums {
  import opened CString

  function Power(base: nat, n: nat): nat {
    if n == 0 then 1 else base * Power(base, n - 1)
  }

  /** name[0] * base^(n - 1) + name[1] * base^(n - 2) + ..., the first k terms of it, for a name of length n. */
  function Sum(name: CStr, base: nat, k: nat): nat
    requires k <= |name|
  {
    if k == 0 then 0 else Sum(name, base, k - 1) + name[k - 1] * Power(base, |name| - k)
  }

  /** The weighted sum of a whole name. */
  function Weigh(name: CStr, base: nat): nat {
    Sum(name, base, |name|)
  }

  lemma {:induction false} SumOfInit(name: CStr, base: nat, k: nat)
    requires k < |name|
    ensures Sum(name, base, k) == base * Sum(name[..|name| - 1], base, k)
  {
    if k > 0 {
      hide Power;
      var init := name[..|name| - 1];
      SumOfInit(name, base, k - 1);
      PowerStep(base, |name| - k);
      Distribute(base, Sum(init, base, k - 1), name[k - 1], Power(base, |init| - k));
    }
  }

  lemma PowerStep(base: nat, n: nat)
    requires n > 0
    ensures Power(base, n) == base * Power(base, n - 1)
  {
  }

  lemma Distribute(b: int, x: int, c: int, p: int)
    ensures b * x + c * (b * p) == b * (x + c * p)
  {
  }

  /** One more character. */
  lemma WeighSnoc(name: CStr, base: nat)
    requires name != []
    ensures Weigh(name, base) == base * Weigh(name[..|name| - 1], base) + name[|name| - 1]
  {
    SumOfInit(name, base, |name| - 1);
  }
}
