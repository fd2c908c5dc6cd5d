/** Node naming: `_next(n)` formats a counter as `N` followed by at least four
    zero-padded decimal digits (Python's `f"N{n:04d}"`). */
module NodeNames {
  import opened Decimal

  /** Zero-pad a digit string on the left to width 4, as the `04d` format does;
      a wider string is kept whole. */
  function Pad4(ds: string): string {
    if |ds| < 4 then Zeros(4 - |ds|) + ds else ds
  }

  /** `_next(n)`: the name of the node created with counter n. */
  function Next(n: nat): string {
    "N" + Pad4(Digits(n))
  }

  /** The name is `N`, then as many zeros as needed to reach width 4, then the
      shortest decimal form of n: the counter is widened, never truncated. */
  lemma NextShape(n: nat)
    ensures |Next(n)| == 1 + (if n < 10000 then 4 else |Digits(n)|)
    ensures Next(n)[0] == 'N'
    ensures forall i :: 1 <= i < |Next(n)| ==> IsDigit(Next(n)[i])
    ensures n >= 10000 ==> |Next(n)| > 5
  {
    DigitsLength(n, 4);
    assert Pow10(4) == 10000;
    if n >= 10000 {
      DigitsLength(n, 5);
      assert Pow10(5) == 100000;
    }
  }

  /** The counter can be read back from the name. */
  lemma NextValue(n: nat)
    ensures |Next(n)| >= 5
    ensures forall i :: 1 <= i < |Next(n)| ==> IsDigit(Next(n)[i])
    ensures ValueOf(Next(n)[1..]) == n
  {
    var ds := Digits(n);
    assert Next(n)[1..] == Pad4(ds);
    ValueOfDigits(n);
    if |ds| < 4 {
      ValueOfPadded(4 - |ds|, ds);
    }
  }

  /** Different counters give different names, however large they get. */
  lemma NextInjective(a: nat, b: nat)
    ensures Next(a) == Next(b) <==> a == b
  {
    if Next(a) == Next(b) {
      NextValue(a);
      NextValue(b);
    }
  }

  /** The first name of a build. */
  lemma FirstName()
    ensures Next(0) == "N0000"
  {
    assert Digits(0) == "0";
    assert Zeros(3) == "000";
  }
}
