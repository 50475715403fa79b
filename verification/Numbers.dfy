/** Digit strings and the numbers they denote. */
module Numbers {
  import opened Bytes
  import opened Sequences

  function Digit(character: nat, base: nat): (r: Option<nat>)
    requires base == 10 || base == 16
    ensures r.Some? ==> r.value < base
  {
    if 0x30 <= character <= 0x39 then Some(character - 0x30)
    else if base == 16 && 0x61 <= character <= 0x66 then Some(character - 0x61 + 10)
    else if base == 16 && 0x41 <= character <= 0x46 then Some(character - 0x41 + 10)
    else None
  }

  /** The number a digit string denotes, if it is one; the empty string denotes zero. */
  function NumberOf(digits: seq<nat>, base: nat): Option<nat>
    requires base == 10 || base == 16
  {
    if digits == [] then Some(0)
    else
      var last := |digits| - 1;
      match (NumberOf(digits[..last], base), Digit(digits[last], base))
      case (Some(high), Some(digit)) => Some(high * base + digit)
      case _ => None
  }

  lemma {:induction false} NumberPrefix(digits: seq<nat>, base: nat, n: nat)
    requires base == 10 || base == 16
    requires n <= |digits|
    ensures NumberOf(digits, base).Some? ==>
              NumberOf(digits[..n], base).Some? && NumberOf(digits[..n], base).value <= NumberOf(digits, base).value
    decreases |digits|
  {
    if n == |digits| {
      assert digits[..n] == digits;
    } else {
      var init := digits[..|digits| - 1];
      NumberPrefix(init, base, n);
      assert init[..n] == digits[..n];
    }
  }

  lemma NumberOfNothing(base: nat)
    requires base == 10 || base == 16
    ensures forall digits: seq<nat> :: NumberOf(digits[..0], base) == Some(0)
  {
  }

  lemma NumberStep(digits: seq<nat>, base: nat, i: nat)
    requires (base == 10 || base == 16) && i < |digits|
    ensures NumberOf(digits[..i + 1], base) ==
            match (NumberOf(digits[..i], base), Digit(digits[i], base))
            case (Some(high), Some(digit)) => Some(high * base + digit)
            case _ => None
  {
    Grow(digits, i);
  }

  lemma NotANumber(digits: seq<nat>, n: nat)
    requires n < |digits| && (digits[n] < 0x30 || digits[n] > 0x39)
    ensures NumberOf(digits, 10) == None
  {
    NumberStep(digits, 10, n);
    NumberPrefix(digits, 10, n + 1);
  }

  function Decimal(n: nat): (digits: seq<byte>)
    ensures digits != [] && forall i :: 0 <= i < |digits| ==> 0x30 <= digits[i] <= 0x39
  {
    if n < 10 then [0x30 + n] else Decimal(n / 10) + [0x30 + n % 10]
  }

  lemma {:induction false} DecimalReads(n: nat)
    ensures NumberOf(Decimal(n), 10) == Some(n)
  {
    var digits := Decimal(n);
    if n < 10 {
      assert digits[..0] == [];
      assert NumberOf(digits[..0], 10) == Some(0);
    } else {
      DecimalReads(n / 10);
      assert digits[..|digits| - 1] == Decimal(n / 10);
    }
  }

  lemma {:induction false} DecimalLength(n: nat, k: nat, bound: nat)
    requires 1 <= k && n < bound && bound == PowerOfTen(k)
    ensures |Decimal(n)| <= k
    decreases k
  {
    if n >= 10 {
      DecimalLength(n / 10, k - 1, PowerOfTen(k - 1));
    }
  }

  function PowerOfTen(k: nat): nat {
    if k == 0 then 1 else 10 * PowerOfTen(k - 1)
  }

  /** No digit string of the same number is shorter, leading zeros or not. */
  lemma {:induction false} DecimalShortest(digits: seq<nat>)
    requires digits != [] && NumberOf(digits, 10).Some?
    ensures |Decimal(NumberOf(digits, 10).value)| <= |digits|
    decreases |digits|
  {
    var init := digits[..|digits| - 1];
    var n := NumberOf(digits, 10).value;
    if |digits| == 1 {
      assert NumberOf(init, 10) == Some(0);
    } else if n >= 10 {
      DecimalShortest(init);
      assert n / 10 == NumberOf(init, 10).value;
    }
  }
}
