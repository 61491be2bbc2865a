/**
 The names the nodes go by on the network: a node id `n` is written as its
 uppercase hexadecimal digits padded with `'0'` to four characters
 (`format!("{:0>4X}", n)`), and a name is read back with
 `u32::from_str_radix(name, 16)`.
 */
module NetworkNames {
  import opened Wrappers
  import opened Bytes

  const UPPER_HEX_DIGITS: string := "0123456789ABCDEF"

  predicate IsHexDigit(c: char)
  {
    ('0' <= c <= '9') || ('a' <= c <= 'f') || ('A' <= c <= 'F')
  }

  predicate IsUpperHexDigit(c: char)
  {
    ('0' <= c <= '9') || ('A' <= c <= 'F')
  }

  predicate AllHexDigits(s: string)
  {
    forall i :: 0 <= i < |s| ==> IsHexDigit(s[i])
  }

  predicate AllUpperHexDigits(s: string)
  {
    forall i :: 0 <= i < |s| ==> IsUpperHexDigit(s[i])
  }

  /** The value of one base-16 digit of either case. */
  function DigitValue(c: char): (d: nat)
    requires IsHexDigit(c)
    ensures d < 16
  {
    if '0' <= c <= '9' then c as int - '0' as int
    else if 'a' <= c <= 'f' then c as int - 'a' as int + 10
    else c as int - 'A' as int + 10
  }

  /** The uppercase digit for `d`. */
  function HexChar(d: nat): (c: char)
    requires d < 16
    ensures IsUpperHexDigit(c) && DigitValue(c) == d
  {
    UPPER_HEX_DIGITS[d]
  }

  function Pow16(k: nat): (r: nat)
    ensures r >= 1
  {
    if k == 0 then 1 else 16 * Pow16(k - 1)
  }

  /** The number that base-16 digits denote, most significant first. */
  function HexValue(s: string): (v: nat)
    requires AllHexDigits(s)
    ensures v < Pow16(|s|)
  {
    if s == [] then 0 else HexValue(s[..|s| - 1]) * 16 + DigitValue(s[|s| - 1])
  }

  /** `{:X}`: the uppercase digits of `n`, without leading zeros; zero is `"0"`. */
  function HexDigits(n: nat): (r: string)
    ensures 1 <= |r| && AllUpperHexDigits(r)
    ensures r[0] == '0' ==> n == 0 && |r| == 1
    decreases n
  {
    if n < 16 then [HexChar(n)] else HexDigits(n / 16) + [HexChar(n % 16)]
  }

  /** `{:0>w}`: `s` right-aligned in a field `width` wide, filled with `'0'`. */
  function PadLeft(s: string, width: nat): (r: string)
    ensures |r| == if |s| < width then width else |s|
    ensures r[|r| - |s|..] == s
    ensures forall i :: 0 <= i < |r| - |s| ==> r[i] == '0'
  {
    if |s| < width then seq(width - |s|, _ => '0') + s else s
  }

  /** `num_to_network_name`: at least four uppercase digits, exactly four for the ids below `0x10000`, and no leading `'0'` beyond four. */
  function NumToNetworkName(n: u32): (r: string)
    ensures 4 <= |r| <= 8 && AllUpperHexDigits(r)
    ensures n < 0x1_0000 ==> |r| == 4
    ensures |r| > 4 ==> r[0] != '0'
  {
    HexDigitsLength(n, 4);
    HexDigitsLength(n, 8);
    var digits := HexDigits(n);
    assert |digits| >= 4 ==> PadLeft(digits, 4) == digits;
    PadLeft(digits, 4)
  }

  /**
   The names `num_to_network_name` can produce: four uppercase digits, or
   five to eight uppercase digits that do not start with `'0'`.
   */
  predicate IsCanonicalName(name: string)
  {
    AllUpperHexDigits(name) && (|name| == 4 || (4 < |name| <= 8 && name[0] != '0'))
  }

  /** `u32::from_str_radix(s, 16)`: an optional `'+'`, then one or more digits of either case whose value fits a `u32`. */
  function FromStrRadix16(s: string): (r: Option<u32>)
    ensures r.Some? ==> 0 < |s| && (s[0] == '+' ==> 1 < |s|)
  {
    var digits := if 0 < |s| && s[0] == '+' then s[1..] else s;
    if digits == [] || !AllHexDigits(digits) then None
    else if HexValue(digits) < U32_LIMIT then Some(HexValue(digits))
    else None
  }

  /** `network_name_to_num`: the `unwrap` panics unless the name parses. */
  function NetworkNameToNum(name: string): (n: u32)
    requires FromStrRadix16(name).Some?
    ensures AllHexDigits(name) ==> HexValue(name) == n
  {
    FromStrRadix16(name).value
  }

  // ---------------------------------------------------------------- lemmas

  /** A hex digit string extended by one digit. */
  lemma HexValueSnoc(s: string, c: char)
    requires AllHexDigits(s) && IsHexDigit(c)
    ensures AllHexDigits(s + [c]) && HexValue(s + [c]) == HexValue(s) * 16 + DigitValue(c)
  {
    assert (s + [c])[..|s|] == s;
  }

  /** The digits `format!` writes denote the number. */
  lemma {:induction false} HexDigitsValue(n: nat)
    ensures AllHexDigits(HexDigits(n)) && HexValue(HexDigits(n)) == n
    decreases n
  {
    if n >= 16 {
      HexDigitsValue(n / 16);
      HexValueSnoc(HexDigits(n / 16), HexChar(n % 16));
    } else {
      assert HexDigits(n)[..0] == [];
    }
  }

  /** A number below `16^k` has at most `k` digits. */
  lemma {:induction false} HexDigitsLength(n: nat, k: nat)
    ensures 1 <= k && n < Pow16(k) ==> |HexDigits(n)| <= k
    decreases n
  {
    if 1 <= k && n < Pow16(k) && n >= 16 {
      assert k >= 2;
      HexDigitsLength(n / 16, k - 1);
    }
  }

  /** Leading zeros do not change the value. */
  lemma {:induction false} LeadingZeros(z: string, s: string)
    requires forall i :: 0 <= i < |z| ==> z[i] == '0'
    requires AllHexDigits(s)
    ensures AllHexDigits(z + s) && HexValue(z + s) == HexValue(s)
    decreases |s|
  {
    if s == [] {
      assert z + s == z;
      AllZerosValue(z);
    } else {
      var init, last := s[..|s| - 1], s[|s| - 1];
      LeadingZeros(z, init);
      assert z + s == (z + init) + [last];
      HexValueSnoc(z + init, last);
    }
  }

  lemma {:induction false} AllZerosValue(z: string)
    requires forall i :: 0 <= i < |z| ==> z[i] == '0'
    ensures AllHexDigits(z) && HexValue(z) == 0
    decreases |z|
  {
    if z != [] {
      AllZerosValue(z[..|z| - 1]);
    }
  }

  /** Uppercase digit strings of the same length and value are the same string. */
  lemma {:induction false} UpperHexInjective(a: string, b: string)
    requires |a| == |b| && AllUpperHexDigits(a) && AllUpperHexDigits(b)
    requires AllHexDigits(a) && AllHexDigits(b) && HexValue(a) == HexValue(b)
    ensures a == b
    decreases |a|
  {
    if a != [] {
      var k := |a| - 1;
      var da, db := DigitValue(a[k]), DigitValue(b[k]);
      var va, vb := HexValue(a[..k]), HexValue(b[..k]);
      LastDigitUnique(va, da, vb, db);
      UpperDigitInjective(a[k], b[k]);
      UpperHexInjective(a[..k], b[..k]);
      assert a == a[..k] + [a[k]] && b == b[..k] + [b[k]];
    }
  }

  /** The last digit and the rest of a base-16 numeral are determined by its value. */
  lemma LastDigitUnique(va: nat, da: nat, vb: nat, db: nat)
    requires da < 16 && db < 16 && va * 16 + da == vb * 16 + db
    ensures da == db && va == vb
  {
  }

  lemma UpperDigitInjective(c: char, d: char)
    requires IsUpperHexDigit(c) && IsUpperHexDigit(d) && DigitValue(c) == DigitValue(d)
    ensures c == d
  {
  }

  /** A generated name denotes its id. */
  lemma NameValue(n: u32)
    ensures AllHexDigits(NumToNetworkName(n)) && HexValue(NumToNetworkName(n)) == n
  {
    var digits := HexDigits(n);
    var name := NumToNetworkName(n);
    HexDigitsValue(n);
    var z := name[..|name| - |digits|];
    assert name == z + digits;
    LeadingZeros(z, digits);
  }

  /** Every id survives the trip to its network name and back. */
  lemma NameRoundTrip(n: u32)
    ensures FromStrRadix16(NumToNetworkName(n)) == Some(n)
    ensures NetworkNameToNum(NumToNetworkName(n)) == n
  {
    NameValue(n);
    var name := NumToNetworkName(n);
    assert IsUpperHexDigit(name[0]);
  }

  /** `16^i <= 16^j` when `i <= j`. */
  lemma {:induction false} Pow16Monotone(i: nat, j: nat)
    requires i <= j
    ensures Pow16(i) <= Pow16(j)
    decreases j
  {
    if i < j {
      Pow16Monotone(i, j - 1);
    }
  }

  /** A numeral of `k` digits whose first digit is not `'0'` is at least `16^(k-1)`. */
  lemma {:induction false} LeadingDigitBound(s: string)
    requires 1 <= |s| && AllHexDigits(s) && s[0] != '0'
    ensures HexValue(s) >= Pow16(|s| - 1)
    decreases |s|
  {
    var init := s[..|s| - 1];
    if |s| > 1 {
      assert init[0] == s[0];
      LeadingDigitBound(init);
    } else {
      assert init == [];
    }
  }

  /** One value has one number of significant digits. */
  lemma SameMagnitude(v: nat, a: nat, b: nat)
    requires 1 <= a && 1 <= b
    requires Pow16(a - 1) <= v < Pow16(a) && Pow16(b - 1) <= v < Pow16(b)
    ensures a == b
  {
    if a < b {
      Pow16Monotone(a, b - 1);
    } else if b < a {
      Pow16Monotone(b, a - 1);
    }
  }

  /** Every name of the shape `num_to_network_name` produces parses, and is the name of the id it parses to. */
  lemma CanonicalNameRoundTrip(name: string)
    requires IsCanonicalName(name)
    ensures FromStrRadix16(name).Some?
    ensures NumToNetworkName(NetworkNameToNum(name)) == name
  {
    CanonicalNameParses(name);
    var n := NetworkNameToNum(name);
    var r := NumToNetworkName(n);
    NameValue(n);
    CanonicalNameLength(name, n);
    UpperHexInjective(r, name);
  }

  /** A canonical name parses to the number its digits denote. */
  lemma CanonicalNameParses(name: string)
    requires IsCanonicalName(name)
    ensures AllHexDigits(name) && HexValue(name) < U32_LIMIT
    ensures FromStrRadix16(name) == Some(HexValue(name))
  {
    assert AllHexDigits(name);
    assert IsUpperHexDigit(name[0]);
    Pow16Monotone(|name|, 8);
    assert Pow16(8) == U32_LIMIT;
  }

  /** The name of the id a canonical name denotes is as long as that name. */
  lemma CanonicalNameLength(name: string, n: u32)
    requires IsCanonicalName(name) && AllHexDigits(name) && HexValue(name) == n
    ensures |NumToNetworkName(n)| == |name|
  {
    assert Pow16(4) == 0x1_0000;
    if |name| > 4 {
      LeadingDigitBound(name);
      Pow16Monotone(4, |name| - 1);
      LongNameLength(n, |name|);
    }
  }

  /** An id of `k` significant digits, `k` above four, has a name of exactly `k` digits. */
  lemma LongNameLength(n: u32, k: nat)
    requires 4 < k && Pow16(4) <= Pow16(k - 1) <= n as nat < Pow16(k)
    ensures |NumToNetworkName(n)| == k
  {
    var r := NumToNetworkName(n);
    NameValue(n);
    assert |r| > 4;
    LeadingDigitBound(r);
    SameMagnitude(n as nat, |r|, k);
  }

  /** A string is a network name of some id exactly when it has the canonical shape. */
  lemma NetworkNameShape(name: string)
    ensures (exists n: u32 :: NumToNetworkName(n) == name) <==> IsCanonicalName(name)
  {
    if IsCanonicalName(name) {
      CanonicalNameRoundTrip(name);
      var n := NetworkNameToNum(name);
      assert NumToNetworkName(n) == name;
    }
  }

  /**
   `network_name_to_num` accepts leading zeros and digits of either case:
   such a name parses to the id its uppercase digits denote.
   */
  lemma ParseIgnoresZerosAndCase(z: string, lower: string, upper: string)
    requires forall i :: 0 <= i < |z| ==> z[i] == '0'
    requires |lower| == |upper| && AllHexDigits(lower) && AllHexDigits(upper)
    requires forall i :: 0 <= i < |lower| ==> DigitValue(lower[i]) == DigitValue(upper[i])
    ensures AllHexDigits(z + lower) && HexValue(z + lower) == HexValue(upper)
    ensures 0 < |upper| ==> FromStrRadix16(z + lower) == FromStrRadix16(upper)
    ensures 0 < |upper| && HexValue(upper) < U32_LIMIT ==> FromStrRadix16(z + lower) == Some(HexValue(upper))
  {
    LeadingZeros(z, lower);
    SameDigitsSameValue(lower, upper);
    if 0 < |upper| {
      assert IsHexDigit((z + lower)[0]) && IsHexDigit(upper[0]);
    }
  }

  lemma {:induction false} SameDigitsSameValue(a: string, b: string)
    requires |a| == |b| && AllHexDigits(a) && AllHexDigits(b)
    requires forall i :: 0 <= i < |a| ==> DigitValue(a[i]) == DigitValue(b[i])
    ensures HexValue(a) == HexValue(b)
    decreases |a|
  {
    if a != [] {
      SameDigitsSameValue(a[..|a| - 1], b[..|b| - 1]);
    }
  }
}
