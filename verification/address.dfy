/** The next-hop address field inside every decrypted layer: a port number
    written with `` `${port}`.padStart(10, "0") `` by the sender
    (src/users/user.ts) and read back with `parseInt(content.substring(0, 10), 10)`
    by the relay (src/onionRouters/simpleOnionRouter.ts). */
module Address {
  import opened Basics

  /** The config module is not part of this model, so its base ports are
      assumed here: 3000 for users and 4000 for onion routers. The proofs
      need only that the ports they produce lie in [0, 10^10). */
  const BaseUserPort: int := 3000
  const BaseOnionRouterPort: int := 4000

  /** Width of the address field. */
  const AddressWidth: nat := 10
  /** Ten decimal digits hold every value below this bound. */
  const AddressLimit: nat := 10_000_000_000

  function DigitChar(d: int): (c: char)
    requires 0 <= d < 10
    ensures IsDigit(c)
  {
    (d + 48) as char
  }

  predicate IsDigit(c: char) {
    '0' <= c <= '9'
  }

  function DigitValue(c: char): (d: int)
    requires IsDigit(c)
    ensures 0 <= d < 10
  {
    c as int - 48
  }

  /** The shortest decimal numeral of a natural number, most significant
      digit first. */
  function Decimal(n: nat): (s: string)
    ensures |s| >= 1
    ensures forall i :: 0 <= i < |s| ==> IsDigit(s[i])
  {
    if n < 10 then [DigitChar(n)] else Decimal(n / 10) + [DigitChar(n % 10)]
  }

  /** `` `${n}` `` for an integer-valued JavaScript number (below 10^21). */
  function NumberToString(n: int): string {
    if n < 0 then "-" + Decimal(-n) else Decimal(n)
  }

  /** `s.padStart(width, fill)` with a one-character fill: strings already
      `width` long or longer are returned unchanged, never truncated. */
  function PadStart(s: string, width: nat, fill: char): (r: string)
    ensures |r| == if |s| < width then width else |s|
    ensures r[|r| - |s|..] == s
    ensures forall i :: 0 <= i < |r| - |s| ==> r[i] == fill
  {
    if |s| < width then seq(width - |s|, _ => fill) + s else s
  }

  /** The address field the sender writes for a port. */
  function PaddedAddress(port: int): string {
    PadStart(NumberToString(port), AddressWidth, '0')
  }

  /** The port the user with this id listens on. */
  function UserPort(userId: int): int {
    BaseUserPort + userId
  }

  /** The port the onion router with this id listens on. */
  function RouterPort(nodeId: int): int {
    BaseOnionRouterPort + nodeId
  }

  // ------------------------------------------------------------- parseInt

  /** What `parseInt` returns: an integer or NaN. (`parseInt` turns "-0" into
      negative zero; as a port it prints as "0", so it is `Int(0)` here.) */
  datatype ParsedInt = Int(value: int) | NaN

  /** StrWhiteSpaceChar of the ECMAScript grammar: the characters `parseInt`
      skips before the number (the white space and line terminators of
      sections 12.2 and 12.3 of ECMA-262, 2022 edition, including the space
      separators of Unicode category Zs). */
  predicate IsJsWhiteSpace(c: char) {
    var v := c as int;
    || 0x09 <= v <= 0x0D      // tab, line feed, vertical tab, form feed, carriage return
    || v == 0x20 || v == 0xA0 || v == 0x1680
    || 0x2000 <= v <= 0x200A
    || v == 0x2028 || v == 0x2029 || v == 0x202F || v == 0x205F
    || v == 0x3000 || v == 0xFEFF
  }

  /** `s` without its leading white space. */
  function TrimStart(s: string): (r: string)
    ensures |r| <= |s|
  {
    if |s| > 0 && IsJsWhiteSpace(s[0]) then TrimStart(s[1..]) else s
  }

  /** `TrimStart` keeps a suffix of its input that does not start with white
      space, and removes only white space. */
  lemma {:induction false} TrimStartRemovesWhiteSpace(s: string)
    ensures TrimStart(s) == s[|s| - |TrimStart(s)|..]
    ensures |TrimStart(s)| == 0 || !IsJsWhiteSpace(TrimStart(s)[0])
    ensures forall i :: 0 <= i < |s| - |TrimStart(s)| ==> IsJsWhiteSpace(s[i])
  {
    if |s| > 0 && IsJsWhiteSpace(s[0]) {
      TrimStartRemovesWhiteSpace(s[1..]);
      assert s[1..][|s| - 1 - |TrimStart(s)|..] == s[|s| - |TrimStart(s)|..];
      assert forall i :: 1 <= i < |s| - |TrimStart(s)| ==> s[i] == s[1..][i - 1];
    }
  }

  /** The longest prefix of `s` made of decimal digits. */
  function DigitPrefix(s: string): (r: string)
    ensures r <= s
    ensures forall i :: 0 <= i < |r| ==> IsDigit(r[i])
    ensures |r| < |s| ==> !IsDigit(s[|r|])
  {
    if |s| > 0 && IsDigit(s[0]) then [s[0]] + DigitPrefix(s[1..]) else ""
  }

  /** The value of a string of decimal digits, most significant first. */
  function DigitsValue(s: string): (n: nat)
    requires forall i :: 0 <= i < |s| ==> IsDigit(s[i])
  {
    if |s| == 0 then 0 else DigitsValue(s[..|s| - 1]) * 10 + DigitValue(s[|s| - 1])
  }

  /** `parseInt(s, 10)` (section 19.2.5 of ECMA-262, 2022 edition): skip leading white space,
      read an optional sign, then as many decimal digits as there are; NaN
      when there are none. */
  function ParseInt(s: string): (r: ParsedInt) {
    var t := TrimStart(s);
    var negative := |t| > 0 && t[0] == '-';
    var u := if |t| > 0 && (t[0] == '-' || t[0] == '+') then t[1..] else t;
    var z := DigitPrefix(u);
    if |z| == 0 then NaN
    else
      var magnitude: int := DigitsValue(z);
      if negative then Int(-magnitude) else Int(magnitude)
  }

  // -------------------------------------------------------------- lemmas

  /** A numeral has at most ten digits exactly when its value is below 10^10. */
  lemma {:induction false} DecimalLength(n: nat)
    ensures n < AddressLimit <==> |Decimal(n)| <= AddressWidth
  {
    DecimalLengthBound(n, AddressWidth);
  }

  lemma {:induction false} DecimalLengthBound(n: nat, k: nat)
    requires k >= 1
    ensures n < Pow10(k) <==> |Decimal(n)| <= k
  {
    assert Pow10(k) == 10 * Pow10(k - 1);
    if n >= 10 {
      assert |Decimal(n)| == |Decimal(n / 10)| + 1;
      if k > 1 {
        DecimalLengthBound(n / 10, k - 1);
      } else {
        assert |Decimal(n / 10)| >= 1;
      }
    }
  }

  function Pow10(k: nat): (r: nat)
    ensures r >= 1
  {
    if k == 0 then 1 else 10 * Pow10(k - 1)
  }

  /** Reading a numeral back gives its value. */
  lemma {:induction false} DigitsValueDecimal(n: nat)
    ensures DigitsValue(Decimal(n)) == n
  {
    if n >= 10 {
      var s := Decimal(n);
      assert s[..|s| - 1] == Decimal(n / 10);
      DigitsValueDecimal(n / 10);
    }
  }

  /** Leading zeros do not change the value of a digit string. */
  lemma {:induction false} DigitsValueLeadingZeros(k: nat, s: string)
    requires forall i :: 0 <= i < |s| ==> IsDigit(s[i])
    ensures var z := seq(k, _ => '0') + s;
      (forall i :: 0 <= i < |z| ==> IsDigit(z[i])) && DigitsValue(z) == DigitsValue(s)
    decreases |s|
  {
    var z := seq(k, _ => '0') + s;
    if |s| == 0 {
      ZerosValue(k);
      assert z == seq(k, _ => '0');
    } else {
      assert z[..|z| - 1] == seq(k, _ => '0') + s[..|s| - 1];
      DigitsValueLeadingZeros(k, s[..|s| - 1]);
    }
  }

  lemma {:induction false} ZerosValue(k: nat)
    ensures DigitsValue(seq(k, _ => '0')) == 0
  {
    if k > 0 {
      assert seq(k, _ => '0')[..k - 1] == seq(k - 1, _ => '0');
      ZerosValue(k - 1);
    }
  }

  /** The whole of a digit string is its longest digit prefix. */
  lemma {:induction false} DigitPrefixOfDigits(s: string, rest: string)
    requires forall i :: 0 <= i < |s| ==> IsDigit(s[i])
    requires |rest| == 0 || !IsDigit(rest[0])
    ensures DigitPrefix(s + rest) == s
    decreases |s|
  {
    if |s| > 0 {
      assert (s + rest)[1..] == s[1..] + rest;
      DigitPrefixOfDigits(s[1..], rest);
    } else {
      assert s + rest == rest;
    }
  }

  /** The field for a port in [0, 10^10) is ten digits whose value is the port. */
  lemma PaddedAddressDigits(port: int)
    requires 0 <= port < AddressLimit
    ensures |PaddedAddress(port)| == AddressWidth
    ensures forall i :: 0 <= i < AddressWidth ==> IsDigit(PaddedAddress(port)[i])
    ensures DigitsValue(PaddedAddress(port)) == port
  {
    var d := Decimal(port);
    DecimalLength(port);
    assert PaddedAddress(port) == seq(AddressWidth - |d|, _ => '0') + d;
    DigitsValueLeadingZeros(AddressWidth - |d|, d);
    DigitsValueDecimal(port);
  }

  /** `parseInt` reads a non-empty string of digits as its value. */
  lemma ParseIntOfDigits(s: string)
    requires |s| > 0 && forall i :: 0 <= i < |s| ==> IsDigit(s[i])
    ensures ParseInt(s) == Int(DigitsValue(s))
  {
    assert IsDigit(s[0]);
    assert !IsJsWhiteSpace(s[0]);
    assert TrimStart(s) == s;
    assert s[0] != '-' && s[0] != '+';
    assert s + "" == s;
    DigitPrefixOfDigits(s, "");
    assert DigitPrefix(s) == s;
  }

  /** Address codec round trip: for a port in [0, 10^10) the padded field is
      exactly ten digits, `parseInt` of the first ten characters of the field
      followed by anything gives the port back, and what follows is untouched. */
  lemma AddressRoundTrip(port: int, rest: string)
    requires 0 <= port < AddressLimit
    ensures |PaddedAddress(port)| == AddressWidth
    ensures ParseInt(Prefix(PaddedAddress(port) + rest, AddressWidth)) == Int(port)
    ensures Suffix(PaddedAddress(port) + rest, AddressWidth) == rest
  {
    var a := PaddedAddress(port);
    PaddedAddressDigits(port);
    SplitAtJoin(a, rest);
    ParseIntOfDigits(a);
  }

  /** One instance of `NegativeFieldWithZeros`, worked out: the port -5 pads
      to `00000000-5`, and `parseInt` stops at the minus sign. */
  lemma NegativeAddressReadsAsZero()
    ensures PaddedAddress(-5) == "00000000-5"
    ensures ParseInt(PaddedAddress(-5)) == Int(0)
  {
    assert Decimal(5) == "5";
    assert PaddedAddress(-5) == "00000000-5";
    NegativeFieldWithZeros(-5);
  }

  /** `parseInt` reads zeros followed by a non-digit (or nothing) as 0. */
  lemma ParseIntOfZeros(s: string, k: nat)
    requires 0 < k <= |s| && forall i :: 0 <= i < k ==> s[i] == '0'
    requires k == |s| || !IsDigit(s[k])
    ensures ParseInt(s) == Int(0)
  {
    assert !IsJsWhiteSpace(s[0]);
    assert TrimStart(s) == s;
    assert s[..k] + s[k..] == s;
    DigitPrefixOfDigits(s[..k], s[k..]);
    assert s[..k] == seq(k, _ => '0');
    ZerosValue(k);
  }

  /** `parseInt` reads a minus sign followed by digits as the negated value. */
  lemma ParseIntOfNegative(s: string)
    requires |s| > 1 && s[0] == '-' && forall i :: 1 <= i < |s| ==> IsDigit(s[i])
    ensures ParseInt(s) == Int(-(DigitsValue(s[1..]) as int))
  {
    assert !IsJsWhiteSpace(s[0]);
    assert TrimStart(s) == s;
    var d := s[1..];
    assert d + "" == d;
    DigitPrefixOfDigits(d, "");
  }

  /** The field for a negative port above -10^8 is zeros, the minus sign
      and the digits: ten characters, which `parseInt` reads as 0. */
  lemma NegativeFieldWithZeros(port: int)
    requires -100_000_000 < port < 0
    ensures |PaddedAddress(port)| == AddressWidth
    ensures ParseInt(PaddedAddress(port)) == Int(0)
  {
    var n := NumberToString(port);
    assert Pow10(8) == 100_000_000;
    DecimalLengthBound(-port, 8);
    var a := PaddedAddress(port);
    var k := AddressWidth - |n|;
    assert a[k..] == n && a[k] == n[0] == '-';
    ParseIntOfZeros(a, k);
  }

  /** The field for a port in (-10^9, -10^8] is the minus sign and nine
      digits, with no zeros in front, and `parseInt` reads it back as the port. */
  lemma NegativeFieldWithoutZeros(port: int)
    requires -1_000_000_000 < port <= -100_000_000
    ensures |PaddedAddress(port)| == AddressWidth
    ensures ParseInt(PaddedAddress(port)) == Int(port)
  {
    var m: nat := -port;
    var d := Decimal(m);
    assert Pow10(8) == 100_000_000 && Pow10(9) == 1_000_000_000;
    DecimalLengthBound(m, 9);
    DecimalLengthBound(m, 8);
    var a := PaddedAddress(port);
    assert a == "-" + d && a[1..] == d;
    ParseIntOfNegative(a);
    DigitsValueDecimal(m);
  }

  /** The field for a negative port above -10^9 (the minus sign and at most
      nine digits) is ten characters. `padStart` puts its zeros in front of
      the minus sign, so `parseInt` of the field reads 0 whenever there are
      zeros, which is for every port above -10^8; a port in (-10^9, -10^8]
      fills the field without zeros and is read back as itself. What follows
      the field is untouched. */
  lemma NegativeAddressField(port: int, rest: string)
    requires -1_000_000_000 < port < 0
    ensures |PaddedAddress(port)| == AddressWidth
    ensures ParseInt(Prefix(PaddedAddress(port) + rest, AddressWidth))
      == if port > -100_000_000 then Int(0) else Int(port)
    ensures Suffix(PaddedAddress(port) + rest, AddressWidth) == rest
  {
    if port > -100_000_000 {
      NegativeFieldWithZeros(port);
    } else {
      NegativeFieldWithoutZeros(port);
    }
    SplitAtJoin(PaddedAddress(port), rest);
  }
}
