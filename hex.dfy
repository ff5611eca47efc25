/** Unit addresses read as numbers: Python's `int(text, 16)` on the text the
    node-header pattern captures after `@`. */
module Hex {
  import opened Wrappers
  import opened Text

  /** `[0-9a-fA-F]`: the digits `int(_, 16)` accepts. */
  predicate IsHexDigit(c: char)
  {
    ('0' <= c <= '9') || ('a' <= c <= 'f') || ('A' <= c <= 'F')
  }

  predicate AllHexDigits(s: string)
  {
    forall k :: 0 <= k < |s| ==> IsHexDigit(s[k])
  }

  function DigitValue(c: char): (v: nat)
    requires IsHexDigit(c)
    ensures v < 16
  {
    if '0' <= c <= '9' then c as int - '0' as int
    else if 'a' <= c <= 'f' then c as int - 'a' as int + 10
    else c as int - 'A' as int + 10
  }

  /** The value of a string of hex digits, most significant digit first. */
  function DigitsValue(d: string): nat
    requires AllHexDigits(d)
    decreases |d|
  {
    if d == [] then 0 else DigitsValue(d[..|d| - 1]) * 16 + DigitValue(d[|d| - 1])
  }

  /** What is left once the `0x` / `0X` prefix that base 16 tolerates is
      dropped. */
  function HexBody(u: string): string
  {
    if |u| >= 2 && u[0] == '0' && (u[1] == 'x' || u[1] == 'X') then u[2..] else u
  }

  /** `int(u, 16)` for a unit address `u`: None stands for the ValueError
      Python raises. The unit addresses the node-header pattern captures are
      made of `[0-9a-fA-FxX]`, so the signs, blanks and underscores `int`
      would also accept never reach it. */
  function ParseAddress(u: string): (r: Option<nat>)
    ensures r.Some? <==> HexBody(u) != [] && AllHexDigits(HexBody(u))
    ensures r.Some? ==> r.value == DigitsValue(HexBody(u))
  {
    var d := HexBody(u);
    if d != [] && AllHexDigits(d) then Some(DigitsValue(d)) else None
  }

  function HexChar(v: nat): (c: char)
    requires v < 16
    ensures IsHexDigit(c) && IsLowerHexChar(c) && DigitValue(c) == v
  {
    if v < 10 then ('0' as int + v) as char else ('a' as int + v - 10) as char
  }

  /** `n` written in lower-case hex without leading zeros (`"%x" % n`). */
  function LowerHexDigits(n: nat): (d: string)
    ensures d != [] && AllHexDigits(d) && AllIn(LowerHex, d)
    decreases n
  {
    if n < 16 then [HexChar(n)] else LowerHexDigits(n / 16) + [HexChar(n % 16)]
  }

  lemma {:induction false} LowerHexDigitsValue(n: nat)
    ensures DigitsValue(LowerHexDigits(n)) == n
    decreases n
  {
    if n >= 16 {
      var d := LowerHexDigits(n);
      assert d[..|d| - 1] == LowerHexDigits(n / 16);
      LowerHexDigitsValue(n / 16);
    }
  }

  lemma AllAddrOfLowerHex(d: string)
    requires AllIn(LowerHex, d)
    ensures AllIn(Addr, d)
  {
  }

  /** Digits alone carry no `0x` prefix to drop. */
  lemma HexBodyOfDigits(d: string)
    requires AllHexDigits(d)
    ensures HexBody(d) == d
  {
    if |d| >= 2 {
      assert IsHexDigit(d[1]);
    }
  }

  lemma HexBodyOfPrefixed(d: string)
    ensures HexBody("0x" + d) == d && HexBody("0X" + d) == d
  {
    assert ("0x" + d)[2..] == d && ("0X" + d)[2..] == d;
  }

  /** Reading back an address written in hex gives the number, with or
      without the `0x` prefix. */
  lemma ParseAddressRoundTrip(n: nat)
    ensures AllIn(Addr, LowerHexDigits(n)) && ParseAddress(LowerHexDigits(n)) == Some(n)
    ensures AllIn(Addr, "0x" + LowerHexDigits(n)) && ParseAddress("0x" + LowerHexDigits(n)) == Some(n)
  {
    var d := LowerHexDigits(n);
    LowerHexDigitsValue(n);
    AllAddrOfLowerHex(d);
    HexBodyOfDigits(d);
    HexBodyOfPrefixed(d);
  }

  /** A leading `0` adds nothing to the value of a string of hex digits. */
  lemma {:induction false} DigitsValueLeadingZero(d: string)
    requires AllHexDigits(d)
    ensures AllHexDigits("0" + d) && DigitsValue("0" + d) == DigitsValue(d)
    decreases |d|
  {
    var z := "0" + d;
    assert IsHexDigit(z[0]);
    if d != [] {
      assert z[..|z| - 1] == "0" + d[..|d| - 1] && z[|z| - 1] == d[|d| - 1];
      DigitsValueLeadingZero(d[..|d| - 1]);
    } else {
      assert z[..|z| - 1] == [];
    }
  }

  /** Padding does not change an address: leading zeros and a `0x` / `0X`
      prefix give the same number as the bare digits, so `@0a`, `@0x0a` and
      `@a` sort alike. */
  lemma ParseAddressPadding(d: string)
    requires d != [] && AllHexDigits(d)
    ensures ParseAddress("0" + d) == ParseAddress(d) == Some(DigitsValue(d))
    ensures ParseAddress("0x" + d) == ParseAddress(d) && ParseAddress("0X" + d) == ParseAddress(d)
  {
    HexBodyOfDigits(d);
    DigitsValueLeadingZero(d);
    HexBodyOfDigits("0" + d);
    HexBodyOfPrefixed(d);
  }

  /** The cases the source's own comment flags as unhandled: `x1` and `0x`
      do not convert, while `0x10` and `10` both read as 16. */
  lemma ParseAddressExamples()
    ensures ParseAddress("x1") == None
    ensures ParseAddress("0x") == None
    ensures ParseAddress("0x10") == Some(16)
    ensures ParseAddress("10") == Some(16)
    ensures ParseAddress("05") == Some(5)
  {
    assert HexBody("x1") == "x1" && !IsHexDigit("x1"[0]);
    assert HexBody("0x") == [];
    assert HexBody("0x10") == "10";
    assert "10"[..1] == "1" && DigitsValue("10") == 16;
    assert "05"[..1] == "0";
  }
}
