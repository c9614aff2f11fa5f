/** The numeral conversions createTssRequest performs with the C library:
    `sscanf(..., "%x", &field)` for the chip, board and security-domain
    fields, `sscanf(ecid_string, "%qX", &ecid_value)` for the ECID, and
    `snprintf(ecid, ECID_BUFSIZE, "%qu", ecid_value)` to render the ECID in
    decimal. The scanning follows the GNU C library on a 64-bit target:
    leading white space is skipped, a sign and a `0x` prefix are accepted,
    the longest run of hex digits is converted with strtoull's rules
    (saturation at 2^64 - 1, a minus sign negating modulo 2^64), and `%x`
    keeps the low 32 bits, which the `int` variable reads as two's
    complement. A string with no digits leaves the variable at the 0 it was
    initialised to. */
module Numerals {

  /** The size of the buffer the ECID is rendered into. */
  const ECID_BUFSIZE: nat := 64

  const U32: nat := 0x1_0000_0000
  const U64: nat := 0x1_0000_0000_0000_0000

  /** isspace in the C locale. */
  predicate IsSpace(ch: char)
  {
    ch == ' ' || ch == '\t' || ch == '\n' || ch == '\r' || ch as int == 11 || ch as int == 12
  }

  predicate IsHexDigit(ch: char)
  {
    '0' <= ch <= '9' || 'a' <= ch <= 'f' || 'A' <= ch <= 'F'
  }

  predicate IsDecDigit(ch: char)
  {
    '0' <= ch <= '9'
  }

  function HexDigitValue(ch: char): (d: nat)
    requires IsHexDigit(ch)
    ensures d < 16
  {
    if '0' <= ch <= '9' then ch as nat - '0' as nat
    else if 'a' <= ch <= 'f' then ch as nat - 'a' as nat + 10
    else ch as nat - 'A' as nat + 10
  }

  /** The lower-case hex digit for d. */
  function HexChar(d: nat): (ch: char)
    requires d < 16
    ensures IsHexDigit(ch) && HexDigitValue(ch) == d
  {
    if d < 10 then (d + '0' as nat) as char else (d - 10 + 'a' as nat) as char
  }

  function DecDigitValue(ch: char): (d: nat)
    requires IsDecDigit(ch)
    ensures d < 10
  {
    ch as nat - '0' as nat
  }

  function DecChar(d: nat): (ch: char)
    requires d < 10
    ensures IsDecDigit(ch) && DecDigitValue(ch) == d
  {
    (d + '0' as nat) as char
  }

  /** The input with its leading white space skipped. */
  function SkipSpace(s: seq<char>): (r: seq<char>)
    ensures |r| <= |s| && r == s[|s| - |r|..]
    ensures r == [] || !IsSpace(r[0])
    ensures forall i :: 0 <= i < |s| - |r| ==> IsSpace(s[i])
  {
    if s != [] && IsSpace(s[0]) then SkipSpace(s[1..]) else s
  }

  /** The longest run of hex digits at the start of s. */
  function HexRun(s: seq<char>): (r: seq<char>)
    ensures |r| <= |s| && r == s[..|r|]
    ensures forall i :: 0 <= i < |r| ==> IsHexDigit(r[i])
    ensures |r| == |s| || !IsHexDigit(s[|r|])
  {
    if s != [] && IsHexDigit(s[0]) then [s[0]] + HexRun(s[1..]) else []
  }

  /** The value of a string of hex digits, most significant first. */
  function HexValue(ds: seq<char>): nat
    requires forall i :: 0 <= i < |ds| ==> IsHexDigit(ds[i])
  {
    if ds == [] then 0
    else HexValue(ds[..|ds| - 1]) * 16 + HexDigitValue(ds[|ds| - 1])
  }

  /** What the scanner reads for a hex conversion: the sign and the digits. */
  datatype Scanned = Scanned(negative: bool, digits: seq<char>)

  /** The part of the input a `%x` conversion consumes: white space, an
      optional sign, an optional `0x` or `0X` prefix, then hex digits. A
      prefix that no hex digit follows is read as the digit 0. */
  function ScanHex(s: seq<char>): (r: Scanned)
    ensures forall i :: 0 <= i < |r.digits| ==> IsHexDigit(r.digits[i])
  {
    var t := SkipSpace(s);
    var signed := t != [] && (t[0] == '+' || t[0] == '-');
    var u := if signed then t[1..] else t;
    var v := if |u| >= 3 && u[0] == '0' && (u[1] == 'x' || u[1] == 'X') && IsHexDigit(u[2])
             then u[2..] else u;
    Scanned(signed && t[0] == '-', HexRun(v))
  }

  /** strtoull on what was scanned, as the conversion stores it: a value
      beyond 64 bits saturates to 2^64 - 1, a minus sign negates modulo
      2^64, and no digits at all leave the initial 0. */
  function ToULL(sc: Scanned): (v: nat)
    requires forall i :: 0 <= i < |sc.digits| ==> IsHexDigit(sc.digits[i])
    ensures v < U64
    ensures sc.digits == [] ==> v == 0
    ensures sc.digits != [] && HexValue(sc.digits) >= U64 ==> v == U64 - 1
    ensures !sc.negative && HexValue(sc.digits) < U64 ==> v == HexValue(sc.digits)
    ensures sc.negative && HexValue(sc.digits) < U64 ==> (v + HexValue(sc.digits)) % U64 == 0
  {
    if sc.digits == [] then 0
    else
      var m := HexValue(sc.digits);
      if m >= U64 then U64 - 1
      else if sc.negative then (U64 - m) % U64
      else m
  }

  /** `sscanf(ecid_string, "%qX", &ecid_value)` with ecid_value starting at 0
      (fwstitcher.c:73, 142). */
  function EcidValue(s: seq<char>): (v: nat)
    ensures v < U64
  {
    ToULL(ScanHex(s))
  }

  /** `sscanf(text, "%x", &field)` into an `int` that starts at 0
      (fwstitcher.c:70-72, 115, 124, 133): the low 32 bits of the scanned
      value, read as a signed 32-bit integer. */
  function HexField(s: seq<char>): (v: int)
    ensures -0x8000_0000 <= v < 0x8000_0000
    ensures if v >= 0 then v == EcidValue(s) % U32 else v + U32 == EcidValue(s) % U32
  {
    var low := EcidValue(s) % U32;
    if low < 0x8000_0000 then low else low - U32
  }

  /** `%qu`: the decimal digits of v, with no leading zero. */
  function Decimal(v: nat): (r: seq<char>)
    ensures r != []
    ensures forall i :: 0 <= i < |r| ==> IsDecDigit(r[i])
  {
    if v < 10 then [DecChar(v)] else Decimal(v / 10) + [DecChar(v % 10)]
  }

  /** The value of a string of decimal digits, most significant first. */
  function ParseDecimal(ds: seq<char>): nat
    requires forall i :: 0 <= i < |ds| ==> IsDecDigit(ds[i])
  {
    if ds == [] then 0
    else ParseDecimal(ds[..|ds| - 1]) * 10 + DecDigitValue(ds[|ds| - 1])
  }

  /** The lower-case hex digits of v, with no leading zero. */
  function Hex(v: nat): (r: seq<char>)
    ensures r != []
    ensures forall i :: 0 <= i < |r| ==> IsHexDigit(r[i])
  {
    if v < 16 then [HexChar(v)] else Hex(v / 16) + [HexChar(v % 16)]
  }

  /** The ECID string placed in the request (fwstitcher.c:136-144). */
  function EcidString(s: seq<char>): (r: seq<char>)
    ensures forall i :: 0 <= i < |r| ==> IsDecDigit(r[i])
  {
    Decimal(EcidValue(s))
  }

  lemma {:induction false} DecimalRoundTrip(v: nat)
    ensures ParseDecimal(Decimal(v)) == v
  {
    if v >= 10 {
      var r := Decimal(v);
      DecimalRoundTrip(v / 10);
      assert r[..|r| - 1] == Decimal(v / 10);
    }
  }

  /** `%qu` writes no leading zero: the first digit is 0 only for 0 itself. */
  lemma {:induction false} DecimalCanonical(v: nat)
    ensures (Decimal(v)[0] == '0') == (v == 0)
  {
    if v >= 10 {
      DecimalCanonical(v / 10);
    }
  }

  /** Rendering is one-to-one: two values with the same decimal string are
      equal. */
  lemma DecimalInjective(v: nat, w: nat)
    requires Decimal(v) == Decimal(w)
    ensures v == w
  {
    DecimalRoundTrip(v);
    DecimalRoundTrip(w);
  }

  function Pow10(k: nat): (p: nat)
    ensures p >= 1
  {
    if k == 0 then 1 else 10 * Pow10(k - 1)
  }

  lemma {:induction false} DecimalWidth(v: nat, k: nat)
    requires 1 <= k && v < Pow10(k)
    ensures |Decimal(v)| <= k
  {
    if v >= 10 {
      DecimalWidth(v / 10, k - 1);
    }
  }

  /** Every 64-bit value takes at most 20 decimal digits, so with its
      terminator it fits the 64-byte ECID buffer and snprintf never
      truncates it. */
  lemma EcidFits(s: seq<char>)
    ensures |EcidString(s)| <= 20 && |EcidString(s)| + 1 <= ECID_BUFSIZE
  {
    assert Pow10(10) == 10_000_000_000;
    assert Pow10(20) == 100_000_000_000_000_000_000;
    DecimalWidth(EcidValue(s), 20);
  }

  lemma {:induction false} HexRoundTrip(v: nat)
    ensures HexValue(Hex(v)) == v
  {
    if v >= 16 {
      var r := Hex(v);
      HexRoundTrip(v / 16);
      assert r[..|r| - 1] == Hex(v / 16);
    }
  }

  /** A string of hex digits, with nothing before or after it, is scanned
      whole. */
  lemma ScanDigits(ds: seq<char>)
    requires ds != [] && forall i :: 0 <= i < |ds| ==> IsHexDigit(ds[i])
    ensures ScanHex(ds) == Scanned(false, ds)
  {
    assert HexRun(ds) == ds by { HexRunAll(ds); }
  }

  lemma {:induction false} HexRunAll(ds: seq<char>)
    requires forall i :: 0 <= i < |ds| ==> IsHexDigit(ds[i])
    ensures HexRun(ds) == ds
  {
    if ds != [] {
      HexRunAll(ds[1..]);
    }
  }

  /** The hex digits of a 64-bit value, given as the ECID, come back as that
      value; the request then carries its decimal rendering, which parses
      back to it. */
  lemma EcidRoundTrip(v: nat)
    requires v < U64
    ensures EcidValue(Hex(v)) == v
    ensures EcidString(Hex(v)) == Decimal(v) && ParseDecimal(EcidString(Hex(v))) == v
  {
    ScanHexOf(v);
    DecimalRoundTrip(v);
  }

  lemma ScanHexOf(v: nat)
    requires v < U64
    ensures EcidValue(Hex(v)) == v
  {
    HexRoundTrip(v);
    ScanDigits(Hex(v));
  }

  /** The same holds with a `0x` prefix. */
  lemma EcidPrefixed(v: nat)
    requires v < U64
    ensures EcidValue("0x" + Hex(v)) == v
  {
    HexRoundTrip(v);
    ScanPrefixed(Hex(v));
  }

  lemma ScanPrefixed(ds: seq<char>)
    requires ds != [] && forall i :: 0 <= i < |ds| ==> IsHexDigit(ds[i])
    ensures ScanHex("0x" + ds) == Scanned(false, ds)
  {
    var s := ['0', 'x'] + ds;
    assert s[0] == '0' && s[1] == 'x' && s[2..] == ds;
    assert SkipSpace(s) == s;
    HexRunAll(ds);
  }

  /** Any ECID written as hex digits that fits in 64 bits, in either case
      and with any number of leading zeros (`000012345678ABCD`), is read as
      its value; the request carries that value in decimal, which parses
      back to it. */
  lemma EcidDigits(ds: seq<char>)
    requires ds != [] && forall i :: 0 <= i < |ds| ==> IsHexDigit(ds[i])
    requires HexValue(ds) < U64
    ensures EcidValue(ds) == HexValue(ds) && EcidValue("0x" + ds) == HexValue(ds)
    ensures EcidString(ds) == Decimal(HexValue(ds)) && ParseDecimal(EcidString(ds)) == HexValue(ds)
  {
    ScanDigits(ds);
    ScannedValue(ds, ds);
    ScanPrefixed(ds);
    ScannedValue("0x" + ds, ds);
    EcidRendered(ds, HexValue(ds));
  }

  lemma EcidRendered(s: seq<char>, v: nat)
    requires EcidValue(s) == v
    ensures EcidString(s) == Decimal(v) && ParseDecimal(EcidString(s)) == v
  {
    DecimalRoundTrip(v);
  }

  lemma ScannedValue(s: seq<char>, ds: seq<char>)
    requires forall i :: 0 <= i < |ds| ==> IsHexDigit(ds[i])
    requires ScanHex(s) == Scanned(false, ds) && HexValue(ds) < U64
    ensures EcidValue(s) == HexValue(ds)
  {
  }

  /** A manifest field written as hex digits below 2^32, bare or with a
      `0x` prefix (`0x8920`), is read as its value, wrapped to a negative
      int from 2^31 up. */
  lemma HexFieldDigits(ds: seq<char>)
    requires ds != [] && forall i :: 0 <= i < |ds| ==> IsHexDigit(ds[i])
    requires HexValue(ds) < U32
    ensures HexField(ds) == HexField("0x" + ds)
    ensures HexField(ds) == if HexValue(ds) < 0x8000_0000 then HexValue(ds) else HexValue(ds) - U32
  {
    EcidDigits(ds);
    HexFieldOf(ds, HexValue(ds));
    HexFieldOf("0x" + ds, HexValue(ds));
  }

  lemma HexFieldOf(s: seq<char>, v: nat)
    requires EcidValue(s) == v < U32
    ensures HexField(s) == if v < 0x8000_0000 then v else v - U32
  {
    SmallMod(v, U32);
  }

  /** An ECID wider than 64 bits does not fail: it saturates. */
  lemma EcidSaturates(ds: seq<char>)
    requires ds != [] && forall i :: 0 <= i < |ds| ==> IsHexDigit(ds[i])
    requires HexValue(ds) >= U64
    ensures EcidValue(ds) == U64 - 1 && EcidString(ds) == Decimal(U64 - 1)
  {
    ScanDigits(ds);
  }

  /** A hex field below 2^31 is read as itself; one from 2^31 up to 2^32
      wraps to a negative int. */
  lemma HexFieldRoundTrip(v: nat)
    requires v < U32
    ensures HexField(Hex(v)) == if v < 0x8000_0000 then v else v - U32
  {
    ScanHexOf(v);
    SmallMod(EcidValue(Hex(v)), U32);
  }

  lemma SmallMod(a: nat, m: nat)
    requires a < m
    ensures a % m == a
  {
  }

  /** Text with no hex digits leaves the field at 0. */
  lemma HexFieldEmpty(s: seq<char>)
    requires ScanHex(s).digits == []
    ensures HexField(s) == 0 && EcidValue(s) == 0
  {
    assert EcidValue(s) == 0;
    SmallMod(0, U32);
  }
}
