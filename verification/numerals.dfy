/** Printing and reading numbers: put_dec, put_hex and the string parsers. A C string is the sequence of its
    character codes up to the terminating NUL; what goes to put_char and put_str is returned as a sequence.
    The codes that matter: 48 is '0', 65 is 'A', 97 is 'a', 120 is 'x'. */
module Numerals {
  import opened Word

  predicate CString(s: seq<s8>) {
    0 !in s
  }

  /** Reading str[i]; the NUL comes right after the last character. */
  function CharAt(s: seq<s8>, i: nat): s8
    requires i <= |s|
  {
    if i < |s| then s[i] else 0
  }

  // ---------------------------------------------------------------- digits

  /** The digits of `n` in base `b`, most significant first. */
  function Digits(n: nat, b: nat): seq<nat>
    requires b >= 2
    decreases n
  {
    if n < b then [n] else Shrinks(n, b); Digits(n / b, b) + [n % b]
  }

  lemma Shrinks(n: nat, b: nat)
    requires 2 <= b <= n
    ensures n / b < n && n == n / b * b + n % b
  {
  }

  function Value(ds: seq<nat>, b: nat): nat {
    if ds == [] then 0 else Value(ds[..|ds| - 1], b) * b + ds[|ds| - 1]
  }

  lemma {:induction false} ValueOfDigits(n: nat, b: nat)
    requires b >= 2
    ensures Value(Digits(n, b), b) == n
    ensures forall i :: 0 <= i < |Digits(n, b)| ==> Digits(n, b)[i] < b
    decreases n
  {
    if n < b {
      assert Value([n][..0], b) * b == 0;
    } else {
      Shrinks(n, b);
      ValueOfDigits(n / b, b);
      var ds := Digits(n, b);
      assert ds[..|ds| - 1] == Digits(n / b, b);
    }
  }

  /** '0' to '9', then 'A' to 'F'. */
  function Symbol(d: nat): s8
    requires d < 16
  {
    if d < 10 then 48 + d else 55 + d
  }

  function Text(ds: seq<nat>): (s: seq<s8>)
    requires forall i :: 0 <= i < |ds| ==> ds[i] < 16
  {
    seq(|ds|, i requires 0 <= i < |ds| => Symbol(ds[i]))
  }

  // ---------------------------------------------------------------- what the parsers compute

  function DecStep(result: u32, c: s8): u32 { Wrap(result * 10 + (c - 48)) }

  function HexValue(c: s8): int {
    if 65 <= c <= 70 then c - 55 else if 97 <= c <= 102 then c - 87 else c - 48
  }

  function HexStep(result: u32, c: s8): u32 { Wrap(result * 16 + HexValue(c)) }

  function ParseDec(s: seq<s8>): u32 {
    if s == [] then 0 else DecStep(ParseDec(s[..|s| - 1]), s[|s| - 1])
  }

  function ParseHexDigits(s: seq<s8>): u32 {
    if s == [] then 0 else HexStep(ParseHexDigits(s[..|s| - 1]), s[|s| - 1])
  }

  predicate HexPrefixed(s: seq<s8>) {
    |s| > 2 && s[0] == 48 && s[1] == 120
  }

  function ParseHex(s: seq<s8>): u32 {
    ParseHexDigits(if HexPrefixed(s) then s[2..] else s)
  }

  lemma WrapStep(x: int, b: int, d: int)
    requires b == 10 || b == 16
    ensures Wrap(Wrap(x) * b + d) == Wrap(x * b + d)
  {
    var k := x / WORD;
    assert x == k * WORD + Wrap(x);
    assert x * b + d == (Wrap(x) * b + d) + WORD * (k * b);
    SameRemainder(Wrap(x) * b + d, k * b);
  }

  lemma SameRemainder(x: int, k: int)
    ensures Wrap(x + WORD * k) == Wrap(x)
  {
  }

  lemma {:induction false} ParseDecOfText(ds: seq<nat>)
    requires forall i :: 0 <= i < |ds| ==> ds[i] < 10
    ensures ParseDec(Text(ds)) == Wrap(Value(ds, 10))
  {
    if ds == [] {
    } else {
      var front, last := ds[..|ds| - 1], ds[|ds| - 1];
      ParseDecOfText(front);
      assert Text(ds)[..|ds| - 1] == Text(front);
      WrapStep(Value(front, 10), 10, last);
    }
  }

  lemma {:induction false} ParseHexOfText(ds: seq<nat>)
    requires forall i :: 0 <= i < |ds| ==> ds[i] < 16
    ensures ParseHexDigits(Text(ds)) == Wrap(Value(ds, 16))
  {
    if ds == [] {
    } else {
      var front, last := ds[..|ds| - 1], ds[|ds| - 1];
      ParseHexOfText(front);
      assert Text(ds)[..|ds| - 1] == Text(front);
      assert HexValue(Symbol(last)) == last;
      WrapStep(Value(front, 16), 16, last);
    }
  }

  // ---------------------------------------------------------------- what the parsers mean

  /** The positional value of `vs` in base `b`, whatever its digits are, from the most significant on. */
  function Positional(vs: seq<int>, b: nat): int {
    if vs == [] then 0 else vs[0] * Power(b, |vs| - 1) + Positional(vs[1..], b)
  }

  lemma {:induction false} OneMoreDigit(vs: seq<int>, v: int, b: nat)
    ensures Positional(vs + [v], b) == Positional(vs, b) * b + v
    decreases |vs|
  {
    if vs == [] {
      assert Positional([v][1..], b) == 0 && Power(b, 0) == 1;
    } else {
      OneMoreDigit(vs[1..], v, b);
      assert (vs + [v])[1..] == vs[1..] + [v];
      Shifted(vs[0], Power(b, |vs| - 1), Positional(vs[1..], b), b);
    }
  }

  lemma Shifted(d: int, p: nat, rest: int, b: nat)
    ensures d * (b * p) + rest * b == (d * p + rest) * b
  {
  }

  /** The codes counted from that of '0'. */
  function FromZero(s: seq<s8>): (vs: seq<int>)
    ensures |vs| == |s|
  {
    seq(|s|, i requires 0 <= i < |s| => s[i] as int - 48)
  }

  /** The decimal parser gives the positional value of any characters, taken from '0' on, modulo 2^32. */
  lemma {:induction false} ParseDecMeans(s: seq<s8>)
    ensures ParseDec(s) == Wrap(Positional(FromZero(s), 10))
    decreases |s|
  {
    if s == [] {
    } else {
      var front, v := s[..|s| - 1], s[|s| - 1] as int - 48;
      ParseDecMeans(front);
      assert FromZero(s) == FromZero(front) + [v];
      OneMoreDigit(FromZero(front), v, 10);
      WrapStep(Positional(FromZero(front), 10), 10, v);
    }
  }

  function HexValues(s: seq<s8>): (vs: seq<int>)
    ensures |vs| == |s|
  {
    seq(|s|, i requires 0 <= i < |s| => HexValue(s[i]))
  }

  lemma {:induction false} ParseHexMeans(s: seq<s8>)
    ensures ParseHexDigits(s) == Wrap(Positional(HexValues(s), 16))
    decreases |s|
  {
    if s == [] {
    } else {
      var front, v := s[..|s| - 1], HexValue(s[|s| - 1]);
      ParseHexMeans(front);
      assert HexValues(s) == HexValues(front) + [v];
      OneMoreDigit(HexValues(front), v, 16);
      WrapStep(Positional(HexValues(front), 16), 16, v);
    }
  }

  /** The digits '0' to '9', and the letters in either case. */
  lemma HexDigitValues(d: nat)
    ensures d < 10 ==> HexValue(48 + d) == d
    ensures 10 <= d < 16 ==> HexValue(65 + (d - 10)) == d && HexValue(97 + (d - 10)) == d
  {
  }

  /** 'a' to 'f' turned into 'A' to 'F'. */
  function Upper(s: seq<s8>): (t: seq<s8>)
    ensures |t| == |s|
  {
    seq(|s|, i requires 0 <= i < |s| => if 97 <= s[i] <= 102 then s[i] - 32 else s[i])
  }

  /** Reading hexadecimal digits does not depend on the case of letters. */
  lemma {:induction false} CaseIsIgnored(s: seq<s8>)
    ensures ParseHexDigits(Upper(s)) == ParseHexDigits(s)
    decreases |s|
  {
    if s == [] {
    } else {
      CaseIsIgnored(s[..|s| - 1]);
      assert Upper(s)[..|s| - 1] == Upper(s[..|s| - 1]);
    }
  }

  /** A prefix "0x" with something behind it is skipped, and nothing else is. */
  lemma PrefixIsSkipped(s: seq<s8>)
    ensures s != [] ==> ParseHex([48, 120] + s) == ParseHexDigits(s)
    ensures (forall t: seq<s8> :: t != [] ==> s != [48, 120] + t) ==> ParseHex(s) == ParseHexDigits(s)
  {
    assert ([48, 120] + s)[2..] == s;
    if HexPrefixed(s) {
      assert s == [48, 120] + s[2..];
    }
  }

  // ---------------------------------------------------------------- what the printers send

  /** put_dec holds the number in a signed 32-bit accumulator; a negative one prints nothing. */
  function DecText(n: u32): seq<s8> {
    ValueOfDigits(n, 10);
    if n < 0x8000_0000 then Text(Digits(n, 10)) else []
  }

  function HexText(n: u32): seq<s8> {
    ValueOfDigits(n, 16);
    [48, 120] + Text(Digits(n, 16))
  }

  lemma {:induction false} DigitCount(n: nat, b: nat, k: nat, top: nat)
    requires b == 10 || b == 16
    requires k >= 1 && n < top && top == Power(b, k)
    ensures 1 <= |Digits(n, b)| <= k
    decreases k
  {
    if n < b {
    } else {
      assert k != 1;
      assert Power(b, k) == b * Power(b, k - 1);
      Shrinks(n, b);
      DigitCount(n / b, b, k - 1, Power(b, k - 1));
    }
  }

  function Power(b: nat, k: nat): nat {
    if k == 0 then 1 else b * Power(b, k - 1)
  }

  lemma WordDigits(n: u32)
    ensures 1 <= |Digits(n, 10)| <= 10 && 1 <= |Digits(n, 16)| <= 8
  {
    assert Power(16, 4) == 0x1_0000 && Power(16, 8) == 16 * (16 * (16 * (16 * Power(16, 4)))) == WORD;
    assert Power(10, 5) == 100000 && Power(10, 10) == 10 * (10 * (10 * (10 * (10 * Power(10, 5))))) == 10000000000;
    DigitCount(n, 16, 8, WORD);
    DigitCount(n, 10, 10, 10000000000);
  }

  /** What the printers send is short enough for the 16-bit length the parsers work with. */
  lemma TextsAreShort(n: u32)
    ensures CString(HexText(n)) && |HexText(n)| <= 10
    ensures CString(DecText(n)) && |DecText(n)| <= 10
  {
    ValueOfDigits(n, 16);
    ValueOfDigits(n, 10);
    WordDigits(n);
  }

  lemma {:induction false} NoLeadingZero(n: nat, b: nat)
    requires b >= 2 && n > 0
    ensures |Digits(n, b)| >= 1 && Digits(n, b)[0] != 0
    decreases n
  {
    if n < b {
    } else {
      Shrinks(n, b);
      NoLeadingZero(n / b, b);
    }
  }

  predicate DecimalDigit(c: s8) { 48 <= c <= 57 }

  predicate UpperHexDigit(c: s8) { 48 <= c <= 57 || 65 <= c <= 70 }

  /** put_hex sends "0x" and upper-case digits, put_dec decimal digits or, from 2^31 on, nothing; neither sends a
      leading zero, except that 0 is one digit. */
  lemma TextsAreCanonical(n: u32)
    ensures var h := HexText(n);
            && |h| >= 3 && h[0] == 48 && h[1] == 120 && (forall i :: 2 <= i < |h| ==> UpperHexDigit(h[i]))
            && (if n == 0 then h == [48, 120, 48] else h[2] != 48)
    ensures var t := DecText(n);
            && (forall i :: 0 <= i < |t| ==> DecimalDigit(t[i]))
            && (if n == 0 then t == [48] else if n < 0x8000_0000 then t != [] && t[0] != 48 else t == [])
  {
    ValueOfDigits(n, 16);
    ValueOfDigits(n, 10);
    WordDigits(n);
    if n > 0 {
      NoLeadingZero(n, 16);
      NoLeadingZero(n, 10);
    }
  }

  /** Reading back what put_hex prints gives the number, for every 32-bit number. */
  lemma HexRoundTrip(n: u32)
    ensures ParseHex(HexText(n)) == n
  {
    ValueOfDigits(n, 16);
    WellFormedDigits(n, 16);
    ParseHexOfText(Digits(n, 16));
    var s := HexText(n);
    assert HexPrefixed(s) && s[2..] == Text(Digits(n, 16));
  }

  /** Reading back what put_dec prints gives the number exactly when it is below 2^31. */
  lemma DecRoundTripExactly(n: u32)
    ensures ParseDec(DecText(n)) == n <==> n < 0x8000_0000
  {
    var ds := Digits(n, 10);
    ValueOfDigits(n, 10);
    if n < 0x8000_0000 {
      ParseDecOfText(ds);
      assert DecText(n) == Text(ds);
    } else {
      assert DecText(n) == [] && ParseDec([]) == 0;
    }
  }

  // ---------------------------------------------------------------- the parsers

  /** The length is counted in an int but returned as 16 bits. */
  method StrLen(str: seq<s8>) returns (len: nat)
    requires CString(str)
    ensures len == |str| % 0x1_0000
  {
    var i := 0;
    while CharAt(str, i) != 0
      invariant 0 <= i <= |str|
      decreases |str| - i
    {
      i := i + 1;
    }
    len := i % 0x1_0000;
  }

  method StrToU32(str: seq<s8>) returns (result: u32)
    requires CString(str)
    ensures result == ParseDec(str[..|str| % 0x1_0000])
  {
    result := 0;
    var i := 0;
    var len := StrLen(str);
    while i < len
      invariant 0 <= i <= len == |str| % 0x1_0000 && result == ParseDec(str[..i])
    {
      assert str[..i + 1][..i] == str[..i];
      result := Wrap(result * 10 + (str[i] as int - 48));
      i := i + 1;
      len := StrLen(str);
    }
  }

  method HexDigit(hexit: s8) returns (digit: int)
    ensures digit == HexValue(hexit)
  {
    if hexit == 65 || hexit == 97 {
      digit := 10;
    } else if hexit == 66 || hexit == 98 {
      digit := 11;
    } else if hexit == 67 || hexit == 99 {
      digit := 12;
    } else if hexit == 68 || hexit == 100 {
      digit := 13;
    } else if hexit == 69 || hexit == 101 {
      digit := 14;
    } else if hexit == 70 || hexit == 102 {
      digit := 15;
    } else {
      digit := hexit - 48;
    }
  }

  method HexStrToU32(str: seq<s8>) returns (result: u32)
    requires CString(str)
    ensures result == ParseHex(str[..|str| % 0x1_0000])
  {
    result := 0;
    var i := 0;
    var len := StrLen(str);
    ghost var t := str[..len];
    if len > 2 && str[0] == 48 && str[1] == 120 {
      i := 2;
    }
    ghost var from := i;
    assert t[from..] == if HexPrefixed(t) then t[2..] else t;
    while i < len
      invariant from <= i <= len == |str| % 0x1_0000 && result == ParseHexDigits(str[from..i])
    {
      assert str[from..i + 1][..i - from] == str[from..i];
      var digit := HexDigit(str[i]);
      result := Wrap(result * 16 + digit);
      i := i + 1;
      len := StrLen(str);
    }
    assert str[from..len] == t[from..];
  }

  // ---------------------------------------------------------------- the printers

  /** Place `k` of the buffer holds the symbol of the digit `k` places from the right. */
  predicate Shows(c: seq<s8>, ds: seq<nat>, k: nat) {
    k < |c| && k < |ds| && ds[|ds| - 1 - k] < 16 && c[k] == Symbol(ds[|ds| - 1 - k])
  }

  /** The buffer `c` holds the digits of `n` that are not in `acc`, least significant first. */
  ghost predicate Unwound(c: seq<s8>, i: nat, n: nat, b: nat, acc: nat)
    requires b == 10 || b == 16
  {
    var ds := Digits(n, b);
    && i <= |c| && i <= |ds|
    && (if acc > 0 then i < |ds| && Digits(acc, b) == ds[..|ds| - i] else i == |ds|)
    && forall k :: 0 <= k < i ==> Shows(c, ds, k)
  }

  lemma UnwindDigit(c: seq<s8>, i: nat, n: nat, b: nat, acc: nat)
    requires b == 10 || b == 16
    requires acc > 0 && i < |c| && Unwound(c, i, n, b, acc)
    ensures acc % b < 16 && Unwound(c[i := Symbol(acc % b)], i + 1, n, b, acc / b)
  {
    var ds := Digits(n, b);
    var last := |ds| - 1 - i;
    assert acc % b < b <= 16;
    assert |Digits(acc, b)| == last + 1;
    assert ds[last] == Digits(acc, b)[last] == acc % b;
    if acc >= b {
      Shrinks(acc, b);
      WellFormedDigits(acc / b, b);
      assert Digits(acc / b, b) == Digits(acc, b)[..last] == ds[..last];
      assert acc / b > 0;
    } else {
      assert last == 0 && acc / b == 0;
    }
    assert if acc / b > 0 then i + 1 < |ds| && Digits(acc / b, b) == ds[..|ds| - (i + 1)] else i + 1 == |ds|;
    var c' := c[i := Symbol(acc % b)];
    forall k | 0 <= k < i + 1
      ensures Shows(c', ds, k)
    {
      assert k < i ==> Shows(c, ds, k);
    }
  }

  lemma WellFormedDigits(n: nat, b: nat)
    requires b >= 2
    ensures |Digits(n, b)| >= 1
  {
  }

  /** Reverse the `count` characters of `c` into a second buffer and send that. */
  method SendReversed(c: array<s8>, count: nat) returns (out: seq<s8>)
    requires 1 <= count < 32 && c.Length == 32 && forall k :: 0 <= k < count ==> c[k] != 0
    ensures |out| == count && forall k :: 0 <= k < count ==> out[k] == c[count - 1 - k]
  {
    var c2 := new s8[32];
    var i: int := count;
    c2[i] := 0;
    i := i - 1;
    var j := 0;
    while i >= 0
      invariant -1 <= i < count && j == count - 1 - i
      invariant c2[count] == 0
      invariant forall k :: i < k < count ==> c2[k] == c[count - 1 - k]
    {
      c2[i] := c[j];
      i := i - 1;
      j := j + 1;
    }
    out := PutStr(c2, count);
  }

  /** The characters put_str sends: those before the first NUL. */
  method PutStr(str: array<s8>, ghost end: nat) returns (out: seq<s8>)
    requires end < str.Length && str[end] == 0 && forall k :: 0 <= k < end ==> str[k] != 0
    ensures out == str[..end]
  {
    out := [];
    var i := 0;
    while str[i] != 0
      invariant 0 <= i <= end && out == str[..i]
      decreases end - i
    {
      out := out + [str[i]];
      i := i + 1;
    }
  }

  lemma ReversedIsText(c: seq<s8>, out: seq<s8>, n: nat, b: nat)
    requires (b == 10 || b == 16) && Unwound(c, |out|, n, b, 0)
    requires forall k :: 0 <= k < |out| ==> out[k] == c[|out| - 1 - k]
    ensures (forall i :: 0 <= i < |Digits(n, b)| ==> Digits(n, b)[i] < 16) && out == Text(Digits(n, b))
  {
    ValueOfDigits(n, b);
    var ds := Digits(n, b);
    forall k | 0 <= k < |out|
      ensures out[k] == Text(ds)[k]
    {
      assert Shows(c, ds, |out| - 1 - k);
    }
  }

  method PutDec(n: u32) returns (out: seq<s8>)
    ensures out == DecText(n)
  {
    if n == 0 {
      return [48];
    }
    var acc: int := if n < 0x8000_0000 then n else n - WORD;
    var c := new s8[32];
    var i := 0;
    WordDigits(n);
    if acc <= 0 {
      return [];
    }
    while acc > 0
      invariant 0 <= acc && 0 <= i <= 32 && Unwound(c[..], i, n, 10, acc)
      decreases acc
    {
      ghost var c0 := c[..];
      UnwindDigit(c0, i, n, 10, acc);
      c[i] := 48 + acc % 10;
      assert c[..] == c0[i := Symbol(acc % 10)];
      acc := acc / 10;
      i := i + 1;
    }
    ghost var taken := c[..];
    forall k | 0 <= k < i
      ensures c[k] != 0
    {
      assert Shows(taken, Digits(n, 10), k);
    }
    c[i] := 0;
    out := SendReversed(c, i);
    ReversedIsText(taken, out, n, 10);
  }

  method HexSymbol(rem: nat) returns (c: s8)
    requires rem < 16
    ensures c == Symbol(rem)
  {
    match rem {
      case 10 => c := 65;
      case 11 => c := 66;
      case 12 => c := 67;
      case 13 => c := 68;
      case 14 => c := 69;
      case 15 => c := 70;
      case _ => c := 48 + rem;
    }
  }

  /** The loop that takes the digits off. */
  method UnwindHex(n: u32, hex: array<s8>) returns (i: nat)
    requires n > 0 && hex.Length == 32
    modifies hex
    ensures 1 <= i <= 8 && Unwound(hex[..], i, n, 16, 0) && forall k :: 0 <= k < i ==> hex[k] != 0
  {
    var acc := n;
    i := 0;
    WordDigits(n);
    while acc > 0
      invariant 0 <= acc && 0 <= i <= 8 && Unwound(hex[..], i, n, 16, acc)
      decreases acc
    {
      ghost var c0 := hex[..];
      UnwindDigit(c0, i, n, 16, acc);
      var symbol := HexSymbol(acc % 16);
      hex[i] := symbol;
      assert hex[..] == c0[i := Symbol(acc % 16)];
      acc := acc / 16;
      i := i + 1;
    }
    forall k | 0 <= k < i
      ensures hex[k] != 0
    {
      assert Shows(hex[..], Digits(n, 16), k);
    }
  }

  method PutHex(n: u32) returns (out: seq<s8>)
    ensures out == HexText(n)
  {
    out := [48, 120];
    if n == 0 {
      return out + [48];
    }
    var hex := new s8[32];
    var i := UnwindHex(n, hex);
    ghost var taken := hex[..];
    hex[i] := 0;
    var digits := SendReversed(hex, i);
    ReversedIsText(taken, digits, n, 16);
    out := out + digits;
  }
}
