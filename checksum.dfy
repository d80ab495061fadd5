/**
 * The DL20 block checksum: the XOR of the character codes of everything before
 * the final three characters (a separator and two hex digits), written as two
 * lowercase hex digits, compared with the received digits after lowercasing.
 */
module Checksum {
  import opened Wrappers
  import opened Text
  import opened Bits

  /** Python's `ord(ch)`. */
  function Code(ch: char): nat {
    ch as nat
  }

  /** The XOR of the codes of all characters of `s`, folded from the left. */
  function XorAll(s: string): nat
    decreases |s|
  {
    if |s| == 0 then 0 else Xor(XorAll(s[..|s| - 1]), Code(s[|s| - 1]))
  }

  /** The lowercase hex digit of `d`. */
  function HexDigit(d: nat): char
    requires d < 16
  {
    "0123456789abcdef"[d]
  }

  /** The value of a hex digit of either case, if `ch` is one. */
  function HexValue(ch: char): (r: Option<nat>)
    ensures r.Some? ==> r.value < 16 && HexDigit(r.value) == LowerChar(ch)
    ensures r.None? ==> forall d :: 0 <= d < 16 ==> HexDigit(d) != LowerChar(ch)
  {
    if '0' <= ch <= '9' then Some(ch as nat - '0' as nat)
    else if 'a' <= ch <= 'f' then Some(ch as nat - 'a' as nat + 10)
    else if 'A' <= ch <= 'F' then Some(ch as nat - 'A' as nat + 10)
    else None
  }

  /** Python's `format(n, "x")`: lowercase hex without leading zeros. */
  function HexDigits(n: nat): (r: string)
    ensures |r| >= 1
    ensures n >= 16 ==> |r| >= 2
    decreases n
  {
    if n < 16 then [HexDigit(n)] else HexDigits(n / 16) + [HexDigit(n % 16)]
  }

  /** Python's `f"{n:02x}"`: lowercase hex, zero-padded to at least two digits. */
  function Format02x(n: nat): string {
    if n < 16 then ['0', HexDigit(n)] else HexDigits(n)
  }

  /** Reads exactly two hex digits of either case, the reference reading of a received checksum. */
  function ParseHexPair(s: string): Option<nat> {
    if |s| != 2 then None
    else match (HexValue(s[0]), HexValue(s[1]))
      case (Some(hi), Some(lo)) => Some(16 * hi + lo)
      case _ => None
  }

  /** The check made by the decoder: `message[-2:].lower() == f"{xor:02x}"`. */
  predicate ChecksumOk(message: string) {
    Lower(LastTwo(message)) == Format02x(XorAll(DropLast3(message)))
  }

  /** The two-digit rendering has exactly two characters precisely for byte values. */
  lemma Format02xTwoDigits(n: nat)
    ensures |Format02x(n)| >= 2
    ensures |Format02x(n)| == 2 <==> n < 256
    ensures n < 256 ==> Format02x(n) == [HexDigit(n / 16), HexDigit(n % 16)]
  {
    if n < 16 {
      assert HexDigit(0) == '0';
    } else if n < 256 {
      assert HexDigits(n / 16) == [HexDigit(n / 16)];
    } else {
      assert |HexDigits(n / 16)| >= 2;
      assert |HexDigits(n)| == |HexDigits(n / 16)| + 1;
    }
  }

  /** Reading back a two-digit rendering gives the byte it renders. */
  lemma ParseFormat02x(n: nat)
    requires n < 256
    ensures ParseHexPair(Format02x(n)) == Some(n)
  {
    Format02xTwoDigits(n);
    var hi, lo := n / 16, n % 16;
    assert HexValue(HexDigit(hi)) == Some(hi) && HexValue(HexDigit(lo)) == Some(lo) by {
      HexValueOfDigit(hi);
      HexValueOfDigit(lo);
    }
  }

  /** A lowercase hex digit reads back as its value. */
  lemma HexValueOfDigit(d: nat)
    requires d < 16
    ensures HexValue(HexDigit(d)) == Some(d)
  {
    var digits := "0123456789abcdef";
    assert digits[d] == HexDigit(d);
    if d < 10 {
      assert digits[d] as nat == '0' as nat + d;
    } else {
      assert digits[d] as nat == 'a' as nat + d - 10;
    }
  }

  /** Lowercasing a text equals the rendering of `n` exactly when the text reads back as `n`. */
  lemma LowerMatchesIffParses(t: string, n: nat)
    requires |t| <= 2
    ensures Lower(t) == Format02x(n) <==> ParseHexPair(t) == Some(n)
  {
    Format02xTwoDigits(n);
    if Lower(t) == Format02x(n) {
      assert |t| == 2 && n < 256;
      var hi, lo := n / 16, n % 16;
      assert LowerChar(t[0]) == HexDigit(hi) && LowerChar(t[1]) == HexDigit(lo);
      HexValueOfLowered(t[0], hi);
      HexValueOfLowered(t[1], lo);
    }
    if ParseHexPair(t) == Some(n) {
      assert |t| == 2;
      var hi, lo := HexValue(t[0]).value, HexValue(t[1]).value;
      assert n == 16 * hi + lo && n / 16 == hi && n % 16 == lo;
      assert Lower(t) == [HexDigit(hi), HexDigit(lo)];
    }
  }

  /** A character that lowercases to a hex digit reads as that digit's value. */
  lemma HexValueOfLowered(ch: char, d: nat)
    requires d < 16 && LowerChar(ch) == HexDigit(d)
    ensures HexValue(ch) == Some(d)
  {
    HexValueOfDigit(d);
    assert HexValue(ch).Some?;
    assert HexDigit(HexValue(ch).value) == HexDigit(d);
    HexDigitInjective(HexValue(ch).value, d);
  }

  /** Distinct values have distinct hex digits. */
  lemma HexDigitInjective(a: nat, b: nat)
    requires a < 16 && b < 16 && HexDigit(a) == HexDigit(b)
    ensures a == b
  {
    HexValueOfDigit(a);
    HexValueOfDigit(b);
  }

  /**
   * The checksum holds exactly when the last two characters read, in either
   * case, as the XOR of everything before the last three.
   */
  lemma ChecksumOkIff(message: string)
    ensures ChecksumOk(message) <==> ParseHexPair(LastTwo(message)) == Some(XorAll(DropLast3(message)))
  {
    LowerMatchesIffParses(LastTwo(message), XorAll(DropLast3(message)));
  }

  /** A passing checksum implies the XOR fits in one byte. */
  lemma ChecksumOkByte(message: string)
    requires ChecksumOk(message)
    ensures |message| >= 2 && XorAll(DropLast3(message)) < 256
  {
    Format02xTwoDigits(XorAll(DropLast3(message)));
  }

  /** With fewer than three characters the XOR is 0, so only "00" passes. */
  lemma ShortMessage(message: string)
    requires |message| < 3
    ensures ChecksumOk(message) <==> message == "00"
  {
    assert XorAll(DropLast3(message)) == 0;
    Format02xTwoDigits(0);
    if ChecksumOk(message) {
      assert |message| == 2;
      assert LowerChar(message[0]) == '0' && LowerChar(message[1]) == '0';
      assert message == "00";
    }
  }

  /** The XOR of a concatenation is the XOR of the parts. */
  lemma {:induction false} XorAllAppend(a: string, b: string)
    ensures XorAll(a + b) == Xor(XorAll(a), XorAll(b))
    decreases |b|
  {
    if |b| == 0 {
      assert a + b == a;
    } else {
      var ab := a + b;
      assert ab[..|ab| - 1] == a + b[..|b| - 1];
      assert ab[|ab| - 1] == b[|b| - 1];
      XorAllAppend(a, b[..|b| - 1]);
      XorAssoc(XorAll(a), XorAll(b[..|b| - 1]), Code(b[|b| - 1]));
    }
  }

  /** The XOR of `pre + [ch] + post`, one character singled out. */
  lemma XorAllAround(pre: string, ch: char, post: string)
    ensures XorAll(pre + [ch] + post) == Xor(Xor(XorAll(pre), Code(ch)), XorAll(post))
  {
    XorAllAppend(pre + [ch], post);
    XorAllAppend(pre, [ch]);
    assert [ch][..0] == [];
  }

  /** Changing any one protected character of a block that passes makes it fail. */
  lemma SingleChangeDetected(message: string, i: nat, ch: char)
    requires ChecksumOk(message)
    requires i < |message| - 3 && ch != message[i]
    ensures !ChecksumOk(message[i := ch])
  {
    var m' := message[i := ch];
    var body := DropLast3(message);
    var pre, post := body[..i], body[i + 1..];
    assert body == pre + [body[i]] + post;
    assert DropLast3(m') == pre + [ch] + post;
    XorAllOneChange(pre, body[i], ch, post);
    assert LastTwo(m') == LastTwo(message);
    ChecksumOkIff(message);
    ChecksumOkIff(m');
  }

  /** Changing one character changes the XOR of the text. */
  lemma XorAllOneChange(pre: string, a: char, b: char, post: string)
    requires a != b
    ensures XorAll(pre + [a] + post) != XorAll(pre + [b] + post)
  {
    XorAllAround(pre, a, post);
    XorAllAround(pre, b, post);
    XorComm(Xor(XorAll(pre), Code(a)), XorAll(post));
    XorComm(Xor(XorAll(pre), Code(b)), XorAll(post));
    if XorAll(pre + [a] + post) == XorAll(pre + [b] + post) {
      XorInjective(XorAll(post), Xor(XorAll(pre), Code(a)), Xor(XorAll(pre), Code(b)));
      XorInjective(XorAll(pre), Code(a), Code(b));
    }
  }

  /** The separator before the checksum digits is not protected: any character there is accepted. */
  lemma SeparatorIgnored(message: string, ch: char)
    requires |message| >= 3
    ensures ChecksumOk(message[|message| - 3 := ch]) == ChecksumOk(message)
  {
    var m' := message[|message| - 3 := ch];
    assert DropLast3(m') == DropLast3(message);
    assert LastTwo(m') == LastTwo(message);
  }

  /** A block as the sensor sends it: the body, a separator, and the checksum of the body. */
  function Seal(body: string, sep: char): string {
    body + [sep] + Format02x(XorAll(body))
  }

  /** A sealed block passes the check whenever its XOR fits in a byte. */
  lemma SealPasses(body: string, sep: char)
    requires XorAll(body) < 256
    ensures var m := Seal(body, sep); |m| == |body| + 3 && DropLast3(m) == body && ChecksumOk(m)
  {
    var m := Seal(body, sep);
    Format02xTwoDigits(XorAll(body));
    assert DropLast3(m) == body;
    var digits := Format02x(XorAll(body));
    assert LastTwo(m) == digits;
    assert Lower(digits) == digits by {
      HexDigitLower(XorAll(body) / 16);
      HexDigitLower(XorAll(body) % 16);
    }
  }

  /** Lowercase hex digits are unchanged by lowercasing. */
  lemma HexDigitLower(d: nat)
    requires d < 16
    ensures LowerChar(HexDigit(d)) == HexDigit(d)
  {
    var digits := "0123456789abcdef";
    assert digits[d] == HexDigit(d);
  }

  /** Python's `str.upper` on hex digits. */
  function UpperHex(s: string): (r: string)
    ensures |r| == |s|
  {
    seq(|s|, i requires 0 <= i < |s| => if 'a' <= s[i] <= 'f' then (s[i] as int - 32) as char else s[i])
  }

  /** A block whose checksum digits were sent in upper case also passes. */
  lemma UpperCaseDigitsAccepted(body: string, sep: char)
    requires XorAll(body) < 256
    ensures ChecksumOk(body + [sep] + UpperHex(Format02x(XorAll(body))))
  {
    var digits := Format02x(XorAll(body));
    var m := body + [sep] + UpperHex(digits);
    Format02xTwoDigits(XorAll(body));
    assert DropLast3(m) == body;
    assert LastTwo(m) == UpperHex(digits);
    UpperHexLowered(XorAll(body));
  }

  /** Lowering the upper-case form of a two-digit checksum gives the checksum back. */
  lemma UpperHexLowered(n: nat)
    requires n < 256
    ensures Lower(UpperHex(Format02x(n))) == Format02x(n)
  {
    Format02xTwoDigits(n);
    HexDigitLower(n / 16);
    HexDigitLower(n % 16);
    var digits := Format02x(n);
    assert Lower(UpperHex(digits))[0] == digits[0];
    assert Lower(UpperHex(digits))[1] == digits[1];
  }

  /** Every character is seven-bit, as text masked with 0x7f is. */
  predicate SevenBit(s: string) {
    forall i :: 0 <= i < |s| ==> s[i] as int < 128
  }

  /** Joining seven-bit texts with a seven-bit separator gives seven-bit text. */
  lemma {:induction false} JoinSevenBit(parts: seq<string>, c: char)
    requires forall i :: 0 <= i < |parts| ==> SevenBit(parts[i])
    requires c as int < 128
    ensures SevenBit(Join(parts, c))
    decreases |parts|
  {
    if |parts| > 1 {
      JoinSevenBit(parts[1..], c);
      var rest := Join(parts[1..], c);
      assert Join(parts, c) == parts[0] + [c] + rest;
      assert SevenBit(parts[0]);
    }
  }

  /** Seven-bit text has a seven-bit XOR, so two digits always suffice. */
  lemma {:induction false} SevenBitXor(s: string)
    requires SevenBit(s)
    ensures XorAll(s) < 128
    decreases |s|
  {
    if |s| > 0 {
      SevenBitXor(s[..|s| - 1]);
      assert Pow2(7) == 128;
      XorBelow(XorAll(s[..|s| - 1]), Code(s[|s| - 1]), 7);
    }
  }

  /** The decoder's loop: XOR the characters before the last three, then compare. */
  method VerifyChecksum(message: string) returns (ok: bool)
    ensures ok == ChecksumOk(message)
    ensures ok <==> ParseHexPair(LastTwo(message)) == Some(XorAll(DropLast3(message)))
  {
    var body := DropLast3(message);
    var acc: nat := 0;
    for i := 0 to |body|
      invariant acc == XorAll(body[..i])
    {
      assert body[..i + 1][..i] == body[..i];
      acc := Xor(acc, Code(body[i]));
    }
    assert body[..|body|] == body;
    ok := Lower(LastTwo(message)) == Format02x(acc);
    ChecksumOkIff(message);
  }
}
