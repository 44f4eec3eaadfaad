/** strconv.Quote, which %q prints: any string between quotes, in a form that can be read back. */
module GoQuote {

  /** A Go string as utf8.DecodeRune walks it: code points, and bytes that are not valid UTF-8. */
  datatype Unit = Rune(c: char) | BadByte(b: HighByte)

  type HighByte = b: nat | 0x80 <= b < 0x100 witness 0x80
  type GoString = seq<Unit>

  /** A digit of 0123456789abcdef. */
  function HexDigit(d: nat): char
    requires d < 16
  {
    if d < 10 then '0' + d as char else 'a' + (d - 10) as char
  }

  function Pow16(k: nat): nat {
    if k == 0 then 1 else 16 * Pow16(k - 1)
  }

  /** The number in k lower-case hexadecimal digits. */
  function Hex(n: nat, k: nat): (h: string)
    ensures |h| == k
  {
    if k == 0 then "" else Hex(n / 16, k - 1) + [HexDigit(n % 16)]
  }

  function HexValue(c: char): nat {
    if '0' <= c <= '9' then (c - '0') as nat else if 'a' <= c <= 'f' then (c - 'a') as nat + 10 else 0
  }

  function FromHex(h: string): nat {
    if h == "" then 0 else 16 * FromHex(h[..|h| - 1]) + HexValue(h[|h| - 1])
  }

  lemma HexDigitValue(d: nat)
    requires d < 16
    ensures HexValue(HexDigit(d)) == d
  {
  }

  lemma LastHexDigit(n: nat, k: nat)
    requires k > 0
    ensures FromHex(Hex(n, k)) == 16 * FromHex(Hex(n / 16, k - 1)) + n % 16
  {
    HexDigitValue(n % 16);
    var h := Hex(n, k);
    assert h[..k - 1] == Hex(n / 16, k - 1) && h[k - 1] == HexDigit(n % 16);
  }

  lemma Quotient(n: nat, p: nat)
    requires n < 16 * p
    ensures n / 16 < p && n == 16 * (n / 16) + n % 16
  {
  }

  lemma {:induction false} HexReadsBack(n: nat, k: nat)
    requires n < Pow16(k)
    ensures FromHex(Hex(n, k)) == n
  {
    if k > 0 {
      LastHexDigit(n, k);
      Quotient(n, Pow16(k - 1));
      HexReadsBack(n / 16, k - 1);
    }
  }

  /** The control characters with an escape letter of their own. */
  function EscapeLetter(c: char): char {
    if c as int == 7 then 'a'
    else if c as int == 8 then 'b'
    else if c as int == 12 then 'f'
    else if c as int == 10 then 'n'
    else if c as int == 13 then 'r'
    else if c as int == 9 then 't'
    else if c as int == 11 then 'v'
    else ' '
  }

  /** The escape of a unit inside double quotes; which code points print as they are is given. */
  function QuoteUnit(u: Unit, printable: char -> bool): (q: string)
    ensures q != ""
  {
    match u
    case BadByte(b) => ['\\', 'x'] + Hex(b, 2)
    case Rune(c) =>
      if c == '"' || c == '\\' then ['\\', c]
      else if printable(c) then [c]
      else if EscapeLetter(c) != ' ' then ['\\', EscapeLetter(c)]
      else if c < ' ' || c as int == 0x7F then ['\\', 'x'] + Hex(c as int, 2)
      else if c as int < 0x10000 then ['\\', 'u'] + Hex(c as int, 4)
      else ['\\', 'U'] + Hex(c as int, 8)
  }

  function QuoteBody(s: GoString, printable: char -> bool): string {
    if s == [] then "" else QuoteUnit(s[0], printable) + QuoteBody(s[1..], printable)
  }

  function Quote(s: GoString, printable: char -> bool): string {
    "\"" + QuoteBody(s, printable) + "\""
  }

  // ----- reading back

  datatype Read = Unit(u: Unit, length: nat) | Nothing

  function Letter(e: char): char {
    match e
    case 'a' => 7 as char
    case 'b' => 8 as char
    case 'f' => 12 as char
    case 'n' => 10 as char
    case 'r' => 13 as char
    case 't' => 9 as char
    case 'v' => 11 as char
    case _ => e
  }

  predicate IsChar(n: nat) {
    n < 0xD800 || 0xE000 <= n < 0x11_0000
  }

  /** The unit that k hexadecimal digits spell; two of them from 0x80 on are a byte. */
  function UnitOf(n: nat, k: nat): Read {
    if k == 2 && 0x80 <= n < 0x100 then Unit(BadByte(n), 4)
    else if IsChar(n) then Unit(Rune(n as char), 2 + k)
    else Nothing
  }

  function HexDigits(e: char): nat {
    match e
    case 'x' => 2
    case 'u' => 4
    case 'U' => 8
    case _ => 0
  }

  /** The unit that a quoted text begins with, and the length of its escape. */
  function ReadUnit(q: string): Read {
    if |q| == 0 || q[0] == '"' then Nothing
    else if q[0] != '\\' then Unit(Rune(q[0]), 1)
    else if |q| == 1 then Nothing
    else
      var k := HexDigits(q[1]);
      if k == 0 then Unit(Rune(Letter(q[1])), 2)
      else if |q| < 2 + k then Nothing
      else UnitOf(FromHex(q[2..2 + k]), k)
  }

  lemma ReadHex(e: char, n: nat, rest: string)
    requires HexDigits(e) > 0 && n < Pow16(HexDigits(e))
    ensures ReadUnit(['\\', e] + Hex(n, HexDigits(e)) + rest) == UnitOf(n, HexDigits(e))
  {
    var k := HexDigits(e);
    var q := ['\\', e] + Hex(n, k) + rest;
    assert q[2..2 + k] == Hex(n, k);
    HexReadsBack(n, k);
  }

  lemma ReadLetter(e: char, rest: string)
    requires HexDigits(e) == 0
    ensures ReadUnit(['\\', e] + rest) == Unit(Rune(Letter(e)), 2)
  {
  }

  lemma Pow16Values()
    ensures Pow16(2) == 0x100 && Pow16(4) == 0x10000 && Pow16(8) == 0x1_0000_0000
  {
    assert Pow16(0) == 1 && Pow16(1) == 16 && Pow16(3) == 0x1000 && Pow16(5) == 0x10_0000;
    assert Pow16(6) == 0x100_0000 && Pow16(7) == 0x1000_0000;
  }

  lemma ReadUnitOfQuoted(u: Unit, printable: char -> bool, rest: string)
    ensures ReadUnit(QuoteUnit(u, printable) + rest) == Unit(u, |QuoteUnit(u, printable)|)
  {
    Pow16Values();
    match u
    case BadByte(b) => ReadHex('x', b, rest);
    case Rune(c) =>
      if c == '"' || c == '\\' {
        ReadLetter(c, rest);
      } else if printable(c) {
      } else if EscapeLetter(c) != ' ' {
        ReadLetter(EscapeLetter(c), rest);
      } else if c < ' ' || c as int == 0x7F {
        ReadHex('x', c as int, rest);
      } else if c as int < 0x10000 {
        ReadHex('u', c as int, rest);
      } else {
        ReadHex('U', c as int, rest);
      }
  }

  // ----- a quoted string and what follows it split in only one way

  function Rest(s: GoString, x: string, printable: char -> bool): string {
    if s == [] then ['"'] + x else QuoteUnit(s[0], printable) + Rest(s[1..], x, printable)
  }

  lemma {:induction false} RestIsBody(s: GoString, x: string, printable: char -> bool)
    ensures Rest(s, x, printable) == QuoteBody(s, printable) + (['"'] + x)
  {
    if s == [] {
      assert "" + (['"'] + x) == ['"'] + x;
    } else {
      RestIsBody(s[1..], x, printable);
      Associate(QuoteUnit(s[0], printable), QuoteBody(s[1..], printable), ['"'] + x);
    }
  }

  lemma Associate(a: string, b: string, c: string)
    ensures a + b + c == a + (b + c)
  {
  }

  lemma QuoteIsRest(s: GoString, x: string, printable: char -> bool)
    ensures Quote(s, printable) + x == ['"'] + Rest(s, x, printable)
  {
    RestIsBody(s, x, printable);
    Associate("\"" + QuoteBody(s, printable), "\"", x);
    Associate("\"", QuoteBody(s, printable), "\"" + x);
  }

  lemma ReadRest(s: GoString, x: string, printable: char -> bool)
    ensures ReadUnit(Rest(s, x, printable)) ==
            if s == [] then Nothing else Unit(s[0], |QuoteUnit(s[0], printable)|)
  {
    if s != [] {
      ReadUnitOfQuoted(s[0], printable, Rest(s[1..], x, printable));
    }
  }

  lemma {:induction false} RestUnique(s: GoString, x: string, t: GoString, y: string, printable: char -> bool)
    requires Rest(s, x, printable) == Rest(t, y, printable)
    ensures s == t && x == y
    decreases |s|
  {
    ReadRest(s, x, printable);
    ReadRest(t, y, printable);
    if s == [] {
      assert (['"'] + x)[1..] == x && (['"'] + y)[1..] == y;
    } else {
      var n := |QuoteUnit(s[0], printable)|;
      assert Rest(s, x, printable)[n..] == Rest(s[1..], x, printable);
      assert Rest(t, y, printable)[n..] == Rest(t[1..], y, printable);
      RestUnique(s[1..], x, t[1..], y, printable);
      assert s == [s[0]] + s[1..] && t == [t[0]] + t[1..];
    }
  }

  /** Two quoted strings that begin equal texts are equal, and so is what follows them. */
  lemma QuoteDelimited(s: GoString, x: string, t: GoString, y: string, printable: char -> bool)
    requires Quote(s, printable) + x == Quote(t, printable) + y
    ensures s == t && x == y
  {
    QuoteIsRest(s, x, printable);
    QuoteIsRest(t, y, printable);
    assert (['"'] + Rest(s, x, printable))[1..] == Rest(s, x, printable);
    assert (['"'] + Rest(t, y, printable))[1..] == Rest(t, y, printable);
    RestUnique(s, x, t, y, printable);
  }
}
