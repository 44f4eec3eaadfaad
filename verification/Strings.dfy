/** Go's string functions that the access limits rest on: comparison, joining and printing. */
module Strings {
  import opened Sorting

  // ----- comparison

  /** strings.Compare(a, b) <= 0: by code point, shorter first. */
  predicate Leq(a: string, b: string) {
    a == "" || (b != "" && (a[0] < b[0] || (a[0] == b[0] && Leq(a[1..], b[1..]))))
  }

  /** The order is that of a dictionary: the first difference decides, and a prefix comes first. */
  lemma {:induction false} LeqIsLexicographic(a: string, b: string, k: nat)
    requires k <= |a| && k <= |b| && a[..k] == b[..k] && (k < |a| && k < |b| ==> a[k] != b[k])
    ensures Leq(a, b) <==> k == |a| || (k < |b| && a[k] < b[k])
  {
    if k > 0 {
      assert a[0] == a[..k][0] == b[..k][0] == b[0];
      assert a[1..][..k - 1] == a[..k][1..] == b[..k][1..] == b[1..][..k - 1];
      LeqIsLexicographic(a[1..], b[1..], k - 1);
    }
  }

  lemma {:induction false} LeqTotal(a: string, b: string)
    ensures Leq(a, b) || Leq(b, a)
    ensures Leq(a, b) && Leq(b, a) ==> a == b
  {
    if a != "" && b != "" {
      LeqTotal(a[1..], b[1..]);
      assert a == [a[0]] + a[1..] && b == [b[0]] + b[1..];
    }
  }

  lemma {:induction false} LeqTransitive(a: string, b: string, c: string)
    requires Leq(a, b) && Leq(b, c)
    ensures Leq(a, c)
  {
    if a != "" && b != "" && c != "" && a[0] == b[0] == c[0] {
      LeqTransitive(a[1..], b[1..], c[1..]);
    }
  }

  lemma LeqIsTotal()
    ensures Total(Leq)
  {
    forall a, b ensures Leq(a, b) || Leq(b, a) {
      LeqTotal(a, b);
    }
    forall a, b, c | Leq(a, b) && Leq(b, c) ensures Leq(a, c) {
      LeqTransitive(a, b, c);
    }
  }

  lemma LeqIsAntisymmetric(elements: multiset<string>)
    ensures Antisymmetric(Leq, elements)
  {
    forall a, b | Leq(a, b) && Leq(b, a) ensures a == b {
      LeqTotal(a, b);
    }
  }

  /** Sorting strings depends on nothing but which strings there are. */
  lemma SortedStringsUnique(a: seq<string>, b: seq<string>)
    ensures Sort(a, Leq) == Sort(b, Leq) <==> multiset(a) == multiset(b)
  {
    LeqIsTotal();
    if multiset(a) == multiset(b) {
      LeqIsAntisymmetric(multiset(a));
      SortIgnoresOrder(a, b, Leq);
    } else {
      SortSorts(a, Leq);
      SortSorts(b, Leq);
    }
  }

  // ----- splitting a text that begins with characters of one kind

  /** The number of leading characters below a bound given by a test. */
  function Span(s: string, p: char -> bool): (n: nat)
    ensures n <= |s|
  {
    if s == "" || !p(s[0]) then 0 else 1 + Span(s[1..], p)
  }

  predicate All(s: string, p: char -> bool) {
    forall i :: 0 <= i < |s| ==> p(s[i])
  }

  /** The texts that can follow: nothing, or something that begins with another kind of character. */
  predicate Ends(rest: string, p: char -> bool) {
    rest == "" || !p(rest[0])
  }

  lemma {:induction false} SpanOfAll(s: string, rest: string, p: char -> bool)
    requires All(s, p) && Ends(rest, p)
    ensures Span(s + rest, p) == |s|
  {
    if s == "" {
      assert s + rest == rest;
    } else {
      assert (s + rest)[1..] == s[1..] + rest;
      SpanOfAll(s[1..], rest, p);
    }
  }

  /** A run of one kind of character followed by another kind splits in only one way. */
  lemma SplitUnique(a: string, x: string, b: string, y: string, p: char -> bool)
    requires All(a, p) && All(b, p) && Ends(x, p) && Ends(y, p)
    requires a + x == b + y
    ensures a == b && x == y
  {
    SpanOfAll(a, x, p);
    SpanOfAll(b, y, p);
    assert a == (a + x)[..|a|] == (b + y)[..|b|] == b;
    assert x == (a + x)[|a|..] == (b + y)[|b|..] == y;
  }

  lemma CancelPrefix(prefix: string, a: string, b: string)
    requires prefix + a == prefix + b
    ensures a == b
  {
    assert a == (prefix + a)[|prefix|..] == (prefix + b)[|prefix|..] == b;
  }

  // ----- white space

  /** unicode.IsSpace */
  predicate IsSpace(c: char) {
    var n := c as int;
    9 <= n <= 13 || n == 0x20 || n == 0x85 || n == 0xA0 || n == 0x1680 || 0x2000 <= n <= 0x200A
    || n == 0x2028 || n == 0x2029 || n == 0x202F || n == 0x205F || n == 0x3000
  }

  /** strings.TrimSpace */
  function TrimSpace(s: string): string {
    if s != "" && IsSpace(s[0]) then TrimSpace(s[1..])
    else if s != "" && IsSpace(s[|s| - 1]) then TrimSpace(s[..|s| - 1])
    else s
  }

  /** Nothing is left exactly of a text that is all white space. */
  lemma {:induction false} TrimLeavesNothingOfSpace(s: string)
    ensures TrimSpace(s) == "" <==> All(s, IsSpace)
  {
    if s != "" && IsSpace(s[0]) {
      TrimLeavesNothingOfSpace(s[1..]);
    } else if s != "" && IsSpace(s[|s| - 1]) {
      TrimLeavesNothingOfSpace(s[..|s| - 1]);
    }
  }

  predicate Trimmed(s: string) {
    s != "" && !IsSpace(s[0]) && !IsSpace(s[|s| - 1])
  }

  lemma {:induction false} TrimRemovesEnd(core: string, after: string)
    requires Trimmed(core) && All(after, IsSpace)
    ensures TrimSpace(core + after) == core
  {
    if after == "" {
      assert core + after == core;
    } else {
      assert (core + after)[..|core + after| - 1] == core + after[..|after| - 1];
      TrimRemovesEnd(core, after[..|after| - 1]);
    }
  }

  /** White space around a text plays no part in what is left. */
  lemma {:induction false} TrimRemovesPadding(before: string, core: string, after: string)
    requires Trimmed(core) && All(before, IsSpace) && All(after, IsSpace)
    ensures TrimSpace(before + (core + after)) == core
  {
    if before == "" {
      assert before + (core + after) == core + after;
      TrimRemovesEnd(core, after);
    } else {
      assert (before + (core + after))[1..] == before[1..] + (core + after);
      TrimRemovesPadding(before[1..], core, after);
    }
  }

  // ----- joining

  /** strings.Join with a comma. */
  function Join(words: seq<string>): string {
    if words == [] then ""
    else if |words| == 1 then words[0]
    else words[0] + "," + Join(words[1..])
  }

  predicate NotComma(c: char) {
    c != ','
  }

  /** Words that a comma-separated list can be read back into. */
  predicate Joinable(words: seq<string>) {
    words == [] || (words[0] != "" && All(words[0], NotComma) && Joinable(words[1..]))
  }

  lemma {:induction false} JoinInjective(a: seq<string>, b: seq<string>)
    requires Joinable(a) && Joinable(b) && Join(a) == Join(b)
    ensures a == b
  {
    if a == [] || b == [] {
      assert a == [] && b == [];
    } else {
      var x := if |a| == 1 then "" else "," + Join(a[1..]);
      var y := if |b| == 1 then "" else "," + Join(b[1..]);
      assert Join(a) == a[0] + x && Join(b) == b[0] + y;
      SplitUnique(a[0], x, b[0], y, NotComma);
      if |a| > 1 {
        CancelPrefix(",", Join(a[1..]), Join(b[1..]));
        JoinInjective(a[1..], b[1..]);
      }
      assert a == [a[0]] + a[1..] && b == [b[0]] + b[1..];
    }
  }

  // ----- decimal numbers

  function Digit(n: nat): char
    requires n < 10
  {
    (n as char + '0')
  }

  predicate IsDigit(c: char) {
    '0' <= c <= '9'
  }

  function Decimal(n: nat): string {
    if n < 10 then [Digit(n)] else Decimal(n / 10) + [Digit(n % 10)]
  }

  /** strconv.Itoa */
  function Itoa(n: int): string {
    if n < 0 then "-" + Decimal(-n) else Decimal(n)
  }

  lemma {:induction false} DecimalIsDigits(n: nat)
    ensures Decimal(n) != "" && All(Decimal(n), IsDigit)
  {
    if n >= 10 {
      DecimalIsDigits(n / 10);
    }
  }

  lemma {:induction false} DecimalInjective(a: nat, b: nat)
    requires Decimal(a) == Decimal(b)
    ensures a == b
  {
    var x, y := Decimal(a), Decimal(b);
    DecimalIsDigits(a / 10);
    DecimalIsDigits(b / 10);
    assert x[|x| - 1] == Digit(a % 10) && y[|y| - 1] == Digit(b % 10);
    assert a % 10 == b % 10;
    if a >= 10 && b >= 10 {
      assert x[..|x| - 1] == Decimal(a / 10) && y[..|y| - 1] == Decimal(b / 10);
      DecimalInjective(a / 10, b / 10);
    }
  }

  /** A non-negative number and what follows it can be told apart. */
  lemma ItoaDelimited(a: nat, x: string, b: nat, y: string)
    requires Ends(x, IsDigit) && Ends(y, IsDigit) && Itoa(a) + x == Itoa(b) + y
    ensures a == b && x == y
  {
    DecimalIsDigits(a);
    DecimalIsDigits(b);
    SplitUnique(Decimal(a), x, Decimal(b), y, IsDigit);
    DecimalInjective(a, b);
  }

  predicate NotBar(c: char) {
    c != '|'
  }

  /** A text without bars, a bar and a number can be told apart. */
  lemma BarDelimited(a: string, m: nat, b: string, n: nat)
    requires All(a, NotBar) && All(b, NotBar)
    requires a + ("|" + Itoa(m)) == b + ("|" + Itoa(n))
    ensures a == b && m == n
  {
    SplitUnique(a, "|" + Itoa(m), b, "|" + Itoa(n), NotBar);
    CancelPrefix("|", Itoa(m), Itoa(n));
    DecimalInjective(m, n);
  }
}
