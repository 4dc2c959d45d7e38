/** Character and string routines of the Rust standard library that the three
    utilities call: `char::is_whitespace` (behind `split_whitespace` and
    `trim_end`), `split_whitespace`, `trim_end`, the UTF-8 width of a `char`,
    decimal formatting of an unsigned integer and right-justification in a
    `{:>N}` field. Each function keeps a small contract; the facts that need
    a quantifier are lemmas beside it. */
module Text {
  import opened Sequences

  /** `char::is_whitespace`: the characters with the Unicode White_Space property. */
  predicate IsWhitespace(c: char) {
    ('\t' <= c <= '\r') || c == ' ' || c == '\U{85}' || c == '\U{A0}' || c == '\U{1680}'
    || ('\U{2000}' <= c <= '\U{200A}') || c == '\U{2028}' || c == '\U{2029}'
    || c == '\U{202F}' || c == '\U{205F}' || c == '\U{3000}'
  }

  /** `str::trim_end`: drops the whitespace at the end. */
  function TrimEnd(s: string): (r: string)
    ensures |r| <= |s|
    decreases |s|
  {
    if s != [] && IsWhitespace(s[|s| - 1]) then TrimEnd(s[..|s| - 1]) else s
  }

  /** `trim_end` keeps the longest prefix that does not end in whitespace:
      what it drops is all whitespace, and what it keeps does not end in any. */
  lemma {:induction false} TrimEndShape(s: string)
    ensures TrimEnd(s) == s[..|TrimEnd(s)|]
    ensures TrimEnd(s) == [] || !IsWhitespace(TrimEnd(s)[|TrimEnd(s)| - 1])
    ensures forall i :: |TrimEnd(s)| <= i < |s| ==> IsWhitespace(s[i])
    decreases |s|
  {
    if s != [] && IsWhitespace(s[|s| - 1]) {
      var init := s[..|s| - 1];
      TrimEndShape(init);
      assert TrimEnd(s) == TrimEnd(init);
      assert init[..|TrimEnd(init)|] == s[..|TrimEnd(init)|];
    }
  }

  /** Number of bytes `c` takes in UTF-8 (`char::len_utf8`). */
  function Utf8Width(c: char): (n: nat)
    ensures 1 <= n <= 4
    ensures n == 1 <==> (c as int) < 0x80
  {
    if (c as int) < 0x80 then 1
    else if (c as int) < 0x800 then 2
    else if (c as int) < 0x1_0000 then 3
    else 4
  }

  /** Length in bytes of the UTF-8 encoding of `s` (`str::len`). */
  function Utf8Len(s: string): (n: nat)
    ensures |s| <= n <= 4 * |s|
    decreases |s|
  {
    if s == [] then 0 else Utf8Width(s[0]) + Utf8Len(s[1..])
  }

  lemma {:induction false} Utf8LenAppend(a: string, b: string)
    ensures Utf8Len(a + b) == Utf8Len(a) + Utf8Len(b)
    decreases |a|
  {
    if a != [] {
      var ab := a + b;
      assert ab[0] == a[0] && ab[1..] == a[1..] + b;
      Utf8LenAppend(a[1..], b);
      assert Utf8Len(ab) == Utf8Width(ab[0]) + Utf8Len(ab[1..]);
    } else {
      assert a + b == b;
    }
  }

  predicate IsAscii(s: string) {
    forall i :: 0 <= i < |s| ==> (s[i] as int) < 0x80
  }

  lemma AsciiAppend(a: string, b: string)
    requires IsAscii(a) && IsAscii(b)
    ensures IsAscii(a + b)
  {
  }

  /** For text made of ASCII characters only, bytes and characters agree. */
  lemma {:induction false} Utf8LenAscii(s: string)
    requires IsAscii(s)
    ensures Utf8Len(s) == |s|
    decreases |s|
  {
    if s != [] {
      Utf8LenAscii(s[1..]);
    }
  }

  /** Length of the leading run of non-whitespace characters. */
  function TokenLen(s: string): (n: nat)
    ensures n <= |s|
    ensures s != [] && !IsWhitespace(s[0]) ==> n >= 1
    decreases |s|
  {
    if s == [] || IsWhitespace(s[0]) then 0 else 1 + TokenLen(s[1..])
  }

  /** The leading run ends at the first whitespace character. */
  lemma {:induction false} TokenLenShape(s: string)
    ensures forall i :: 0 <= i < TokenLen(s) ==> !IsWhitespace(s[i])
    ensures TokenLen(s) == |s| || IsWhitespace(s[TokenLen(s)])
    decreases |s|
  {
    if s != [] && !IsWhitespace(s[0]) {
      TokenLenShape(s[1..]);
    }
  }

  predicate IsWord(w: string) {
    w != [] && forall i :: 0 <= i < |w| ==> !IsWhitespace(w[i])
  }

  /** `str::split_whitespace`: the maximal non-empty runs of non-whitespace
      characters, in order. */
  function Words(s: string): seq<string>
    decreases |s|
  {
    if s == [] then []
    else if IsWhitespace(s[0]) then Words(s[1..])
    else var n := TokenLen(s); [s[..n]] + Words(s[n..])
  }

  /** Every piece `split_whitespace` yields is a word. */
  lemma {:induction false} WordsAreWords(s: string)
    ensures forall i :: 0 <= i < |Words(s)| ==> IsWord(Words(s)[i])
    decreases |s|
  {
    if s != [] {
      if IsWhitespace(s[0]) {
        WordsAreWords(s[1..]);
      } else {
        TokenLenShape(s);
        WordsAreWords(s[TokenLen(s)..]);
      }
    }
  }

  /** No word spans a whitespace character: splitting after one splits the
      words the same way. */
  lemma {:induction false} WordsAppend(a: string, b: string)
    requires a == [] || IsWhitespace(a[|a| - 1])
    ensures Words(a + b) == Words(a) + Words(b)
    decreases |a|
  {
    var ab := a + b;
    if a == [] {
      assert ab == b;
    } else if IsWhitespace(a[0]) {
      AppendSplit(a, b, 1);
      WordsAppend(a[1..], b);
    } else {
      var n := TokenLen(a);
      TokenLenAppend(a, b);
      AppendSplit(a, b, n);
      WordsAppend(a[n..], b);
      Associative([a[..n]], Words(a[n..]), Words(b));
    }
  }

  /** A token never runs past whitespace at the end of `a`. */
  lemma {:induction false} TokenLenAppend(a: string, b: string)
    requires a != [] && IsWhitespace(a[|a| - 1])
    ensures TokenLen(a + b) == TokenLen(a) < |a|
    decreases |a|
  {
    if !IsWhitespace(a[0]) {
      AppendSplit(a, b, 1);
      TokenLenAppend(a[1..], b);
    }
  }

  /** Text made of whitespace only has no words. */
  lemma {:induction false} WordsOfBlank(t: string)
    requires forall i :: 0 <= i < |t| ==> IsWhitespace(t[i])
    ensures Words(t) == []
    decreases |t|
  {
    if t != [] {
      WordsOfBlank(t[1..]);
    }
  }

  /** A word followed by whitespace is that one word. */
  lemma WordsOfWordAndBlank(w: string, t: string)
    requires IsWord(w)
    requires t != [] && forall i :: 0 <= i < |t| ==> IsWhitespace(t[i])
    ensures Words(w + t) == [w]
  {
    var s := w + t;
    TokenLenShape(s);
    assert s[0] == w[0];
    assert forall i :: 0 <= i < |w| ==> s[i] == w[i];
    assert s[|w|] == t[0];
    assert TokenLen(s) == |w|;
    assert s[..|w|] == w && s[|w|..] == t;
    WordsOfBlank(t);
  }

  predicate IsDigit(c: char) {
    '0' <= c <= '9'
  }

  predicate IsDigits(s: string) {
    forall i :: 0 <= i < |s| ==> IsDigit(s[i])
  }

  function DigitChar(d: nat): (c: char)
    requires d < 10
    ensures IsDigit(c) && DigitValue(c) == d
  {
    "0123456789"[d]
  }

  function DigitValue(c: char): nat
    requires IsDigit(c)
  {
    (c as int) - ('0' as int)
  }

  /** The value of a string of decimal digits, most significant first. */
  function DecimalValue(s: string): nat
    requires IsDigits(s)
    decreases |s|
  {
    if s == [] then 0
    else 10 * DecimalValue(s[..|s| - 1]) + DigitValue(s[|s| - 1])
  }

  /** The `Display` form of an unsigned integer. */
  function Decimal(n: nat): (r: string)
    ensures |r| >= 1
    decreases n
  {
    if n < 10 then [DigitChar(n)] else Decimal(n / 10) + [DigitChar(n % 10)]
  }

  /** `Decimal(n)` is a string of digits without leading zeros whose value is `n`. */
  lemma {:induction false} DecimalShape(n: nat)
    ensures IsDigits(Decimal(n))
    ensures Decimal(n)[0] != '0' || n == 0
    ensures DecimalValue(Decimal(n)) == n
    decreases n
  {
    if n >= 10 {
      DecimalShape(n / 10);
      var r := Decimal(n);
      assert r == Decimal(n / 10) + [DigitChar(n % 10)];
      assert r[..|r| - 1] == Decimal(n / 10);
    }
  }

  /** Decimal is also the inverse of DecimalValue, on digit strings without
      leading zeros. */
  lemma {:induction false} DecimalOfValue(s: string)
    requires |s| >= 1 && IsDigits(s)
    requires s[0] != '0' || |s| == 1
    ensures Decimal(DecimalValue(s)) == s
    decreases |s|
  {
    var c := s[|s| - 1];
    var last := DigitValue(c);
    DigitRoundTrip(c);
    if |s| == 1 {
      assert s[..0] == [];
      assert DecimalValue(s) == last;
      assert [c] == s;
    } else {
      var init := s[..|s| - 1];
      DecimalOfValue(init);
      DecimalPositive(init);
      var v := DecimalValue(s);
      DivMod10(DecimalValue(init), last);
      assert Decimal(v) == Decimal(v / 10) + [DigitChar(v % 10)];
      SplitLast(s);
    }
  }

  lemma DigitRoundTrip(c: char)
    requires IsDigit(c)
    ensures DigitChar(DigitValue(c)) == c
  {
  }

  lemma DivMod10(x: nat, d: nat)
    requires d < 10
    ensures (10 * x + d) / 10 == x && (10 * x + d) % 10 == d
  {
  }

  lemma {:induction false} DecimalPositive(s: string)
    requires |s| >= 1 && IsDigits(s)
    requires s[0] != '0'
    ensures DecimalValue(s) >= 1
    decreases |s|
  {
    if |s| > 1 {
      DecimalPositive(s[..|s| - 1]);
    } else {
      assert s[..0] == [];
    }
  }

  /** Right-justification in a field of `width` characters filled with
      spaces, as the format spec `{:>width}` does. */
  function PadLeft(s: string, width: nat): (r: string)
    ensures |r| == if |s| < width then width else |s|
    decreases width
  {
    if |s| >= width then s else [' '] + PadLeft(s, width - 1)
  }

  /** `n` spaces. */
  function Spaces(n: nat): (r: string)
    ensures |r| == n
  {
    seq(n, _ => ' ')
  }

  lemma SpacesCons(n: nat)
    requires n >= 1
    ensures [' '] + Spaces(n - 1) == Spaces(n)
  {
  }

  /** Padding only puts spaces in front: the padded text is the fill
      followed by the text itself. */
  lemma {:induction false} PadLeftIsFill(s: string, width: nat)
    ensures PadLeft(s, width) == Spaces(|PadLeft(s, width)| - |s|) + s
    decreases width
  {
    if |s| < width {
      var p := PadLeft(s, width - 1);
      PadLeftIsFill(s, width - 1);
      var k := |p| - |s|;
      SpacesCons(k + 1);
      calc {
        PadLeft(s, width);
        [' '] + p;
        [' '] + (Spaces(k) + s);
        ([' '] + Spaces(k)) + s;
        Spaces(k + 1) + s;
      }
    } else {
      assert Spaces(0) + s == s;
    }
  }

  /** Padding never truncates: the text is kept whole at the end, with
      spaces only in front of it. */
  lemma PadLeftShape(s: string, width: nat)
    ensures PadLeft(s, width)[|PadLeft(s, width)| - |s|..] == s
    ensures forall i :: 0 <= i < |PadLeft(s, width)| - |s| ==> PadLeft(s, width)[i] == ' '
  {
    var r := PadLeft(s, width);
    var fill := Spaces(|r| - |s|);
    PadLeftIsFill(s, width);
    assert r == fill + s;
    assert r[|fill|..] == s;
    forall i | 0 <= i < |fill| ensures r[i] == ' ' {
      assert r[i] == fill[i];
    }
  }

  /** `format!("{:>width}", n)` for an unsigned integer `n`. */
  function Justify(n: nat, width: nat): string {
    PadLeft(Decimal(n), width)
  }

  /** A justified number is its decimal digits with spaces in front, at
      least `width` characters in all, and the digits read back as `n`. */
  lemma JustifyShape(n: nat, width: nat)
    ensures |Justify(n, width)| == if |Decimal(n)| < width then width else |Decimal(n)|
    ensures Justify(n, width)[|Justify(n, width)| - |Decimal(n)|..] == Decimal(n)
    ensures forall i :: 0 <= i < |Justify(n, width)| - |Decimal(n)| ==> Justify(n, width)[i] == ' '
    ensures IsDigits(Decimal(n)) && DecimalValue(Decimal(n)) == n
  {
    PadLeftShape(Decimal(n), width);
    DecimalShape(n);
  }
}
