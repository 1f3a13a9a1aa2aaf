/** Text helpers that the widget borrows from Python's `str`: decimal digits,
    thousands grouping, `rstrip`, `upper` on ASCII, `in` on substrings,
    `",".join` with its inverse `split`, and the first token of `split()`. */
module Strings {
  import opened Options

  // ---------------------------------------------------------------------------
  // Decimal digits
  // ---------------------------------------------------------------------------

  predicate IsDigit(c: char) { '0' <= c <= '9' }

  predicate AllDigits(s: string) {
    forall i :: 0 <= i < |s| ==> IsDigit(s[i])
  }

  function DigitValue(c: char): nat
    requires IsDigit(c)
  {
    c as int - '0' as int
  }

  function DigitChar(d: nat): (c: char)
    requires d < 10
    ensures IsDigit(c) && DigitValue(c) == d
  {
    ('0' as int + d) as char
  }

  function Pow10(k: nat): (p: nat)
    ensures p >= 1
  {
    if k == 0 then 1 else 10 * Pow10(k - 1)
  }

  /** The number a string of decimal digits denotes, most significant first
      (Python's `int(s)` on such a string). */
  function ParseDigits(s: string): nat
    requires AllDigits(s)
  {
    if |s| == 0 then 0 else 10 * ParseDigits(s[..|s| - 1]) + DigitValue(s[|s| - 1])
  }

  /** Python's `str(n)` for a non-negative integer: no leading zero, "0" for zero. */
  function DecimalString(n: nat): (s: string)
    ensures |s| >= 1 && AllDigits(s)
    ensures s[0] != '0' || s == "0"
    ensures ParseDigits(s) == n
  {
    if n < 10 then [DigitChar(n)]
    else
      var prefix := DecimalString(n / 10);
      var s := prefix + [DigitChar(n % 10)];
      assert s[..|s| - 1] == prefix;
      s
  }

  /** The last `width` decimal digits of `n`, zero-padded on the left
      (the fractional field of Python's `.4f`). */
  function PadDigits(n: nat, width: nat): (s: string)
    ensures |s| == width && AllDigits(s)
    ensures n < Pow10(width) ==> ParseDigits(s) == n
  {
    if width == 0 then ""
    else
      var prefix := PadDigits(n / 10, width - 1);
      var s := prefix + [DigitChar(n % 10)];
      assert s[..|s| - 1] == prefix;
      s
  }

  function Zeros(k: nat): (s: string)
    ensures |s| == k && AllDigits(s)
    ensures forall i :: 0 <= i < k ==> s[i] == '0'
  {
    if k == 0 then "" else Zeros(k - 1) + "0"
  }

  /** A string that ends in zeros from `k` on is its prefix plus zeros. */
  lemma TrailingZeros(s: string, k: nat)
    requires k <= |s|
    requires forall i :: k <= i < |s| ==> s[i] == '0'
    ensures s == s[..k] + Zeros(|s| - k)
  {
    var z := Zeros(|s| - k);
    assert forall i :: 0 <= i < |s| ==> s[i] == (s[..k] + z)[i];
  }

  lemma MulTen(d: nat, p: nat)
    ensures 10 * (d * p) == d * (10 * p)
  {
  }

  /** Appending zeros multiplies the value by a power of ten. */
  lemma {:induction false} ParseDigitsZeros(s: string, k: nat)
    requires AllDigits(s)
    ensures AllDigits(s + Zeros(k))
    ensures ParseDigits(s + Zeros(k)) == ParseDigits(s) * Pow10(k)
  {
    if k > 0 {
      ParseDigitsZeros(s, k - 1);
      var u := s + Zeros(k - 1);
      var t := s + Zeros(k);
      assert ParseDigits(t) == 10 * ParseDigits(u) by {
        assert t == u + "0";
        assert t[..|t| - 1] == u;
      }
      MulTen(ParseDigits(s), Pow10(k - 1));
    } else {
      assert s + Zeros(k) == s;
    }
  }

  // ---------------------------------------------------------------------------
  // Thousands grouping (the `,` in Python's `{:,}` format)
  // ---------------------------------------------------------------------------

  /** Inserts a comma before every group of three digits counted from the right. */
  function GroupThousands(digits: string): string
    decreases |digits|
  {
    if |digits| <= 3 then digits
    else GroupThousands(digits[..|digits| - 3]) + "," + digits[|digits| - 3..]
  }

  function RemoveCommas(s: string): (r: string)
    ensures |r| <= |s|
  {
    if |s| == 0 then ""
    else if s[|s| - 1] == ',' then RemoveCommas(s[..|s| - 1])
    else RemoveCommas(s[..|s| - 1]) + [s[|s| - 1]]
  }

  /** A comma-grouped numeral: a leading group of one to three digits,
      then groups of exactly three digits, each after a comma. */
  predicate WellGrouped(s: string)
    decreases |s|
  {
    if |s| <= 3 then 1 <= |s| && AllDigits(s)
    else
      && s[|s| - 4] == ','
      && AllDigits(s[|s| - 3..])
      && WellGrouped(s[..|s| - 4])
  }

  lemma {:induction false} RemoveCommasAppend(a: string, b: string)
    ensures RemoveCommas(a + b) == RemoveCommas(a) + RemoveCommas(b)
    decreases |b|
  {
    if |b| > 0 {
      var init := b[..|b| - 1];
      var ab := a + b;
      assert ab[..|ab| - 1] == a + init;
      assert ab[|ab| - 1] == b[|b| - 1];
      RemoveCommasAppend(a, init);
      if b[|b| - 1] != ',' {
        assert RemoveCommas(a) + (RemoveCommas(init) + [b[|b| - 1]])
            == RemoveCommas(a) + RemoveCommas(init) + [b[|b| - 1]];
      }
    } else {
      assert a + b == a;
    }
  }

  lemma {:induction false} RemoveCommasOfDigits(s: string)
    requires AllDigits(s)
    ensures RemoveCommas(s) == s
  {
    if |s| > 0 {
      RemoveCommasOfDigits(s[..|s| - 1]);
      assert s == s[..|s| - 1] + [s[|s| - 1]];
    }
  }

  /** Grouping is well formed and loses nothing: deleting the commas gives
      back the digits. */
  lemma {:induction false} GroupThousandsCorrect(digits: string)
    requires |digits| >= 1 && AllDigits(digits)
    ensures WellGrouped(GroupThousands(digits))
    ensures RemoveCommas(GroupThousands(digits)) == digits
    decreases |digits|
  {
    if |digits| <= 3 {
      RemoveCommasOfDigits(digits);
    } else {
      var head := digits[..|digits| - 3];
      var tail := digits[|digits| - 3..];
      GroupThousandsCorrect(head);
      var g := GroupThousands(head);
      var s := g + "," + tail;
      assert s[..|s| - 4] == g;
      assert s[|s| - 3..] == tail;
      RemoveCommasAppend(g + ",", tail);
      RemoveCommasAppend(g, ",");
      assert RemoveCommas(",") == "";
      RemoveCommasOfDigits(tail);
      assert head + tail == digits;
    }
  }

  // ---------------------------------------------------------------------------
  // rstrip
  // ---------------------------------------------------------------------------

  /** Python's `s.rstrip(c)` for a single character `c`. */
  function RStrip(s: string, c: char): (r: string)
    ensures |r| <= |s| && r == s[..|r|]
    ensures |r| == 0 || r[|r| - 1] != c
    ensures forall i :: |r| <= i < |s| ==> s[i] == c
  {
    if |s| > 0 && s[|s| - 1] == c then RStrip(s[..|s| - 1], c) else s
  }

  /** Stripping stops at the last character that is not `c`. */
  lemma RStripStopsAt(s: string, c: char, k: nat)
    requires k < |s| && s[k] != c
    requires forall i :: k < i < |s| ==> s[i] == c
    ensures RStrip(s, c) == s[..k + 1]
  {
  }

  // ---------------------------------------------------------------------------
  // ASCII upper case
  // ---------------------------------------------------------------------------

  predicate IsLowerAscii(c: char) { 'a' <= c <= 'z' }

  function UpperChar(c: char): char {
    if IsLowerAscii(c) then (c as int - 32) as char else c
  }

  /** Python's `str.upper()` restricted to ASCII letters; every other
      character is kept. */
  function Upper(s: string): (r: string)
    ensures |r| == |s|
    ensures forall i :: 0 <= i < |s| ==> !IsLowerAscii(r[i])
    ensures forall i :: 0 <= i < |s| ==> (IsLowerAscii(s[i]) || r[i] == s[i])
    ensures forall i :: 0 <= i < |s| && IsLowerAscii(s[i]) ==> r[i] as int == s[i] as int - 32
  {
    seq(|s|, i requires 0 <= i < |s| => UpperChar(s[i]))
  }

  // ---------------------------------------------------------------------------
  // Substring test (Python's `p in s` on strings)
  // ---------------------------------------------------------------------------

  predicate Contains(s: string, p: string)
    decreases |s|
  {
    p <= s || (|s| > 0 && Contains(s[1..], p))
  }

  /** A non-empty pattern whose first character never occurs in `s` is not
      a substring of `s`. */
  lemma {:induction false} NotContainsWithoutFirstChar(s: string, p: string)
    requires |p| > 0 && p[0] !in s
    ensures !Contains(s, p)
    decreases |s|
  {
    if |s| > 0 {
      assert s[0] in s;
      NotContainsWithoutFirstChar(s[1..], p);
    }
  }

  lemma ContainsPrefix(s: string, p: string)
    requires p <= s
    ensures Contains(s, p)
  {
  }

  lemma {:induction false} ContainsAppend(a: string, s: string, p: string)
    requires Contains(s, p)
    ensures Contains(a + s, p)
    decreases |a|
  {
    if |a| > 0 {
      assert (a + s)[1..] == a[1..] + s;
      ContainsAppend(a[1..], s, p);
    } else {
      assert a + s == s;
    }
  }

  // ---------------------------------------------------------------------------
  // Join and split on a separator character
  // ---------------------------------------------------------------------------

  /** Python's `sep.join(parts)` for a one-character separator. */
  function Join(parts: seq<string>, sep: char): string {
    if |parts| == 0 then ""
    else if |parts| == 1 then parts[0]
    else parts[0] + [sep] + Join(parts[1..], sep)
  }

  /** Python's `s.split(sep)` for a one-character separator: always at least
      one piece, none containing `sep`. */
  function Split(s: string, sep: char): (pieces: seq<string>)
    ensures |pieces| >= 1
    ensures forall k :: 0 <= k < |pieces| ==> sep !in pieces[k]
  {
    if |s| == 0 then [""]
    else if s[0] == sep then [""] + Split(s[1..], sep)
    else
      var rest := Split(s[1..], sep);
      [[s[0]] + rest[0]] + rest[1..]
  }

  lemma {:induction false} SplitWithoutSep(s: string, sep: char)
    requires sep !in s
    ensures Split(s, sep) == [s]
  {
    if |s| > 0 {
      assert forall c :: c in s[1..] ==> c in s;
      SplitWithoutSep(s[1..], sep);
      assert [s[0]] + s[1..] == s;
    }
  }

  lemma {:induction false} SplitAfterPiece(a: string, sep: char, rest: string)
    requires sep !in a
    ensures Split(a + [sep] + rest, sep) == [a] + Split(rest, sep)
    decreases |a|
  {
    var s := a + [sep] + rest;
    if |a| == 0 {
      assert s == [sep] + rest;
      assert s[1..] == rest;
    } else {
      assert s[0] == a[0];
      assert s[1..] == a[1..] + [sep] + rest;
      assert forall c :: c in a[1..] ==> c in a;
      SplitAfterPiece(a[1..], sep, rest);
      assert [a[0]] + a[1..] == a;
    }
  }

  /** Splitting a join recovers the parts when no part contains the separator. */
  lemma {:induction false} SplitJoin(parts: seq<string>, sep: char)
    requires |parts| >= 1
    requires forall k :: 0 <= k < |parts| ==> sep !in parts[k]
    ensures Split(Join(parts, sep), sep) == parts
    decreases |parts|
  {
    if |parts| == 1 {
      SplitWithoutSep(parts[0], sep);
    } else {
      SplitJoin(parts[1..], sep);
      SplitAfterPiece(parts[0], sep, Join(parts[1..], sep));
      assert [parts[0]] + parts[1..] == parts;
    }
  }

  // ---------------------------------------------------------------------------
  // First whitespace-separated token (Python's `s.split()[0]`)
  // ---------------------------------------------------------------------------

  /** The characters Python's `str.split()` splits at (those for which
      `str.isspace()` holds). */
  predicate IsSpace(c: char) {
    if c <= ' ' then c == ' ' || '\t' <= c <= '\r' || '\U{001C}' <= c <= '\U{001F}'
    else if c < '\U{0085}' then false
    else
      || c == '\U{0085}' || c == '\U{00A0}' || c == '\U{1680}'
      || '\U{2000}' <= c <= '\U{200A}' || c == '\U{2028}' || c == '\U{2029}'
      || c == '\U{202F}' || c == '\U{205F}' || c == '\U{3000}'
  }

  /** The longest prefix of `s` without whitespace. */
  function Word(s: string): (w: string)
    ensures w <= s
    ensures forall i :: 0 <= i < |w| ==> !IsSpace(w[i])
    ensures |w| == |s| || IsSpace(s[|w|])
  {
    if |s| == 0 || IsSpace(s[0]) then "" else [s[0]] + Word(s[1..])
  }

  /** The first token of `s.split()`, or None where Python's `[0]` would
      raise IndexError (no token at all). */
  function FirstToken(s: string): (t: Option<string>)
    ensures t.Some? ==> |t.value| >= 1
    ensures t.Some? ==> forall i :: 0 <= i < |t.value| ==> !IsSpace(t.value[i])
    ensures t.None? <==> forall i :: 0 <= i < |s| ==> IsSpace(s[i])
    ensures t.Some? ==> exists k :: 0 <= k < |s| && (forall i :: 0 <= i < k ==> IsSpace(s[i])) && t.value == Word(s[k..])
    decreases |s|
  {
    if |s| == 0 then None
    else if IsSpace(s[0]) then
      var t := FirstToken(s[1..]);
      FirstTokenShift(s, t);
      t
    else
      assert s[0..] == s;
      Some(Word(s))
  }

  /** A token found after a leading blank is found at one position later in
      the whole text. */
  lemma FirstTokenShift(s: string, t: Option<string>)
    requires |s| > 0 && IsSpace(s[0])
    requires t.None? <==> forall i :: 0 <= i < |s| - 1 ==> IsSpace(s[1..][i])
    requires t.Some? ==> exists k :: 0 <= k < |s| - 1 && (forall i :: 0 <= i < k ==> IsSpace(s[1..][i])) && t.value == Word(s[1..][k..])
    ensures t.None? <==> forall i :: 0 <= i < |s| ==> IsSpace(s[i])
    ensures t.Some? ==> exists k :: 0 <= k < |s| && (forall i :: 0 <= i < k ==> IsSpace(s[i])) && t.value == Word(s[k..])
  {
    if t.Some? {
      var k :| 0 <= k < |s| - 1 && (forall i :: 0 <= i < k ==> IsSpace(s[1..][i])) && t.value == Word(s[1..][k..]);
      assert s[1..][k..] == s[k + 1..];
      assert forall i :: 0 <= i < k + 1 ==> IsSpace(s[i]) by {
        forall i | 0 <= i < k + 1 ensures IsSpace(s[i]) {
          if i > 0 { assert s[i] == s[1..][i - 1]; }
        }
      }
    } else {
      forall i | 0 <= i < |s| ensures IsSpace(s[i]) {
        if i > 0 { assert s[i] == s[1..][i - 1]; }
      }
    }
  }

  /** A token followed by a space is the first token. */
  lemma FirstTokenOfWord(w: string, rest: string)
    requires |w| >= 1 && forall i :: 0 <= i < |w| ==> !IsSpace(w[i])
    ensures FirstToken(w + " " + rest) == Some(w)
  {
    WordPrefix(w, " " + rest);
    assert w + " " + rest == w + (" " + rest);
  }

  lemma {:induction false} WordPrefix(w: string, rest: string)
    requires forall i :: 0 <= i < |w| ==> !IsSpace(w[i])
    requires |rest| >= 1 && IsSpace(rest[0])
    ensures Word(w + rest) == w
    decreases |w|
  {
    if |w| == 0 {
      assert w + rest == rest;
    } else {
      assert (w + rest)[1..] == w[1..] + rest;
      WordPrefix(w[1..], rest);
      assert [w[0]] + w[1..] == w;
    }
  }

  /** Python's `int(token)` on a token of ASCII decimal digits; None for any
      other token. */
  function ParseNat(token: string): (n: Option<nat>)
    ensures n.Some? <==> |token| >= 1 && AllDigits(token)
    ensures n.Some? ==> n.value == ParseDigits(token)
  {
    if |token| >= 1 && AllDigits(token) then Some(ParseDigits(token)) else None
  }

  /** Reading a numeral back gives the number it was written from. */
  lemma ParseNatOfDecimal(n: nat)
    ensures ParseNat(DecimalString(n)) == Some(n)
  {
  }
}
