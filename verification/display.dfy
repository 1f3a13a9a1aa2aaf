/** The display-state part of `update_price_display`: for every watched coin
    with a quote, the change for the selected interval is classified as an
    up, down or flat arrow with its colour, and the price is written with
    four decimals and thousands separators, then split into an integer part
    and a fractional part whose trailing zeros (and a bare point) are
    stripped. */
module PriceDisplay {
  import opened Types
  import opened Strings
  import opened Sequences

  datatype Direction = Up | Down | Flat

  /** The change the user asked to see. */
  function SelectedChange(rec: PriceRecord, interval: ChangeInterval): real {
    match interval
    case Change24h => rec.change24h
    case Change7d => rec.change7d
  }

  /** Exact sign classification, no tolerance. */
  function Classify(change: real): (d: Direction)
    ensures d == Up <==> change > 0.0
    ensures d == Down <==> change < 0.0
    ensures d == Flat <==> change == 0.0
  {
    if change > 0.0 then Up else if change < 0.0 then Down else Flat
  }

  function Opposite(d: Direction): Direction {
    match d
    case Up => Down
    case Down => Up
    case Flat => Flat
  }

  /** Negating the change swaps the arrow; only an exact zero is flat. */
  lemma ClassifyNegation(change: real)
    ensures Classify(-change) == Opposite(Classify(change))
    ensures Classify(change) == Flat ==> change == 0.0
  {
  }

  function Arrow(d: Direction): char {
    match d
    case Up => '\U{25B2}'
    case Down => '\U{25BC}'
    case Flat => '\U{25CF}'
  }

  function Colour(d: Direction): string {
    match d
    case Up => "#32CD32"
    case Down => "#FF4500"
    case Flat => "#F0F0F0"
  }

  /** Arrow and colour each tell the three directions apart. */
  lemma StyleShowsDirection(d1: Direction, d2: Direction)
    ensures Arrow(d1) == Arrow(d2) <==> d1 == d2
    ensures Colour(d1) == Colour(d2) <==> d1 == d2
  {
  }

  // ---------------------------------------------------------------------------
  // Price text
  // ---------------------------------------------------------------------------

  /** The two labels of a price: `integerPart` in bold, `fractionalPart` in italics. */
  datatype PriceText = PriceText(integerPart: string, fractionalPart: string)

  /** The fractional label: empty, or a point and one to four digits, the
      last of which is not zero. */
  predicate WellFormedFraction(f: string) {
    f == "" || (2 <= |f| <= 5 && f[0] == '.' && AllDigits(f[1..]) && f[|f| - 1] != '0')
  }

  /** The number of ten-thousandths a fractional label stands for. */
  function FractionValue(f: string): (v: nat)
    requires WellFormedFraction(f)
  {
    if f == "" then 0 else ParseDigits(f[1..] + Zeros(5 - |f|))
  }

  /** The fractional label for `m` ten-thousandths: Python's
      `(".%04d" % m).rstrip('0').rstrip('.')`. */
  function FormatFraction(m: nat): (f: string)
    requires m < 10000
    ensures WellFormedFraction(f)
    ensures FractionValue(f) == m
    ensures f == "" <==> m == 0
  {
    var digits := PadDigits(m, 4);
    var t := RStrip("." + digits, '0');
    var f := RStrip(t, '.');
    assert Pow10(4) == 10000;
    FormatFractionCorrect(m, digits, t, f);
    f
  }

  lemma FormatFractionCorrect(m: nat, digits: string, t: string, f: string)
    requires m < 10000
    requires |digits| == 4 && AllDigits(digits) && ParseDigits(digits) == m
    requires t == RStrip("." + digits, '0')
    requires f == RStrip(t, '.')
    ensures WellFormedFraction(f)
    ensures FractionValue(f) == m
    ensures f == "" <==> m == 0
  {
    StrippedShape(digits, t);
    var k := |t| - 1;
    TrailingZeros(digits, k);
    if k == 0 {
      AllZeros(digits);
      assert t == ".";
    } else {
      StrippedNonZero(digits, t, k);
      ParseDigitsNonZero(digits, k - 1);
    }
  }

  /** Four zero digits denote zero. */
  lemma AllZeros(digits: string)
    requires |digits| == 4 && AllDigits(digits)
    requires digits == digits[..0] + Zeros(4)
    ensures ParseDigits(digits) == 0
  {
    ParseDigitsZeros("", 4);
    assert digits[..0] == "";
  }

  /** When a digit survives, the stripped text is already a well-formed
      fraction with the same value. */
  lemma StrippedNonZero(digits: string, t: string, k: nat)
    requires |digits| == 4 && AllDigits(digits)
    requires 1 <= k <= 4 && |t| == k + 1
    requires t == "." + digits[..k]
    requires t[|t| - 1] != '0'
    requires digits == digits[..k] + Zeros(4 - k)
    ensures RStrip(t, '.') == t
    ensures WellFormedFraction(t)
    ensures FractionValue(t) == ParseDigits(digits)
    ensures digits[k - 1] != '0'
  {
    assert t[k] == digits[k - 1];
    assert t[1..] == digits[..k];
  }

  /** Stripping the zeros of a point and four digits leaves the point and
      the digits before the trailing zeros. */
  lemma StrippedShape(digits: string, t: string)
    requires |digits| == 4 && AllDigits(digits)
    requires t == RStrip("." + digits, '0')
    ensures 1 <= |t| <= 5
    ensures t == "." + digits[..|t| - 1]
    ensures forall i :: |t| - 1 <= i < 4 ==> digits[i] == '0'
  {
    var s := "." + digits;
    assert s[0] != '0';
    assert |t| >= 1;
    var k := |t| - 1;
    assert t == s[..k + 1];
    assert s[..k + 1] == "." + digits[..k];
    assert forall i :: k <= i < 4 ==> digits[i] == s[i + 1];
  }

  /** A digit string with a non-zero digit denotes a positive number. */
  lemma {:induction false} ParseDigitsNonZero(s: string, i: nat)
    requires AllDigits(s) && i < |s| && s[i] != '0'
    ensures ParseDigits(s) > 0
    decreases |s|
  {
    if i < |s| - 1 {
      ParseDigitsNonZero(s[..|s| - 1], i);
    }
  }

  /** The integer label: an optional minus sign, then the whole units with
      thousands separators. */
  function IntegerText(negative: bool, whole: nat): string {
    (if negative then "-" else "") + GroupThousands(DecimalString(whole))
  }

  /** The integer label starts with a minus sign. */
  predicate Signed(s: string) {
    |s| > 0 && s[0] == '-'
  }

  /** The integer label without its sign. */
  function Unsigned(s: string): string {
    if Signed(s) then s[1..] else s
  }

  predicate WellFormedPriceText(t: PriceText) {
    WellGrouped(Unsigned(t.integerPart)) && WellFormedFraction(t.fractionalPart)
  }

  lemma {:induction false} WellGroupedDigits(s: string)
    requires WellGrouped(s)
    ensures AllDigits(RemoveCommas(s))
    decreases |s|
  {
    if |s| <= 3 {
      RemoveCommasOfDigits(s);
    } else {
      var head := s[..|s| - 4];
      var tail := s[|s| - 3..];
      WellGroupedDigits(head);
      assert s == head + "," + tail;
      RemoveCommasAppend(head + ",", tail);
      RemoveCommasAppend(head, ",");
      assert RemoveCommas(",") == "";
      RemoveCommasOfDigits(tail);
    }
  }

  /** Reads the two labels back as a number of ten-thousandths of a dollar,
      ignoring the sign. */
  function ScaledMagnitude(t: PriceText): nat
    requires WellFormedPriceText(t)
  {
    WellGroupedDigits(Unsigned(t.integerPart));
    ParseDigits(RemoveCommas(Unsigned(t.integerPart))) * 10000 + FractionValue(t.fractionalPart)
  }

  /** Reads the two labels back as a price. */
  function ReadBack(t: PriceText): real
    requires WellFormedPriceText(t)
  {
    var magnitude := ScaledMagnitude(t) as real / 10000.0;
    if Signed(t.integerPart) then -magnitude else magnitude
  }

  /** The labels for an amount of `scaled` ten-thousandths, with an optional
      minus sign. */
  function FormatScaled(negative: bool, scaled: nat): (t: PriceText)
    ensures WellFormedPriceText(t)
    ensures ScaledMagnitude(t) == scaled
    ensures Signed(t.integerPart) <==> negative
    ensures RemoveCommas(Unsigned(t.integerPart)) == DecimalString(scaled / 10000)
  {
    var whole := scaled / 10000;
    var t := PriceText(IntegerText(negative, whole), FormatFraction(scaled % 10000));
    IntegerTextShape(negative, whole);
    GroupThousandsCorrect(DecimalString(whole));
    t
  }

  /** The integer label is the grouped numeral, after a minus sign exactly
      when the price is negative. */
  lemma IntegerTextShape(negative: bool, whole: nat)
    ensures Unsigned(IntegerText(negative, whole)) == GroupThousands(DecimalString(whole))
    ensures Signed(IntegerText(negative, whole)) <==> negative
  {
    var g := GroupThousands(DecimalString(whole));
    GroupThousandsCorrect(DecimalString(whole));
    FirstCharOfGrouped(g);
    if negative {
      assert IntegerText(negative, whole) == "-" + g;
    } else {
      assert IntegerText(negative, whole) == g;
    }
  }

  /** A grouped numeral starts with a digit. */
  lemma {:induction false} FirstCharOfGrouped(s: string)
    requires WellGrouped(s)
    ensures |s| > 0 && IsDigit(s[0])
    decreases |s|
  {
    if |s| > 3 {
      FirstCharOfGrouped(s[..|s| - 4]);
    }
  }

  /** Python's `.4f` rounding of a magnitude to ten-thousandths, ties
      rounded up. */
  function RoundToTenThousandths(x: real): (scaled: nat)
    requires x >= 0.0
    ensures scaled as real - 0.5 <= x * 10000.0 < scaled as real + 0.5
  {
    (x * 10000.0 + 0.5).Floor
  }

  /** The price labels of `update_price_display`: `f"{price:,.4f}"` split at
      the point, the fraction stripped. The labels are well formed and read
      back as the price rounded to four decimals. */
  function FormatPrice(price: real): (t: PriceText)
    ensures WellFormedPriceText(t)
    ensures -0.00005 <= ReadBack(t) - price <= 0.00005
    ensures Signed(t.integerPart) <==> price < 0.0
    ensures RemoveCommas(Unsigned(t.integerPart)) == DecimalString(ScaledMagnitude(t) / 10000)
  {
    var negative := price < 0.0;
    var magnitude := if negative then -price else price;
    var scaled := RoundToTenThousandths(magnitude);
    var t := FormatScaled(negative, scaled);
    assert ReadBack(t) == (if negative then -(scaled as real / 10000.0) else scaled as real / 10000.0);
    t
  }

  /** Worked example: 1234 whole dollars show as "1,234". */
  lemma IntegerTextExample()
    ensures IntegerText(false, 1234) == "1,234"
    ensures IntegerText(true, 1234) == "-1,234"
  {
    var whole := 1234;
    assert DecimalString(1) == "1";
    assert DecimalString(12) == "12";
    assert DecimalString(123) == "123";
    var d := DecimalString(whole);
    assert d == "1234";
    assert d[..1] == "1" && d[1..] == "234";
    var g := GroupThousands(d);
    assert g == GroupThousands(d[..1]) + "," + d[1..];
    assert g == "1,234";
    assert IntegerText(false, whole) == g;
    assert IntegerText(true, whole) == "-" + g;
  }

  /** Worked example: half a dollar shows as ".5": the trailing zeros of
      ".5000" are stripped. */
  lemma FractionExampleHalf()
    ensures FormatFraction(5000) == ".5"
  {
    var m := 5000;
    PadExample(m, 5, 0, 0, 0);
    var s := "." + PadDigits(m, 4);
    assert s == ['.', '5', '0', '0', '0'];
    RStripStopsAt(s, '0', 1);
    assert s[..2] == ".5";
    assert RStrip(".5", '.') == ".5";
  }

  /** Worked example: 0.1230 shows its fraction as ".123". */
  lemma FractionExampleCents()
    ensures FormatFraction(1230) == ".123"
  {
    var m := 1230;
    PadExample(m, 1, 2, 3, 0);
    var s := "." + PadDigits(m, 4);
    assert s == ['.', '1', '2', '3', '0'];
    RStripStopsAt(s, '0', 3);
    assert s[..4] == ".123";
    assert RStrip(".123", '.') == ".123";
  }

  /** The four digits of `m`, one division by ten at a time. */
  lemma PadExample(m: nat, a: nat, b: nat, c: nat, d: nat)
    requires a < 10 && b < 10 && c < 10 && d < 10
    requires m == 1000 * a + 100 * b + 10 * c + d
    ensures PadDigits(m, 4) == [DigitChar(a), DigitChar(b), DigitChar(c), DigitChar(d)]
  {
    var m2 := 10 * a + b;
    var m3 := 10 * m2 + c;
    assert m == 10 * m3 + d;
    var a', b', c', d' := DigitChar(a), DigitChar(b), DigitChar(c), DigitChar(d);
    assert PadDigits(a, 1) == [a'] by { PadStep(0, a, 0); }
    assert PadDigits(m2, 2) == [a', b'] by { PadStep(a, b, 1); }
    assert PadDigits(m3, 3) == [a', b', c'] by { PadStep(m2, c, 2); }
    PadStep(m3, d, 3);
  }

  /** Appending a digit to a number appends it to the padded numeral. */
  lemma PadStep(q: nat, r: nat, width: nat)
    requires r < 10
    ensures PadDigits(10 * q + r, width + 1) == PadDigits(q, width) + [DigitChar(r)]
  {
    var n := 10 * q + r;
    assert n / 10 == q && n % 10 == r;
  }

  // ---------------------------------------------------------------------------
  // One row per watched coin
  // ---------------------------------------------------------------------------

  /** What one price row shows: code, arrow and colour, the two price labels
      and the slug behind the "Info" button. */
  datatype Row = Row(coin: string, direction: Direction, price: PriceText, slug: string)

  /** One coin's row: the arrow points the way the chosen change goes, and
      the price labels read back as the price to within half a
      ten-thousandth. */
  function DescribeCoin(coin: string, rec: PriceRecord, interval: ChangeInterval): (row: Row)
    ensures row.coin == coin && row.slug == rec.slug
    ensures row.direction == Up <==> SelectedChange(rec, interval) > 0.0
    ensures row.direction == Down <==> SelectedChange(rec, interval) < 0.0
    ensures row.direction == Flat <==> SelectedChange(rec, interval) == 0.0
    ensures WellFormedPriceText(row.price)
    ensures -0.00005 <= ReadBack(row.price) - rec.price <= 0.00005
    ensures Signed(row.price.integerPart) <==> rec.price < 0.0
    ensures RemoveCommas(Unsigned(row.price.integerPart)) == DecimalString(ScaledMagnitude(row.price) / 10000)
  {
    Row(coin, Classify(SelectedChange(rec, interval)), FormatPrice(rec.price), rec.slug)
  }

  function CoinsOf(rows: seq<Row>): (coins: seq<string>)
    ensures |coins| == |rows|
    ensures forall k :: 0 <= k < |rows| ==> coins[k] == rows[k].coin
  {
    seq(|rows|, k requires 0 <= k < |rows| => rows[k].coin)
  }

  /** The watched coins that have a quote, in watch-list order. */
  function QuotedCoins(coins: seq<string>, priceData: map<string, PriceRecord>): (quoted: seq<string>)
    ensures forall c :: c in quoted <==> c in coins && c in priceData
    ensures forall c :: multiset(quoted)[c] == if c in priceData then multiset(coins)[c] else 0
    ensures IsSubsequence(quoted, coins)
  {
    if |coins| == 0 then []
    else
      var init := coins[..|coins| - 1];
      var c := coins[|coins| - 1];
      var earlier := QuotedCoins(init, priceData);
      assert coins == init + [c];
      assert multiset(coins) == multiset(init) + multiset{c};
      if c in priceData then
        SubsequenceKeep(earlier, init, c);
        assert multiset(earlier + [c]) == multiset(earlier) + multiset{c};
        earlier + [c]
      else
        SubsequenceSkip(earlier, init, c);
        earlier
  }

  /** The rows of the price panel: watched coins without a quote are
      skipped, the others appear in watch-list order, each described from
      its own quote. */
  function DisplayRows(coins: seq<string>, priceData: map<string, PriceRecord>, interval: ChangeInterval): (rows: seq<Row>)
    ensures forall c :: c in CoinsOf(rows) <==> c in coins && c in priceData
    ensures forall c :: multiset(CoinsOf(rows))[c] == if c in priceData then multiset(coins)[c] else 0
    ensures IsSubsequence(CoinsOf(rows), coins)
    ensures forall k :: 0 <= k < |rows| ==>
      rows[k].coin in priceData && rows[k] == DescribeCoin(rows[k].coin, priceData[rows[k].coin], interval)
  {
    var quoted := QuotedCoins(coins, priceData);
    RowsOf(quoted, priceData, interval)
  }

  /** One row per coin of `quoted`, in that order. */
  function RowsOf(quoted: seq<string>, priceData: map<string, PriceRecord>, interval: ChangeInterval): (rows: seq<Row>)
    requires forall c :: c in quoted ==> c in priceData
    ensures CoinsOf(rows) == quoted
    ensures forall k :: 0 <= k < |rows| ==>
      rows[k].coin in priceData && rows[k] == DescribeCoin(rows[k].coin, priceData[rows[k].coin], interval)
  {
    var rows := seq(|quoted|, k requires 0 <= k < |quoted| => DescribeCoin(quoted[k], priceData[quoted[k]], interval));
    assert CoinsOf(rows) == quoted;
    rows
  }

  /** Switching the change interval redraws the same rows: same coins, same
      price labels, same slugs; only the arrows may differ. */
  lemma {:induction false} IntervalSwitchKeepsPrices(
    coins: seq<string>, priceData: map<string, PriceRecord>, i1: ChangeInterval, i2: ChangeInterval)
    ensures |DisplayRows(coins, priceData, i1)| == |DisplayRows(coins, priceData, i2)|
    ensures forall k :: 0 <= k < |DisplayRows(coins, priceData, i1)| ==>
      DisplayRows(coins, priceData, i1)[k].(direction := Flat)
      == DisplayRows(coins, priceData, i2)[k].(direction := Flat)
    decreases |coins|
  {
    if |coins| > 0 {
      IntervalSwitchKeepsPrices(coins[..|coins| - 1], priceData, i1, i2);
    }
  }
}
