/** Card extraction (`fast_process_products`): one product card becomes zero
    or one product record, and the run-wide set of seen names rejects a
    card whose name was already collected. */
module Extraction {
  import opened Common
  import opened Text
  import opened Records

  /** What the scraper reads from one product card: its visible text, the
      text of the `fop-price` span if the card has one, and the text of the
      `fop-offer-text` span if it has one. */
  datatype Card = Card(text: string, priceText: Option<string>, promoText: Option<string>)

  // ---------------------------------------------------------------- name

  /** A line that may serve as the product name: longer than two characters
      and mentioning none of "add", "cart", "price" in any letter case. */
  predicate IsNameLine(line: string) {
    var low := Lower(line);
    |line| > 2 && !Contains(low, "add") && !Contains(low, "cart") && !Contains(low, "price")
  }

  /** `name` is the first line of `lines` that may serve as a name. */
  predicate IsFirstName(lines: seq<string>, name: string) {
    exists i :: 0 <= i < |lines| && lines[i] == name && IsNameLine(name) &&
      forall j :: 0 <= j < i ==> !IsNameLine(lines[j])
  }

  // ---------------------------------------------------------------- price

  function DigitValue(c: char): nat
    requires IsDigit(c)
  {
    c as int - '0' as int
  }

  /** The value of a string of decimal digits (0 for the empty string). */
  function DigitsValue(s: string): nat
    requires AllDigits(s)
    decreases |s|
  {
    if s == [] then 0 else DigitsValue(s[..|s| - 1]) * 10 + DigitValue(s[|s| - 1])
  }

  function Pow10(n: nat): (r: nat)
    ensures r >= 1
  {
    if n == 0 then 1 else 10 * Pow10(n - 1)
  }

  predicate IsPoint(c: char) { c == '.' }

  /** The value of `whole.frac` for two strings of digits. */
  function DecimalValue(whole: string, frac: string): real
    requires AllDigits(whole) && AllDigits(frac)
  {
    DigitsValue(whole) as real + DigitsValue(frac) as real / Pow10(|frac|) as real
  }

  /** `s` is a decimal the price reader accepts: digits, or digits, a point
      and digits. */
  ghost predicate DecimalShape(s: string) {
    exists w, f :: w != [] && AllDigits(w) && AllDigits(f) &&
      ((f == [] && s == w) || (f != [] && s == w + "." + f))
  }

  /** A decimal `digits` or `digits.digits`; anything else does not parse. */
  function ParseDecimal(s: string): (r: Option<real>)
    ensures r.Some? ==> DecimalShape(s)
  {
    match FirstIndex(s, IsPoint)
    case None =>
      if s != [] && AllDigits(s) then
        assert AllDigits("") && s == s;
        Some(DigitsValue(s) as real)
      else None
    case Some(k) =>
      var whole, frac := s[..k], s[k + 1..];
      if whole != [] && frac != [] && AllDigits(whole) && AllDigits(frac) then
        assert s == whole + "." + frac;
        Some(DecimalValue(whole, frac))
      else None
  }

  /** The price read from the stripped price-span text: the decimal after a
      leading `$`, and 0 when there is no `$` or the rest does not parse.
      A non-zero price therefore comes only from `$` followed by digits, or
      by digits, a point and digits. */
  function ParsePrice(t: string): (r: real)
    ensures r >= 0.0
    ensures r != 0.0 ==> |t| >= 2 && t[0] == '$' && IsDigit(t[1])
    ensures r != 0.0 ==> DecimalShape(t[1..])
  {
    if |t| >= 1 && t[0] == '$' then
      match ParseDecimal(t[1..])
      case Some(v) => v
      case None => 0.0
    else 0.0
  }

  /** The price of a card: 0 without a price span. */
  function CardPrice(card: Card): real {
    match card.priceText
    case None => 0.0
    case Some(t) => ParsePrice(Strip(t))
  }

  // ------------------------------------------------ rendering, for the round trip

  function DigitChar(d: nat): (c: char)
    requires d < 10
    ensures IsDigit(c) && DigitValue(c) == d
  {
    ('0' as int + d) as char
  }

  /** The decimal digits of `n`, without leading zeros. */
  function NatDigits(n: nat): (r: string)
    ensures r != [] && AllDigits(r)
  {
    if n < 10 then [DigitChar(n)] else NatDigits(n / 10) + [DigitChar(n % 10)]
  }

  /** A price of `cents` cents as a shop prints it: `$` dollars `.` two digits. */
  function PriceLabel(cents: nat): string {
    "$" + NatDigits(cents / 100) + "." + [DigitChar(cents % 100 / 10), DigitChar(cents % 10)]
  }

  lemma {:induction false} DigitsRoundTrip(n: nat)
    ensures DigitsValue(NatDigits(n)) == n
  {
    if n >= 10 {
      DigitsRoundTrip(n / 10);
      var d := NatDigits(n);
      assert d[..|d| - 1] == NatDigits(n / 10);
    }
  }

  /** A string of two digits has the value they spell. */
  lemma TwoDigitsValue(m: nat)
    requires m < 100
    ensures DigitsValue([DigitChar(m / 10), DigitChar(m % 10)]) == m
  {
    var f := [DigitChar(m / 10), DigitChar(m % 10)];
    assert f[..1] == [DigitChar(m / 10)];
    assert f[..1][..0] == [];
    assert DigitsValue(f[..1]) == m / 10;
    assert DigitsValue(f) == DigitsValue(f[..1]) * 10 + DigitValue(f[1]);
  }

  /** A whole part, a point and a fraction parse to their decimal value. */
  lemma ParsePointed(s: string, w: string, f: string)
    requires w != [] && AllDigits(w) && f != [] && AllDigits(f) && s == w + "." + f
    ensures ParseDecimal(s) == Some(DecimalValue(w, f))
  {
    assert s[|w|] == '.';
    assert forall j :: 0 <= j < |w| ==> s[j] == w[j];
    FirstIndexAt(s, IsPoint, |w|);
    assert s[..|w|] == w;
    assert s[|w| + 1..] == f;
  }

  lemma CentsArithmetic(n: nat, m: nat)
    requires m < 100
    ensures n as real + m as real / 100.0 == (100 * n + m) as real / 100.0
  {
  }

  /** A printed price reads back as the decimal of its two parts. */
  lemma PriceLabelReads(cents: nat)
    ensures ParsePrice(PriceLabel(cents)) ==
      DecimalValue(NatDigits(cents / 100), [DigitChar(cents % 100 / 10), DigitChar(cents % 10)])
  {
    var w := NatDigits(cents / 100);
    var f := [DigitChar(cents % 100 / 10), DigitChar(cents % 10)];
    assert AllDigits(w) && AllDigits(f);
    DollarsRead(w, f);
  }

  /** `$`, digits, a point and digits read back as that decimal. */
  lemma DollarsRead(w: string, f: string)
    requires w != [] && AllDigits(w) && f != [] && AllDigits(f)
    ensures ParsePrice("$" + w + "." + f) == DecimalValue(w, f)
  {
    var x := w + "." + f;
    var t := "$" + w + "." + f;
    assert t == "$" + x by {
      assert "$" + w + "." == "$" + (w + ".");
      assert "$" + (w + ".") + f == "$" + (w + "." + f);
    }
    assert t[0] == '$' && t[1..] == x;
    ParsePointed(x, w, f);
  }

  /** `$` and digits read back as the number they spell. */
  lemma DigitsRead(w: string)
    requires w != [] && AllDigits(w)
    ensures ParsePrice("$" + w) == DigitsValue(w) as real
  {
    assert ("$" + w)[1..] == w;
    assert forall k :: 0 <= k < |w| ==> !IsPoint(w[k]);
  }

  /** The decimal of a whole part and a two-digit fraction is the whole part
      plus the hundredths. */
  lemma DecimalOfParts(n: nat, m: nat)
    requires m < 100
    ensures DecimalValue(NatDigits(n), [DigitChar(m / 10), DigitChar(m % 10)]) == n as real + m as real / 100.0
  {
    var w, f := NatDigits(n), [DigitChar(m / 10), DigitChar(m % 10)];
    DigitsRoundTrip(n);
    TwoDigitsValue(m);
    assert Pow10(|f|) == 100 by {
      assert Pow10(2) == 10 * Pow10(1) && Pow10(1) == 10 * Pow10(0);
    }
  }

  /** The decimal of the two printed parts is dollars plus cents. */
  lemma PriceLabelValue(cents: nat)
    ensures DecimalValue(NatDigits(cents / 100), [DigitChar(cents % 100 / 10), DigitChar(cents % 10)]) ==
      (cents / 100) as real + (cents % 100) as real / 100.0
  {
    var n, m := cents / 100, cents % 100;
    assert m % 10 == cents % 10;
    DecimalOfParts(n, m);
  }

  /** Reading back a printed price gives its value. */
  lemma PriceLabelRoundTrip(cents: nat)
    ensures ParsePrice(PriceLabel(cents)) == cents as real / 100.0
  {
    PriceLabelReads(cents);
    PriceLabelValue(cents);
    CentsArithmetic(cents / 100, cents % 100);
  }

  // ---------------------------------------------------------------- size

  /** The unit alternatives of the size pattern, in the order the pattern
      tries them. */
  const Units: seq<string> := ["g", "kg", "lb", "oz", "ml", "l", "pack", "ct", "count", "each", "pc", "lbs"]

  /** Unit `u` occurs, ignoring case, at position `c` of `s`. */
  predicate UnitAt(s: string, c: nat, u: string) {
    c + |u| <= |s| && Lower(s[c..c + |u|]) == u
  }

  /** The first unit alternative, from the `k`-th on, that matches at `c`. */
  function FirstUnit(s: string, c: nat, k: nat): (r: Option<nat>)
    requires k <= |Units|
    ensures r.Some? ==> k <= r.value < |Units| && UnitAt(s, c, Units[r.value])
    ensures r.Some? ==> forall j :: k <= j < r.value ==> !UnitAt(s, c, Units[j])
    ensures r.None? ==> forall j :: k <= j < |Units| ==> !UnitAt(s, c, Units[j])
    decreases |Units| - k
  {
    if k == |Units| then None
    else if UnitAt(s, c, Units[k]) then Some(k)
    else FirstUnit(s, c, k + 1)
  }

  /** The end of the first unit alternative that matches at `c`; there is
      one exactly when some unit occurs there. */
  function UnitEnd(s: string, c: nat): (r: Option<nat>)
    ensures r.Some? ==> exists j :: 0 <= j < |Units| && UnitAt(s, c, Units[j]) && r.value == c + |Units[j]|
    ensures r.None? ==> forall j :: 0 <= j < |Units| ==> !UnitAt(s, c, Units[j])
  {
    match FirstUnit(s, c, 0)
    case None => None
    case Some(k) => Some(c + |Units[k]|)
  }

  /** Where the optional part `(?:\.\d+)?` of the size pattern ends when
      tried at `a`: after the point and its digits, or at `a` when there are
      none. */
  function FractionEnd(s: string, a: nat): (r: nat)
    requires a <= |s|
    ensures a <= r <= |s|
    ensures r == a || (a + 1 < r && s[a] == '.' && forall k :: a + 1 <= k < r ==> IsDigit(s[k]))
  {
    if a + 1 < |s| && s[a] == '.' && IsDigit(s[a + 1]) then RunEnd(s, a + 1, IsDigit) else a
  }

  /** Where the size pattern `\d+(?:\.\d+)?\s*(?:g|kg|lb|…|lbs)` ends when
      matched at position `i` of `s`, with case ignored. Every quantifier is
      greedy and backing off from it can never help (what follows the digits
      is never a digit, and so on), so the match is determined. */
  function MatchAt(s: string, i: nat): (r: Option<nat>)
    ensures r.Some? ==> i < r.value <= |s|
  {
    if i < |s| && IsDigit(s[i]) then
      var a := RunEnd(s, i, IsDigit);
      var b := FractionEnd(s, a);
      var c := RunEnd(s, b, IsSpace);
      UnitEnd(s, c)
    else None
  }

  /** `re.search` of the size pattern from position `i`: the leftmost
      position where it matches, and where that match ends. */
  function SearchFrom(s: string, i: nat): (r: Option<(nat, nat)>)
    requires i <= |s|
    ensures r.Some? ==> i <= r.value.0 < r.value.1 <= |s| && MatchAt(s, r.value.0) == Some(r.value.1)
    ensures r.Some? ==> forall k :: i <= k < r.value.0 ==> MatchAt(s, k).None?
    ensures r.None? ==> forall k :: i <= k < |s| ==> MatchAt(s, k).None?
    decreases |s| - i
  {
    if i == |s| then None
    else match MatchAt(s, i)
      case Some(e) => Some((i, e))
      case None => SearchFrom(s, i + 1)
  }

  /** `size_match.group(1)` for one line, if the pattern occurs in it. */
  function SizeIn(line: string): Option<string> {
    match SearchFrom(line, 0)
    case None => None
    case Some(m) => Some(line[m.0..m.1])
  }

  predicate HasSize(line: string) {
    SizeIn(line).Some?
  }

  /** The size of a card: the match in the first line that has one, else
      "Unknown". */
  function SelectSize(lines: seq<string>): string {
    match FirstIndex(lines, HasSize)
    case None => "Unknown"
    case Some(k) => SizeIn(lines[k]).value
  }

  /** A size token starts at `i`: digits up to `a`, optionally a point and
      more digits up to `b`, whitespace up to `c`, then the `j`-th unit in any
      letter case, where no earlier unit alternative occurs at `c`. */
  predicate ShapeAt(s: string, i: nat, a: nat, b: nat, c: nat, j: nat) {
    && i < a <= b <= c <= |s|
    && (forall k :: i <= k < a ==> IsDigit(s[k]))
    && (b == a || (a + 1 < b && s[a] == '.' && forall k :: a + 1 <= k < b ==> IsDigit(s[k])))
    && (forall k :: b <= k < c ==> IsSpace(s[k]))
    && j < |Units| && UnitAt(s, c, Units[j])
    && (forall j' :: 0 <= j' < j ==> !UnitAt(s, c, Units[j']))
  }

  /** A size token occupies `s[i..e]`. */
  ghost predicate TokenAt(s: string, i: nat, e: nat) {
    exists a: nat, b: nat, c: nat, j: nat :: ShapeAt(s, i, a, b, c, j) && e == c + |Units[j]|
  }

  /** Every unit starts with a lower-case letter, so the text it matches
      starts with a letter. */
  lemma UnitStartsWithLetter(s: string, c: nat, j: nat)
    requires j < |Units| && UnitAt(s, c, Units[j])
    ensures c < |s| && IsLetter(s[c])
  {
    var x := s[c..c + |Units[j]|];
    assert |Units[j]| >= 1 && 'a' <= Units[j][0] <= 'z';
    assert Lower(x)[0] == LowerChar(x[0]);
    assert x[0] == s[c];
  }

  /** A run that stops where `p` first fails is the run `RunEnd` finds. */
  lemma RunEndAt(s: string, i: nat, p: char -> bool, j: nat)
    requires i <= j <= |s|
    requires forall k :: i <= k < j ==> p(s[k])
    requires j < |s| ==> !p(s[j])
    ensures RunEnd(s, i, p) == j
  {
  }

  /** A match of the pattern is a size token. */
  lemma MatchIsToken(s: string, i: nat)
    requires MatchAt(s, i).Some?
    ensures TokenAt(s, i, MatchAt(s, i).value)
  {
    var a := RunEnd(s, i, IsDigit);
    var b := FractionEnd(s, a);
    var c := RunEnd(s, b, IsSpace);
    assert MatchAt(s, i) == UnitEnd(s, c);
    var j := FirstUnit(s, c, 0).value;
    assert ShapeAt(s, i, a, b, c, j);
  }

  /** The three greedy runs of a match stop where the token's parts end. */
  lemma ShapeRuns(s: string, i: nat, a: nat, b: nat, c: nat, j: nat)
    requires ShapeAt(s, i, a, b, c, j)
    ensures RunEnd(s, i, IsDigit) == a
    ensures FractionEnd(s, a) == b
    ensures RunEnd(s, b, IsSpace) == c
  {
    UnitStartsWithLetter(s, c, j);
    RunEndAt(s, i, IsDigit, a);
    if b != a {
      RunEndAt(s, a + 1, IsDigit, b);
    }
    RunEndAt(s, b, IsSpace, c);
  }

  /** The first alternative that occurs at `c` is the one the search picks. */
  lemma FirstUnitIs(s: string, c: nat, j: nat)
    requires j < |Units| && UnitAt(s, c, Units[j])
    requires forall j' :: 0 <= j' < j ==> !UnitAt(s, c, Units[j'])
    ensures FirstUnit(s, c, 0) == Some(j)
  {
    assert FirstUnit(s, c, 0).Some?;
  }

  /** Wherever a size token starts, the pattern matches, and exactly that
      token. */
  lemma TokenIsMatched(s: string, i: nat, e: nat)
    requires TokenAt(s, i, e)
    ensures MatchAt(s, i) == Some(e)
  {
    var a, b, c, j := TokenParts(s, i, e);
    ShapeMatched(s, i, a, b, c, j);
  }

  /** The parts of a size token. */
  lemma TokenParts(s: string, i: nat, e: nat) returns (a: nat, b: nat, c: nat, j: nat)
    requires TokenAt(s, i, e)
    ensures ShapeAt(s, i, a, b, c, j) && e == c + |Units[j]|
  {
    a, b, c, j :| ShapeAt(s, i, a, b, c, j) && e == c + |Units[j]|;
  }

  /** The pattern tried at the start of a size token matches that token. */
  lemma ShapeMatched(s: string, i: nat, a: nat, b: nat, c: nat, j: nat)
    requires ShapeAt(s, i, a, b, c, j)
    ensures MatchAt(s, i) == Some(c + |Units[j]|)
  {
    ShapeRuns(s, i, a, b, c, j);
    FirstUnitIs(s, c, j);
    UnitEndIs(s, c, j);
    MatchAtParts(s, i, a, b, c);
  }

  /** The unit the search picks at `c` ends the match. */
  lemma UnitEndIs(s: string, c: nat, j: nat)
    requires FirstUnit(s, c, 0) == Some(j)
    ensures UnitEnd(s, c) == Some(c + |Units[j]|)
  {
  }

  /** A match tried at a digit ends where the unit after its three runs ends. */
  lemma MatchAtParts(s: string, i: nat, a: nat, b: nat, c: nat)
    requires i < a <= |s| && IsDigit(s[i])
    requires RunEnd(s, i, IsDigit) == a && FractionEnd(s, a) == b && RunEnd(s, b, IsSpace) == c
    ensures MatchAt(s, i) == UnitEnd(s, c)
  {
  }

  /** At most one size token starts at any position. */
  lemma TokenUnique(s: string, i: nat, e: nat, e': nat)
    requires TokenAt(s, i, e) && TokenAt(s, i, e')
    ensures e == e'
  {
    TokenIsMatched(s, i, e);
    TokenIsMatched(s, i, e');
  }

  /** The size found in a line is its leftmost size token; there is none
      exactly when no size token occurs in the line. */
  lemma SizeInLeftmost(line: string)
    ensures SizeIn(line).Some? ==>
      exists m, e :: 0 <= m < e <= |line| && SizeIn(line).value == line[m..e] && TokenAt(line, m, e) &&
        forall k, e' :: 0 <= k < m && k < e' <= |line| ==> !TokenAt(line, k, e')
    ensures SizeIn(line).None? ==> forall k, e' :: 0 <= k < e' <= |line| ==> !TokenAt(line, k, e')
  {
    match SearchFrom(line, 0)
    case None =>
      forall k, e' | 0 <= k < e' <= |line| ensures !TokenAt(line, k, e') {
        if TokenAt(line, k, e') { TokenIsMatched(line, k, e'); }
      }
    case Some(m) =>
      MatchIsToken(line, m.0);
      forall k, e' | 0 <= k < m.0 && k < e' <= |line| ensures !TokenAt(line, k, e') {
        if TokenAt(line, k, e') { TokenIsMatched(line, k, e'); }
      }
  }

  /** `s[m..e]` is the leftmost size token of `s`. */
  ghost predicate LeftmostToken(s: string, m: nat, e: nat) {
    TokenAt(s, m, e) && forall k, e' :: 0 <= k < m && k < e' <= |s| ==> !TokenAt(s, k, e')
  }

  /** Some size token occurs in `s`. */
  ghost predicate HasToken(s: string) {
    exists m, e :: 0 <= m < e <= |s| && TokenAt(s, m, e)
  }

  /** A line whose leftmost size token is `s[m..e]` has that size. */
  lemma LineSizeIs(line: string, m: nat, e: nat)
    requires e <= |line| && LeftmostToken(line, m, e)
    ensures SizeIn(line) == Some(line[m..e])
  {
    TokenIsMatched(line, m, e);
    forall k | 0 <= k < m ensures MatchAt(line, k).None? {
      NoMatchBefore(line, m, e, k);
    }
    LeftmostMatchSize(line, m, e);
  }

  /** The pattern matches nowhere before the leftmost size token. */
  lemma NoMatchBefore(line: string, m: nat, e: nat, k: nat)
    requires LeftmostToken(line, m, e) && k < m
    ensures MatchAt(line, k).None?
  {
    if MatchAt(line, k).Some? {
      MatchIsToken(line, k);
    }
  }

  /** The leftmost match is what the search returns. */
  lemma LeftmostMatchSize(line: string, m: nat, e: nat)
    requires MatchAt(line, m) == Some(e)
    requires forall k :: 0 <= k < m ==> MatchAt(line, k).None?
    ensures SizeIn(line) == Some(line[m..e])
  {
    var r := SearchFrom(line, 0);
    assert r.Some?;
    assert r.value.0 == m;
  }

  /** A line with no size token has no size. */
  lemma LineSizeNone(line: string)
    requires !HasToken(line)
    ensures SizeIn(line).None?
  {
    SizeInLeftmost(line);
  }

  /** The size of a card is the leftmost size token of the first line that
      holds one, and "Unknown" when no line holds one. */
  lemma SelectSizeSpec(lines: seq<string>, k: nat, m: nat, e: nat)
    requires k < |lines| && e <= |lines[k]|
    requires forall j :: 0 <= j < k ==> !HasToken(lines[j])
    requires LeftmostToken(lines[k], m, e)
    ensures SelectSize(lines) == lines[k][m..e]
  {
    forall j | 0 <= j < k ensures !HasSize(lines[j]) { LineSizeNone(lines[j]); }
    LineSizeIs(lines[k], m, e);
    FirstIndexAt(lines, HasSize, k);
  }

  /** Without a size token in any line, the size is "Unknown". */
  lemma SelectSizeUnknown(lines: seq<string>)
    requires forall j :: 0 <= j < |lines| ==> !HasToken(lines[j])
    ensures SelectSize(lines) == "Unknown"
  {
    forall j | 0 <= j < |lines| ensures !HasSize(lines[j]) { LineSizeNone(lines[j]); }
  }

  /** In a line with no upper-case letters a unit occurs exactly where its
      letters do. */
  lemma UnitAtLower(s: string, c: nat, u: string)
    requires Lower(s) == s && c + |u| <= |s|
    ensures UnitAt(s, c, u) <==> s[c..c + |u|] == u
  {
    LowerSlice(s, c, c + |u|);
  }

  /** A line that starts with one digit and one space, followed by the
      `k`-th unit as the first alternative that matches, has the size made
      of those characters. */
  lemma DigitSpaceUnit(s: string, k: nat)
    requires |s| >= 3 && IsDigit(s[0]) && s[1] == ' ' && !IsSpace(s[2])
    requires FirstUnit(s, 2, 0) == Some(k)
    ensures SizeIn(s) == Some(s[..2 + |Units[k]|])
  {
    assert !IsDigit(s[1]) && IsSpace(s[1]);
    assert RunEnd(s, 1, IsDigit) == 1;
    assert RunEnd(s, 0, IsDigit) == 1;
    assert FractionEnd(s, 1) == 1;
    assert RunEnd(s, 2, IsSpace) == 2;
    assert RunEnd(s, 1, IsSpace) == 2;
    assert MatchAt(s, 0) == Some(2 + |Units[k]|);
    assert SearchFrom(s, 0) == Some((0, 2 + |Units[k]|));
  }

  /** In "3 lbs" the alternatives "g" and "kg" fail and "lb" matches. */
  lemma PoundsUnit()
    ensures FirstUnit("3 lbs", 2, 0) == Some(2)
  {
    var s := "3 lbs";
    assert Lower(s) == s;
    assert s[2..3] == "l" && s[2..4] == "lb";
    UnitAtLower(s, 2, "g");
    UnitAtLower(s, 2, "kg");
    UnitAtLower(s, 2, "lb");
    assert Units[0] == "g" && Units[1] == "kg" && Units[2] == "lb";
    assert FirstUnit(s, 2, 2) == Some(2);
    assert FirstUnit(s, 2, 1) == Some(2);
  }

  /** Wherever "lbs" occurs, in any letter case, the alternative "lb" is
      tried first and wins, so the unit "lbs" can never be matched whole. */
  lemma PoundsBeforeLbs(s: string, c: nat)
    requires UnitAt(s, c, "lbs")
    ensures FirstUnit(s, c, 0) == Some(2)
  {
    var x := Lower(s[c..c + 3]);
    assert x[0] == 'l' && x[1] == 'b';
    assert LowerChar(s[c]) == 'l' && LowerChar(s[c + 1]) == 'b';
    assert Lower(s[c..c + 1])[0] == 'l';
    assert Lower(s[c..c + 2]) == "lb";
    assert Units[0] == "g" && Units[1] == "kg" && Units[2] == "lb";
    assert !UnitAt(s, c, Units[0]) && !UnitAt(s, c, Units[1]) && UnitAt(s, c, Units[2]);
    FirstUnitIs(s, c, 2);
  }

  /** The alternatives are tried in their order and there is no word
      boundary: in "3 lbs" the unit "lb" wins over "lbs". */
  lemma SizeOfPounds()
    ensures SizeIn("3 lbs") == Some("3 lb")
  {
    PoundsUnit();
    DigitSpaceUnit("3 lbs", 2);
    assert "3 lbs"[..4] == "3 lb";
  }

  /** In "2 large" the alternatives "g", "kg", "lb" and "oz" fail at once. */
  lemma LargeNotFirstFour()
    ensures forall j :: 0 <= j < 4 ==> !UnitAt("2 large", 2, Units[j])
  {
    var s := "2 large";
    assert Lower(s) == s;
    assert s[2..3] == "l" && s[2..4] == "la";
    assert Units[0] == "g" && Units[1] == "kg" && Units[2] == "lb" && Units[3] == "oz";
    UnitAtLower(s, 2, "g");
    UnitAtLower(s, 2, "kg");
    UnitAtLower(s, 2, "lb");
    UnitAtLower(s, 2, "oz");
    forall j | 0 <= j < 4 ensures !UnitAt(s, 2, Units[j]) {
    }
  }

  /** In "2 large", "ml" fails and "l" matches. */
  lemma LargeFifthSixth()
    ensures !UnitAt("2 large", 2, Units[4]) && UnitAt("2 large", 2, Units[5])
  {
    var s := "2 large";
    assert Lower(s) == s;
    assert s[2..3] == "l" && s[2..4] == "la";
    UnitAtLower(s, 2, "ml");
    UnitAtLower(s, 2, "l");
    assert Units[4] == "ml" && Units[5] == "l";
  }

  /** "2 large" holds the size "2 l": the unit "l" needs no word boundary. */
  lemma SizeOfLarge()
    ensures SizeIn("2 large") == Some("2 l")
  {
    var s := "2 large";
    LargeUnit();
    DigitSpaceUnit(s, 5);
    assert s[..3] == "2 l";
  }

  /** In "2 large" the first alternative that matches is "l". */
  lemma LargeUnit()
    ensures FirstUnit("2 large", 2, 0) == Some(5)
  {
    var s := "2 large";
    LargeNotFirstFour();
    LargeFifthSixth();
    assert FirstUnit(s, 2, 5) == Some(5);
    assert FirstUnit(s, 2, 4) == Some(5);
    assert FirstUnit(s, 2, 3) == Some(5);
    assert FirstUnit(s, 2, 2) == Some(5);
    assert FirstUnit(s, 2, 1) == Some(5);
  }

  // ---------------------------------------------------------------- one card

  /** One card as `fast_process_products` reads it, before the seen-name check. */
  function ExtractCard(card: Card, category: string): (r: Option<Product>)
    ensures r.Some? ==> r.value.category == category && r.value.unitPrice == None
    ensures r.Some? ==> r.value.price == Some(CardPrice(card)) && r.value.hasPrice == (CardPrice(card) > 0.0)
    ensures r.Some? ==> r.value.size == SelectSize(Lines(Strip(card.text)))
    ensures r.Some? ==> r.value.promotion == (if card.promoText.Some? then Some(Strip(card.promoText.value)) else None)
  {
    var text := Strip(card.text);
    if |text| < 10 then None
    else
      var lines := Lines(text);
      if |lines| < 1 then None
      else match FirstIndex(lines, IsNameLine)
        case None => None
        case Some(i) =>
          var price := CardPrice(card);
          var promotion := match card.promoText case None => None case Some(t) => Some(Strip(t));
          Some(Product(lines[i], Some(price), SelectSize(lines), None, category, price > 0.0, promotion))
  }

  /** A card is rejected exactly when its stripped text is shorter than ten
      characters or none of its lines may serve as a name; otherwise the
      product's name is the first line that may. */
  lemma ExtractCardName(card: Card, category: string)
    ensures ExtractCard(card, category).None? <==>
      |Strip(card.text)| < 10 || forall j :: 0 <= j < |Lines(Strip(card.text))| ==> !IsNameLine(Lines(Strip(card.text))[j])
    ensures ExtractCard(card, category).Some? ==>
      IsFirstName(Lines(Strip(card.text)), ExtractCard(card, category).value.name)
  {
    var text := Strip(card.text);
    if |text| >= 10 {
      var lines := Lines(text);
      match FirstIndex(lines, IsNameLine)
      case None =>
      case Some(i) =>
        assert ExtractCard(card, category).value.name == lines[i];
    }
  }

  /** "Haddock Fillet" cannot be a name: lower-cased it contains "add". */
  lemma HaddockIsNoName()
    ensures !IsNameLine("Haddock Fillet")
  {
    var low := Lower("Haddock Fillet");
    assert low[1..4] == "add";
    ContainsAt(low, "add", 1);
  }

  // ---------------------------------------------------------------- seen names

  /** The seen-name gate of `fast_process_products` over the cards' outcomes
      in order: an extracted product whose name is not yet seen is kept, and
      its name is seen from then on; everything else is skipped. */
  function Admit(found: seq<Option<Product>>, seen: set<string>): seq<Product>
    decreases |found|
  {
    if found == [] then []
    else match found[0]
      case None => Admit(found[1..], seen)
      case Some(p) =>
        if p.name in seen then Admit(found[1..], seen)
        else [p] + Admit(found[1..], seen + {p.name})
  }

  /** Each card's outcome, in order. */
  function ExtractAll(cards: seq<Card>, category: string): seq<Option<Product>> {
    Map(cards, (c: Card) => ExtractCard(c, category))
  }

  /** The outcome at each position is that card's extraction. */
  lemma ExtractAllAt(cards: seq<Card>, category: string, j: nat)
    requires j < |cards|
    ensures |ExtractAll(cards, category)| == |cards|
    ensures ExtractAll(cards, category)[j] == ExtractCard(cards[j], category)
  {
    MapAt(cards, (c: Card) => ExtractCard(c, category), j);
  }

  /** The outcomes of the first `i + 1` cards extend those of the first `i`. */
  lemma ExtractAllSnoc(cards: seq<Card>, category: string, i: nat)
    requires i < |cards|
    ensures ExtractAll(cards[..i + 1], category) == ExtractAll(cards[..i], category) + [ExtractCard(cards[i], category)]
  {
    MapSnoc(cards, (c: Card) => ExtractCard(c, category), i);
  }

  /** The products one pass of `fast_process_products` appends. */
  function Harvest(cards: seq<Card>, category: string, seen: set<string>): seq<Product> {
    Admit(ExtractAll(cards, category), seen)
  }

  /** What the gate keeps is new: no kept name was seen before, no name is
      kept twice, and every kept product is one of the outcomes. */
  lemma {:induction false} AdmitFresh(found: seq<Option<Product>>, seen: set<string>)
    ensures forall k :: 0 <= k < |Admit(found, seen)| ==> Admit(found, seen)[k].name !in seen
    ensures NamesDistinct(Admit(found, seen))
    ensures forall k :: 0 <= k < |Admit(found, seen)| ==> Some(Admit(found, seen)[k]) in found
    decreases |found|
  {
    if found != [] {
      var tail := found[1..];
      match found[0]
      case None =>
        AdmitFresh(tail, seen);
        forall k | 0 <= k < |Admit(found, seen)| ensures Some(Admit(found, seen)[k]) in found {
          assert Some(Admit(tail, seen)[k]) in tail;
        }
      case Some(p) =>
        if p.name in seen {
          AdmitFresh(tail, seen);
          forall k | 0 <= k < |Admit(found, seen)| ensures Some(Admit(found, seen)[k]) in found {
            assert Some(Admit(tail, seen)[k]) in tail;
          }
        } else {
          var rest := Admit(tail, seen + {p.name});
          AdmitFresh(tail, seen + {p.name});
          var r := [p] + rest;
          assert Admit(found, seen) == r;
          forall k | 0 <= k < |r| ensures r[k].name !in seen && Some(r[k]) in found {
            if k > 0 {
              assert r[k] == rest[k - 1];
              assert Some(rest[k - 1]) in tail;
            }
          }
          forall a, b | 0 <= a < b < |r| ensures r[a].name != r[b].name {
            assert r[b] == rest[b - 1];
            if a > 0 { assert r[a] == rest[a - 1]; }
          }
        }
    }
  }

  /** Every extracted name is seen once the gate has passed: it was seen
      before or it is the name of a kept product. */
  lemma {:induction false} AdmitCovers(found: seq<Option<Product>>, seen: set<string>)
    ensures forall k :: 0 <= k < |found| && found[k].Some? ==> found[k].value.name in seen + Names(Admit(found, seen))
    decreases |found|
  {
    if found != [] {
      var tail := found[1..];
      var r := Admit(found, seen);
      match found[0]
      case None =>
        AdmitCovers(tail, seen);
        forall k | 1 <= k < |found| && found[k].Some? ensures found[k].value.name in seen + Names(r) {
          assert found[k] == tail[k - 1];
        }
      case Some(p) =>
        if p.name in seen {
          AdmitCovers(tail, seen);
          forall k | 1 <= k < |found| && found[k].Some? ensures found[k].value.name in seen + Names(r) {
            assert found[k] == tail[k - 1];
          }
        } else {
          var rest := Admit(tail, seen + {p.name});
          AdmitCovers(tail, seen + {p.name});
          assert r == [p] + rest;
          NamesAppend([p], rest);
          NamesOne(p);
          forall k | 1 <= k < |found| && found[k].Some? ensures found[k].value.name in seen + Names(r) {
            assert found[k] == tail[k - 1];
          }
        }
    }
  }

  /** Running the gate over two lists one after the other is running it over
      their concatenation, the first list's names seen by the second. */
  lemma {:induction false} AdmitAppend(xs: seq<Option<Product>>, ys: seq<Option<Product>>, seen: set<string>)
    ensures Admit(xs + ys, seen) == Admit(xs, seen) + Admit(ys, seen + Names(Admit(xs, seen)))
    decreases |xs|
  {
    if xs == [] {
      assert xs + ys == ys;
      assert seen + Names([]) == seen;
    } else {
      assert (xs + ys)[0] == xs[0];
      assert (xs + ys)[1..] == xs[1..] + ys;
      match xs[0]
      case None =>
        AdmitAppend(xs[1..], ys, seen);
      case Some(p) =>
        if p.name in seen {
          AdmitAppend(xs[1..], ys, seen);
        } else {
          var rest := Admit(xs[1..], seen + {p.name});
          AdmitAppend(xs[1..], ys, seen + {p.name});
          NamesAppend([p], rest);
          NamesOne(p);
          assert seen + {p.name} + Names(rest) == seen + Names([p] + rest);
        }
    }
  }

  /** One more outcome: it is kept exactly when it is a product whose name
      neither was seen nor was kept before. */
  lemma AdmitSnoc(xs: seq<Option<Product>>, o: Option<Product>, seen: set<string>)
    ensures Admit(xs + [o], seen) == Admit(xs, seen) +
      (if o.Some? && o.value.name !in seen + Names(Admit(xs, seen)) then [o.value] else [])
  {
    AdmitAppend(xs, [o], seen);
    assert [o][1..] == [];
  }

  /** Once every extracted name is seen, the gate lets nothing through. */
  lemma {:induction false} AdmitAllSeen(found: seq<Option<Product>>, seen: set<string>)
    requires forall k :: 0 <= k < |found| && found[k].Some? ==> found[k].value.name in seen
    ensures Admit(found, seen) == []
    decreases |found|
  {
    if found != [] {
      assert forall k :: 1 <= k < |found| ==> found[k] == found[1..][k - 1];
      AdmitAllSeen(found[1..], seen);
    }
  }

  /** What a pass appends is new, free of repeated names, of the category
      being scraped, and extracted from one of the cards. */
  lemma HarvestFresh(cards: seq<Card>, category: string, seen: set<string>)
    ensures forall k :: 0 <= k < |Harvest(cards, category, seen)| ==> Harvest(cards, category, seen)[k].name !in seen
    ensures NamesDistinct(Harvest(cards, category, seen))
    ensures forall k :: 0 <= k < |Harvest(cards, category, seen)| ==>
      Harvest(cards, category, seen)[k].category == category &&
      exists c :: c in cards && ExtractCard(c, category) == Some(Harvest(cards, category, seen)[k])
  {
    var found := ExtractAll(cards, category);
    var r := Harvest(cards, category, seen);
    AdmitFresh(found, seen);
    forall k | 0 <= k < |r| ensures r[k].category == category && exists c :: c in cards && ExtractCard(c, category) == Some(r[k]) {
      var j :| 0 <= j < |found| && found[j] == Some(r[k]);
      ExtractAllAt(cards, category, j);
      assert cards[j] in cards;
    }
  }

  /** A second pass over the same cards adds nothing: every name the first
      pass met is seen. */
  lemma HarvestIdempotent(cards: seq<Card>, category: string, seen: set<string>)
    ensures Harvest(cards, category, seen + Names(Harvest(cards, category, seen))) == []
  {
    var found := ExtractAll(cards, category);
    AdmitCovers(found, seen);
    AdmitAllSeen(found, seen + Names(Harvest(cards, category, seen)));
  }
}
