/** Printing a decimal significand and exponent: dragonbox_to_chars.h for double. */
module DragonboxToChars {
  import opened Bytes
  import opened Decimal

  // ---- numbers and their digits ----------------------------------------------------------------

  /** The digits s, continued with zeros up to m places, are the number r. */
  ghost predicate Spells(s: string, r: int, m: nat) {
    AllDigits(s) && |s| <= m && Number(s) * Pow10(m - |s|) == r
  }

  lemma {:induction false} SpellsBoth(a: string, x: nat, b: string, r: int, m: nat)
    requires Spells(a, x, |a|) && Spells(b, r, m)
    ensures Spells(a + b, x * Pow10(m) + r, |a| + m)
  {
    hide Number, Pow10;
    NumberOfBoth(a, b);
    assert Pow10(0) == 1 by { PowZero(); }
    var z := Pow10(m - |b|);
    Pow10Sum(|b|, m - |b|);
    Distribute(x * Pow10(|b|), Number(b), z);
    Associate(x, Pow10(|b|), z);
  }

  /** Trailing zeros may be left out. */
  lemma {:induction false} SpellsShort(s: string, x: nat, k: nat, m: nat)
    requires Spells(s, x, k)
    ensures Spells(s, x * Pow10(m), k + m)
  {
    hide Number, Pow10;
    Pow10Sum(k - |s|, m);
    Associate(Number(s), Pow10(k - |s|), Pow10(m));
  }

  function Pair(i: nat): string
    requires i < 100
  {
    [Digit(i / 10), Digit(i % 10)]
  }

  lemma {:induction false} PairSpells(i: nat)
    requires i < 100
    ensures Spells(Pair(i), i, 2)
    ensures i % 10 == 0 ==> Spells([Digit(i / 10)], i, 2)
    ensures i < 10 ==> Spells([Digit(i)], i, 1)
  {
    DigitNumber(i / 10);
    DigitNumber(i % 10);
    NumberOfBoth([Digit(i / 10)], [Digit(i % 10)]);
    assert [Digit(i / 10)] + [Digit(i % 10)] == Pair(i);
    Pow10Values();
  }

  // ---- scientific notation ---------------------------------------------------------------------

  /** One digit, not zero, perhaps a point and more digits. */
  predicate IsMantissa(text: string) {
    && |text| > 0 && |text| != 2 && '1' <= text[0] <= '9'
    && (|text| > 2 ==> text[1] == '.' && AllDigits(text[2..]))
  }

  function MantissaDigits(text: string): string
    requires IsMantissa(text)
  {
    if |text| == 1 then text else text[..1] + text[2..]
  }

  /** text * 10^shift == n */
  ghost predicate Shows(text: string, n: int, shift: nat) {
    IsMantissa(text) && Spells(MantissaDigits(text), n, shift + 1)
  }

  predicate IsExponent(text: string) {
    if |text| > 0 && text[0] == '-' then |text| > 1 && AllDigits(text[1..]) else |text| > 0 && AllDigits(text)
  }

  function ExponentValue(text: string): int
    requires IsExponent(text)
  {
    if text[0] == '-' then 0 - Number(text[1..]) else Number(text)
  }

  /** Perhaps a minus, which never stands in front of zero, and such digits. */
  predicate ShortExponent(text: string) {
    |text| > 0 && if text[0] == '-' then NoLeadingZero(text[1..]) && text[1] != '0' else NoLeadingZero(text)
  }

  /** Behind the letter stands such an exponent. */
  ghost predicate EndsShort(text: string) {
    exists cut | 0 <= cut < |text| :: text[cut] == 'E' && ShortExponent(text[cut + 1..])
  }

  /** The text is a number in scientific notation and its value is n * 10^x. */
  ghost predicate Denotes(text: string, n: nat, x: int) {
    exists cut | 0 <= cut < |text| :: DenotesAt(text, cut, n, x)
  }

  ghost predicate DenotesAt(text: string, cut: nat, n: nat, x: int) {
    && cut < |text| && text[cut] == 'E' && IsExponent(text[cut + 1..])
    && ExponentValue(text[cut + 1..]) >= x && Shows(text[..cut], n, ExponentValue(text[cut + 1..]) - x)
  }

  /** A text denotes one number only. */
  lemma {:induction false} DenotesOne(text: string, n1: nat, n2: nat, x: int)
    requires Denotes(text, n1, x) && Denotes(text, n2, x)
    ensures n1 == n2
  {
    hide Number, Pow10, IsMantissa, MantissaDigits, IsExponent;
    var c1 :| 0 <= c1 < |text| && DenotesAt(text, c1, n1, x);
    var c2 :| 0 <= c2 < |text| && DenotesAt(text, c2, n2, x);
    if c1 < c2 { NoLetter(text[..c2], c1); }
    if c2 < c1 { NoLetter(text[..c1], c2); }
  }

  lemma {:induction false} NoLetter(text: string, k: nat)
    requires IsMantissa(text) && k < |text|
    ensures text[k] != 'E'
  {
    if k >= 2 { assert text[k] == text[2..][k - 2]; }
  }

  // ---- the tables ------------------------------------------------------------------------------

  /** radix_100_table, ten entries a row. */
  const TENS: seq<string> := [
    "00010203040506070809",
    "10111213141516171819",
    "20212223242526272829",
    "30313233343536373839",
    "40414243444546474849",
    "50515253545556575859",
    "60616263646566676869",
    "70717273747576777879",
    "80818283848586878889",
    "90919293949596979899"
  ]

  /** radix_100_head_table, ten entries a row. */
  const HEADS: seq<string> := [
    "0.1.2.3.4.5.6.7.8.9.",
    "1.1.1.1.1.1.1.1.1.1.",
    "2.2.2.2.2.2.2.2.2.2.",
    "3.3.3.3.3.3.3.3.3.3.",
    "4.4.4.4.4.4.4.4.4.4.",
    "5.5.5.5.5.5.5.5.5.5.",
    "6.6.6.6.6.6.6.6.6.6.",
    "7.7.7.7.7.7.7.7.7.7.",
    "8.8.8.8.8.8.8.8.8.8.",
    "9.9.9.9.9.9.9.9.9.9."
  ]

  predicate TensRow(row: string, t: nat)
    requires t < 10
  {
    |row| == 20 && forall u | 0 <= u < 10 :: row[2 * u] == Digit(t) && row[2 * u + 1] == Digit(u)
  }

  predicate HeadRow(row: string, t: nat)
    requires t < 10
  {
    |row| == 20 && forall u | 0 <= u < 10 :: row[2 * u] == Digit(if t == 0 then u else t) && row[2 * u + 1] == '.'
  }

  predicate TableShape(table: seq<string>) {
    |table| == 10 && forall t | 0 <= t < 10 :: |table[t]| == 20
  }

  lemma {:induction false} Shapes()
    ensures TableShape(TENS) && TableShape(HEADS)
  {
  }

  lemma {:induction false} TensRow0()
    ensures |TENS| == 10 && TensRow(TENS[0], 0)
  {
  }

  lemma {:induction false} TensRow1()
    ensures |TENS| == 10 && TensRow(TENS[1], 1)
  {
  }

  lemma {:induction false} TensRow2()
    ensures |TENS| == 10 && TensRow(TENS[2], 2)
  {
  }

  lemma {:induction false} TensRow3()
    ensures |TENS| == 10 && TensRow(TENS[3], 3)
  {
  }

  lemma {:induction false} TensRow4()
    ensures |TENS| == 10 && TensRow(TENS[4], 4)
  {
  }

  lemma {:induction false} TensRow5()
    ensures |TENS| == 10 && TensRow(TENS[5], 5)
  {
  }

  lemma {:induction false} TensRow6()
    ensures |TENS| == 10 && TensRow(TENS[6], 6)
  {
  }

  lemma {:induction false} TensRow7()
    ensures |TENS| == 10 && TensRow(TENS[7], 7)
  {
  }

  lemma {:induction false} TensRow8()
    ensures |TENS| == 10 && TensRow(TENS[8], 8)
  {
  }

  lemma {:induction false} TensRow9()
    ensures |TENS| == 10 && TensRow(TENS[9], 9)
  {
  }

  lemma {:induction false} HeadRow0()
    ensures |HEADS| == 10 && HeadRow(HEADS[0], 0)
  {
  }

  lemma {:induction false} HeadRow1()
    ensures |HEADS| == 10 && HeadRow(HEADS[1], 1)
  {
  }

  lemma {:induction false} HeadRow2()
    ensures |HEADS| == 10 && HeadRow(HEADS[2], 2)
  {
  }

  lemma {:induction false} HeadRow3()
    ensures |HEADS| == 10 && HeadRow(HEADS[3], 3)
  {
  }

  lemma {:induction false} HeadRow4()
    ensures |HEADS| == 10 && HeadRow(HEADS[4], 4)
  {
  }

  lemma {:induction false} HeadRow5()
    ensures |HEADS| == 10 && HeadRow(HEADS[5], 5)
  {
  }

  lemma {:induction false} HeadRow6()
    ensures |HEADS| == 10 && HeadRow(HEADS[6], 6)
  {
  }

  lemma {:induction false} HeadRow7()
    ensures |HEADS| == 10 && HeadRow(HEADS[7], 7)
  {
  }

  lemma {:induction false} HeadRow8()
    ensures |HEADS| == 10 && HeadRow(HEADS[8], 8)
  {
  }

  lemma {:induction false} HeadRow9()
    ensures |HEADS| == 10 && HeadRow(HEADS[9], 9)
  {
  }

  /** The character at this place of the flat table. */
  function Lookup(table: seq<string>, place: nat): char
    requires TableShape(table) && place < 200
  {
    table[place / 20][place % 20]
  }

  lemma {:induction false} TensLookup(i: nat)
    requires i < 100
    ensures TableShape(TENS) && Lookup(TENS, 2 * i) == Digit(i / 10) && Lookup(TENS, 2 * i + 1) == Digit(i % 10)
  {
    hide TENS, Digit;
    Shapes();
    TensRow0(); TensRow1(); TensRow2(); TensRow3(); TensRow4(); TensRow5(); TensRow6(); TensRow7(); TensRow8(); TensRow9();
    var t, u := i / 10, i % 10;
    assert (2 * i) / 20 == t && (2 * i) % 20 == 2 * u && (2 * i + 1) / 20 == t && (2 * i + 1) % 20 == 2 * u + 1;
    assert TensRow(TENS[t], t);
  }

  lemma {:induction false} HeadLookup(i: nat)
    requires i < 100
    ensures TableShape(HEADS) && Lookup(HEADS, 2 * i) == Digit(if i < 10 then i else i / 10) && Lookup(HEADS, 2 * i + 1) == '.'
  {
    hide HEADS, Digit;
    Shapes();
    HeadRow0(); HeadRow1(); HeadRow2(); HeadRow3(); HeadRow4(); HeadRow5(); HeadRow6(); HeadRow7(); HeadRow8(); HeadRow9();
    var t, u := i / 10, i % 10;
    assert (2 * i) / 20 == t && (2 * i) % 20 == 2 * u && (2 * i + 1) / 20 == t && (2 * i + 1) % 20 == 2 * u + 1;
    assert HeadRow(HEADS[t], t);
  }

  // ---- digits by multiplication ----------------------------------------------------------------

  /** y / 2^32 is n / 10^m, closely enough for all m digits to be read off. */
  predicate Tracks(y: nat, n: nat, m: nat) {
    n * TWO_32 <= y * Pow10(m) < (n + 1) * TWO_32
  }

  predicate Even8(m: nat) {
    m == 0 || m == 2 || m == 4 || m == 6 || m == 8
  }

  /** The upper word holds the leading digits, the lower word tracks the others. */
  lemma {:induction false} TracksSplit(y: nat, n: nat, m: nat)
    requires Tracks(y, n, m) && Even8(m)
    ensures y / TWO_32 == n / Pow10(m) && Tracks(y % TWO_32, n % Pow10(m), m)
  {
    hide Pow10;
    PowZero();
    Pow10Values();
  }

  lemma {:induction false} TracksNext(low: nat, r: nat, m: nat)
    requires Tracks(low, r, m) && Even8(m) && m > 0 && low < TWO_32
    ensures r < Pow10(m) && Tracks(low * 100, r, m - 2)
  {
    hide Pow10;
    PowZero();
    Pow10Values();
  }

  /** The test for remaining zeros. */
  lemma {:induction false} TracksZero(low: nat, r: nat, m: nat)
    requires Tracks(low, r, m) && Even8(m) && 0 < m < 8
    ensures low <= TWO_32 / Pow10(m) <==> r == 0
  {
    hide Pow10;
    PowZero();
    Pow10Values();
  }

  lemma {:induction false} Start9(n: nat)
    requires 1_0000_0000 <= n < 10_0000_0000
    ensures Tracks(n * 1441151882 / 0x200_0000, n, 8)
  {
    hide Pow10;
    Pow10Values();
  }

  lemma {:induction false} Start8(n: nat)
    requires 100_0000 <= n < 1_0000_0000
    ensures Tracks(n * 281474978 / 0x1_0000, n, 6)
  {
    hide Pow10;
    Pow10Values();
  }

  lemma {:induction false} StartSecond(n: nat)
    requires n < 1_0000_0000
    ensures Tracks(n * 281474978 / 0x1_0000 + 1, n, 6)
  {
    hide Pow10;
    Pow10Values();
  }

  lemma {:induction false} Start6(n: nat)
    requires n < 100_0000
    ensures Tracks(n * 429497, n, 4)
  {
    hide Pow10;
    Pow10Values();
  }

  lemma {:induction false} Start4(n: nat)
    requires n < 1_0000
    ensures Tracks(n * 42949673, n, 2)
  {
    hide Pow10;
    Pow10Values();
  }

  // ---- writing characters ------------------------------------------------------------------------

  /** Nothing but buffer[at..end] may have changed. */
  twostate predicate Untouched(buffer: array<char>, at: nat, end: nat)
    reads buffer
  {
    at <= end <= buffer.Length
    && forall k | 0 <= k < buffer.Length && !(at <= k < end) :: buffer[k] == old(buffer[k])
  }

  /** The two characters of table entry i. */
  method CopyPair(buffer: array<char>, at: nat, table: seq<string>, i: nat)
    requires at + 2 <= buffer.Length && i < 100 && TableShape(table)
    modifies buffer
    ensures Untouched(buffer, at, at + 2)
    ensures buffer[at] == Lookup(table, 2 * i) && buffer[at + 1] == Lookup(table, 2 * i + 1)
  {
    hide Lookup;
    buffer[at] := Lookup(table, 2 * i);
    buffer[at + 1] := Lookup(table, 2 * i + 1);
  }

  method WritePair(buffer: array<char>, at: nat, i: nat)
    requires at + 2 <= buffer.Length && i < 100
    modifies buffer
    ensures Untouched(buffer, at, at + 2)
    ensures buffer[at..at + 2] == Pair(i)
  {
    hide Digit, TENS, Lookup;
    TensLookup(i);
    CopyPair(buffer, at, TENS, i);
  }

  /** The first digit, the point and a third character that may be overwritten later. */
  method WriteHead(buffer: array<char>, at: nat, i: nat)
    requires at + 3 <= buffer.Length && i < 100
    modifies buffer
    ensures Untouched(buffer, at, at + 3)
    ensures buffer[at] == Digit(if i < 10 then i else i / 10) && buffer[at + 1] == '.'
    ensures buffer[at + 2] == Digit(i % 10)
  {
    hide Digit, TENS, HEADS, Lookup;
    HeadLookup(i);
    TensLookup(i);
    CopyPair(buffer, at, HEADS, i);
    buffer[at + 2] := Lookup(TENS, 2 * i + 1);
  }

  /** m digits of the number r that `low` tracks, two at a time. */
  method PrintAll(buffer: array<char>, at: nat, low: nat, m: nat, ghost r: nat)
    requires at + m <= buffer.Length && Even8(m)
    requires Tracks(low, r, m) && low < TWO_32
    modifies buffer
    ensures Untouched(buffer, at, at + m)
    ensures Spells(buffer[at..at + m], r, m)
    decreases m
  {
    hide Number, Pow10, Pair, Tracks, Spells;
    if m == 0 {
      SpellsNothing(low, r);
      assert buffer[at..at + m] == "";
    } else {
      TracksNext(low, r, m);
      TracksSplit(low * 100, r, m - 2);
      PairInRange(low * 100);
      var prod := low * 100;
      WritePair(buffer, at, prod / TWO_32);
      PrintAll(buffer, at + 2, prod % TWO_32, m - 2, r % Pow10(m - 2));
      PairThenRest(buffer[at..at + 2], buffer[at + 2..at + m], prod / TWO_32, r, m);
      assert buffer[at..at + m] == buffer[at..at + 2] + buffer[at + 2..at + m];
    }
  }

  lemma {:induction false} SpellsNothing(low: nat, r: nat)
    requires Tracks(low, r, 0) && low < TWO_32
    ensures r == 0 && Spells("", r, 0)
  {
    PowZero();
  }

  lemma {:induction false} PairInRange(prod: nat)
    requires prod < 100 * TWO_32
    ensures prod / TWO_32 < 100
  {
  }

  lemma {:induction false} PairThenRest(pair: string, rest: string, i: nat, r: nat, m: nat)
    requires i < 100 && pair == Pair(i) && m >= 2
    requires i == r / Pow10(m - 2) && Spells(rest, r % Pow10(m - 2), m - 2)
    ensures Spells(pair + rest, r, m)
  {
    hide Number, Pow10, Spells, Pair;
    PairSpells(i);
    PairLength(i);
    SpellsBoth(pair, i, rest, r % Pow10(m - 2), m - 2);
    assert r == r / Pow10(m - 2) * Pow10(m - 2) + r % Pow10(m - 2);
  }

  lemma {:induction false} PairLength(i: nat)
    requires i < 100
    ensures |Pair(i)| == 2
  {
  }

  /** The digits of r without the zeros at its end: the nested blocks, one level a call. */
  method PrintRest(buffer: array<char>, at: nat, low: nat, m: nat, ghost r: nat) returns (end: nat)
    requires at + m <= buffer.Length && Even8(m) && 0 < m < 8
    requires Tracks(low, r, m) && low < TWO_32 && r > 0
    modifies buffer
    ensures Untouched(buffer, at, at + m) && at < end <= at + m
    ensures Spells(buffer[at..end], r, m) && buffer[end - 1] != '0'
    decreases m
  {
    hide Number, Pow10, Tracks, Spells;
    TracksNext(low, r, m);
    TracksSplit(low * 100, r, m - 2);
    PairInRange(low * 100);
    var prod := low * 100;
    var twoDigits := prod / TWO_32;
    WritePair(buffer, at, twoDigits);
    if m > 2 { TracksZero(prod % TWO_32, r % Pow10(m - 2), m - 2); }
    if m == 2 || prod % TWO_32 <= TWO_32 / Pow10(m - 2) {
      end := at + 1 + (if buffer[at + 1] > '0' then 1 else 0);
      PairAlone(twoDigits, r, m, prod % TWO_32);
      assert buffer[at..at + 2] == Pair(twoDigits);
      assert buffer[at..at + 1] == Pair(twoDigits)[..1];
    } else {
      end := PrintRest(buffer, at + 2, prod % TWO_32, m - 2, r % Pow10(m - 2));
      PairThenRest(buffer[at..at + 2], buffer[at + 2..end], twoDigits, r, m);
      assert buffer[at..end] == buffer[at..at + 2] + buffer[at + 2..end];
    }
  }

  /** The last pair that is not all zeros; its second digit goes when it is zero. */
  lemma {:induction false} PairAlone(i: nat, r: nat, m: nat, low: nat)
    requires i < 100 && m >= 2 && i == r / Pow10(m - 2) && low < TWO_32
    requires if m == 2 then Tracks(low, r % Pow10(m - 2), m - 2) else r % Pow10(m - 2) == 0
    ensures Pair(i)[1] > '0' ==> Spells(Pair(i), r, m)
    ensures Pair(i)[1] <= '0' ==> Spells(Pair(i)[..1], r, m)
    ensures r > 0 && Pair(i)[1] <= '0' ==> Pair(i)[0] != '0'
  {
    hide Number, Pow10, Spells;
    PairSpells(i);
    assert Pair(i)[..1] == [Digit(i / 10)];
    if m == 2 { SpellsNothing(low, r % Pow10(m - 2)); }
    assert r == i * Pow10(m - 2) + r % Pow10(m - 2);
    SpellsShort(Pair(i), i, 2, m - 2);
    if i % 10 == 0 { SpellsShort([Digit(i / 10)], i, 2, m - 2); }
  }

  // ---- nine digits ---------------------------------------------------------------------------------

  /** What the characters from `at` to `end` show: n with a decimal point after the first of
      shift + 1 digits. */
  ghost predicate Shown(buffer: array<char>, at: nat, end: nat, n: nat, shift: nat)
    reads buffer
  {
    at <= end <= buffer.Length && Shows(buffer[at..end], n, shift)
  }

  /** A head "d." followed by digits. */
  lemma {:induction false} PointedShows(text: string, head: char, digits: string, n: nat, shift: nat)
    requires '1' <= head <= '9' && |digits| > 0 && text == [head, '.'] + digits
    requires Spells([head] + digits, n, shift + 1)
    ensures Shows(text, n, shift)
  {
    hide Number, Pow10;
    assert text[2..] == digits;
    assert forall i | 0 <= i < |digits| :: digits[i] == ([head] + digits)[i + 1];
    assert MantissaDigits(text) == [head] + digits;
  }

  lemma {:induction false} DigitShows(text: string, n: nat, shift: nat)
    requires |text| == 1 && '1' <= text[0] <= '9' && Spells(text, n, shift + 1)
    ensures Shows(text, n, shift)
  {
  }

  /** The leading one or two digits of n. */
  lemma {:induction false} LeadingDigits(i: nat)
    requires 0 < i < 100
    ensures '1' <= Digit(if i < 10 then i else i / 10) <= '9'
    ensures i < 10 ==> Spells([Digit(i)], i, 1)
    ensures i >= 10 ==> Spells([Digit(i / 10)] + [Digit(i % 10)], i, 2)
    ensures i >= 10 && i % 10 == 0 ==> Spells([Digit(i / 10)], i, 2)
    ensures Digit(i % 10) > '0' <==> i % 10 != 0
  {
    hide Number, Pow10, Spells;
    PairSpells(i);
    assert [Digit(i / 10)] + [Digit(i % 10)] == Pair(i);
  }

  /** One or two leading digits i that are all of n. */
  method PrintLeading(buffer: array<char>, at: nat, i: nat, ghost n: nat, ghost m: nat) returns (end: nat)
    requires at + 3 <= buffer.Length && 0 < i < 100 && n == i * Pow10(m)
    modifies buffer
    ensures Untouched(buffer, at, at + 3)
    ensures at < end <= at + 3 && Shown(buffer, at, end, n, m + (if i >= 10 then 1 else 0)) && buffer[end - 1] != '0'
    ensures buffer[at + 1] == '.' && '1' <= buffer[at] <= '9'
    ensures Spells([buffer[at]] + (if i >= 10 then [buffer[at + 2]] else []), i, if i >= 10 then 2 else 1)
  {
    hide Number, Pow10, Spells, Digit, Shows;
    LeadingDigits(i);
    WriteHead(buffer, at, i);
    assert i < 10 ==> [buffer[at]] + [] == [Digit(i)];
    end := at + 1 + (if i >= 10 && buffer[at + 2] > '0' then 2 else 0);
    if i < 10 {
      SpellsShort([Digit(i)], i, 1, m);
      assert buffer[at..end] == [Digit(i)];
      DigitShows(buffer[at..end], n, m);
    } else if i % 10 == 0 {
      SpellsShort([Digit(i / 10)], i, 2, m);
      assert buffer[at..end] == [Digit(i / 10)];
      DigitShows(buffer[at..end], n, m + 1);
    } else {
      SpellsShort([Digit(i / 10)] + [Digit(i % 10)], i, 2, m);
      assert buffer[at..end] == [Digit(i / 10), '.'] + [Digit(i % 10)];
      PointedShows(buffer[at..end], Digit(i / 10), [Digit(i % 10)], n, m + 1);
    }
  }

  lemma {:induction false} LeadingInRange(prod: nat, n: nat, m: nat)
    requires Tracks(prod, n, m) && Even8(m) && Pow10(m) <= n < 100 * Pow10(m)
    ensures 0 < prod / TWO_32 < 100 && n == prod / TWO_32 * Pow10(m) + n % Pow10(m)
    ensures Tracks(prod % TWO_32, n % Pow10(m), m)
  {
    hide Tracks, Pow10;
    TracksSplit(prod, n, m);
    PowZero();
    Pow10Values();
  }

  /** The branches for 3 to 8 digits: n / 10^m has one or two digits, m more follow, and
      zeros at the end are left out. */
  method PrintBlock(buffer: array<char>, at: nat, prod: nat, m: nat, ghost n: nat) returns (end: nat, shift: nat)
    requires Even8(m) && 0 < m < 8 && at + m + 3 <= buffer.Length
    requires Tracks(prod, n, m) && Pow10(m) <= n < 100 * Pow10(m)
    modifies buffer
    ensures Untouched(buffer, at, at + m + 3)
    ensures at < end <= at + m + 3 && m <= shift <= m + 1 && Shown(buffer, at, end, n, shift) && buffer[end - 1] != '0'
  {
    hide Number, Pow10, Spells, Shows, Tracks;
    LeadingInRange(prod, n, m);
    var twoDigits := prod / TWO_32;
    ghost var r := n % Pow10(m);
    shift := m + (if twoDigits >= 10 then 1 else 0);
    TracksZero(prod % TWO_32, r, m);
    end := PrintLeading(buffer, at, twoDigits, twoDigits * Pow10(m), m);
    if prod % TWO_32 > TWO_32 / Pow10(m) {
      var next := at + 2 + (if twoDigits >= 10 then 1 else 0);
      ghost var lead := [buffer[at]] + (if twoDigits >= 10 then [buffer[at + 2]] else []);
      end := PrintRest(buffer, next, prod % TWO_32, m, r);
      assert lead == [buffer[at]] + buffer[at + 2..next];
      BlockShows(buffer[at..end], lead, twoDigits, buffer[next..end], r, m, n);
    }
  }

  /** Leading digits, a point, and all the digits behind it. */
  lemma {:induction false} BlockShows(text: string, lead: string, i: nat, rest: string, r: nat, m: nat, n: nat)
    requires 0 < |lead| && Spells(lead, i, |lead|) && Spells(rest, r, m) && |rest| > 0
    requires '1' <= lead[0] <= '9' && text == [lead[0], '.'] + lead[1..] + rest && n == i * Pow10(m) + r
    ensures Shows(text, n, |lead| + m - 1)
  {
    hide Number, Pow10, Spells, Shows;
    SpellsBoth(lead, i, rest, r, m);
    assert [lead[0]] + (lead[1..] + rest) == lead + rest;
    assert text == [lead[0], '.'] + (lead[1..] + rest);
    PointedShows(text, lead[0], lead[1..] + rest, n, |lead| + m - 1);
  }

  /** Digits in front of the point, the point, digits behind it, all of them kept. */
  ghost predicate Full(buffer: array<char>, at: nat, end: nat, n: nat, shift: nat)
    reads buffer
  {
    && at + 2 <= end <= buffer.Length && buffer[at + 1] == '.' && '1' <= buffer[at] <= '9'
    && end - at == shift + 2 && Spells([buffer[at]] + buffer[at + 2..end], n, shift + 1)
  }

  /** The same without leaving anything out, for a block that is followed by another one. */
  method PrintFullBlock(buffer: array<char>, at: nat, prod: nat, m: nat, ghost n: nat) returns (end: nat, shift: nat)
    requires Even8(m) && m < 8 && at + m + 3 <= buffer.Length
    requires Tracks(prod, n, m) && Pow10(m) <= n < 100 * Pow10(m)
    modifies buffer
    ensures Untouched(buffer, at, at + m + 3)
    ensures end <= at + m + 3 && m <= shift <= m + 1 && Full(buffer, at, end, n, shift)
  {
    hide Number, Pow10, Spells, Shows, Tracks;
    LeadingInRange(prod, n, m);
    var twoDigits := prod / TWO_32;
    ghost var r := n % Pow10(m);
    shift := m + (if twoDigits >= 10 then 1 else 0);
    end := PrintLeading(buffer, at, twoDigits, twoDigits * Pow10(m), m);
    var next := at + 2 + (if twoDigits >= 10 then 1 else 0);
    ghost var lead := [buffer[at]] + (if twoDigits >= 10 then [buffer[at + 2]] else []);
    PrintAll(buffer, next, prod % TWO_32, m, r);
    end := next + m;
    assert lead == [buffer[at]] + buffer[at + 2..next];
    SpellsBoth(lead, twoDigits, buffer[next..end], r, m);
    assert [buffer[at]] + buffer[at + 2..end] == lead + buffer[next..end];
  }

  /** Nine digits, none left out. */
  method PrintNine(buffer: array<char>, at: nat, n: nat) returns (end: nat)
    requires 1_0000_0000 <= n < 10_0000_0000 && at + 10 <= buffer.Length
    modifies buffer
    ensures Untouched(buffer, at, at + 10)
    ensures end == at + 10 && Full(buffer, at, end, n, 8)
  {
    hide Number, Pow10, Spells, Shows, Tracks, Digit, HEADS, Lookup;
    Start9(n);
    var prod := n * 1441151882 / 0x200_0000;
    Pow10Values();
    LeadingInRange(prod, n, 8);
    var d := prod / TWO_32;
    ghost var r := n % Pow10(8);
    LeadingDigits(d);
    HeadLookup(d);
    CopyPair(buffer, at, HEADS, d);
    PrintAll(buffer, at + 2, prod % TWO_32, 8, r);
    end := at + 10;
    SpellsBoth([Digit(d)], d, buffer[at + 2..end], r, 8);
  }

  lemma {:induction false} FullShows(buffer: array<char>, at: nat, end: nat, n: nat, shift: nat)
    requires Full(buffer, at, end, n, shift) && end > at + 2
    ensures Shown(buffer, at, end, n, shift)
  {
    hide Number, Pow10, Spells, Shows;
    assert buffer[at..end] == [buffer[at], '.'] + buffer[at + 2..end];
    PointedShows(buffer[at..end], buffer[at], buffer[at + 2..end], n, shift);
  }

  /** print_9_digits */
  method Print9Digits(buffer: array<char>, at: nat, s32: nat) returns (end: nat, shift: nat)
    requires 0 < s32 < 10_0000_0000 && at + 10 <= buffer.Length
    modifies buffer
    ensures Untouched(buffer, at, at + 10)
    ensures at < end <= at + 10 && shift <= 8 && Shown(buffer, at, end, s32, shift)
    ensures if s32 < 1_0000_0000 then buffer[end - 1] != '0' else end == at + 10
  {
    hide Number, Pow10, Spells, Shows, Tracks;
    Pow10Values();
    PowZero();
    if s32 >= 1_0000_0000 {
      end := PrintNine(buffer, at, s32);
      shift := 8;
      FullShows(buffer, at, end, s32, 8);
    } else if s32 >= 100_0000 {
      Start8(s32);
      end, shift := PrintBlock(buffer, at, s32 * 281474978 / 0x1_0000, 6, s32);
    } else if s32 >= 1_0000 {
      Start6(s32);
      end, shift := PrintBlock(buffer, at, s32 * 429497, 4, s32);
    } else if s32 >= 100 {
      Start4(s32);
      end, shift := PrintBlock(buffer, at, s32 * 42949673, 2, s32);
    } else {
      shift := if s32 >= 10 then 1 else 0;
      end := PrintLeading(buffer, at, s32, s32, 0);
    }
  }

  // ---- the second block ------------------------------------------------------------------------------

  lemma {:induction false} SecondInRange(n: nat)
    requires n < 1_0000_0000
    ensures var prod := n * 281474978 / 0x1_0000 + 1;
            && prod / TWO_32 == n / Pow10(6) < 100
            && Tracks(prod % TWO_32, n % Pow10(6), 6)
  {
    hide Tracks, Pow10;
    StartSecond(n);
    TracksSplit(n * 281474978 / 0x1_0000 + 1, n, 6);
    Pow10Values();
  }

  /** Eight digits behind a first block, zeros at the end left out. */
  method PrintSecondBlock(buffer: array<char>, at: nat, n: nat) returns (end: nat)
    requires 0 < n < 1_0000_0000 && at + 8 <= buffer.Length
    modifies buffer
    ensures Untouched(buffer, at, at + 8)
    ensures at < end <= at + 8 && Spells(buffer[at..end], n, 8) && buffer[end - 1] != '0'
  {
    hide Number, Pow10, Spells, Tracks;
    SecondInRange(n);
    Pow10Values();
    var prod := n * 281474978 / 0x1_0000 + 1;
    var twoDigits := prod / TWO_32;
    ghost var r := n % Pow10(6);
    TracksZero(prod % TWO_32, r, 6);
    WritePair(buffer, at, twoDigits);
    if prod % TWO_32 <= TWO_32 / Pow10(6) {
      end := at + 1 + (if buffer[at + 1] > '0' then 1 else 0);
      PairAlone(twoDigits, n, 8, prod % TWO_32);
      assert buffer[at..at + 2] == Pair(twoDigits);
      assert buffer[at..at + 1] == Pair(twoDigits)[..1];
    } else {
      end := PrintRest(buffer, at + 2, prod % TWO_32, 6, r);
      PairThenRest(buffer[at..at + 2], buffer[at + 2..end], twoDigits, n, 8);
      assert buffer[at..end] == buffer[at..at + 2] + buffer[at + 2..end];
    }
  }

  /** Eight digits behind a first block of nine. */
  method PrintFullSecondBlock(buffer: array<char>, at: nat, n: nat)
    requires n < 1_0000_0000 && at + 8 <= buffer.Length
    modifies buffer
    ensures Untouched(buffer, at, at + 8)
    ensures Spells(buffer[at..at + 8], n, 8)
  {
    hide Number, Pow10, Spells, Tracks, Pair;
    SecondInRange(n);
    var prod := n * 281474978 / 0x1_0000 + 1;
    WritePair(buffer, at, prod / TWO_32);
    PrintAll(buffer, at + 2, prod % TWO_32, 6, n % Pow10(6));
    PairThenRest(buffer[at..at + 2], buffer[at + 2..at + 8], prod / TWO_32, n, 8);
    assert buffer[at..at + 8] == buffer[at..at + 2] + buffer[at + 2..at + 8];
  }

  /** The block in front of a second one, of 1 to 8 digits. */
  method PrintFirstBlock(buffer: array<char>, at: nat, n: nat) returns (end: nat, shift: nat)
    requires 0 < n < 1_0000_0000 && at + 9 <= buffer.Length
    modifies buffer
    ensures Untouched(buffer, at, at + 9)
    ensures end <= at + 9 && shift <= 7 && Full(buffer, at, end, n, shift)
  {
    hide Number, Pow10, Spells, Shows, Tracks;
    Pow10Values();
    PowZero();
    if n >= 100_0000 {
      Start8(n);
      end, shift := PrintFullBlock(buffer, at, n * 281474978 / 0x1_0000, 6, n);
    } else if n >= 1_0000 {
      Start6(n);
      end, shift := PrintFullBlock(buffer, at, n * 429497, 4, n);
    } else if n >= 100 {
      Start4(n);
      end, shift := PrintFullBlock(buffer, at, n * 42949673, 2, n);
    } else {
      shift := if n >= 10 then 1 else 0;
      end := PrintLeading(buffer, at, n, n, 0);
      end := at + 2 + shift;
      assert [buffer[at]] + buffer[at + 2..end] == [buffer[at]] + (if n >= 10 then [buffer[at + 2]] else []);
    }
  }

  /** Two blocks are one number. */
  lemma {:induction false} BlocksShow(buffer: array<char>, at: nat, mid: nat, end: nat, n1: nat, n2: nat, shift: nat)
    requires Full(buffer, at, mid, n1, shift) && mid < end <= buffer.Length && Spells(buffer[mid..end], n2, 8)
    ensures Shown(buffer, at, end, n1 * 1_0000_0000 + n2, shift + 8)
  {
    hide Number, Pow10, Spells, Shows;
    Pow10Values();
    var lead := [buffer[at]] + buffer[at + 2..mid];
    assert buffer[at..end] == [lead[0], '.'] + lead[1..] + buffer[mid..end];
    BlockShows(buffer[at..end], lead, n1, buffer[mid..end], n2, 8, n1 * 1_0000_0000 + n2);
  }

  // ---- the exponent ------------------------------------------------------------------------------------

  /** Division by ten through 6554 = ceil(2^16 / 10). */
  lemma {:induction false} TenthOf(e: nat)
    requires e <= 999
    ensures e * 6554 / 0x1_0000 == e / 10 && e * 6554 % 0x1_0000 * 5 / 0x8000 == e % 10
  {
    var d, u := e / 10, e % 10;
    assert e * 6554 == d * 0x1_0000 + (u * 6554 + d * 4);
  }

  /** The digits of the exponent's absolute value. */
  method PrintSmall(buffer: array<char>, at: nat, e: nat) returns (end: nat)
    requires e <= 999 && at + 3 <= buffer.Length
    modifies buffer
    ensures Untouched(buffer, at, at + 3)
    ensures at < end <= at + 3 && AllDigits(buffer[at..end]) && Number(buffer[at..end]) == e
    ensures NoLeadingZero(buffer[at..end]) && (e > 0 ==> buffer[at] != '0')
  {
    hide Number, Pow10;
    PowZero();
    Pow10Values();
    if e >= 100 {
      var prod := e * 6554;
      var d1 := prod / 0x1_0000;
      prod := prod % 0x1_0000 * 5;
      var d2 := prod / 0x8000;
      TenthOf(e);
      WritePair(buffer, at, d1);
      buffer[at + 2] := Digit(d2);
      end := at + 3;
      PairSpells(d1);
      DigitNumber(d2);
      NumberOfBoth(buffer[at..at + 2], [Digit(d2)]);
      assert buffer[at..end] == buffer[at..at + 2] + [Digit(d2)];
    } else if e >= 10 {
      WritePair(buffer, at, e);
      end := at + 2;
      PairSpells(e);
    } else {
      buffer[at] := Digit(e);
      end := at + 1;
      DigitNumber(e);
      assert buffer[at..end] == [Digit(e)];
    }
  }

  method PrintExponent(buffer: array<char>, at: nat, exponent: int) returns (end: nat)
    requires -999 <= exponent <= 999 && at + 5 <= buffer.Length
    modifies buffer
    ensures Untouched(buffer, at, at + 5)
    ensures at + 1 < end <= at + 5 && buffer[at] == 'E'
    ensures IsExponent(buffer[at + 1..end]) && ExponentValue(buffer[at + 1..end]) == exponent
    ensures ShortExponent(buffer[at + 1..end])
  {
    hide Number;
    buffer[at] := 'E';
    if exponent < 0 {
      buffer[at + 1] := '-';
      end := PrintSmall(buffer, at + 2, 0 - exponent);
      assert buffer[at + 1..end][1..] == buffer[at + 2..end];
    } else {
      end := PrintSmall(buffer, at + 1, exponent);
    }
  }

  // ---- the whole number ----------------------------------------------------------------------------------

  /** The characters in front of the exponent. */
  method PrintSignificand(buffer: array<char>, at: nat, significand: nat) returns (end: nat, shift: nat)
    requires 0 < significand < 1_0000_0000_0000_0000_0 && at + 18 <= buffer.Length
    modifies buffer
    ensures Untouched(buffer, at, at + 18)
    ensures at < end <= at + 18 && shift <= 16 && Shown(buffer, at, end, significand, shift)
    ensures significand < 1_0000_0000_0000_0000 ==> buffer[end - 1] != '0'
    ensures significand >= 1_0000_0000_0000_0000 ==> end == at + (if significand % 1_0000_0000 == 0 then 10 else 18)
  {
    hide Number, Pow10, Spells, Shows, Tracks;
    if significand < 1_0000_0000 {
      end, shift := Print9Digits(buffer, at, significand);
    } else {
      var first := significand / 1_0000_0000;
      var second := (significand % TWO_32 + TWO_32 - first * 1_0000_0000 % TWO_32) % TWO_32;
      LowerBlock(significand);
      if second == 0 {
        end, shift := Print9Digits(buffer, at, first);
        MoreZeros(buffer[at..end], first, shift, significand);
        shift := shift + 8;
      } else if first >= 1_0000_0000 {
        var mid := PrintNine(buffer, at, first);
        ghost var digits := buffer[at + 2..mid];
        PrintFullSecondBlock(buffer, mid, second);
        assert buffer[at + 2..mid] == digits;
        end, shift := mid + 8, 16;
        BlocksShow(buffer, at, mid, end, first, second, 8);
      } else {
        var mid;
        mid, shift := PrintFirstBlock(buffer, at, first);
        ghost var digits := buffer[at + 2..mid];
        end := PrintSecondBlock(buffer, mid, second);
        assert buffer[at + 2..mid] == digits;
        BlocksShow(buffer, at, mid, end, first, second, shift);
        shift := shift + 8;
      }
    }
  }

  /** The 32-bit subtraction that cuts off the first block. */
  lemma {:induction false} LowerBlock(n: nat)
    ensures (n % TWO_32 + TWO_32 - n / 1_0000_0000 * 1_0000_0000 % TWO_32) % TWO_32 == n % 1_0000_0000
  {
    var high, low := n / 1_0000_0000 * 1_0000_0000, n % 1_0000_0000;
    WholeTurns(high / TWO_32, high % TWO_32 + low);
    WrapBack(high % TWO_32, low);
  }

  lemma {:induction false} WholeTurns(k: nat, x: nat)
    ensures (TWO_32 * k + x) % TWO_32 == x % TWO_32
  {
  }

  lemma {:induction false} WrapBack(p: nat, low: nat)
    requires p < TWO_32 && low < TWO_32
    ensures ((p + low) % TWO_32 + TWO_32 - p) % TWO_32 == low
  {
    if p + low < TWO_32 {
      assert (p + low) % TWO_32 == p + low;
    } else {
      assert (p + low) % TWO_32 == p + low - TWO_32;
    }
  }

  lemma {:induction false} MoreZeros(text: string, n1: nat, shift: nat, n: nat)
    requires Shows(text, n1, shift) && n == n1 * 1_0000_0000
    ensures Shows(text, n, shift + 8)
  {
    hide Number, Pow10, Spells;
    Pow10Values();
    SpellsShort(MantissaDigits(text), n1, shift + 1, 8);
  }

  /** The digits before the exponent do not end in a zero. */
  ghost predicate Trimmed(text: string) {
    exists cut | 0 < cut < |text| :: text[cut] == 'E' && text[cut - 1] != '0'
  }

  /** to_chars<double>: what is printed denotes exactly significand * 10^exponent, up to 16 digits
      without superfluous zeros, of 17 digits either all or, if the others are zeros, nine, and
      with no superfluous character in the exponent. */
  method ToChars(significand: nat, exponent: int, buffer: array<char>, at: nat) returns (end: nat)
    requires 0 < significand < 1_0000_0000_0000_0000_0
    requires -999 <= exponent <= 983 && at + 24 <= buffer.Length
    modifies buffer
    ensures Untouched(buffer, at, at + 24)
    ensures at < end <= at + 24 && Denotes(buffer[at..end], significand, exponent)
    ensures significand < 1_0000_0000_0000_0000 ==> Trimmed(buffer[at..end])
    ensures significand >= 1_0000_0000_0000_0000 ==>
              var cut := at + (if significand % 1_0000_0000 == 0 then 10 else 18); cut < end && buffer[cut] == 'E'
    ensures EndsShort(buffer[at..end])
  {
    hide Number, Pow10, Spells, Shows, IsExponent, ExponentValue, ShortExponent;
    var mid, shift := PrintSignificand(buffer, at, significand);
    ghost var mantissa := buffer[at..mid];
    end := PrintExponent(buffer, mid, exponent + shift);
    ghost var text := buffer[at..end];
    assert text[..mid - at] == buffer[at..mid] == mantissa;
    assert text[mid - at + 1..] == buffer[mid + 1..end];
    assert DenotesAt(text, mid - at, significand, exponent);
    assert text[mid - at] == 'E' && text[mid - at - 1] == mantissa[mid - at - 1];
  }
}
