/**
  The per-field validators of validate.py (lines 41-228) and the `is_valid`
  registry (lines 232-240).

  A field value arrives as a pandas cell. `Value` stands for what the
  validators probe it for: `pd.isnull` (`Missing`: `None` or NaN), a `str`
  (`Text`), an `int` (`Int`), or anything else (`Other`, carrying what
  `str(val)` prints for it, which only the category-code check reads).

  Each `is_valid_*` answers a `bool`; each `find_bad_*` answers the value
  when it judges it bad and `None` otherwise. The one validator that can
  raise, `is_valid_phone`, answers an `Outcome`.
 */
module Validate {
  import opened Chars
  import opened Pattern
  import opened Wrappers

  datatype Value =
    | Missing            // pd.isnull(val)
    | Text(s: string)    // type(val) is str
    | Int(i: int)        // type(val) is int
    | Other(text: string)  // any other non-null value, with what str(val) prints

  /** `str(val)` of a value that is not null. A `str` is its own text; an
      `int` prints as decimal digits, after a minus sign when negative, that
      `int()` reads back as the number. */
  function Str(v: Value): (r: string)
    requires !v.Missing?
    ensures v.Text? ==> r == v.s
    ensures v.Int? && v.i >= 0 ==> IsNumeric(r) && DecimalValue(r) == v.i
    ensures v.Int? && v.i < 0 ==> |r| >= 2 && r[0] == '-' && IsNumeric(r[1..]) && DecimalValue(r[1..]) == -v.i
  {
    match v
    case Text(s) => s
    case Int(i) =>
      if i < 0 then
        DecimalRoundTrip(-i);
        assert IntToStr(i)[1..] == NatToDecimal(-i);
        IntToStr(i)
      else
        DecimalRoundTrip(i);
        IntToStr(i)
    case Other(text) => text
  }

  /** Python exceptions a validator or the registry lookup can raise. */
  datatype PyError = KeyError | TypeError

  /** What a call does: it returns a `bool`, or it raises. */
  datatype Outcome = Returns(valid: bool) | Raises(error: PyError)

  // ---------------------------------------------------------------------
  // name (lines 41-64)

  const BadNames: seq<string> := ["none", "null", " "]

  function IsValidName(v: Value): bool {
    match v
    case Text(s) => Lower(s) !in BadNames
    case _ => false
  }

  function FindBadName(v: Value): Option<Value> {
    match v
    case Missing => None
    case Text(s) => if Lower(s) in BadNames then Some(v) else None
    case _ => Some(v)
  }

  /** `find_bad_name` flags a non-null value exactly when `is_valid_name` rejects it. */
  lemma NameDiagnostic(v: Value)
    ensures v.Missing? ==> FindBadName(v) == None && !IsValidName(v)
    ensures !v.Missing? ==> (FindBadName(v) == Some(v) <==> !IsValidName(v))
    ensures !v.Missing? ==> (FindBadName(v) == None <==> IsValidName(v))
  {
  }

  /** The only names rejected are a single blank and four-letter spellings of
      `none` and `null`, in any case. */
  lemma NameRejected(s: string)
    ensures !IsValidName(Text(s)) <==> s == " " || (|s| == 4 && (Lower(s) == "none" || Lower(s) == "null"))
  {
    if Lower(s) == " " {
      assert |s| == 1;
      assert s[0] == ' ';
      assert s == [s[0]];
    }
  }

  // ---------------------------------------------------------------------
  // address (lines 66-93)

  function IsValidAddress(v: Value): bool {
    match v
    case Text(s) => |s| >= 1 && IsDigit(s[0])
    case _ => false
  }

  function FindBadAddress(v: Value): Option<Value> {
    match v
    case Missing => None
    case Text(s) => if |s| < 1 then Some(v) else if !IsDigit(s[0]) then Some(v) else None
    case _ => Some(v)
  }

  /** `find_bad_address` flags a non-null value exactly when `is_valid_address` rejects it. */
  lemma AddressDiagnostic(v: Value)
    ensures v.Missing? ==> FindBadAddress(v) == None && !IsValidAddress(v)
    ensures !v.Missing? ==> (FindBadAddress(v) == Some(v) <==> !IsValidAddress(v))
    ensures !v.Missing? ==> (FindBadAddress(v) == None <==> IsValidAddress(v))
  {
  }

  /** Only the first character of an address is read: what follows it never matters. */
  lemma AddressFirstCharacter(s: string, t: string)
    requires |s| >= 1 && |t| >= 1 && s[0] == t[0]
    ensures IsValidAddress(Text(s)) == IsValidAddress(Text(t))
  {
  }

  // ---------------------------------------------------------------------
  // time in business (lines 96-104)

  function IsValidTime(v: Value): bool {
    match v
    case Text(s) => Contains(s, "year")
    case _ => false
  }

  /** A time in business is valid exactly when `year` occurs in it somewhere
      (lower case; `Year` does not count). */
  lemma TimeOccurrence(s: string)
    ensures IsValidTime(Text(s)) <==> exists i :: OccursAt(s, "year", i)
  {
    ContainsAt(s, "year");
  }

  /** Text around a valid time in business keeps it valid. */
  lemma TimeSurrounded(p: string, s: string, q: string)
    requires IsValidTime(Text(s))
    ensures IsValidTime(Text(p + s + q))
  {
    ContainsAt(s, "year");
    var i :| OccursAt(s, "year", i);
    assert (p + s + q)[|p| + i..|p| + i + 4] == s[i..i + 4];
    assert OccursAt(p + s + q, "year", |p| + i);
    ContainsAt(p + s + q, "year");
  }

  /** The test is case-sensitive. */
  lemma TimeCaseSensitive()
    ensures IsValidTime(Text("5 years"))
    ensures !IsValidTime(Text("5 YEARS"))
  {
    assert OccursAt("5 years", "year", 2);
    TimeOccurrence("5 years");
    assert 'y' !in "5 YEARS";
    MissingFirstLetter("5 YEARS", "year");
  }

  // ---------------------------------------------------------------------
  // phone (lines 106-142)

  /** The pattern of line 109, `\(*\s*([0-9]{3})\s*\)*\-*\s*\-*([0-9]{3})\s*\-*\s*([0-9]{4})`:
      optional parentheses, dashes and blanks around three groups of three,
      three and four digits. */
  const PhonePattern: seq<Item> :=
    [Many(Exactly('(')), Many(Space)] + Repeat(Digit, 3)
    + [Many(Space), Many(Exactly(')')), Many(Exactly('-')), Many(Space), Many(Exactly('-'))] + Repeat(Digit, 3)
    + [Many(Space), Many(Exactly('-')), Many(Space)] + Repeat(Digit, 4)

  /** The pattern needs ten digits and nothing else. */
  lemma PhoneRequired()
    ensures |Required(PhonePattern)| == 10
    ensures forall i :: 0 <= i < 10 ==> Required(PhonePattern)[i] == Digit
  {
    var a: seq<Item> := [Many(Exactly('(')), Many(Space)];
    var b: seq<Item> := [Many(Space), Many(Exactly(')')), Many(Exactly('-')), Many(Space), Many(Exactly('-'))];
    var c: seq<Item> := [Many(Space), Many(Exactly('-')), Many(Space)];
    RequiredOptional(a);
    RequiredOptional(b);
    RequiredOptional(c);
    RequiredRepeat(Digit, 3);
    RequiredRepeat(Digit, 4);
    RequiredAppend(a, Repeat(Digit, 3));
    RequiredAppend(a + Repeat(Digit, 3), b);
    RequiredAppend(a + Repeat(Digit, 3) + b, Repeat(Digit, 3));
    RequiredAppend(a + Repeat(Digit, 3) + b + Repeat(Digit, 3), c);
    RequiredAppend(a + Repeat(Digit, 3) + b + Repeat(Digit, 3) + c, Repeat(Digit, 4));
  }

  /** Lines 126-142 as written. An `int` is turned into its decimal text. A
      non-numeric `str` is matched against the pattern; no match means
      `m.groups()` raises the `AttributeError` that line 137 turns into
      `False`. On a match, line 135 asks for four groups while the pattern
      has three, so the text is kept as it is. Either way the text's own
      length decides. Any other non-null value makes `str.isnumeric` raise a
      `TypeError` that nothing catches. */
  function IsValidPhone(v: Value): Outcome {
    match v
    case Missing => Returns(false)
    case Int(i) => Returns(|IntToStr(i)| == 10)
    case Other(_) => Raises(TypeError)
    case Text(s) =>
      if IsNumeric(s) then Returns(|s| == 10)
      else if !Matches(s, PhonePattern) then Returns(false)
      else Returns(|s| == 10)
  }

  /** A phone text is valid exactly when it is ten digits: a formatted number never is. */
  lemma PhoneTextOutcome(s: string)
    ensures IsValidPhone(Text(s)) == Returns(IsNumeric(s) && |s| == 10)
  {
    if !IsNumeric(s) && Matches(s, PhonePattern) && |s| == 10 {
      PhoneRequired();
      MatchesShortest(s, PhonePattern);
      assert AllDigits(s);
    }
  }

  /** An `int` phone number is valid exactly when its decimal text has ten characters. */
  lemma PhoneIntOutcome(i: int)
    ensures IsValidPhone(Int(i)) ==
      Returns((1_000_000_000 <= i < 10_000_000_000) || (-999_999_999 <= i <= -100_000_000))
  {
    TenCharacterInt(i);
  }

  /** `is_valid_phone` raises exactly on the non-null values that are neither `int` nor `str`. */
  lemma PhoneRaises(v: Value)
    ensures IsValidPhone(v).Raises? <==> v.Other?
    ensures IsValidPhone(v).Raises? ==> IsValidPhone(v).error == TypeError
  {
  }

  /** Lines 113-124: `str.isnumeric` raises on anything but a `str`, and the
      handler returns the value; a numeric text is never flagged, and any
      other text is flagged when the pattern does not match it. */
  function FindBadPhone(v: Value): Option<Value> {
    match v
    case Missing => None
    case Text(s) => if IsNumeric(s) then None else if !Matches(s, PhonePattern) then Some(v) else None
    case _ => Some(v)
  }

  /** `find_bad_phone` passes every numeric text whatever its length, and
      every text the pattern matches, although `is_valid_phone` rejects all of
      them but the ten-digit ones; it flags every `int`. */
  lemma PhoneDiagnostic(v: Value)
    ensures v.Missing? ==> FindBadPhone(v) == None && IsValidPhone(v) == Returns(false)
    ensures v.Int? || v.Other? ==> FindBadPhone(v) == Some(v)
    ensures v.Text? ==> (FindBadPhone(v) == None <==> IsNumeric(v.s) || Matches(v.s, PhonePattern))
    ensures IsValidPhone(v) == Returns(true) && v.Text? ==> FindBadPhone(v) == None
  {
  }

  /** Lines 126-142 as the comment at line 108 means them: a text
      the pattern matches is replaced by its three digit groups joined, which
      always make ten digits, so every match is valid. */
  function IsValidPhoneIntended(v: Value): Outcome {
    match v
    case Missing => Returns(false)
    case Int(i) => Returns(|IntToStr(i)| == 10)
    case Other(_) => Raises(TypeError)
    case Text(s) =>
      if IsNumeric(s) then Returns(|s| == 10)
      else Returns(Matches(s, PhonePattern))
  }

  /** Corrected, the validator accepts a formatted text exactly when the
      diagnostic passes it, and agrees with the code on everything else. */
  lemma PhoneIntendedAgrees(v: Value)
    ensures v.Text? && !IsNumeric(v.s) ==> (IsValidPhoneIntended(v) == Returns(true) <==> FindBadPhone(v) == None)
    ensures !v.Text? || IsNumeric(v.s) ==> IsValidPhoneIntended(v) == IsValidPhone(v)
  {
  }

  /** The shape of the pattern that the standard format relies on. */
  ghost predicate PhoneShape(p: seq<Item>) {
    |p| == 20
    && p[0] == Many(Exactly('(')) && p[1] == Many(Space)
    && (forall j :: 2 <= j < 5 || 10 <= j < 13 || 16 <= j < 20 ==> p[j] == One(Digit))
    && p[5] == Many(Space) && p[6] == Many(Exactly(')'))
    && p[7] == Many(Exactly('-')) && p[8] == Many(Space)
    && p[9] == Many(Exactly('-')) && p[13] == Many(Space)
    && p[14] == Many(Exactly('-')) && p[15] == Many(Space)
  }

  /** The pattern item by item. */
  lemma PhoneItems()
    ensures PhoneShape(PhonePattern)
  {
  }

  /** The standard format, read from its sixth character: `ddd-dddd` after the blank. */
  lemma PhoneStandardTail(s: string, p: seq<Item>)
    requires PhoneShape(p)
    requires |s| == 14 && s[9] == '-'
    requires forall m :: 6 <= m < 9 || 10 <= m < 14 ==> IsDigit(s[m])
    ensures Matches(s[6..], p[10..])
  {
    assert s[14..] == [] && p[20..] == [];
    MatchesOneStep(s, p, 13, 19);
    MatchesOneStep(s, p, 12, 18);
    MatchesOneStep(s, p, 11, 17);
    MatchesOneStep(s, p, 10, 16);
    MatchesSkipStep(s, p, 10, 15);
    MatchesSkipStep(s, p, 10, 14);
    MatchesTakeStep(s, p, 9, 14);
    MatchesSkipStep(s, p, 9, 13);
    MatchesOneStep(s, p, 8, 12);
    MatchesOneStep(s, p, 7, 11);
    MatchesOneStep(s, p, 6, 10);
  }

  /** Every number written `(ddd) ddd-dddd` matches the pattern. */
  lemma PhoneStandardFormat(s: string)
    requires |s| == 14 && s[0] == '(' && s[4] == ')' && s[5] == ' ' && s[9] == '-'
    requires forall m :: 1 <= m < 4 || 6 <= m < 9 || 10 <= m < 14 ==> IsDigit(s[m])
    ensures Matches(s, PhonePattern)
  {
    PhoneItems();
    PhoneStandardTail(s, PhonePattern);
    PhoneStandardMiddle(s, PhonePattern);
    PhoneStandardHead(s, PhonePattern);
  }

  /** The standard format, read from its fifth character: `) ` before the rest. */
  lemma PhoneStandardMiddle(s: string, p: seq<Item>)
    requires PhoneShape(p)
    requires |s| == 14 && s[4] == ')' && s[5] == ' '
    requires Matches(s[6..], p[10..])
    ensures Matches(s[4..], p[5..])
  {
    MatchesSkipStep(s, p, 6, 9);
    MatchesSkipStep(s, p, 6, 8);
    MatchesTakeStep(s, p, 5, 8);
    MatchesSkipStep(s, p, 5, 7);
    MatchesSkipStep(s, p, 5, 6);
    MatchesTakeStep(s, p, 4, 6);
    MatchesSkipStep(s, p, 4, 5);
  }

  /** The standard format, read from its start: `(ddd` before the rest. */
  lemma PhoneStandardHead(s: string, p: seq<Item>)
    requires PhoneShape(p)
    requires |s| == 14 && s[0] == '('
    requires forall m :: 1 <= m < 4 ==> IsDigit(s[m])
    requires Matches(s[4..], p[5..])
    ensures Matches(s, p)
  {
    MatchesOneStep(s, p, 3, 4);
    MatchesOneStep(s, p, 2, 3);
    MatchesOneStep(s, p, 1, 2);
    MatchesSkipStep(s, p, 1, 1);
    MatchesSkipStep(s, p, 1, 0);
    MatchesTakeStep(s, p, 0, 0);
    assert s[0..] == s && p[0..] == p;
  }

  /** The documented example `(415) 555-1234`: rejected as written, accepted once corrected. */
  lemma PhoneFormattedRejected()
    ensures IsValidPhone(Text("(415) 555-1234")) == Returns(false)
    ensures IsValidPhoneIntended(Text("(415) 555-1234")) == Returns(true)
  {
    var s := "(415) 555-1234";
    assert !IsDigit(s[0]);
    PhoneStandardFormat(s);
  }

  /** A match needs ten characters at least: `555-1234` is rejected both ways. */
  lemma PhoneTooShort(s: string)
    requires |s| < 10
    ensures !Matches(s, PhonePattern)
    ensures !IsNumeric(s) ==> IsValidPhone(Text(s)) == Returns(false) && IsValidPhoneIntended(Text(s)) == Returns(false)
  {
    PhoneRequired();
    if Matches(s, PhonePattern) {
      MatchesShortest(s, PhonePattern);
    }
  }

  lemma PhoneMissingAreaCode()
    ensures IsValidPhone(Text("555-1234")) == Returns(false)
    ensures IsValidPhoneIntended(Text("555-1234")) == Returns(false)
    ensures FindBadPhone(Text("555-1234")) == Some(Text("555-1234"))
  {
    var s := "555-1234";
    assert !IsDigit(s[3]);
    PhoneTooShort(s);
  }

  // ---------------------------------------------------------------------
  // headcount (lines 176-193)

  /** `[0-9]+ to [0-9]+` of line 178. */
  const HeadcountPattern: seq<Item> := Plus(Digit) + Literal(" to ") + Plus(Digit)

  const HeadcountSpecial: seq<string> := ["over 1,000"]

  function IsValidHeadcount(v: Value): bool {
    match v
    case Text(s) => Matches(s, HeadcountPattern) || Lower(s) in HeadcountSpecial
    case _ => false
  }

  /** The pattern reads: a run of digits, then ` to `, then a digit; whatever
      follows is ignored. */
  lemma HeadcountShape(s: string)
    ensures Matches(s, HeadcountPattern) <==>
      var n := Run(s, Digit);
      n >= 1 && n + 5 <= |s| && s[n..n + 4] == " to " && IsDigit(s[n + 4])
  {
    HeadcountItems();
    HeadcountShapeOf(s, Literal("to ") + Plus(Digit));
  }

  lemma HeadcountItems()
    ensures HeadcountPattern == [One(Digit), Many(Digit), One(Exactly(' '))] + (Literal("to ") + Plus(Digit))
    ensures [One(Exactly(' '))] + (Literal("to ") + Plus(Digit)) == Literal(" to ") + Plus(Digit)
  {
    assert " to "[1..] == "to ";
    assert Literal(" to ") == [One(Exactly(' '))] + Literal("to ");
  }

  lemma HeadcountShapeOf(s: string, q: seq<Item>)
    requires [One(Exactly(' '))] + q == Literal(" to ") + Plus(Digit)
    ensures Matches(s, [One(Digit), Many(Digit), One(Exactly(' '))] + q) <==>
      var n := Run(s, Digit);
      n >= 1 && n + 5 <= |s| && s[n..n + 4] == " to " && IsDigit(s[n + 4])
  {
    var n := Run(s, Digit);
    MatchesPlusThen(s, Digit, Exactly(' '), q);
    var t := s[n..];
    MatchesLiteral(t, " to ", Plus(Digit));
    if |t| >= 4 {
      MatchesPlus(t[4..], Digit);
      assert (" to " <= t) == (s[n..n + 4] == " to ");
    }
  }

  /** Text after a matched headcount is ignored. */
  lemma HeadcountExtends(s: string, t: string)
    requires Matches(s, HeadcountPattern)
    ensures IsValidHeadcount(Text(s + t))
  {
    MatchesExtends(s, t, HeadcountPattern);
  }

  lemma HeadcountExamples()
    ensures IsValidHeadcount(Text("1 to 10"))
    ensures IsValidHeadcount(Text("Over 1,000"))
    ensures !IsValidHeadcount(Text("10+"))
    ensures !IsValidHeadcount(Int(10))
  {
    var a := "1 to 10";
    assert Run(a[1..], Digit) == 0;
    assert Run(a, Digit) == 1;
    HeadcountShape(a);
    var b := "Over 1,000";
    assert Lower(b) == "over 1,000";
    var c := "10+";
    assert Run(c[2..], Digit) == 0;
    assert Run(c[1..], Digit) == 1;
    assert Run(c, Digit) == 2;
    HeadcountShape(c);
    assert Lower(c) != "over 1,000";
  }

  // ---------------------------------------------------------------------
  // revenue (lines 195-228)

  /** The part of line 197 before ` to `: `\$*([0-9.]*\,*[0-9]+)`. */
  const RevenueLow: seq<Item> := [Many(Exactly('$')), Many(DigitOrDot), Many(Exactly(',')), One(Digit), Many(Digit)]

  /** The part of line 197 between ` to ` and ` million`: `\$*([0-9.]+)`. */
  const RevenueHigh: seq<Item> := [Many(Exactly('$')), One(DigitOrDot), Many(DigitOrDot)]

  const RevenuePattern: seq<Item> := RevenueLow + Literal(" to ") + RevenueHigh + Literal(" million")

  const RevenueSpecial: seq<string> := ["less than $500,000", "over $1 billion", "over $500 million"]

  /** Lines 215-228: the lowered text matches the pattern, or equals one of
      the special cases (the loop of lines 224-226 searches the list). */
  function IsValidRevenue(v: Value): bool {
    match v
    case Text(s) => Matches(Lower(s), RevenuePattern) || Lower(s) in RevenueSpecial
    case _ => false
  }

  /** Lines 201-213: a text is flagged when neither the pattern nor a special
      case accepts its lowered form; any other non-null value is flagged. */
  function FindBadRevenue(v: Value): Option<Value> {
    match v
    case Missing => None
    case Text(s) =>
      if !Matches(Lower(s), RevenuePattern) then (if Lower(s) in RevenueSpecial then None else Some(v))
      else None
    case _ => Some(v)
  }

  /** `find_bad_revenue` flags a non-null value exactly when `is_valid_revenue` rejects it. */
  lemma RevenueDiagnostic(v: Value)
    ensures v.Missing? ==> FindBadRevenue(v) == None && !IsValidRevenue(v)
    ensures !v.Missing? ==> (FindBadRevenue(v) == Some(v) <==> !IsValidRevenue(v))
    ensures !v.Missing? ==> (FindBadRevenue(v) == None <==> IsValidRevenue(v))
  {
  }

  /** Only the lowered text is read: a revenue and its lower-case form are judged alike. */
  lemma RevenueCaseInsensitive(s: string)
    ensures IsValidRevenue(Text(s)) == IsValidRevenue(Text(Lower(s)))
  {
    LowerIdempotent(s);
  }

  /** The pattern needs fourteen characters: a digit, ` to `, a digit or dot, ` million`. */
  lemma RevenueRequired()
    ensures |Required(RevenuePattern)| == 14
  {
    var to := Literal(" to ");
    var million := Literal(" million");
    RequiredAppend(RevenueLow, to);
    RequiredAppend(RevenueLow + to, RevenueHigh);
    RequiredAppend(RevenueLow + to + RevenueHigh, million);
    assert RevenueLow[1..][1..][1..] == [One(Digit), Many(Digit)];
    assert |Required(RevenueLow)| == 1;
    assert RevenueHigh[1..] == [One(DigitOrDot), Many(DigitOrDot)];
    assert |Required(RevenueHigh)| == 1;
    LiteralRequired(" to ");
    LiteralRequired(" million");
  }

  lemma {:induction false} LiteralRequired(w: string)
    ensures |Required(Literal(w))| == |w|
    decreases |w|
  {
    if w != [] {
      assert Literal(w)[1..] == Literal(w[1..]);
      LiteralRequired(w[1..]);
    }
  }

  /** A text shorter than fourteen characters is valid only as a special case. */
  lemma RevenueTooShort(s: string)
    requires |s| < 14
    ensures IsValidRevenue(Text(s)) <==> Lower(s) in RevenueSpecial
  {
    if Matches(Lower(s), RevenuePattern) {
      RevenueRequired();
      MatchesShortest(Lower(s), RevenuePattern);
    }
  }

  /** `$1 million` is not a range and not a special case. */
  lemma RevenueMillionRejected()
    ensures !IsValidRevenue(Text("$1 million"))
  {
    assert Lower("$1 million") == "$1 million";
    RevenueTooShort("$1 million");
  }

  /** The special cases are compared in lower case. */
  lemma RevenueSpecialCase()
    ensures IsValidRevenue(Text("Over $1 Billion"))
  {
    assert Lower("Over $1 Billion") == "over $1 billion";
  }

  /** `$d million` matches the part of the pattern after ` to `. */
  lemma RevenueHighMatches(u: string)
    requires |u| >= 10 && u[0] == '$' && IsDigit(u[1]) && u[2..10] == " million"
    ensures Matches(u, RevenueHigh + Literal(" million"))
  {
    var million := Literal(" million");
    var high := RevenueHigh + million;
    var empty: seq<Item> := [];
    MatchesLiteral(u[2..], " million", empty);
    assert " million" <= u[2..];
    assert million + empty == million;
    assert high[3..] == million;
    MatchesSkipStep(u, high, 2, 2);
    MatchesOneStep(u, high, 1, 1);
    MatchesSkipStep(u, high, 1, 0);
    MatchesTakeStep(u, high, 0, 0);
    assert u[0..] == u && high[0..] == high;
  }

  /** `$d to $d million` matches the whole pattern. */
  lemma RevenueRangeMatches(s: string)
    requires |s| >= 16 && s[0] == '$' && IsDigit(s[1]) && s[2..6] == " to "
    requires s[6] == '$' && IsDigit(s[7]) && s[8..16] == " million"
    ensures Matches(s, RevenuePattern)
  {
    var high := RevenueHigh + Literal(" million");
    var u := s[6..];
    assert u[2..10] == s[8..16];
    RevenueHighMatches(u);
    RevenueItems();
    RevenueLowMatches(s, high);
  }

  lemma RevenueItems()
    ensures RevenuePattern == RevenueLow + (Literal(" to ") + (RevenueHigh + Literal(" million")))
  {
  }

  /** `$d to ` followed by whatever matches `q`. */
  lemma RevenueLowMatches(s: string, q: seq<Item>)
    requires |s| >= 6 && s[0] == '$' && IsDigit(s[1]) && s[2..6] == " to "
    requires Matches(s[6..], q)
    ensures Matches(s, RevenueLow + (Literal(" to ") + q))
  {
    var p := RevenueLow + (Literal(" to ") + q);
    MatchesLiteral(s[2..], " to ", q);
    assert " to " <= s[2..];
    assert s[2..][4..] == s[6..];
    assert p[5..] == Literal(" to ") + q;
    assert p[0] == Many(Exactly('$')) && p[1] == Many(DigitOrDot) && p[2] == Many(Exactly(','));
    assert p[3] == One(Digit) && p[4] == Many(Digit);
    MatchesSkipStep(s, p, 2, 4);
    MatchesOneStep(s, p, 1, 3);
    MatchesSkipStep(s, p, 1, 2);
    MatchesSkipStep(s, p, 1, 1);
    MatchesSkipStep(s, p, 1, 0);
    MatchesTakeStep(s, p, 0, 0);
    assert s[0..] == s && p[0..] == p;
  }

  /** `$1 to $5 million` is a valid revenue. */
  lemma RevenueRangeExample()
    ensures IsValidRevenue(Text("$1 to $5 million"))
  {
    var s := "$1 to $5 million";
    assert Lower(s) == s;
    assert s[2..6] == " to " && s[8..16] == " million";
    RevenueRangeMatches(s);
  }

  // ---------------------------------------------------------------------
  // category code (lines 144-174)

  /** `s[:n]`. */
  function Take(s: string, n: nat): (r: string)
    ensures |r| == if |s| <= n then |s| else n
    ensures r <= s
  {
    if |s| <= n then s else s[..n]
  }

  /** The prefix of `t` of length `k` is a known category code. */
  predicate KnownPrefix(t: string, k: int, codes: set<string>) {
    0 <= k <= |t| && t[..k] in codes
  }

  /** Some prefix of `t` of length `lo` to `hi` is a known code. */
  predicate SomeKnownPrefix(t: string, lo: int, hi: int, codes: set<string>) {
    exists k :: lo <= k <= hi && KnownPrefix(t, k, codes)
  }

  /** `is_valid_catcode` as a specification: of the first six characters of
      `str(val)`, the whole cut or one of its prefixes of length two and more
      is a known code. */
  predicate CatcodeValid(v: Value, codes: set<string>) {
    !v.Missing? &&
      var t := Take(Str(v), 6);
      KnownPrefix(t, |t|, codes) || SomeKnownPrefix(t, 2, |t| - 1, codes)
  }

  /** `find_bad_catcode` as a specification: `str(val)` is flagged when it is
      shorter than eight characters, or when none of its prefixes of length
      two up to one less than its own is a known code. */
  function CatcodeBad(v: Value, codes: set<string>): Option<Value> {
    if v.Missing? then None
    else if |Str(v)| < 8 then Some(Text(Str(v)))
    else if SomeKnownPrefix(Str(v), 2, |Str(v)| - 1, codes) then None
    else Some(Text(Str(v)))
  }

  /** Lines 163-174: the cut `str(val)[:6]` is shortened one character at a
      time until it is a known code (valid) or has fewer than three
      characters (invalid). The length is tested only after the lookup, so
      a two-character prefix is looked up too. */
  method IsValidCatcode(v: Value, codes: set<string>) returns (ok: bool)
    ensures ok == CatcodeValid(v, codes)
  {
    if v.Missing? {
      return false;
    }
    var val := Take(Str(v), 6);
    ghost var cut := val;
    while true
      invariant val == cut[..|val|]
      invariant val != cut ==> 2 <= |val| < |cut|
      invariant forall k :: |val| < k <= |cut| ==> !KnownPrefix(cut, k, codes)
      decreases |val|
    {
      if val in codes {
        assert KnownPrefix(cut, |val|, codes);
        return true;
      }
      if |val| < 3 {
        assert !KnownPrefix(cut, |val|, codes);
        return false;
      }
      assert !KnownPrefix(cut, |val|, codes);
      val := val[..|val| - 1];
    }
  }

  /** Lines 146-161: a value of eight characters or more loses its last
      character, and the rest is shortened one character at a time as in
      `is_valid_catcode`; what is returned when flagged is the text `str(val)`. */
  method FindBadCatcode(v: Value, codes: set<string>) returns (bad: Option<Value>)
    ensures bad == CatcodeBad(v, codes)
  {
    if v.Missing? {
      return None;
    }
    var val := Str(v);
    if |val| < 8 {
      return Some(Text(val));
    }
    var testval := val[..|val| - 1];
    while true
      invariant testval == val[..|testval|]
      invariant 2 <= |testval| < |val|
      invariant forall k :: |testval| < k < |val| ==> !KnownPrefix(val, k, codes)
      decreases |testval|
    {
      if testval in codes {
        assert KnownPrefix(val, |testval|, codes);
        return None;
      }
      if |testval| < 3 {
        assert !KnownPrefix(val, |testval|, codes);
        return Some(Text(val));
      }
      assert !KnownPrefix(val, |testval|, codes);
      testval := testval[..|testval| - 1];
    }
  }

  /** For values of eight characters and more the two checks agree one way:
      what `is_valid_catcode` accepts, `find_bad_catcode` passes. */
  lemma CatcodeDiagnostic(v: Value, codes: set<string>)
    requires !v.Missing? && |Str(v)| >= 8
    requires CatcodeValid(v, codes)
    ensures CatcodeBad(v, codes) == None
  {
    var s := Str(v);
    var t := Take(s, 6);
    assert t == s[..6];
    if KnownPrefix(t, |t|, codes) {
      assert t[..|t|] == t == s[..6];
      assert KnownPrefix(s, 6, codes);
    } else {
      var k :| 2 <= k <= |t| - 1 && KnownPrefix(t, k, codes);
      assert t[..k] == s[..k];
      assert KnownPrefix(s, k, codes);
    }
  }

  /** The other way fails: a known seven-character prefix satisfies
      `find_bad_catcode` but lies beyond the six-character cut. */
  lemma CatcodeSevenCharacters()
    ensures CatcodeBad(Text("12345678"), {"1234567"}) == None
    ensures !CatcodeValid(Text("12345678"), {"1234567"})
  {
    var s := "12345678";
    var codes := {"1234567"};
    assert s[..7] == "1234567";
    assert KnownPrefix(s, 7, codes);
    var t := Take(s, 6);
    forall k | 0 <= k <= |t|
      ensures !KnownPrefix(t, k, codes)
    {
      assert |t[..k]| != 7;
    }
  }

  /** Null is never a valid code and never flagged; a text shorter than eight
      characters is always flagged, as the text it is. */
  lemma CatcodeNullAndShort(v: Value, codes: set<string>)
    ensures v.Missing? ==> !CatcodeValid(v, codes) && CatcodeBad(v, codes) == None
    ensures !v.Missing? && |Str(v)| < 8 ==> CatcodeBad(v, codes) == Some(Text(Str(v)))
  {
  }

  /** A known two-character prefix is enough, for any value of two characters or more. */
  lemma CatcodeTwoCharacterPrefix(s: string, codes: set<string>)
    requires |s| >= 2 && s[..2] in codes
    ensures CatcodeValid(Text(s), codes)
  {
    var t := Take(s, 6);
    assert t[..2] == s[..2];
    if |t| == 2 {
      assert t[..|t|] == t;
      assert KnownPrefix(t, |t|, codes);
    } else {
      assert KnownPrefix(t, 2, codes);
    }
  }

  /** Only the first six characters of `str(val)` are read. */
  lemma CatcodeFirstSix(v: Value, w: Value, codes: set<string>)
    requires !v.Missing? && !w.Missing? && Take(Str(v), 6) == Take(Str(w), 6)
    ensures CatcodeValid(v, codes) == CatcodeValid(w, codes)
  {
  }

  /** The documented example: `311811` is valid when `3118` is a known code,
      whether it comes as text or as an `int`. */
  lemma CatcodeExample(codes: set<string>)
    requires "3118" in codes
    ensures CatcodeValid(Text("311811"), codes)
    ensures CatcodeValid(Int(311811), codes)
  {
    var t := "311811";
    assert Take(t, 6) == t;
    assert t[..4] == "3118";
    assert KnownPrefix(t, 4, codes);
    IntText311811();
  }

  lemma IntText311811()
    ensures IntToStr(311811) == "311811"
  {
  }

  // ---------------------------------------------------------------------
  // the registry (lines 232-240)

  datatype Field = Name | Address | Phone | TimeInBusiness | CategoryCode | Headcount | Revenue

  /** The `is_valid` dictionary: field name to validator. */
  const Registry: map<string, Field> := map[
    "name" := Name,
    "address" := Address,
    "phone" := Phone,
    "time_in_business" := TimeInBusiness,
    "category_code" := CategoryCode,
    "headcount" := Headcount,
    "revenue" := Revenue
  ]

  /** What the validator of a field answers for a value. */
  function FieldOutcome(f: Field, v: Value, codes: set<string>): Outcome {
    match f
    case Name => Returns(IsValidName(v))
    case Address => Returns(IsValidAddress(v))
    case Phone => IsValidPhone(v)
    case TimeInBusiness => Returns(IsValidTime(v))
    case CategoryCode => Returns(CatcodeValid(v, codes))
    case Headcount => Returns(IsValidHeadcount(v))
    case Revenue => Returns(IsValidRevenue(v))
  }

  /** `is_valid[key](val)`: a key outside the registry raises `KeyError`. */
  method Check(key: string, v: Value, codes: set<string>) returns (r: Outcome)
    ensures key !in Registry ==> r == Raises(KeyError)
    ensures key in Registry ==> r == FieldOutcome(Registry[key], v, codes)
  {
    if key !in Registry {
      return Raises(KeyError);
    }
    var f := Registry[key];
    if f == CategoryCode {
      var ok := IsValidCatcode(v, codes);
      r := Returns(ok);
    } else {
      r := FieldOutcome(f, v, codes);
    }
  }

  /** Exactly seven fields have a validator; city, state and zip have none. */
  lemma RegistryKeys()
    ensures Registry.Keys == {"name", "address", "phone", "time_in_business", "category_code", "headcount", "revenue"}
    ensures "city" !in Registry && "state" !in Registry && "zip" !in Registry
  {
  }

  lemma RegistrySize()
    ensures |Registry| == 7
  {
    RegistryKeys();
    assert |{"name", "address", "phone", "time_in_business", "category_code", "headcount", "revenue"}| == 7;
  }

  /** Every registered validator rejects a null value. */
  lemma NullAlwaysInvalid(f: Field, codes: set<string>)
    ensures FieldOutcome(f, Missing, codes) == Returns(false)
  {
  }

  /** Only the phone validator raises, and only on a value that is neither
      `int` nor `str`; every other call returns. */
  lemma OnlyPhoneRaises(f: Field, v: Value, codes: set<string>)
    ensures FieldOutcome(f, v, codes).Raises? <==> f == Phone && v.Other?
  {
  }

  /** A value that is not a `str` is rejected by every validator except the
      phone and category-code ones, which read `int` values as text. */
  lemma TextOnlyFields(f: Field, v: Value, codes: set<string>)
    requires !v.Text? && f != Phone && f != CategoryCode
    ensures FieldOutcome(f, v, codes) == Returns(false)
  {
  }
}
