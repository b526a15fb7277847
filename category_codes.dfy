/**
  Construction of the set of known NAICS category codes from the raw tokens
  of the reference table (validate.py, lines 19-27). A token containing `-`
  is a range `LL-HH` of two-digit sector numbers; it is replaced by the
  decimal strings `str(LL)` .. `str(HH)`.

  The source expands the ranges while iterating over the very list it
  extends and shrinks. `Scan` and `LoadCategoryCodes` model that loop as
  Python runs it; `ExpandedCodes` is the set the loop is meant to build. The
  two agree unless two range tokens are adjacent (`ScanAgreesWithoutAdjacentRanges`,
  `AdjacentRangeLeftRaw`).
 */
module CategoryCodes {
  import opened Chars
  import opened Wrappers

  /** The test `'-' in c` of line 22. */
  predicate IsRange(t: string) {
    '-' in t
  }

  /** The two bounds of a range token, as `int` reads them. */
  datatype Bounds = Bounds(lo: nat, hi: nat)

  /** `re.match('([0-9]{2})-([0-9]{2})', t)` and the `int` conversion of its
      two groups (lines 20, 23-24). Only the first five characters are read. */
  function ParseRange(t: string): Option<Bounds> {
    if |t| >= 5 && IsDigit(t[0]) && IsDigit(t[1]) && t[2] == '-' && IsDigit(t[3]) && IsDigit(t[4])
    then Some(Bounds(DecimalValue(t[..2]), DecimalValue(t[3..5])))
    else None
  }

  /** Zero-padded two-digit text of a number below 100, as the reference table writes bounds. */
  function TwoDigits(n: nat): (s: string)
    requires n < 100
    ensures |s| == 2 && AllDigits(s)
  {
    [DigitChar(n / 10), DigitChar(n % 10)]
  }

  lemma TwoDigitsValue(n: nat)
    requires n < 100
    ensures DecimalValue(TwoDigits(n)) == n
  {
    var s := TwoDigits(n);
    assert s[..1][..0] == [];
    assert DecimalValue(s[..1]) == n / 10;
  }

  /** A range written `LL-HH` reads back as its bounds, whatever follows it. */
  lemma ParseRangeRoundTrip(lo: nat, hi: nat, rest: string)
    requires lo < 100 && hi < 100
    ensures ParseRange(TwoDigits(lo) + "-" + TwoDigits(hi) + rest) == Some(Bounds(lo, hi))
  {
    var t := TwoDigits(lo) + "-" + TwoDigits(hi) + rest;
    assert t[..2] == TwoDigits(lo);
    assert t[3..5] == TwoDigits(hi);
    TwoDigitsValue(lo);
    TwoDigitsValue(hi);
  }

  /** `list(map(str, range(lo, hi + 1)))` of line 25. */
  function Expansion(b: Bounds): (r: seq<string>)
    ensures |r| == if b.hi < b.lo then 0 else b.hi - b.lo + 1
    ensures forall j :: 0 <= j < |r| ==> r[j] == NatToDecimal(b.lo + j)
  {
    var n := if b.hi < b.lo then 0 else b.hi - b.lo + 1;
    seq(n, j requires 0 <= j < n => NatToDecimal(b.lo + j))
  }

  /** `x` is `str(k)` for some `k` from `lo` to `hi`. */
  predicate InRange(b: Bounds, x: string) {
    exists k: nat :: b.lo <= k <= b.hi && x == NatToDecimal(k)
  }

  /** The expansion of a range holds exactly `str(k)` for `lo <= k <= hi`, none of them a range. */
  lemma ExpansionMembers(b: Bounds)
    ensures forall x :: x in Expansion(b) <==> InRange(b, x)
    ensures forall x :: x in Expansion(b) ==> !IsRange(x)
  {
    var r := Expansion(b);
    forall x | x in r
      ensures InRange(b, x)
      ensures !IsRange(x)
    {
      var j :| 0 <= j < |r| && r[j] == x;
      var k: nat := b.lo + j;
      assert b.lo <= k <= b.hi && x == NatToDecimal(k);
      assert IsNumeric(x);
    }
    forall x | InRange(b, x)
      ensures x in r
    {
      var k: nat :| b.lo <= k <= b.hi && x == NatToDecimal(k);
      assert r[k - b.lo] == x;
    }
  }

  /** Python's `list.remove(x)`: the first element equal to `x` is dropped. */
  function RemoveFirst(s: seq<string>, x: string): (r: seq<string>)
    requires x in s
    ensures |r| == |s| - 1
    decreases |s|
  {
    if s[0] == x then s[1..] else [s[0]] + RemoveFirst(s[1..], x)
  }

  /** `list.remove(x)` splits the list at the first `x`: the elements before
      it stay where they are and the elements after it move one place left. */
  lemma {:induction false} RemoveFirstSplit(s: seq<string>, x: string)
    requires x in s
    ensures exists f :: 0 <= f < |s| && s[f] == x && x !in s[..f] && RemoveFirst(s, x) == s[..f] + s[f + 1..]
    decreases |s|
  {
    assert s == [s[0]] + s[1..];
    if s[0] == x {
      assert s[..0] == [];
      assert RemoveFirst(s, x) == s[..0] + s[1..];
    } else {
      RemoveFirstSplit(s[1..], x);
      var t := s[1..];
      var g :| 0 <= g < |t| && t[g] == x && x !in t[..g] && RemoveFirst(t, x) == t[..g] + t[g + 1..];
      assert s[..g + 1] == [s[0]] + t[..g];
      assert s[g + 2..] == t[g + 1..];
      assert RemoveFirst(s, x) == s[..g + 1] + s[g + 2..];
    }
  }

  /** What `list.remove(x)` does to the list: one copy of `x` fewer, the
      elements before the first `x` stay where they are, and everything after
      it moves one place to the left. */
  lemma {:induction false} RemoveFirstFacts(s: seq<string>, x: string)
    requires x in s
    ensures multiset(RemoveFirst(s, x)) + multiset{x} == multiset(s)
    ensures forall y :: y in s && y != x ==> y in RemoveFirst(s, x)
    ensures forall y :: y in RemoveFirst(s, x) ==> y in s
    ensures forall k :: 0 <= k < |s| && x in s[..k + 1] ==> RemoveFirst(s, x)[k..] == s[k + 1..]
    ensures forall k :: 0 <= k <= |s| && x !in s[..k] ==> RemoveFirst(s, x)[..k] == s[..k]
    decreases |s|
  {
    assert s == [s[0]] + s[1..];
    if s[0] != x {
      RemoveFirstFacts(s[1..], x);
      var t := RemoveFirst(s[1..], x);
      forall k | 1 <= k <= |s| && x !in s[..k]
        ensures RemoveFirst(s, x)[..k] == s[..k]
      {
        assert s[..k] == [s[0]] + s[1..][..k - 1];
        assert x !in s[1..][..k - 1];
        assert ([s[0]] + t)[..k] == [s[0]] + t[..k - 1];
      }
      forall k | 0 <= k < |s| && x in s[..k + 1]
        ensures RemoveFirst(s, x)[k..] == s[k + 1..]
      {
        assert k >= 1;
        assert s[..k + 1] == [s[0]] + s[1..][..k];
        assert x in s[1..][..k];
        assert t[k - 1..] == s[1..][k..];
        assert ([s[0]] + t)[k..] == t[k - 1..];
      }
    }
  }

  /** How many tokens are ranges. */
  function RangeCount(s: seq<string>): nat {
    if s == [] then 0 else (if IsRange(s[0]) then 1 else 0) + RangeCount(s[1..])
  }

  lemma {:induction false} RangeCountAppend(a: seq<string>, b: seq<string>)
    ensures RangeCount(a + b) == RangeCount(a) + RangeCount(b)
    decreases |a|
  {
    if a == [] {
      assert a + b == b;
    } else {
      assert (a + b)[1..] == a[1..] + b;
      RangeCountAppend(a[1..], b);
    }
  }

  lemma {:induction false} RangeCountNone(s: seq<string>)
    requires forall x :: x in s ==> !IsRange(x)
    ensures RangeCount(s) == 0
    decreases |s|
  {
    if s != [] {
      RangeCountNone(s[1..]);
    }
  }

  lemma {:induction false} RangeCountRemove(s: seq<string>, x: string)
    requires x in s && IsRange(x)
    ensures RangeCount(RemoveFirst(s, x)) + 1 == RangeCount(s)
    decreases |s|
  {
    if s[0] != x {
      RangeCountRemove(s[1..], x);
      var t := RemoveFirst(s[1..], x);
      assert ([s[0]] + t)[1..] == t;
    }
  }

  /** Expanding one range token and removing it leaves one range token fewer. */
  lemma ExpandStepShrinks(codes: seq<string>, i: nat, b: Bounds)
    requires i < |codes| && IsRange(codes[i])
    ensures codes[i] in codes + Expansion(b)
    ensures RangeCount(RemoveFirst(codes + Expansion(b), codes[i])) + 1 == RangeCount(codes)
  {
    var grown := codes + Expansion(b);
    assert grown[i] == codes[i];
    ExpansionMembers(b);
    RangeCountAppend(codes, Expansion(b));
    RangeCountNone(Expansion(b));
    RangeCountRemove(grown, codes[i]);
  }

  /** The loop of lines 21-26 exactly as Python runs it: the list iterator
      reads `codes[i]` at index `i` and then moves to `i + 1`, while the body
      extends `codes` in place (`+=`) and removes the first occurrence of the
      range token. After a removal the element that moves into the current
      slot is never visited. A range token that does not parse stops the
      loading with an error (`m` is `None` at line 24). */
  function Scan(codes: seq<string>, i: nat): Result<seq<string>, string>
    decreases RangeCount(codes), |codes| - i
  {
    if i >= |codes| then Ok(codes)
    else if !IsRange(codes[i]) then Scan(codes, i + 1)
    else match ParseRange(codes[i])
      case None => Err(codes[i])
      case Some(b) =>
        ExpandStepShrinks(codes, i, b);
        Scan(RemoveFirst(codes + Expansion(b), codes[i]), i + 1)
  }

  /** What lines 19-27 leave in `category_codes`: the set of the list after the loop. */
  function LoadedAsWritten(tokens: seq<string>): Result<set<string>, string> {
    match Scan(tokens, 0)
    case Err(t) => Err(t)
    case Ok(codes) => Ok(set x | x in codes)
  }

  /** Lines 19-27: the range tokens are expanded while the list is traversed.
      Tokens without `-` are never lost, a failure names a malformed range
      token of the input, and without adjacent range tokens the result is
      the intended set. */
  method LoadCategoryCodes(tokens: seq<string>) returns (r: Result<set<string>, string>)
    ensures r == LoadedAsWritten(tokens)
    ensures r.Ok? ==> forall t :: t in tokens && !IsRange(t) ==> t in r.value
    ensures r.Err? ==> r.error in tokens && IsRange(r.error) && ParseRange(r.error).None?
    ensures NoAdjacentRanges(tokens) ==> r == ExpandedCodes(tokens)
  {
    if NoAdjacentRanges(tokens) {
      ScanAgreesWithoutAdjacentRanges(tokens);
    }
    var codes := tokens;
    var i := 0;
    while i < |codes|
      invariant Scan(codes, i) == Scan(tokens, 0)
      invariant forall t :: t in tokens && !IsRange(t) ==> t in codes
      invariant forall t :: t in codes && IsRange(t) ==> t in tokens
      decreases RangeCount(codes), |codes| - i
    {
      var c := codes[i];
      if IsRange(c) {
        var m := ParseRange(c);
        if m.None? {
          return Err(c);
        }
        ExpandStepShrinks(codes, i, m.value);
        ExpansionMembers(m.value);
        var grown := codes + Expansion(m.value);
        RemoveFirstFacts(grown, c);
        forall t | t in RemoveFirst(grown, c) && IsRange(t)
          ensures t in tokens
        {
          assert t in grown;
          assert t !in Expansion(m.value);
        }
        codes := RemoveFirst(grown, c);
      }
      i := i + 1;
    }
    r := Ok(set x | x in codes);
  }

  // ---------------------------------------------------------------------
  // The set the loop is meant to build.

  /** `x` is one of the codes the range token `t` stands for. */
  predicate Expands(t: string, x: string) {
    IsRange(t) && ParseRange(t).Some? && x in Expansion(ParseRange(t).value)
  }

  /** A range token that line 24 cannot parse. */
  predicate Malformed(t: string) {
    IsRange(t) && ParseRange(t).None?
  }

  /** Every range token replaced by its codes, in order; the first range
      token that does not parse is reported. */
  function ExpandAll(s: seq<string>): Result<seq<string>, string>
    decreases |s|
  {
    if s == [] then Ok([])
    else if !IsRange(s[0]) then ExpandAll(s[1..])
    else match ParseRange(s[0])
      case None => Err(s[0])
      case Some(b) =>
        match ExpandAll(s[1..])
        case Err(t) => Err(t)
        case Ok(rest) => Ok(Expansion(b) + rest)
  }

  /** One step of `ExpandAll` over a leading range token that parses. */
  lemma ExpandAllRange(s: seq<string>, b: Bounds, rest: seq<string>)
    requires s != [] && IsRange(s[0]) && ParseRange(s[0]) == Some(b)
    requires ExpandAll(s[1..]) == Ok(rest)
    ensures ExpandAll(s) == Ok(Expansion(b) + rest)
  {
  }

  /** Some token of `s` is a malformed range. */
  predicate HasMalformed(s: seq<string>) {
    exists t :: t in s && Malformed(t)
  }

  /** Some range token of `s` stands for the code `x`. */
  predicate CoveredBy(s: seq<string>, x: string) {
    exists t :: t in s && Expands(t, x)
  }

  /** `ExpandAll` fails exactly on a malformed range token, and otherwise
      yields exactly the codes the range tokens stand for. */
  lemma {:induction false} ExpandAllFacts(s: seq<string>)
    ensures ExpandAll(s).Err? <==> HasMalformed(s)
    ensures ExpandAll(s).Err? ==> ExpandAll(s).error in s && Malformed(ExpandAll(s).error)
    ensures ExpandAll(s).Ok? ==> forall x :: x in ExpandAll(s).value ==> !IsRange(x)
    ensures ExpandAll(s).Ok? ==> forall x :: x in ExpandAll(s).value <==> CoveredBy(s, x)
    decreases |s|
  {
    if s != [] {
      var tail := s[1..];
      ExpandAllFacts(tail);
      assert forall t :: t in s <==> t == s[0] || t in tail;
      assert HasMalformed(s) <==> Malformed(s[0]) || HasMalformed(tail);
      assert forall x :: CoveredBy(s, x) <==> Expands(s[0], x) || CoveredBy(tail, x);
      if IsRange(s[0]) && ParseRange(s[0]).Some? {
        ExpansionMembers(ParseRange(s[0]).value);
      }
    }
  }

  /** The category-code set as intended: every token without `-`, and the
      codes of every range token; loading fails when a range token does not
      parse. No range token survives. */
  function ExpandedCodes(tokens: seq<string>): (r: Result<set<string>, string>)
    ensures r.Err? <==> HasMalformed(tokens)
    ensures r.Err? ==> r.error in tokens && Malformed(r.error)
    ensures r.Ok? ==> forall x :: x in r.value ==> !IsRange(x)
    ensures r.Ok? ==> forall x :: x in r.value <==> (x in tokens && !IsRange(x)) || CoveredBy(tokens, x)
  {
    ExpandAllFacts(tokens);
    match ExpandAll(tokens)
    case Err(t) => Err(t)
    case Ok(expanded) => Ok((set x | x in tokens && !IsRange(x)) + (set x | x in expanded))
  }

  // ---------------------------------------------------------------------
  // When the traversal does what it is meant to.

  /** No range token is immediately followed by another one. */
  predicate NoAdjacentRanges(s: seq<string>) {
    forall k :: 0 <= k < |s| - 1 ==> !(IsRange(s[k]) && IsRange(s[k + 1]))
  }

  /** The range tokens of a list, in order. */
  function Ranges(s: seq<string>): seq<string>
    decreases |s|
  {
    if s == [] then [] else (if IsRange(s[0]) then [s[0]] else []) + Ranges(s[1..])
  }

  /** Each range token occurs in `Ranges(s)` as often as in `s`, and nothing else does. */
  lemma {:induction false} RangesCount(s: seq<string>, x: string)
    ensures multiset(Ranges(s))[x] == if IsRange(x) then multiset(s)[x] else 0
    decreases |s|
  {
    if s != [] {
      assert s == [s[0]] + s[1..];
      RangesCount(s[1..], x);
    }
  }

  lemma {:induction false} RangesAppendPlain(a: seq<string>, e: seq<string>)
    requires forall x :: x in e ==> !IsRange(x)
    ensures Ranges(a + e) == Ranges(a)
    ensures ExpandAll(a + e) == ExpandAll(a)
    decreases |a|
  {
    if a == [] {
      assert a + e == e;
      RangesNone(e);
    } else {
      assert (a + e)[0] == a[0];
      assert (a + e)[1..] == a[1..] + e;
      RangesAppendPlain(a[1..], e);
    }
  }

  lemma {:induction false} RangesNone(e: seq<string>)
    requires forall x :: x in e ==> !IsRange(x)
    ensures Ranges(e) == []
    ensures ExpandAll(e) == Ok([])
    decreases |e|
  {
    if e != [] {
      RangesNone(e[1..]);
    }
  }

  /** A step of `Scan` on a range token, once the token after it is not a
      range, agrees with a step of `ExpandAll` on the part not yet traversed.
      Invariant: the final list plus the range tokens still ahead of the
      cursor equals, as a multiset, the current list plus their intended
      expansion. */
  lemma {:induction false} ScanInvariant(codes: seq<string>, i: nat)
    requires i <= |codes|
    requires NoAdjacentRanges(codes[i..])
    ensures Scan(codes, i).Err? <==> ExpandAll(codes[i..]).Err?
    ensures Scan(codes, i).Err? ==> Scan(codes, i) == ExpandAll(codes[i..])
    ensures Scan(codes, i).Ok? ==>
      multiset(Scan(codes, i).value) + multiset(Ranges(codes[i..])) ==
      multiset(codes) + multiset(ExpandAll(codes[i..]).value)
    decreases RangeCount(codes), |codes| - i
  {
    var ahead := codes[i..];
    if i == |codes| {
      assert ahead == [];
    } else {
      var c := codes[i];
      assert ahead[0] == c && ahead[1..] == codes[i + 1..];
      if !IsRange(c) {
        assert NoAdjacentRanges(codes[i + 1..]);
        ScanInvariant(codes, i + 1);
      } else if ParseRange(c).Some? {
        var e := Expansion(ParseRange(c).value);
        ExpansionMembers(ParseRange(c).value);
        var grown := codes + e;
        ExpandStepShrinks(codes, i, ParseRange(c).value);
        var next := RemoveFirst(grown, c);
        RemoveFirstFacts(grown, c);
        assert Scan(codes, i) == Scan(next, i + 1);
        assert grown[..i + 1][i] == c;
        assert next[i..] == grown[i + 1..];
        if i + 1 < |codes| {
          assert next[i + 1..] == next[i..][1..] == grown[i + 2..] == codes[i + 2..] + e;
          ScanStepInside(codes, i, e, next);
        } else {
          if |e| > 0 {
            assert next[i + 1..] == next[i..][1..] == grown[i + 2..] == e[1..];
          }
          ScanStepAtEnd(codes, i, e, next);
        }
      }
    }
  }

  /** `ScanInvariant` for a range token that is not the last original token. */
  lemma {:induction false} ScanStepInside(codes: seq<string>, i: nat, e: seq<string>, next: seq<string>)
    requires i + 1 < |codes| && IsRange(codes[i]) && ParseRange(codes[i]).Some?
    requires e == Expansion(ParseRange(codes[i]).value)
    requires forall x :: x in e ==> !IsRange(x)
    requires next == RemoveFirst(codes + e, codes[i])
    requires multiset(next) + multiset{codes[i]} == multiset(codes + e)
    requires next[i + 1..] == codes[i + 2..] + e
    requires RangeCount(next) < RangeCount(codes)
    requires NoAdjacentRanges(codes[i..])
    ensures Scan(next, i + 1).Err? <==> ExpandAll(codes[i..]).Err?
    ensures Scan(next, i + 1).Err? ==> Scan(next, i + 1) == ExpandAll(codes[i..])
    ensures Scan(next, i + 1).Ok? ==>
      multiset(Scan(next, i + 1).value) + multiset(Ranges(codes[i..])) ==
      multiset(codes) + multiset(ExpandAll(codes[i..]).value)
    decreases RangeCount(codes), 0
  {
    var c := codes[i];
    var grown := codes + e;
    var ahead := codes[i..];
    assert ahead[0] == c && ahead[1] == codes[i + 1];
    assert !IsRange(codes[i + 1]);
    assert ahead[1..][0] == codes[i + 1] && ahead[1..][1..] == codes[i + 2..];
    assert ahead[2..] == codes[i + 2..];
    assert NoAdjacentRanges(next[i + 1..]);
    ScanInvariant(next, i + 1);
    RangesAppendPlain(codes[i + 2..], e);
    assert Ranges(ahead[1..]) == Ranges(codes[i + 2..]);
    assert Ranges(ahead) == [c] + Ranges(codes[i + 2..]);
    assert ExpandAll(ahead[1..]) == ExpandAll(codes[i + 2..]);
    match ExpandAll(codes[i + 2..])
    case Err(_) =>
    case Ok(later) =>
      assert ExpandAll(ahead) == Ok(e + later);
      assert ExpandAll(next[i + 1..]) == Ok(later);
      if Scan(next, i + 1).Ok? {
        var final := multiset(Scan(next, i + 1).value);
        var rest := multiset(Ranges(codes[i + 2..]));
        assert final + rest == multiset(next) + multiset(later);
        assert multiset(Ranges(ahead)) == multiset{c} + rest;
        assert multiset(e + later) == multiset(e) + multiset(later);
        MultisetShift(final, rest, multiset(next), multiset(later), multiset(codes), multiset(e), c);
      }
  }

  /** Bookkeeping of one expansion step, on multisets. */
  lemma MultisetShift<T>(final: multiset<T>, rest: multiset<T>, next: multiset<T>, later: multiset<T>,
                         codes: multiset<T>, e: multiset<T>, c: T)
    requires final + rest == next + later
    requires next + multiset{c} == codes + e
    ensures final + (multiset{c} + rest) == codes + (e + later)
  {
    forall y
      ensures (final + (multiset{c} + rest))[y] == (codes + (e + later))[y]
    {
      assert (final + rest)[y] == (next + later)[y];
      assert (next + multiset{c})[y] == (codes + e)[y];
    }
  }

  /** `ScanInvariant` for a range token that is the last original token: the
      slot it frees is taken by the first of its own codes, which is skipped. */
  lemma {:induction false} ScanStepAtEnd(codes: seq<string>, i: nat, e: seq<string>, next: seq<string>)
    requires i + 1 == |codes| && IsRange(codes[i]) && ParseRange(codes[i]).Some?
    requires e == Expansion(ParseRange(codes[i]).value)
    requires forall x :: x in e ==> !IsRange(x)
    requires next == RemoveFirst(codes + e, codes[i])
    requires multiset(next) + multiset{codes[i]} == multiset(codes + e)
    requires |next| == |codes| + |e| - 1
    requires |e| > 0 ==> next[i + 1..] == e[1..]
    requires RangeCount(next) < RangeCount(codes)
    ensures Ranges(codes[i..]) == [codes[i]]
    ensures ExpandAll(codes[i..]) == Ok(e)
    ensures Scan(next, i + 1).Ok?
    ensures multiset(Scan(next, i + 1).value) + multiset{codes[i]} == multiset(codes) + multiset(e)
    decreases RangeCount(codes), 0
  {
    var c := codes[i];
    var grown := codes + e;
    var ahead := codes[i..];
    assert ahead == [c];
    assert ahead[1..] == [];
    assert e + [] == e;
    if |e| == 0 {
      assert grown == codes;
      assert Scan(next, i + 1) == Ok(next);
    } else {
      assert forall x :: x in e[1..] ==> x in e;
      RangesNone(e[1..]);
      assert NoAdjacentRanges(next[i + 1..]);
      ScanInvariant(next, i + 1);
      assert Ranges(next[i + 1..]) == [];
      assert ExpandAll(next[i + 1..]) == Ok([]);
      var final := multiset(Scan(next, i + 1).value);
      var empty: multiset<string> := multiset{};
      assert final + empty == multiset(next) + empty;
      assert final + empty == final && multiset(next) + empty == multiset(next);
    }
  }

  /** Without adjacent range tokens the traversal builds the intended set. */
  lemma ScanAgreesWithoutAdjacentRanges(tokens: seq<string>)
    requires NoAdjacentRanges(tokens)
    ensures LoadedAsWritten(tokens) == ExpandedCodes(tokens)
  {
    assert tokens[0..] == tokens;
    ScanInvariant(tokens, 0);
    ExpandAllFacts(tokens);
    match Scan(tokens, 0)
    case Err(t) =>
    case Ok(codes) =>
      var expanded := ExpandAll(tokens).value;
      assert multiset(codes) + multiset(Ranges(tokens[0..])) == multiset(tokens) + multiset(expanded);
      assert multiset(codes) + multiset(Ranges(tokens)) == multiset(tokens) + multiset(expanded);
      forall x
        ensures x in codes <==> (x in tokens && !IsRange(x)) || x in expanded
      {
        RangesCount(tokens, x);
        var lhs := multiset(codes) + multiset(Ranges(tokens));
        var rhs := multiset(tokens) + multiset(expanded);
        assert lhs[x] == rhs[x];
        assert lhs[x] == multiset(codes)[x] + multiset(Ranges(tokens))[x];
        assert rhs[x] == multiset(tokens)[x] + multiset(expanded)[x];
        if IsRange(x) {
          assert x !in expanded;
        }
      }
      assert (set x | x in codes) == (set x | x in tokens && !IsRange(x)) + (set x | x in expanded);
  }

  /** The two range tokens of the example below, and what they stand for. */
  lemma SmallRanges()
    ensures ParseRange("01-02") == Some(Bounds(1, 2)) && ParseRange("03-04") == Some(Bounds(3, 4))
    ensures Expansion(Bounds(1, 2)) == ["1", "2"] && Expansion(Bounds(3, 4)) == ["3", "4"]
    ensures IsRange("01-02") && IsRange("03-04")
    ensures !IsRange("1") && !IsRange("2") && !IsRange("3") && !IsRange("4")
  {
    ParseRangeRoundTrip(1, 2, "");
    ParseRangeRoundTrip(3, 4, "");
    assert TwoDigits(1) + "-" + TwoDigits(2) + "" == "01-02";
    assert TwoDigits(3) + "-" + TwoDigits(4) + "" == "03-04";
    assert "01-02"[2] == '-' && "03-04"[2] == '-';
  }

  /** Two adjacent range tokens: the second is skipped by the traversal, so it
      stays in the set unexpanded and its codes are missing. */
  lemma AdjacentRangeLeftRaw()
    ensures LoadedAsWritten(["01-02", "03-04"]) == Ok({"03-04", "1", "2"})
  {
    SmallRanges();
    var tokens := ["01-02", "03-04"];
    var e := Expansion(Bounds(1, 2));
    assert tokens + e == ["01-02", "03-04", "1", "2"];
    var next := RemoveFirst(tokens + e, "01-02");
    assert next == ["03-04", "1", "2"];
    assert Scan(tokens, 0) == Scan(next, 1);
    assert Scan(next, 1) == Scan(next, 2) == Scan(next, 3) == Ok(next);
    assert (set x | x in next) == {"03-04", "1", "2"};
  }

  lemma AdjacentRangeExpanded()
    ensures ExpandAll(["01-02", "03-04"]) == Ok(["1", "2"] + ["3", "4"])
  {
    SmallRanges();
    var tokens := ["01-02", "03-04"];
    var second := tokens[1..];
    assert second == ["03-04"] && second[1..] == [];
    var none: seq<string> := [];
    ExpandAllRange(second, Bounds(3, 4), none);
    assert Expansion(Bounds(3, 4)) + none == ["3", "4"];
    ExpandAllRange(tokens, Bounds(1, 2), ["3", "4"]);
  }

  /** The intended set for the same tokens holds all four codes and no range. */
  lemma AdjacentRangeIntended()
    ensures ExpandedCodes(["01-02", "03-04"]) == Ok({"1", "2", "3", "4"})
  {
    var tokens := ["01-02", "03-04"];
    var expanded := ["1", "2"] + ["3", "4"];
    var plain := set x | x in tokens && !IsRange(x);
    var codes := set x | x in expanded;
    assert plain + codes == {"1", "2", "3", "4"} by {
      SmallRanges();
      assert plain == {};
      assert codes == {"1", "2", "3", "4"};
    }
    AdjacentRangeExpanded();
    ExpandedCodesOk(tokens, expanded);
  }

  /** `ExpandedCodes` once `ExpandAll` is known. */
  lemma ExpandedCodesOk(tokens: seq<string>, expanded: seq<string>)
    requires ExpandAll(tokens) == Ok(expanded)
    ensures ExpandedCodes(tokens) == Ok((set x | x in tokens && !IsRange(x)) + (set x | x in expanded))
  {
  }
}
