/**
  A prefix-anchored recogniser for the small regular-expression shapes the
  validators use: a sequence of items, each one character of a class (`k`)
  or any number of characters of a class (`k*`). `Matches(s, p)` is what
  `re.match(p, s) is not None` answers: some prefix of `s` is matched by the
  whole of `p`, and the rest of `s` is ignored. Capturing groups are not
  modelled; no caller reads them except through their lengths.
 */
module Pattern {
  import opened Chars

  datatype CharClass =
    | Digit          // [0-9]
    | Space          // \s
    | DigitOrDot     // [0-9.]
    | Exactly(c: char)

  predicate InClass(c: char, k: CharClass) {
    match k
    case Digit => IsDigit(c)
    case Space => IsSpace(c)
    case DigitOrDot => IsDigit(c) || c == '.'
    case Exactly(d) => c == d
  }

  ghost predicate Disjoint(k1: CharClass, k2: CharClass) {
    forall c :: !(InClass(c, k1) && InClass(c, k2))
  }

  datatype Item =
    | One(k: CharClass)    // one character of the class
    | Many(k: CharClass)   // zero or more characters of the class

  /** The items matching the text `w` literally. */
  function Literal(w: string): (p: seq<Item>)
    ensures |p| == |w|
    ensures forall i :: 0 <= i < |w| ==> p[i] == One(Exactly(w[i]))
  {
    if w == [] then [] else [One(Exactly(w[0]))] + Literal(w[1..])
  }

  /** `k{n}`: exactly `n` characters of the class. */
  function Repeat(k: CharClass, n: nat): (p: seq<Item>)
    ensures |p| == n
    ensures forall i :: 0 <= i < n ==> p[i] == One(k)
  {
    if n == 0 then [] else [One(k)] + Repeat(k, n - 1)
  }

  /** `k+`, written as Python's engine reads it: `k k*`. */
  function Plus(k: CharClass): seq<Item> {
    [One(k), Many(k)]
  }

  /** Some prefix of `s` is matched by `p` (backtracking over every `k*`). */
  predicate Matches(s: string, p: seq<Item>)
    decreases |s|, |p|
  {
    if p == [] then true
    else match p[0]
      case One(k) => |s| > 0 && InClass(s[0], k) && Matches(s[1..], p[1..])
      case Many(k) => Matches(s, p[1..]) || (|s| > 0 && InClass(s[0], k) && Matches(s[1..], p))
  }

  /** A `k` item at position `j` of the pattern takes the character at
      position `m` of the text when it is of class `k`. */
  lemma MatchesOneStep(s: string, p: seq<Item>, m: nat, j: nat)
    requires m < |s| && j < |p| && p[j].One? && InClass(s[m], p[j].k)
    requires Matches(s[m + 1..], p[j + 1..])
    ensures Matches(s[m..], p[j..])
  {
    assert p[j..][0] == p[j] && p[j..][1..] == p[j + 1..];
    assert s[m..][0] == s[m] && s[m..][1..] == s[m + 1..];
  }

  /** A `k*` item may match nothing. */
  lemma MatchesSkipStep(s: string, p: seq<Item>, m: nat, j: nat)
    requires m <= |s| && j < |p| && p[j].Many?
    requires Matches(s[m..], p[j + 1..])
    ensures Matches(s[m..], p[j..])
  {
    assert p[j..][0] == p[j] && p[j..][1..] == p[j + 1..];
  }

  /** A `k*` item may take one more character of its class. */
  lemma MatchesTakeStep(s: string, p: seq<Item>, m: nat, j: nat)
    requires m < |s| && j < |p| && p[j].Many? && InClass(s[m], p[j].k)
    requires Matches(s[m + 1..], p[j..])
    ensures Matches(s[m..], p[j..])
  {
    assert p[j..][0] == p[j];
    assert s[m..][0] == s[m] && s[m..][1..] == s[m + 1..];
  }

  /** The classes of the mandatory (`One`) items, in order. */
  function Required(p: seq<Item>): (r: seq<CharClass>)
    ensures |r| <= |p|
  {
    if p == [] then []
    else if p[0].One? then [p[0].k] + Required(p[1..])
    else Required(p[1..])
  }

  lemma {:induction false} RequiredAppend(p: seq<Item>, q: seq<Item>)
    ensures Required(p + q) == Required(p) + Required(q)
    decreases |p|
  {
    if p == [] {
      assert p + q == q;
    } else {
      assert (p + q)[0] == p[0];
      assert (p + q)[1..] == p[1..] + q;
      RequiredAppend(p[1..], q);
    }
  }

  lemma {:induction false} RequiredRepeat(k: CharClass, n: nat)
    ensures |Required(Repeat(k, n))| == n
    ensures forall i :: 0 <= i < n ==> Required(Repeat(k, n))[i] == k
    decreases n
  {
    if n > 0 {
      assert Repeat(k, n)[1..] == Repeat(k, n - 1);
      RequiredRepeat(k, n - 1);
    }
  }

  lemma {:induction false} RequiredOptional(p: seq<Item>)
    requires forall i :: 0 <= i < |p| ==> p[i].Many?
    ensures Required(p) == []
    decreases |p|
  {
    if p != [] {
      RequiredOptional(p[1..]);
    }
  }

  /** A match needs at least one character per mandatory item, and a text of
      exactly that length is matched only character by character. */
  lemma {:induction false} MatchesShortest(s: string, p: seq<Item>)
    requires Matches(s, p)
    ensures |s| >= |Required(p)|
    ensures |s| == |Required(p)| ==> forall i :: 0 <= i < |s| ==> InClass(s[i], Required(p)[i])
    decreases |s|, |p|
  {
    if p != [] {
      match p[0]
      case One(k) =>
        MatchesShortest(s[1..], p[1..]);
      case Many(k) =>
        if Matches(s, p[1..]) {
          MatchesShortest(s, p[1..]);
        } else {
          MatchesShortest(s[1..], p);
        }
    }
  }

  /** `re.match` ignores what follows the matched prefix. */
  lemma {:induction false} MatchesExtends(s: string, t: string, p: seq<Item>)
    requires Matches(s, p)
    ensures Matches(s + t, p)
    decreases |s|, |p|
  {
    if p != [] {
      match p[0]
      case One(k) =>
        assert (s + t)[1..] == s[1..] + t;
        MatchesExtends(s[1..], t, p[1..]);
      case Many(k) =>
        if Matches(s, p[1..]) {
          MatchesExtends(s, t, p[1..]);
        } else {
          assert (s + t)[1..] == s[1..] + t;
          MatchesExtends(s[1..], t, p);
        }
    }
  }

  /** Items that may all match nothing match every text. */
  lemma {:induction false} MatchesOptional(s: string, p: seq<Item>)
    requires forall i :: 0 <= i < |p| ==> p[i].Many?
    ensures Matches(s, p)
    decreases |p|
  {
    if p != [] {
      MatchesOptional(s, p[1..]);
    }
  }

  /** A literal matches exactly when the text starts with it. */
  lemma {:induction false} MatchesLiteral(s: string, w: string, q: seq<Item>)
    ensures Matches(s, Literal(w) + q) <==> w <= s && Matches(s[|w|..], q)
    decreases |w|
  {
    if w != [] {
      var p := Literal(w) + q;
      assert p[0] == One(Exactly(w[0]));
      assert p[1..] == Literal(w[1..]) + q;
      if |s| > 0 {
        MatchesLiteral(s[1..], w[1..], q);
        if |w| <= |s| {
          assert s[1..][|w| - 1..] == s[|w|..];
        }
        assert w <= s <==> s[0] == w[0] && w[1..] <= s[1..];
      }
    } else {
      assert Literal(w) + q == q;
      assert s[|w|..] == s;
    }
  }

  /** The length of the longest prefix of `s` made of characters of the class. */
  function Run(s: string, k: CharClass): (n: nat)
    ensures n <= |s|
    ensures forall i :: 0 <= i < n ==> InClass(s[i], k)
    ensures n < |s| ==> !InClass(s[n], k)
    decreases |s|
  {
    if |s| > 0 && InClass(s[0], k) then 1 + Run(s[1..], k) else 0
  }

  /** When the item after `k*` cannot start with a character of `k`, the
      star takes the whole run and no backtracking is possible. */
  lemma {:induction false} MatchesRun(s: string, k: CharClass, k2: CharClass, q: seq<Item>)
    requires Disjoint(k, k2)
    ensures Matches(s, [Many(k), One(k2)] + q) <==> Matches(s[Run(s, k)..], [One(k2)] + q)
    decreases |s|
  {
    var p := [Many(k), One(k2)] + q;
    assert p[1..] == [One(k2)] + q;
    if |s| > 0 && InClass(s[0], k) {
      assert !InClass(s[0], k2);
      MatchesRun(s[1..], k, k2, q);
      assert s[1..][Run(s[1..], k)..] == s[Run(s, k)..];
    }
  }

  /** `k+` followed by an item `k2` that no character of `k` can start:
      a non-empty run of `k`, then `k2` where the run ends. */
  lemma MatchesPlusThen(s: string, k: CharClass, k2: CharClass, q: seq<Item>)
    requires Disjoint(k, k2)
    ensures Matches(s, [One(k), Many(k), One(k2)] + q) <==> Run(s, k) >= 1 && Matches(s[Run(s, k)..], [One(k2)] + q)
  {
    var p := [One(k), Many(k), One(k2)] + q;
    assert p[0] == One(k) && p[1..] == [Many(k), One(k2)] + q;
    if |s| > 0 && InClass(s[0], k) {
      MatchesRun(s[1..], k, k2, q);
      assert s[1..][Run(s[1..], k)..] == s[Run(s, k)..];
    }
  }

  /** `k+` matches exactly the texts that start with a character of `k`. */
  lemma MatchesPlus(s: string, k: CharClass)
    ensures Matches(s, Plus(k)) <==> |s| > 0 && InClass(s[0], k)
  {
    assert Plus(k)[1..] == [Many(k)];
    if |s| > 0 {
      MatchesOptional(s[1..], [Many(k)]);
    }
  }
}
