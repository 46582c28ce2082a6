/**
 * The string operations the tracker applies to catalog and progress text:
 * Python's `str.strip`, `str.replace` with a one-character pattern, decimal
 * digits in and out, and a case-insensitive substring test.
 */
module Text {
  import opened Wrappers

  /** Python's `str.isspace`, the set of characters `str.strip()` removes. */
  predicate IsSpace(c: char) {
    var n := c as int;
    n == 0x20 || 0x09 <= n <= 0x0D || 0x1C <= n <= 0x1F || n == 0x85 || n == 0xA0
    || n == 0x1680 || 0x2000 <= n <= 0x200A || n == 0x2028 || n == 0x2029
    || n == 0x202F || n == 0x205F || n == 0x3000
  }

  predicate AllSpace(s: string) {
    forall i :: 0 <= i < |s| ==> IsSpace(s[i])
  }

  function TrimLeft(s: string): (r: string)
    ensures |r| <= |s| && r == s[|s| - |r|..]
    ensures r == [] || !IsSpace(r[0])
    ensures AllSpace(s[..|s| - |r|])
  {
    if s != [] && IsSpace(s[0]) then
      TrimLeft(s[1..])
    else s
  }

  function TrimRight(s: string): (r: string)
    ensures |r| <= |s| && r == s[..|r|]
    ensures r == [] || !IsSpace(r[|r| - 1])
    ensures AllSpace(s[|r|..])
  {
    if s != [] && IsSpace(s[|s| - 1]) then
      TrimRight(s[..|s| - 1])
    else s
  }

  /** `str.strip()`: drop leading and trailing whitespace. */
  function Strip(s: string): (r: string)
    ensures |r| <= |s|
    ensures forall c :: Free(s, c) ==> Free(r, c)
    ensures r == [] || (!IsSpace(r[0]) && !IsSpace(r[|r| - 1]))
  {
    TrimRight(TrimLeft(s))
  }

  /** Strip removes exactly the whitespace padding around a text that has none of its own at either end. */
  lemma {:induction false} StripPadded(lead: string, core: string, trail: string)
    requires AllSpace(lead) && AllSpace(trail)
    requires core == [] || (!IsSpace(core[0]) && !IsSpace(core[|core| - 1]))
    ensures Strip(lead + core + trail) == core
  {
    assert lead + core + trail == lead + (core + trail);
    if core == [] {
      assert core + trail == trail;
      TrimLeftPadded(lead, trail);
    } else {
      assert (core + trail)[0] == core[0];
      assert !AllSpace(core + trail);
      TrimLeftPadded(lead, core + trail);
      TrimRightPadded(core, trail);
    }
  }

  lemma {:induction false} TrimLeftPadded(lead: string, rest: string)
    requires AllSpace(lead)
    requires rest == [] || !IsSpace(rest[0]) || AllSpace(rest)
    ensures TrimLeft(lead + rest) == (if AllSpace(rest) then [] else rest)
  {
    if lead == [] {
      TrimLeftAllSpace(rest);
    } else {
      assert (lead + rest)[1..] == lead[1..] + rest;
      TrimLeftPadded(lead[1..], rest);
    }
  }

  lemma {:induction false} TrimLeftAllSpace(s: string)
    ensures AllSpace(s) ==> TrimLeft(s) == []
  {
    if s != [] && AllSpace(s) {
      TrimLeftAllSpace(s[1..]);
    }
  }

  lemma {:induction false} TrimRightPadded(core: string, trail: string)
    requires AllSpace(trail)
    requires core == [] || !IsSpace(core[|core| - 1])
    ensures TrimRight(core + trail) == core
  {
    if trail != [] {
      assert (core + trail)[..|core + trail| - 1] == core + trail[..|trail| - 1];
      TrimRightPadded(core, trail[..|trail| - 1]);
    } else {
      assert core + trail == core;
    }
  }

  /** No occurrence of `c` in `s`. */
  predicate Free(s: string, c: char) {
    forall i :: 0 <= i < |s| ==> s[i] != c
  }

  /** `s.replace(c, '')`: every occurrence of `c` deleted, the rest kept in order. */
  function RemoveAll(s: string, c: char): (r: string)
    ensures |r| <= |s|
    ensures Free(r, c)
  {
    if s == [] then []
    else if s[0] == c then RemoveAll(s[1..], c)
    else [s[0]] + RemoveAll(s[1..], c)
  }

  /** Removing a character that does not occur changes nothing. */
  lemma {:induction false} RemoveAllAbsent(s: string, c: char)
    requires Free(s, c)
    ensures RemoveAll(s, c) == s
  {
    if s != [] {
      RemoveAllAbsent(s[1..], c);
    }
  }

  /** Removing one character keeps another one absent. */
  lemma {:induction false} RemoveAllKeepsFree(s: string, c: char, d: char)
    requires Free(s, d)
    ensures Free(RemoveAll(s, c), d)
  {
    if s != [] {
      RemoveAllKeepsFree(s[1..], c, d);
    }
  }

  lemma {:induction false} RemoveAllConcat(a: string, b: string, c: char)
    ensures RemoveAll(a + b, c) == RemoveAll(a, c) + RemoveAll(b, c)
  {
    if a != [] {
      assert (a + b)[1..] == a[1..] + b;
      RemoveAllConcat(a[1..], b, c);
    } else {
      assert a + b == b;
    }
  }

  /** `s.replace(a, b)` for single characters. */
  function ReplaceChar(s: string, a: char, b: char): (r: string)
    ensures |r| == |s|
    ensures forall i :: 0 <= i < |s| ==> r[i] == (if s[i] == a then b else s[i])
  {
    seq(|s|, i requires 0 <= i < |s| => if s[i] == a then b else s[i])
  }

  predicate IsDigit(c: char) {
    '0' <= c <= '9'
  }

  predicate AllDigits(s: string) {
    forall i :: 0 <= i < |s| ==> IsDigit(s[i])
  }

  function DigitChar(d: nat): (c: char)
    requires d < 10
    ensures IsDigit(c) && c as int - '0' as int == d
  {
    ('0' as int + d) as char
  }

  /** The number a string of decimal digits denotes (leading zeros allowed). */
  function DigitsValue(s: string): nat
    requires AllDigits(s)
  {
    if s == [] then 0
    else DigitsValue(s[..|s| - 1]) * 10 + (s[|s| - 1] as int - '0' as int)
  }

  /** Python's `str(n)` for a non-negative integer. */
  function NatToDigits(n: nat): (r: string)
    ensures r != [] && AllDigits(r)
  {
    if n < 10 then [DigitChar(n)] else NatToDigits(n / 10) + [DigitChar(n % 10)]
  }

  /** Reading back what `str(n)` writes gives `n`. */
  lemma {:induction false} DigitsRoundTrip(n: nat)
    ensures DigitsValue(NatToDigits(n)) == n
  {
    if n >= 10 {
      var s := NatToDigits(n);
      assert s[..|s| - 1] == NatToDigits(n / 10);
      DigitsRoundTrip(n / 10);
    }
  }

  lemma NatToDigitsInjective(m: nat, n: nat)
    requires NatToDigits(m) == NatToDigits(n)
    ensures m == n
  {
    DigitsRoundTrip(m);
    DigitsRoundTrip(n);
  }

  /** A digit-only parse: `Some(value)` for a non-empty string of digits, `None` for anything else. */
  function ParseNat(s: string): (r: Option<nat>)
    ensures r.Some? <==> s != [] && AllDigits(s)
  {
    if s != [] && AllDigits(s) then Some(DigitsValue(s)) else None
  }

  lemma ParseNatRoundTrip(n: nat)
    ensures ParseNat(NatToDigits(n)) == Some(n)
  {
    DigitsRoundTrip(n);
  }

  /** Commas inserted between groups of three, counted from the right ("1085" becomes "1,085"). */
  function GroupByThree(s: string): string
    decreases |s|
  {
    if |s| <= 3 then s else GroupByThree(s[..|s| - 3]) + "," + s[|s| - 3..]
  }

  /** A number with thousands separators, as Python's `f"{n:,}"` writes it and as heights are often typed ("1,085"). */
  function GroupThousands(n: nat): string
  {
    GroupByThree(NatToDigits(n))
  }

  /** Deleting the commas of the grouped form gives back the digits. */
  lemma {:induction false} UngroupByThree(s: string)
    requires Free(s, ',')
    ensures RemoveAll(GroupByThree(s), ',') == s
  {
    if |s| > 3 {
      var head, tail := s[..|s| - 3], s[|s| - 3..];
      var g := GroupByThree(head);
      assert Free(head, ',');
      assert Free(tail, ',');
      assert GroupByThree(s) == g + [','] + tail;
      UngroupByThree(head);
      RemoveAllAbsent(tail, ',');
      RemoveCommaThen(g, tail);
      assert s == head + tail;
    } else {
      RemoveAllAbsent(s, ',');
    }
  }

  lemma RemoveCommaThen(g: string, tail: string)
    ensures RemoveAll(g + [','] + tail, ',') == RemoveAll(g, ',') + RemoveAll(tail, ',')
  {
    RemoveAllConcat(g + [','], tail, ',');
    RemoveAllConcat(g, [','], ',');
    assert RemoveAll([','], ',') == [];
  }

  /** Grouping adds only commas. */
  lemma {:induction false} GroupByThreeFree(s: string, c: char)
    requires Free(s, c) && c != ','
    ensures Free(GroupByThree(s), c)
  {
    if |s| > 3 {
      GroupByThreeFree(s[..|s| - 3], c);
    }
  }

  lemma UngroupThousands(n: nat)
    ensures RemoveAll(GroupThousands(n), ',') == NatToDigits(n)
  {
    UngroupByThree(NatToDigits(n));
  }

  /** ASCII case fold, the part of `case=False` matching this model covers. */
  function LowerChar(c: char): char {
    if 'A' <= c <= 'Z' then (c as int + 32) as char else c
  }

  function Lower(s: string): (r: string)
    ensures |r| == |s|
  {
    seq(|s|, i requires 0 <= i < |s| => LowerChar(s[i]))
  }

  /** `t` occurs in `s` as a contiguous piece. */
  predicate Contains(s: string, t: string)
    decreases |s|
  {
    t <= s || (s != [] && Contains(s[1..], t))
  }

  /** `t` occurs in `s` starting at position `k`. */
  predicate OccursAt(s: string, t: string, k: int) {
    0 <= k && k + |t| <= |s| && s[k..k + |t|] == t
  }

  /** `Contains` holds exactly when `t` occurs in `s` at some position. */
  lemma {:induction false} ContainsIffOccurs(s: string, t: string)
    ensures Contains(s, t) <==> exists k :: OccursAt(s, t, k)
    decreases |s|
  {
    if Contains(s, t) {
      if t <= s {
        assert s[0..|t|] == t;
        assert OccursAt(s, t, 0);
      } else {
        ContainsIffOccurs(s[1..], t);
        var k :| OccursAt(s[1..], t, k);
        assert s[k + 1..k + 1 + |t|] == s[1..][k..k + |t|];
        assert OccursAt(s, t, k + 1);
      }
    }
    if exists k :: OccursAt(s, t, k) {
      var k :| OccursAt(s, t, k);
      ContainsAt(s, t, k);
    }
  }

  /** Only a text at most as long can occur in `s`. */
  lemma {:induction false} ContainsLength(s: string, t: string)
    ensures Contains(s, t) ==> |t| <= |s|
  {
    if s != [] {
      ContainsLength(s[1..], t);
    }
  }

  lemma {:induction false} ContainsAt(s: string, t: string, k: nat)
    requires k + |t| <= |s| && s[k..k + |t|] == t
    ensures Contains(s, t)
  {
    if k > 0 {
      assert s[1..][k - 1..k - 1 + |t|] == t;
      ContainsAt(s[1..], t, k - 1);
    }
  }

  /** The text after the last `sep` in `s` (all of `s` when there is none). */
  function AfterLast(s: string, sep: char): (r: string)
    ensures sep !in r
  {
    if s == [] || s[|s| - 1] == sep then [] else AfterLast(s[..|s| - 1], sep) + [s[|s| - 1]]
  }

  lemma {:induction false} AfterLastOf(a: string, d: string, sep: char)
    requires sep !in d
    ensures AfterLast(a + [sep] + d, sep) == d
  {
    if d != [] {
      var s := a + [sep] + d;
      assert s[..|s| - 1] == a + [sep] + d[..|d| - 1];
      assert d[|d| - 1] in d;
      AfterLastOf(a, d[..|d| - 1], sep);
    }
  }

  /** The text after the last separator is recovered from the whole, when it holds no separator. */
  lemma SuffixAfterSeparator(a: string, d: string, b: string, e: string, sep: char)
    requires sep !in d && sep !in e
    requires a + [sep] + d == b + [sep] + e
    ensures d == e && a == b
  {
    var s := a + [sep] + d;
    AfterLastOf(a, d, sep);
    AfterLastOf(b, e, sep);
    assert a == s[..|a|];
    assert b == s[..|b|];
  }
}
