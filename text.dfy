/**
 * Character-level building blocks of the version grammar: ASCII character
 * classes, splitting and joining on a separator, cutting at the first
 * occurrence of a character, and decimal digit strings.
 */
module Text {
  import opened Wrappers

  predicate IsDigit(c: char) {
    '0' <= c <= '9'
  }

  predicate IsLetter(c: char) {
    'a' <= c <= 'z' || 'A' <= c <= 'Z'
  }

  /** The characters `[0-9A-Za-z-]` allowed inside every identifier. */
  predicate IsIdentChar(c: char) {
    IsDigit(c) || IsLetter(c) || c == '-'
  }

  /** Every character of `s` is a decimal digit. */
  predicate AllDigits(s: string) {
    forall i | 0 <= i < |s| :: IsDigit(s[i])
  }

  /** `s` matches `^\d+$`: a non-empty run of digits, leading zeros allowed. */
  predicate IsDigits(s: string) {
    |s| > 0 && AllDigits(s)
  }

  /** `s` is a non-empty run of identifier characters. */
  predicate IsIdentChars(s: string) {
    |s| > 0 && forall i | 0 <= i < |s| :: IsIdentChar(s[i])
  }

  /* ---------------------------------------------------------------- */
  /* Decimal numbers                                                   */
  /* ---------------------------------------------------------------- */

  function DigitValue(c: char): nat
    requires IsDigit(c)
  {
    (c as int - '0' as int) as nat
  }

  function DigitChar(d: nat): (c: char)
    requires d < 10
    ensures IsDigit(c) && DigitValue(c) == d
  {
    ('0' as int + d) as char
  }

  /** The value of a digit string read in base 10 (`parseInt(s, 10)`). */
  function DigitsValue(s: string): nat
    requires AllDigits(s)
  {
    if s == [] then 0 else DigitsValue(s[..|s| - 1]) * 10 + DigitValue(s[|s| - 1])
  }

  /** The canonical decimal text of `n`: no sign, no leading zero. */
  function Decimal(n: nat): (s: string)
    ensures |s| > 0 && AllDigits(s)
  {
    if n < 10 then [DigitChar(n)] else Decimal(n / 10) + [DigitChar(n % 10)]
  }

  /** A numeric identifier `0|[1-9]\d*`: digits without a leading zero. */
  predicate IsNumericIdent(s: string) {
    IsDigits(s) && (s[0] == '0' ==> |s| == 1)
  }

  lemma {:induction false} DecimalIsNumericIdent(n: nat)
    ensures IsNumericIdent(Decimal(n))
    ensures DigitsValue(Decimal(n)) == n
  {
    if n >= 10 {
      DecimalIsNumericIdent(n / 10);
      var s := Decimal(n);
      assert s[..|s| - 1] == Decimal(n / 10);
    }
  }

  lemma {:induction false} LeadingNonZeroIsPositive(s: string)
    requires IsDigits(s) && s[0] != '0'
    ensures DigitsValue(s) > 0
  {
    if |s| > 1 {
      LeadingNonZeroIsPositive(s[..|s| - 1]);
    }
  }

  /** A numeric identifier is the decimal text of its own value. */
  lemma {:induction false} NumericIdentIsDecimal(s: string)
    requires IsNumericIdent(s)
    ensures Decimal(DigitsValue(s)) == s
  {
    if |s| > 1 {
      var init := s[..|s| - 1];
      NumericIdentIsDecimal(init);
      LeadingNonZeroIsPositive(init);
      var n := DigitsValue(s);
      assert n / 10 == DigitsValue(init) && n % 10 == DigitValue(s[|s| - 1]);
      assert s == init + [s[|s| - 1]];
    }
  }

  /** Numeric identifiers and natural numbers are in one-to-one correspondence. */
  lemma NumericIdentInjective(s: string, t: string)
    requires IsNumericIdent(s) && IsNumericIdent(t)
    ensures DigitsValue(s) == DigitsValue(t) <==> s == t
  {
    NumericIdentIsDecimal(s);
    NumericIdentIsDecimal(t);
  }

  /* ---------------------------------------------------------------- */
  /* Splitting and joining on a separator                              */
  /* ---------------------------------------------------------------- */

  /** `s.split(sep)`: the segments between separators, at least one. */
  function Split(s: string, sep: char): (parts: seq<string>)
    ensures |parts| > 0
    ensures forall i | 0 <= i < |parts| :: sep !in parts[i]
  {
    if s == [] then [[]]
    else
      var rest := Split(s[1..], sep);
      if s[0] == sep then [[]] + rest else [[s[0]] + rest[0]] + rest[1..]
  }

  /** The segments of `parts` with `sep` between consecutive ones. */
  function Join(parts: seq<string>, sep: char): string
    requires |parts| > 0
  {
    if |parts| == 1 then parts[0] else parts[0] + [sep] + Join(parts[1..], sep)
  }

  /** A character other than the separator occurs in the join only if it occurs in a part. */
  lemma {:induction false} JoinAvoids(parts: seq<string>, sep: char, x: char)
    requires |parts| > 0 && x != sep
    requires forall i | 0 <= i < |parts| :: x !in parts[i]
    ensures x !in Join(parts, sep)
  {
    if |parts| > 1 {
      JoinAvoids(parts[1..], sep, x);
    }
  }

  lemma JoinThree(a: string, b: string, c: string, sep: char)
    ensures Join([a, b, c], sep) == a + [sep] + b + [sep] + c
  {
    assert [a, b, c][1..] == [b, c];
    assert [b, c][1..] == [c];
    assert Join([b, c], sep) == b + [sep] + c;
    assert a + [sep] + (b + [sep] + c) == a + [sep] + b + [sep] + c;
  }

  lemma {:induction false} JoinSplit(s: string, sep: char)
    ensures Join(Split(s, sep), sep) == s
  {
    if s != [] {
      var rest := Split(s[1..], sep);
      JoinSplit(s[1..], sep);
      if s[0] != sep {
        var parts := Split(s, sep);
        if |rest| == 1 {
          assert parts == [[s[0]] + rest[0]];
        } else {
          assert parts[1..] == rest[1..];
          assert Join(rest, sep) == rest[0] + [sep] + Join(rest[1..], sep);
        }
      }
    }
  }

  /** Splitting text that starts with a separator-free prefix. */
  lemma {:induction false} SplitPrefix(p: string, t: string, sep: char)
    requires sep !in p
    ensures Split(p + t, sep) == [p + Split(t, sep)[0]] + Split(t, sep)[1..]
  {
    var st := Split(t, sep);
    if p == [] {
      assert p + t == t;
      assert p + st[0] == st[0];
      assert st == [st[0]] + st[1..];
    } else {
      SplitPrefix(p[1..], t, sep);
      assert (p + t)[0] == p[0] && (p + t)[1..] == p[1..] + t;
      var rest := Split(p[1..] + t, sep);
      assert rest[0] == p[1..] + st[0] && rest[1..] == st[1..];
      assert [p[0]] + (p[1..] + st[0]) == p + st[0];
    }
  }

  lemma {:induction false} SplitJoin(parts: seq<string>, sep: char)
    requires |parts| > 0
    requires forall i | 0 <= i < |parts| :: sep !in parts[i]
    ensures Split(Join(parts, sep), sep) == parts
  {
    if |parts| == 1 {
      SplitPrefix(parts[0], [], sep);
      assert parts[0] + [] == parts[0];
    } else {
      var tail := Join(parts[1..], sep);
      SplitJoin(parts[1..], sep);
      SplitPrefix(parts[0], [sep] + tail, sep);
      assert parts[0] + [sep] + tail == parts[0] + ([sep] + tail);
      assert ([sep] + tail)[1..] == tail;
      var st := Split([sep] + tail, sep);
      assert st == [[]] + parts[1..];
      assert parts[0] + st[0] == parts[0];
      assert parts == [parts[0]] + parts[1..];
    }
  }

  /* ---------------------------------------------------------------- */
  /* Cutting at the first occurrence of a character                    */
  /* ---------------------------------------------------------------- */

  /**
   * The text before the first `c` in `s` and, if `c` occurs, the text after
   * it; `None` when `c` does not occur.
   */
  function CutAt(s: string, c: char): (string, Option<string>) {
    if s == [] then ([], None)
    else if s[0] == c then ([], Some(s[1..]))
    else
      var (h, t) := CutAt(s[1..], c);
      ([s[0]] + h, t)
  }

  lemma {:induction false} CutAtSound(s: string, c: char)
    ensures c !in CutAt(s, c).0
    ensures CutAt(s, c).1.None? ==> CutAt(s, c).0 == s
    ensures CutAt(s, c).1.Some? ==> CutAt(s, c).0 + [c] + CutAt(s, c).1.value == s
  {
    if s != [] && s[0] != c {
      CutAtSound(s[1..], c);
    }
  }

  lemma {:induction false} CutAtComplete(h: string, t: Option<string>, c: char)
    requires c !in h
    ensures CutAt(if t.Some? then h + [c] + t.value else h, c) == (h, t)
  {
    var s := if t.Some? then h + [c] + t.value else h;
    if h != [] {
      CutAtComplete(h[1..], t, c);
      assert s[1..] == if t.Some? then h[1..] + [c] + t.value else h[1..];
      assert [h[0]] + h[1..] == h;
    } else if t.Some? {
      assert s == [c] + t.value;
    }
  }
}
