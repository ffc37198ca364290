/** Decimal numerals and fixed-width fields, with the reader that undoes them. */
module Text {

  function Digit(n: nat): (c: char)
    requires n < 10
    ensures IsDigit(c) && DigitValue(c) == n
  {
    '0' + n as char
  }

  predicate IsDigit(c: char) { '0' <= c <= '9' }

  function DigitValue(c: char): nat
    requires IsDigit(c)
    ensures DigitValue(c) < 10
  {
    c as int - '0' as int
  }

  predicate AllDigits(s: string) { forall i :: 0 <= i < |s| ==> IsDigit(s[i]) }

  /** `str(n)`. */
  function Decimal(n: nat): (s: string)
    ensures s != [] && AllDigits(s)
  {
    if n < 10 then [Digit(n)] else Decimal(n / 10) + [Digit(n % 10)]
  }

  /** `int(s)` on a string of digits. */
  function Value(s: string): nat
    requires AllDigits(s)
  {
    if s == [] then 0 else Value(s[..|s| - 1]) * 10 + DigitValue(s[|s| - 1])
  }

  function Pow10(w: nat): nat { if w == 0 then 1 else 10 * Pow10(w - 1) }

  /** A zero-padded field of `width` digits. */
  function Padded(width: nat, n: nat): (s: string)
    ensures |s| == width && AllDigits(s)
  {
    if width == 0 then "" else Padded(width - 1, n / 10) + [Digit(n % 10)]
  }

  lemma {:induction false} DecimalReads(n: nat)
    ensures Value(Decimal(n)) == n
  {
    if n < 10 {
      assert Decimal(n)[..0] == [];
    } else {
      DecimalReads(n / 10);
      assert Decimal(n)[..|Decimal(n)| - 1] == Decimal(n / 10);
    }
  }

  lemma {:induction false} PaddedReads(width: nat, n: nat)
    requires n < Pow10(width)
    ensures Value(Padded(width, n)) == n
  {
    if width > 0 {
      PaddedReads(width - 1, n / 10);
      assert Padded(width, n)[..width - 1] == Padded(width - 1, n / 10);
    }
  }

  // ---------------------------------------------------------------- trimming and folding

  predicate IsNumber(s: string) { s != "" && AllDigits(s) }

  predicate IsSuperscript(c: char) { c == '\U{b2}' || c == '\U{b3}' || c == '\U{b9}' }

  /** `s.isdigit()`, which takes superscripts for digits. */
  predicate LooksNumeric(s: string) { s != "" && forall i :: 0 <= i < |s| ==> IsDigit(s[i]) || IsSuperscript(s[i]) }

  /** How long a numeral `int` converts. */
  const MAX_DIGITS: nat := 4300

  predicate Converts(s: string) { IsNumber(s) && |s| <= MAX_DIGITS }

  /** Passes for a number and then cannot be converted: a superscript in it, or too many digits. */
  predicate Jams(s: string) { LooksNumeric(s) && !Converts(s) }

  predicate IsBlank(c: char) {
    c == ' ' || '\t' <= c <= '\r' || '\U{1c}' <= c <= '\U{1f}' || c == '\U{85}' || c == '\U{a0}'
  }

  /** `s.strip()`. */
  function Strip(s: string): (r: string)
    ensures |r| <= |s|
    decreases |s|
  {
    if s != "" && IsBlank(s[0]) then Strip(s[1..])
    else if s != "" && IsBlank(s[|s| - 1]) then Strip(s[..|s| - 1])
    else s
  }

  predicate IsControl(c: char) { c < ' ' || c == '\U{7f}' }

  function WithoutControl(s: string): (r: string)
    ensures |r| <= |s|
  {
    if s == "" then "" else (if IsControl(s[0]) then "" else [s[0]]) + WithoutControl(s[1..])
  }

  const LIMIT: nat := 200

  /** What a free-text field keeps: no control characters, trimmed, cut to a sane length. */
  function CleanText(s: string): (r: string)
    ensures |r| <= LIMIT
  {
    var stripped := Strip(WithoutControl(s));
    if |stripped| <= LIMIT then stripped else stripped[..LIMIT]
  }

  function LowerChar(c: char): char {
    if 'A' <= c <= 'Z' || ('\U{c0}' <= c <= '\U{de}' && c != '\U{d7}') then c - 'A' + 'a' else c
  }

  /** `s.lower()`. */
  function Lower(s: string): (r: string)
    ensures |r| == |s|
  {
    if s == "" then "" else [LowerChar(s[0])] + Lower(s[1..])
  }

  lemma {:induction false} LowerAt(s: string)
    ensures forall i :: 0 <= i < |s| ==> Lower(s)[i] == LowerChar(s[i])
  {
    if s != "" { LowerAt(s[1..]); }
  }

  /** Trimming leaves a text that begins and ends with something visible. */
  lemma {:induction false} Stripped(s: string)
    ensures var r := Strip(s); r != "" ==> !IsBlank(r[0]) && !IsBlank(r[|r| - 1])
    decreases |s|
  {
    if s != "" && IsBlank(s[0]) { Stripped(s[1..]); }
    else if s != "" && IsBlank(s[|s| - 1]) { Stripped(s[..|s| - 1]); }
  }

  /** What passes for a number and then fails to convert, spelt out. */
  lemma JamsAre(s: string)
    ensures Jams(s) <==>
              s != "" && (forall c :: c in s ==> '0' <= c <= '9' || c in {'\U{b2}', '\U{b3}', '\U{b9}'})
              && (|s| > 4300 || exists c :: c in s && c in {'\U{b2}', '\U{b3}', '\U{b9}'})
  {
    assert forall i :: 0 <= i < |s| ==> s[i] in s;
  }

  predicate AllBlank(s: string) { forall c :: c in s ==> IsBlank(c) }

  lemma BlanksAre(c: char)
    ensures IsBlank(c)
            <==> c in {' ', '\t', '\n', '\U{b}', '\U{c}', '\r', '\U{85}', '\U{a0}'}
                 || c in {'\U{1c}', '\U{1d}', '\U{1e}', '\U{1f}'}
  {
  }

  /** Trimming takes blanks off both ends and nothing else. */
  lemma {:induction false} StripIs(s: string) returns (front: string, back: string)
    ensures s == front + Strip(s) + back && AllBlank(front) && AllBlank(back)
    ensures Strip(s) != "" ==> !IsBlank(Strip(s)[0]) && !IsBlank(Strip(s)[|Strip(s)| - 1])
    decreases |s|
  {
    Stripped(s);
    if s != "" && IsBlank(s[0]) {
      front, back := StripIs(s[1..]);
      front := [s[0]] + front;
    } else if s != "" && IsBlank(s[|s| - 1]) {
      front, back := StripIs(s[..|s| - 1]);
      back := back + [s[|s| - 1]];
    } else {
      front, back := "", "";
    }
  }

  /** Cleaning works character by character: the control characters go, the rest stays in order. */
  lemma {:induction false} WithoutControlSplits(a: string, b: string)
    ensures WithoutControl(a + b) == WithoutControl(a) + WithoutControl(b)
  {
    if a == "" { assert a + b == b; } else {
      assert (a + b)[1..] == a[1..] + b;
      WithoutControlSplits(a[1..], b);
    }
  }

  lemma ControlsAre(c: char)
    ensures WithoutControl([c]) == if c < '\U{20}' || c == '\U{7f}' then "" else [c]
  {
    assert [c][1..] == "";
  }

  /** A cleaned text is the trimmed text without control characters, or its first 200 characters. */
  lemma CleanTextIs(s: string)
    ensures var kept := Strip(WithoutControl(s));
            if |kept| <= 200 then CleanText(s) == kept else |CleanText(s)| == 200 && CleanText(s) <= kept
  {
  }

  /** Zeros in front do not change a number. */
  lemma {:induction false} LeadingZero(s: string)
    requires AllDigits(s)
    ensures AllDigits("0" + s) && Value("0" + s) == Value(s)
  {
    if s == "" {
      assert "0" + s == "0" && "0"[..0] == "";
    } else {
      LeadingZero(s[..|s| - 1]);
      assert ("0" + s)[..|s|] == "0" + s[..|s| - 1];
    }
  }

  /** Texts that differ in the case of letters alone. */
  ghost predicate SameLetters(s: string, t: string) {
    |s| == |t| && forall i :: 0 <= i < |s| ==>
      || s[i] == t[i]
      || ('a' <= t[i] <= 'z' && s[i] == t[i] - '\U{20}') || ('a' <= s[i] <= 'z' && t[i] == s[i] - '\U{20}')
      || ('\U{e0}' <= t[i] <= '\U{fe}' && t[i] != '\U{f7}' && s[i] == t[i] - '\U{20}')
      || ('\U{e0}' <= s[i] <= '\U{fe}' && s[i] != '\U{f7}' && t[i] == s[i] - '\U{20}')
  }

  /** Characters that are no capital letter stay as they are; the multiplication sign among the capitals is none. */
  lemma LowerKeeps(c: char)
    requires c < 'A' || 'Z' < c < '\U{c0}' || c == '\U{d7}' || '\U{de}' < c
    ensures LowerChar(c) == c
  {
  }

  lemma {:induction false} LowerSame(s: string, t: string)
    requires SameLetters(s, t)
    ensures Lower(s) == Lower(t)
  {
    if s != "" { LowerSame(s[1..], t[1..]); }
  }

  lemma {:induction false} StripSame(s: string, t: string)
    requires SameLetters(s, t)
    ensures SameLetters(Strip(s), Strip(t))
    decreases |s|
  {
    if s != "" {
      assert IsBlank(s[0]) <==> IsBlank(t[0]);
      assert IsBlank(s[|s| - 1]) <==> IsBlank(t[|t| - 1]);
      if IsBlank(s[0]) { StripSame(s[1..], t[1..]); }
      else if IsBlank(s[|s| - 1]) { StripSame(s[..|s| - 1], t[..|t| - 1]); }
    }
  }
}
