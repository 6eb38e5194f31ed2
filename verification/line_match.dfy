/** The recogniser for the address at the head of a log line: the pattern
    `^(\d{1,3}\.){3}\d{1,3}\h` of most-ip, written out by hand. `\d` is an
    ASCII digit (the pattern is compiled without Unicode character classes)
    and `\h` is Java's horizontal-whitespace class. There is no range check
    on the groups and no IPv6 form. */
module LineMatch {
  import opened Wrappers

  predicate IsDigit(c: char) {
    '0' <= c <= '9'
  }

  /** Java's `\h`: space, tab, U+00A0, U+1680, U+180E, U+2000 to U+200A,
      U+202F, U+205F and U+3000. */
  predicate IsHorizontalSpace(c: char) {
    || c == ' '
    || c == '\t'
    || c == '\U{A0}'
    || c == '\U{1680}'
    || c == '\U{180E}'
    || ('\U{2000}' <= c <= '\U{200A}')
    || c == '\U{202F}'
    || c == '\U{205F}'
    || c == '\U{3000}'
  }

  /** s[i..i+len] consists of digits. */
  predicate DigitsAt(s: string, i: nat, len: nat) {
    i + len <= |s| && forall j :: i <= j < i + len ==> IsDigit(s[j])
  }

  /** The shape the pattern describes, with the lengths a, b, c, d of the four
      digit groups chosen freely: this is what a regular-expression engine
      searches for, and it serves as the reference for the scanner below. */
  predicate QuadShape(s: string, a: nat, b: nat, c: nat, d: nat) {
    && 1 <= a <= 3 && 1 <= b <= 3 && 1 <= c <= 3 && 1 <= d <= 3
    && a + b + c + d + 4 <= |s|
    && DigitsAt(s, 0, a) && s[a] == '.'
    && DigitsAt(s, a + 1, b) && s[a + b + 1] == '.'
    && DigitsAt(s, a + b + 2, c) && s[a + b + c + 2] == '.'
    && DigitsAt(s, a + b + c + 3, d) && IsHorizontalSpace(s[a + b + c + d + 3])
  }

  /** The pattern finds a match at the start of the line. */
  ghost predicate Accepts(line: string) {
    exists a: nat, b: nat, c: nat, d: nat :: QuadShape(line, a, b, c, d)
  }

  /** Length of the longest run of digits starting at index i. */
  function DigitRun(s: string, i: nat): (n: nat)
    requires i <= |s|
    ensures DigitsAt(s, i, n)
    ensures i + n == |s| || !IsDigit(s[i + n])
    decreases |s| - i
  {
    if i < |s| && IsDigit(s[i]) then 1 + DigitRun(s, i + 1) else 0
  }

  /** One digit group of the pattern starting at i: its digit run must have one
      to three digits and be followed by a character satisfying `sep`. A longer
      run can never match, because its fourth digit is neither '.' nor `\h`.
      Returns the index just past the separator. */
  function Group(s: string, i: nat, sep: char -> bool): (r: Option<nat>)
    requires i <= |s|
    ensures r.Some? ==> i + 2 <= r.value <= i + 4 && r.value <= |s|
  {
    var n := DigitRun(s, i);
    if 1 <= n <= 3 && i + n < |s| && sep(s[i + n]) then Some(i + n + 1) else None
  }

  predicate IsDot(c: char) {
    c == '.'
  }

  /** Length of the match at the start of `line`, if there is one. */
  function MatchLength(line: string): (r: Option<nat>)
    ensures r.Some? ==> 8 <= r.value <= 16 && r.value <= |line|
  {
    match Group(line, 0, IsDot)
    case None => None
    case Some(p1) =>
      match Group(line, p1, IsDot)
      case None => None
      case Some(p2) =>
        match Group(line, p2, IsDot)
        case None => None
        case Some(p3) => Group(line, p3, IsHorizontalSpace)
  }

  /** matcher.group(0): the whole match, including its final whitespace
      character, which is the key most-ip counts the line under. */
  function KeyOf(line: string): (r: Option<string>)
    ensures r.Some? ==> 8 <= |r.value| <= 16 && r.value <= line
    ensures r.Some? ==> IsHorizontalSpace(r.value[|r.value| - 1])
  {
    match MatchLength(line)
    case None => None
    case Some(m) =>
      MatchLengthSound(line);
      Some(line[..m])
  }

  /** A maximal digit run of length len is what DigitRun measures. */
  lemma {:induction false} DigitRunExact(s: string, i: nat, len: nat)
    requires DigitsAt(s, i, len)
    requires i + len == |s| || !IsDigit(s[i + len])
    ensures DigitRun(s, i) == len
    decreases len
  {
    if len > 0 {
      DigitRunExact(s, i + 1, len - 1);
    }
  }

  /** Every match the scanner reports has the pattern's shape. */
  lemma MatchLengthSound(line: string)
    ensures MatchLength(line).Some? ==>
              exists a: nat, b: nat, c: nat, d: nat ::
                QuadShape(line, a, b, c, d) && MatchLength(line).value == a + b + c + d + 4
  {
    if MatchLength(line).Some? {
      var a := DigitRun(line, 0);
      var b := DigitRun(line, a + 1);
      var c := DigitRun(line, a + b + 2);
      var d := DigitRun(line, a + b + c + 3);
      assert QuadShape(line, a, b, c, d);
    }
  }

  /** A group whose digit run has exactly len digits, followed by a separator. */
  lemma GroupExact(s: string, i: nat, len: nat, sep: char -> bool)
    requires 1 <= len <= 3 && DigitsAt(s, i, len) && i + len < |s|
    requires !IsDigit(s[i + len]) && sep(s[i + len])
    ensures Group(s, i, sep) == Some(i + len + 1)
  {
    DigitRunExact(s, i, len);
  }

  /** Every occurrence of the pattern's shape is found by the scanner, with
      the same length: the groups are forced to be maximal digit runs. */
  lemma MatchLengthComplete(line: string, a: nat, b: nat, c: nat, d: nat)
    requires QuadShape(line, a, b, c, d)
    ensures MatchLength(line) == Some(a + b + c + d + 4)
  {
    GroupExact(line, 0, a, IsDot);
    GroupExact(line, a + 1, b, IsDot);
    GroupExact(line, a + b + 2, c, IsDot);
    GroupExact(line, a + b + c + 3, d, IsHorizontalSpace);
  }

  /** The scanner and the pattern agree on every line: a key is produced
      exactly when the pattern matches, and the key is the matched prefix. */
  lemma KeyOfMatchesPattern(line: string)
    ensures KeyOf(line).Some? <==> Accepts(line)
    ensures forall a: nat, b: nat, c: nat, d: nat :: QuadShape(line, a, b, c, d) ==>
              KeyOf(line) == Some(line[..a + b + c + d + 4])
  {
    MatchLengthSound(line);
    forall a: nat, b: nat, c: nat, d: nat | QuadShape(line, a, b, c, d)
      ensures KeyOf(line) == Some(line[..a + b + c + d + 4])
    {
      MatchLengthComplete(line, a, b, c, d);
    }
  }

  /** The whitespace character after the address is part of the key, so the
      same address followed by a space and by a tab gives two keys. */
  lemma KeyKeepsWhitespace()
    ensures KeyOf("10.0.0.1 GET /") == Some("10.0.0.1 ")
    ensures KeyOf("10.0.0.1 GET /") != KeyOf("10.0.0.1\tGET /")
  {
    assert "10.0.0.1 GET /"[..9] == "10.0.0.1 ";
    assert QuadShape("10.0.0.1 GET /", 2, 1, 1, 1);
    MatchLengthComplete("10.0.0.1 GET /", 2, 1, 1, 1);
    KeyKeepsTab();
  }

  lemma KeyKeepsTab()
    ensures KeyOf("10.0.0.1\tGET /") == Some("10.0.0.1\t")
  {
    assert "10.0.0.1\tGET /"[..9] == "10.0.0.1\t";
    assert QuadShape("10.0.0.1\tGET /", 2, 1, 1, 1);
    MatchLengthComplete("10.0.0.1\tGET /", 2, 1, 1, 1);
  }

  /** Groups are not range-checked: 999 is accepted as a group. */
  lemma KeyNoRangeCheck()
    ensures KeyOf("999.999.999.999 x") == Some("999.999.999.999 ")
  {
    assert "999.999.999.999 x"[..16] == "999.999.999.999 ";
    assert QuadShape("999.999.999.999 x", 3, 3, 3, 3);
    MatchLengthComplete("999.999.999.999 x", 3, 3, 3, 3);
  }

  /** Rejected lines: no leading digits, and a four-digit group. */
  lemma KeyRejectsMalformed()
    ensures KeyOf("not-an-ip x") == None
    ensures KeyOf("1234.0.0.1 x") == None
  {
    DigitRunExact("1234.0.0.1 x", 0, 4);
  }

  /** Three groups are not an address. */
  lemma KeyRejectsThreeGroups()
    ensures KeyOf("10.0.0 x") == None
  {
    GroupExact("10.0.0 x", 0, 2, IsDot);
    GroupExact("10.0.0 x", 3, 1, IsDot);
    DigitRunExact("10.0.0 x", 5, 1);
  }

  /** The address must be followed by a whitespace character. */
  lemma KeyRejectsUnterminated()
    ensures KeyOf("10.0.0.1") == None
  {
    GroupExact("10.0.0.1", 0, 2, IsDot);
    GroupExact("10.0.0.1", 3, 1, IsDot);
    GroupExact("10.0.0.1", 5, 1, IsDot);
    DigitRunExact("10.0.0.1", 7, 1);
  }
}
