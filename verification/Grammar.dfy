/**
 * The words of the expression language, spelled out letter by letter: names, numbers, quotes and blanks.
 * Nothing here is taken from the scanners; the lemmas say that the scanners take exactly these.
 */
module Grammar {
  import opened Options
  import opened Text
  import opened Brackets
  import opened Expr

  const SMALL := "abcdefghijklmnopqrstuvwxyz"
  const LARGE := "ABCDEFGHIJKLMNOPQRSTUVWXYZ"
  const DIGITS := "0123456789"
  const NAME_START := SMALL + LARGE + "_$"
  const NAME_PART := NAME_START + DIGITS
  const QUOTES := "\"'"
  const BLANKS := " \t\n\U{000B}\U{000C}\r\U{00A0}\U{1680}"
                  + "\U{2000}\U{2001}\U{2002}\U{2003}\U{2004}\U{2005}\U{2006}\U{2007}\U{2008}\U{2009}\U{200A}"
                  + "\U{2028}\U{2029}\U{202F}\U{205F}\U{3000}\U{FEFF}"

  predicate Over(s: string, alphabet: string) { forall i :: 0 <= i < |s| ==> s[i] in alphabet }

  predicate IsName(s: string) { s != "" && s[0] in NAME_START && Over(s, NAME_PART) }

  predicate IsWhole(s: string) { s != "" && Over(s, DIGITS) }

  predicate IsGap(s: string) { Over(s, BLANKS) }

  /** An optional minus sign, whole digits, and optionally a point and more digits. */
  datatype Number = Number(negative: bool, whole: string, fraction: Option<string>)

  predicate IsDecimal(n: Number) { IsWhole(n.whole) && (n.fraction.Some? ==> IsWhole(n.fraction.value)) }

  function NumberText(n: Number): string {
    (if n.negative then "-" else "") + n.whole + (if n.fraction.Some? then "." + n.fraction.value else "")
  }

  // ---------------------------------------------------------------- the scanners take exactly these

  lemma {:induction false} SmallExactly(c: char)
    ensures IsLower(c) <==> c in SMALL
  {
    if IsLower(c) {
      assert SMALL[c as int - 'a' as int] == c;
    }
  }

  lemma {:induction false} LargeExactly(c: char)
    ensures IsUpper(c) <==> c in LARGE
  {
    if IsUpper(c) {
      assert LARGE[c as int - 'A' as int] == c;
    }
  }

  lemma {:induction false} DigitExactly(c: char)
    ensures IsDigit(c) <==> c in DIGITS
  {
    if IsDigit(c) {
      assert DIGITS[c as int - '0' as int] == c;
    }
  }

  lemma {:induction false} SpaceExactly(c: char)
    ensures IsSpace(c) <==> c in BLANKS
  {
    var a, b := " \t\n\U{000B}\U{000C}\r\U{00A0}\U{1680}", "\U{2028}\U{2029}\U{202F}\U{205F}\U{3000}\U{FEFF}";
    var m := "\U{2000}\U{2001}\U{2002}\U{2003}\U{2004}\U{2005}\U{2006}\U{2007}\U{2008}\U{2009}\U{200A}";
    assert BLANKS == a + m + b;
    assert c in BLANKS <==> c in a || c in m || c in b;
    if '\U{2000}' <= c <= '\U{200A}' {
      assert m[c as int - 0x2000] == c;
    }
    assert c in m ==> '\U{2000}' <= c <= '\U{200A}';
    assert a == [' ', '\t', '\n', '\U{000B}', '\U{000C}', '\r', '\U{00A0}', '\U{1680}'];
    assert b == ['\U{2028}', '\U{2029}', '\U{202F}', '\U{205F}', '\U{3000}', '\U{FEFF}'];
  }

  lemma {:induction false} StartExactly(c: char)
    ensures IsIdentStart(c) <==> c in NAME_START
  {
    SmallExactly(c);
    LargeExactly(c);
    assert c in "_$" <==> c == '_' || c == '$' by {
      assert "_$" == ['_', '$'];
    }
    hide SMALL, LARGE;
    assert c in NAME_START <==> c in SMALL || c in LARGE || c in "_$";
  }

  lemma {:induction false} PartExactly(c: char)
    ensures IsIdentPart(c) <==> c in NAME_PART
  {
    StartExactly(c);
    DigitExactly(c);
    hide NAME_START, DIGITS;
    assert c in NAME_PART <==> c in NAME_START || c in DIGITS;
  }

  lemma {:induction false} QuoteExactly(c: char)
    ensures IsQuote(c) <==> c in QUOTES
  {
    assert QUOTES == ['"', '\''];
  }

  lemma {:induction false} NameExactly(s: string)
    ensures IsIdent(s) <==> IsName(s)
  {
    hide IsIdentStart, IsIdentPart, NAME_START, NAME_PART;
    if s != "" {
      StartExactly(s[0]);
      StartIsPart(s[0]);
    }
    forall i | 0 <= i < |s| ensures IsIdentPart(s[i]) <==> s[i] in NAME_PART {
      PartExactly(s[i]);
    }
  }

  lemma {:induction false} StartIsPart(c: char)
    ensures IsIdentStart(c) ==> IsIdentPart(c)
  {}

  lemma {:induction false} WholeExactly(s: string)
    ensures IsDigits(s) <==> IsWhole(s)
  {
    hide IsDigit, DIGITS;
    forall i | 0 <= i < |s| ensures IsDigit(s[i]) <==> s[i] in DIGITS {
      DigitExactly(s[i]);
    }
  }

  lemma {:induction false} GapExactly(s: string)
    ensures Blank(s) <==> IsGap(s)
  {
    hide IsSpace, BLANKS;
    forall i | 0 <= i < |s| ensures IsSpace(s[i]) <==> s[i] in BLANKS {
      SpaceExactly(s[i]);
    }
  }

  /** The number test takes the decimals and nothing else. */
  lemma {:induction false} NumberExactly(e: string)
    ensures IsNumber(e) <==> exists n: Number :: IsDecimal(n) && e == NumberText(n)
  {
    hide DIGITS, IsDigits, IsWhole;
    if IsNumber(e) {
      var n := NumberOf(e);
      assert IsDecimal(n) && e == NumberText(n);
    }
    if n: Number :| IsDecimal(n) && e == NumberText(n) {
      DecimalIsNumber(n);
    }
  }

  lemma {:induction false} NumberOf(e: string) returns (n: Number)
    requires IsNumber(e)
    ensures IsDecimal(n) && e == NumberText(n)
  {
    hide IsDecimal;
    if e[0] == '-' {
      var m := UnsignedOf(e[1..]);
      n := m.(negative := true);
      SameDecimal(m, n);
      assert e == "-" + e[1..];
    } else {
      n := UnsignedOf(e);
    }
  }

  lemma {:induction false} SameDecimal(m: Number, n: Number)
    requires !m.negative && n == m.(negative := true)
    ensures IsDecimal(n) <==> IsDecimal(m)
    ensures NumberText(n) == "-" + NumberText(m)
  {}

  lemma {:induction false} UnsignedOf(u: string) returns (n: Number)
    requires var k := DigitsLength(u); k > 0 && (k == |u| || (u[k] == '.' && IsDigits(u[k + 1..])))
    ensures !n.negative && IsDecimal(n) && u == NumberText(n)
  {
    hide DIGITS, IsWhole, IsDigits;
    var k := DigitsLength(u);
    WholePrefix(u);
    if k == |u| {
      n := Number(false, u, None);
      assert u[..k] == u;
    } else {
      n := Number(false, u[..k], Some(u[k + 1..]));
      WholeExactly(u[k + 1..]);
      assert u == u[..k] + ("." + u[k + 1..]);
    }
  }

  lemma {:induction false} WholePrefix(u: string)
    requires DigitsLength(u) > 0
    ensures IsWhole(u[..DigitsLength(u)])
  {
    hide DIGITS, IsWhole;
    LongestDigits(u);
    WholeExactly(u[..DigitsLength(u)]);
  }

  lemma {:induction false} DecimalIsNumber(n: Number)
    requires IsDecimal(n)
    ensures IsNumber(NumberText(n))
  {
    hide DIGITS, IsWhole;
    var e := NumberText(n);
    var rest := if n.fraction.Some? then "." + n.fraction.value else "";
    WholeExactly(n.whole);
    DigitsLengthOf(n.whole, rest);
    var u := n.whole + rest;
    assert e == (if n.negative then "-" + u else u);
    assert n.negative ==> e[1..] == u;
    assert u[0] == n.whole[0];
    if n.fraction.Some? {
      WholeExactly(n.fraction.value);
      assert u[|n.whole|] == '.' && u[|n.whole| + 1..] == n.fraction.value;
    }
  }

  lemma {:induction false} LongestDigits(s: string)
    ensures forall i :: 0 <= i < DigitsLength(s) ==> IsDigit(s[i])
    ensures DigitsLength(s) < |s| ==> !IsDigit(s[DigitsLength(s)])
  {
    if s != "" && IsDigit(s[0]) {
      LongestDigits(s[1..]);
      assert forall i :: 0 < i < |s| ==> s[i] == s[1..][i - 1];
    }
  }

  lemma {:induction false} LongestParts(s: string)
    ensures forall i :: 0 <= i < PartLength(s) ==> IsIdentPart(s[i])
    ensures PartLength(s) < |s| ==> !IsIdentPart(s[PartLength(s)])
  {
    hide IsIdentPart;
    if s != "" && IsIdentPart(s[0]) {
      LongestParts(s[1..]);
      assert forall i :: 0 < i < |s| ==> s[i] == s[1..][i - 1];
    }
  }

  /** What the identifier match takes is the longest name that the text begins with, if it begins with one. */
  lemma {:induction false} LongestName(s: string, k: nat)
    requires k <= |s|
    ensures var n := IdentLength(s); (n > 0 ==> IsName(s[..n])) && (k > n ==> !IsName(s[..k]))
  {
    hide IsIdentStart, IsIdentPart, IsName;
    var n := IdentLength(s);
    NameExactly(s[..n]);
    NameExactly(s[..k]);
    if s != "" {
      LongestParts(s[1..]);
      assert forall i :: 0 < i < |s| ==> s[i] == s[1..][i - 1];
      if k > n > 0 {
        assert s[..k][n] == s[n];
      }
    }
  }

  /** A text is taken for a quoted one exactly when it is one: the same quote mark at both ends. */
  lemma {:induction false} QuotedExactly(e: string)
    ensures IsQuoted(e) <==> exists q: char, b: string :: q in QUOTES && e == [q] + b + [q]
  {
    hide IsQuote, QUOTES;
    if IsQuoted(e) {
      QuoteExactly(e[0]);
      assert e == [e[0]] + e[1..|e| - 1] + [e[0]];
    }
    if q: char, b: string :| q in QUOTES && e == [q] + b + [q] {
      QuoteExactly(q);
    }
  }

  /** Trimming takes a gap off either end, and as much of one as there is. */
  lemma {:induction false} TrimExactly(s: string) returns (pre: string, post: string)
    ensures IsGap(pre) && IsGap(post) && s == pre + Trim(s) + post
    ensures var t := Trim(s); t != "" ==> t[0] !in BLANKS && t[|t| - 1] !in BLANKS
  {
    hide IsSpace, BLANKS;
    pre := TrimmedLeft(s);
    post := TrimmedRight(TrimLeft(s));
    GapExactly(pre);
    GapExactly(post);
    var t := Trim(s);
    if t != "" {
      SpaceExactly(t[0]);
      SpaceExactly(t[|t| - 1]);
    }
  }

  lemma {:induction false} TrimmedLeft(s: string) returns (pre: string)
    ensures Blank(pre) && s == pre + TrimLeft(s)
    ensures TrimLeft(s) != "" ==> !IsSpace(TrimLeft(s)[0])
  {
    hide IsSpace;
    if s != "" && IsSpace(s[0]) {
      pre := TrimmedLeft(s[1..]);
      pre := [s[0]] + pre;
    } else {
      pre := "";
    }
  }

  lemma {:induction false} TrimmedRight(s: string) returns (post: string)
    ensures Blank(post) && s == TrimRight(s) + post
    ensures TrimRight(s) != "" ==> !IsSpace(TrimRight(s)[|TrimRight(s)| - 1]) && TrimRight(s)[0] == s[0]
  {
    hide IsSpace;
    if s != "" && IsSpace(s[|s| - 1]) {
      post := TrimmedRight(s[..|s| - 1]);
      post := post + [s[|s| - 1]];
    } else {
      post := "";
    }
  }

  /** The counters count: openings less closings of the brackets they look at. */
  lemma {:induction false} DepthExactly(s: string)
    ensures Depth(Round, s) + multiset(s)[')'] == multiset(s)['(']
    ensures Depth(Square, s) + multiset(s)[']'] == multiset(s)['[']
    ensures Depth(Both, s) == Depth(Round, s) + Depth(Square, s)
  {
    if s != "" {
      var n := |s| - 1;
      DepthExactly(s[..n]);
      assert s == s[..n] + [s[n]];
      assert multiset(s) == multiset(s[..n]) + multiset{s[n]};
    }
  }

  /**
   * Where a comparison is taken to start: at an `=` or `!` followed by `=` and not preceded by either,
   * with as many brackets closed as opened before it and something other than blanks to its left.
   */
  lemma {:induction false} SplitExactly(e: string, i: nat)
    requires i < |e|
    ensures var before := multiset(e[..i]);
            IsSplit(e, i) <==>
              && e[i] in "=!" && i + 1 < |e| && e[i + 1] == '='
              && (i == 0 || e[i - 1] !in "=!")
              && before['('] + before['['] == before[')'] + before[']']
              && exists j :: 0 <= j < i && e[j] !in BLANKS
  {
    hide IsSpace, BLANKS;
    DepthExactly(e[..i]);
    forall j | 0 <= j < i ensures IsSpace(e[j]) <==> e[j] in BLANKS {
      SpaceExactly(e[j]);
    }
    assert "=!" == ['=', '!'];
    assert forall j :: 0 <= j < i ==> e[..i][j] == e[j];
  }

  /** Outer parentheses wrap the whole: no earlier closing one brings the count back to zero. */
  lemma {:induction false} WrapsExactly(e: string)
    ensures WrapsWhole(e) <==>
            forall k :: 0 <= k < |e| - 1 && e[k] == ')' ==> multiset(e[..k + 1])['('] != multiset(e[..k + 1])[')']
  {
    forall k | 0 <= k < |e| && e[k] == ')'
      ensures Depth(Round, e[..k + 1]) == 0 <==> multiset(e[..k + 1])['('] == multiset(e[..k + 1])[')']
    {
      DepthExactly(e[..k + 1]);
    }
  }
}
