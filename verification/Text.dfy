/** Characters, blanks and trimming, as the template runtime's regular expressions and `trim` see them. */
module Text {

  /** JavaScript white space and line terminators: what `trim` removes and `\s` matches. */
  predicate IsSpace(c: char) {
    || c == ' ' || '\t' <= c <= '\r'
    || c == '\U{00A0}' || c == '\U{1680}' || '\U{2000}' <= c <= '\U{200A}'
    || c == '\U{2028}' || c == '\U{2029}' || c == '\U{202F}' || c == '\U{205F}'
    || c == '\U{3000}' || c == '\U{FEFF}'
  }

  predicate IsDigit(c: char) { '0' <= c <= '9' }

  predicate IsLower(c: char) { 'a' <= c <= 'z' }

  predicate IsUpper(c: char) { 'A' <= c <= 'Z' }

  predicate IsIdentStart(c: char) { IsLower(c) || IsUpper(c) || c == '_' || c == '$' }

  predicate IsIdentPart(c: char) { IsIdentStart(c) || IsDigit(c) }

  predicate Blank(s: string) { forall i :: 0 <= i < |s| ==> IsSpace(s[i]) }

  /** Nonempty, with no white space at either end: what trimming leaves alone. */
  predicate Tight(s: string) { |s| > 0 && !IsSpace(s[0]) && !IsSpace(s[|s| - 1]) }

  function TrimLeft(s: string): (t: string)
    ensures |t| <= |s|
  {
    if s != "" && IsSpace(s[0]) then TrimLeft(s[1..]) else s
  }

  function TrimRight(s: string): (t: string)
    ensures |t| <= |s|
  {
    if s != "" && IsSpace(s[|s| - 1]) then TrimRight(s[..|s| - 1]) else s
  }

  function Trim(s: string): (t: string)
    ensures |t| <= |s|
  {
    TrimRight(TrimLeft(s))
  }

  lemma {:induction false} TrimLeftPadded(pre: string, s: string)
    requires Blank(pre) && Tight(s)
    ensures TrimLeft(pre + s) == s
  {
    if pre == "" {
      assert pre + s == s;
    } else {
      assert (pre + s)[1..] == pre[1..] + s;
      TrimLeftPadded(pre[1..], s);
    }
  }

  lemma {:induction false} TrimRightPadded(s: string, post: string)
    requires Blank(post) && Tight(s)
    ensures TrimRight(s + post) == s
  {
    if post == "" {
      assert s + post == s;
    } else {
      var t := s + post;
      assert t[..|t| - 1] == s + post[..|post| - 1];
      TrimRightPadded(s, post[..|post| - 1]);
    }
  }

  /** Trimming removes exactly the padding around a tight text. */
  lemma {:induction false} TrimPadded(pre: string, s: string, post: string)
    requires Blank(pre) && Blank(post) && Tight(s)
    ensures Trim(pre + s + post) == s
  {
    if |post| == 0 {
      assert pre + s + post == pre + s;
      TrimLeftPadded(pre, s);
      assert TrimRight(s) == s;
    } else {
      TrimLeftSkips(pre, s + post);
      assert pre + s + post == pre + (s + post);
      TrimRightPadded(s, post);
    }
  }

  lemma {:induction false} TrimLeftSkips(pre: string, t: string)
    requires Blank(pre) && t != "" && !IsSpace(t[0])
    ensures TrimLeft(pre + t) == t
  {
    if pre == "" {
      assert pre + t == t;
    } else {
      assert (pre + t)[1..] == pre[1..] + t;
      TrimLeftSkips(pre[1..], t);
    }
  }

  lemma {:induction false} TrimLeftBlank(s: string)
    ensures TrimLeft(s) == "" <==> Blank(s)
  {
    if s != "" && IsSpace(s[0]) {
      TrimLeftBlank(s[1..]);
      assert Blank(s) <==> Blank(s[1..]) by {
        assert forall i :: 0 < i < |s| ==> s[i] == s[1..][i - 1];
      }
    }
  }

  lemma {:induction false} TrimRightBlank(s: string)
    ensures TrimRight(s) == "" <==> Blank(s)
  {
    if s != "" && IsSpace(s[|s| - 1]) {
      TrimRightBlank(s[..|s| - 1]);
    }
  }

  /** A text trims to nothing exactly when it is all white space. */
  lemma {:induction false} TrimIsEmpty(s: string)
    ensures Trim(s) == "" <==> Blank(s)
  {
    TrimLeftBlank(s);
    TrimRightBlank(TrimLeft(s));
    if !Blank(s) {
      TrimLeftFirst(s);
    }
  }

  lemma {:induction false} TrimLeftFirst(s: string)
    requires !Blank(s)
    ensures TrimLeft(s) != "" && !IsSpace(TrimLeft(s)[0])
  {
    if IsSpace(s[0]) {
      assert exists i :: 0 <= i < |s| && !IsSpace(s[i]);
      var i :| 0 <= i < |s| && !IsSpace(s[i]);
      assert s[1..][i - 1] == s[i];
      TrimLeftFirst(s[1..]);
    }
  }

  /** Length of the longest identifier at the front of s, 0 when there is none: a match of IDENT_RE. */
  function IdentLength(s: string): (n: nat)
    ensures n <= |s|
  {
    if s != "" && IsIdentStart(s[0]) then 1 + PartLength(s[1..]) else 0
  }

  function PartLength(s: string): (n: nat)
    ensures n <= |s|
  {
    if s != "" && IsIdentPart(s[0]) then 1 + PartLength(s[1..]) else 0
  }

  function DigitsLength(s: string): (n: nat)
    ensures n <= |s|
  {
    if s != "" && IsDigit(s[0]) then 1 + DigitsLength(s[1..]) else 0
  }

  predicate IsIdent(s: string) {
    |s| > 0 && IsIdentStart(s[0]) && forall i :: 0 < i < |s| ==> IsIdentPart(s[i])
  }

  predicate IsDigits(s: string) { |s| > 0 && forall i :: 0 <= i < |s| ==> IsDigit(s[i]) }

  /** The greedy match stops where the name ends, whatever non-identifier text follows. */
  lemma {:induction false} IdentLengthOf(name: string, rest: string)
    requires IsIdent(name) && (rest == "" || !IsIdentPart(rest[0]))
    ensures IdentLength(name + rest) == |name|
  {
    assert (name + rest)[1..] == name[1..] + rest;
    PartLengthOf(name[1..], rest);
  }

  lemma {:induction false} PartLengthOf(name: string, rest: string)
    requires forall i :: 0 <= i < |name| ==> IsIdentPart(name[i])
    requires rest == "" || !IsIdentPart(rest[0])
    ensures PartLength(name + rest) == |name|
  {
    if name == "" {
      assert name + rest == rest;
    } else {
      assert (name + rest)[1..] == name[1..] + rest;
      PartLengthOf(name[1..], rest);
    }
  }

  lemma {:induction false} DigitsLengthOf(name: string, rest: string)
    requires forall i :: 0 <= i < |name| ==> IsDigit(name[i])
    requires rest == "" || !IsDigit(rest[0])
    ensures DigitsLength(name + rest) == |name|
  {
    if name == "" {
      assert name + rest == rest;
    } else {
      assert (name + rest)[1..] == name[1..] + rest;
      DigitsLengthOf(name[1..], rest);
    }
  }
}
