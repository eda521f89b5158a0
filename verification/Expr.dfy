/**
 * The template expression language: `resolve` reads a raw string and evaluates it in one go.
 *
 * The values an expression denotes belong to the host page, so everything here is stated over an
 * arbitrary host: its constants, its property reads, its truthiness and its two equalities.
 */
module Expr {
  import opened Options
  import opened Text
  import opened Brackets

  datatype Host<!V> = Host(
    undef: V,
    nul: V,
    boolean: bool -> V,
    number: string -> V,
    str: string -> V,
    root: string -> V,
    get: (V, V) -> V,
    nullish: V -> bool,
    truthy: V -> bool,
    strictEq: (V, V) -> bool,
    looseEq: (V, V) -> bool)

  /** A property read that a nullish value answers with undefined. */
  function Member<V>(h: Host<V>, cur: V, key: V): V {
    if h.nullish(cur) then h.undef else h.get(cur, key)
  }

  datatype Op = StrictEq | StrictNe | LooseEq | LooseNe

  function OpText(op: Op): (t: string)
    ensures 2 <= |t| <= 3
  {
    match op
    case StrictEq => "==="
    case StrictNe => "!=="
    case LooseEq => "=="
    case LooseNe => "!="
  }

  function Compare<V>(h: Host<V>, op: Op, a: V, b: V): V {
    match op
    case StrictEq => h.boolean(h.strictEq(a, b))
    case StrictNe => h.boolean(!h.strictEq(a, b))
    case LooseEq => h.boolean(h.looseEq(a, b))
    case LooseNe => h.boolean(!h.looseEq(a, b))
  }

  // ---------------------------------------------------------------- what the scanners look for

  predicate EqOrBang(c: char) { c == '=' || c == '!' }

  /** The outer parentheses of e belong to each other. */
  predicate WrapsWhole(e: string) {
    forall k :: 0 <= k < |e| - 1 && e[k] == ')' ==> Depth(Round, e[..k + 1]) != 0
  }

  /** A comparison operator starts at i, outside all brackets and with something to its left. */
  predicate IsSplit(e: string, i: nat)
    requires i < |e|
  {
    && Depth(Both, e[..i]) == 0
    && EqOrBang(e[i])
    && i + 1 < |e| && e[i + 1] == '='
    && !(i > 0 && EqOrBang(e[i - 1]))
    && !Blank(e[..i])
  }

  function FirstSplit(e: string, i: nat): (r: Option<nat>)
    requires i <= |e|
    ensures r.Some? ==> i <= r.value < |e| && IsSplit(e, r.value)
    ensures forall j :: i <= j < (if r.Some? then r.value else |e|) ==> !IsSplit(e, j)
    decreases |e| - i
  {
    if i == |e| then None else if IsSplit(e, i) then Some(i) else FirstSplit(e, i + 1)
  }

  function OpAt(e: string, i: nat): Op
    requires i < |e|
  {
    if i + 2 < |e| && e[i + 2] == '=' then
      if e[i] == '=' then StrictEq else StrictNe
    else
      if e[i] == '=' then LooseEq else LooseNe
  }

  /** Index of the square bracket that closes the one already opened d times, from j on. */
  function CloseIndex(e: string, j: nat, d: nat): (r: Option<nat>)
    requires j <= |e|
    ensures r.Some? ==> j <= r.value < |e|
    decreases |e| - j
  {
    if j == |e| then None
    else if e[j] == '[' then CloseIndex(e, j + 1, d + 1)
    else if e[j] == ']' then
      if d <= 1 then Some(j) else CloseIndex(e, j + 1, d - 1)
    else CloseIndex(e, j + 1, d)
  }

  /** NUMBER_RE: an optional sign, digits, and optionally a point and more digits. */
  predicate IsNumber(e: string) {
    var u := if e != "" && e[0] == '-' then e[1..] else e;
    var n := DigitsLength(u);
    n > 0 && (n == |u| || (u[n] == '.' && IsDigits(u[n + 1..])))
  }

  predicate IsQuote(c: char) { c == '"' || c == '\'' }

  predicate IsQuoted(e: string) { |e| >= 2 && IsQuote(e[0]) && e[|e| - 1] == e[0] }

  // ---------------------------------------------------------------- resolve

  function Resolve<V>(h: Host<V>, src: string): V
    decreases |src|, 3, 0
  {
    Read(h, Trim(src))
  }

  /** The cases of `resolve`, on text that is already trimmed. */
  function Read<V>(h: Host<V>, e: string): V
    decreases |e|, 2, 0
  {
    if e == "" then h.undef
    else if e[0] == '(' && e[|e| - 1] == ')' && WrapsWhole(e) then
      Resolve(h, e[1..|e| - 1])
    else
      match FirstSplit(e, 0)
      case Some(i) =>
        var op := OpAt(e, i);
        Compare(h, op, Resolve(h, e[..i]), Resolve(h, e[i + |OpText(op)|..]))
      case None =>
        if e[0] == '!' then h.boolean(!h.truthy(Resolve(h, e[1..])))
        else if e == "true" then h.boolean(true)
        else if e == "false" then h.boolean(false)
        else if e == "null" then h.nul
        else if e == "undefined" then h.undef
        else if IsNumber(e) then h.number(e)
        else if IsQuoted(e) then h.str(e[1..|e| - 1])
        else Path(h, e)
  }

  function Path<V>(h: Host<V>, e: string): V
    decreases |e|, 1, 0
  {
    var n := IdentLength(e);
    if n == 0 then h.undef else Walk(h, e, n, h.root(e[..n]))
  }

  function NameLength(e: string): (n: nat)
    ensures n <= |e|
  {
    if IdentLength(e) > 0 then IdentLength(e) else DigitsLength(e)
  }

  /** The rest of a path from position i, starting from the value reached so far. */
  function Walk<V>(h: Host<V>, e: string, i: nat, cur: V): V
    requires i <= |e|
    decreases |e|, 0, |e| - i
  {
    if i == |e| then cur
    else if e[i] == '.' then
      var n := NameLength(e[i + 1..]);
      if n == 0 then h.undef
      else Walk(h, e, i + 1 + n, Member(h, cur, h.str(e[i + 1..i + 1 + n])))
    else if e[i] == '[' then
      match CloseIndex(e, i + 1, 1)
      case None => h.undef
      case Some(j) => Walk(h, e, j + 1, Member(h, cur, Resolve(h, e[i + 1..j])))
    else h.undef
  }

  // ---------------------------------------------------------------- the same, as the loops run

  method ParensWrapWhole(e: string) returns (r: bool)
    ensures r == WrapsWhole(e)
  {
    var depth, i := 0, 0;
    while i < |e| - 1
      invariant 0 <= i && (i <= |e| - 1 || i == 0)
      invariant |e| > 0 ==> depth == Depth(Round, e[..i])
      invariant forall k :: 0 <= k < i && e[k] == ')' ==> Depth(Round, e[..k + 1]) != 0
    {
      DepthStep(Round, e, i);
      if e[i] == '(' {
        depth := depth + 1;
      } else if e[i] == ')' {
        depth := depth - 1;
        if depth == 0 {
          return false;
        }
      }
      i := i + 1;
    }
    return true;
  }

  /** The leftmost top-level comparison: nothing to the left of the answer qualifies. */
  method FindTopLevelEquality(e: string) returns (r: Option<(nat, Op)>)
    ensures r.None? ==> forall j :: 0 <= j < |e| ==> !IsSplit(e, j)
    ensures r.Some? ==>
              && r.value.0 < |e| && IsSplit(e, r.value.0) && r.value.1 == OpAt(e, r.value.0)
              && forall j :: 0 <= j < r.value.0 ==> !IsSplit(e, j)
  {
    var depth, i := 0, 0;
    while i < |e|
      invariant 0 <= i <= |e| && depth == Depth(Both, e[..i])
      invariant forall j :: 0 <= j < i ==> !IsSplit(e, j)
    {
      DepthStep(Both, e, i);
      TrimIsEmpty(e[..i]);
      var c := e[i];
      if c == '[' || c == '(' {
        depth := depth + 1;
      } else if c == ']' || c == ')' {
        depth := depth - 1;
      } else if depth == 0 && (c == '=' || c == '!') && i + 1 < |e| && e[i + 1] == '=' {
        if i > 0 && (e[i - 1] == '=' || e[i - 1] == '!') {
        } else if Trim(e[..i]) == "" {
        } else {
          return Some((i, OpAt(e, i)));
        }
      }
      i := i + 1;
    }
    return None;
  }

  method ResolveText<V>(h: Host<V>, src: string) returns (v: V)
    ensures v == Resolve(h, src)
    decreases |src|, 2
  {
    v := ReadText(h, Trim(src));
  }

  method ReadText<V>(h: Host<V>, e: string) returns (v: V)
    ensures v == Read(h, e)
    decreases |e|, 1
  {
    hide Resolve, Path, Walk, WrapsWhole, Trim, FirstSplit, Compare, IsNumber;
    if e == "" {
      return h.undef;
    }
    var wraps := ParensWrapWhole(e);
    if e[0] == '(' && e[|e| - 1] == ')' && wraps {
      v := ResolveText(h, e[1..|e| - 1]);
      return;
    }
    var eq := FindTopLevelEquality(e);
    if eq.Some? {
      FirstSplitIs(e, 0, eq.value.0);
      var lv := ResolveText(h, e[..eq.value.0]);
      var rv := ResolveText(h, e[eq.value.0 + |OpText(eq.value.1)|..]);
      return Compare(h, eq.value.1, lv, rv);
    }
    if e[0] == '!' {
      var b := ResolveText(h, e[1..]);
      return h.boolean(!h.truthy(b));
    }
    if e == "true" { return h.boolean(true); }
    if e == "false" { return h.boolean(false); }
    if e == "null" { return h.nul; }
    if e == "undefined" { return h.undef; }
    if IsNumber(e) { return h.number(e); }
    if IsQuoted(e) { return h.str(e[1..|e| - 1]); }
    v := ResolvePath(h, e);
  }

  /** Position j is where the square bracket that opens at i closes. */
  predicate ClosesBracket(e: string, i: nat, j: nat) {
    i < j < |e| && e[j] == ']' && Depth(Square, e[i..j + 1]) == 0 && StaysOpen(e, i, j)
  }

  /** From behind i up to j the square bracket that opens at i is still open. */
  predicate StaysOpen(e: string, i: nat, j: nat)
    requires i < j <= |e|
  {
    forall k :: i < k <= j ==> Depth(Square, e[i..k]) > 0
  }

  /** The inner loop of resolvePath: where the bracket at i closes, or that it stays open to the end. */
  method MatchBracket(e: string, i: nat) returns (r: Option<nat>)
    requires i < |e| && e[i] == '['
    ensures r == CloseIndex(e, i + 1, 1)
    ensures r.Some? ==> ClosesBracket(e, i, r.value)
    ensures r.None? ==> StaysOpen(e, i, |e|)
  {
    hide StaysOpen, ClosesBracket;
    var depth: nat, j := 1, i + 1;
    OpensAt(e, i);
    while j < |e| && depth > 0
      invariant i + 1 <= j <= |e|
      invariant depth > 0 && CloseIndex(e, j, depth) == CloseIndex(e, i + 1, 1)
      invariant depth == Depth(Square, e[i..j]) && StaysOpen(e, i, j)
    {
      OneMoreChar(e, i, j);
      if e[j] == '[' {
        depth := depth + 1;
      } else if e[j] == ']' {
        depth := depth - 1;
        if depth == 0 {
          return Some(j);
        }
      }
      j := j + 1;
    }
    return None;
  }

  lemma {:induction false} OpensAt(e: string, i: nat)
    requires i < |e| && e[i] == '['
    ensures Depth(Square, e[i..i + 1]) == 1 && StaysOpen(e, i, i + 1)
  {
    assert e[i..i + 1] == "[";
    assert "["[..0] == "";
  }

  lemma {:induction false} OneMoreChar(e: string, i: nat, j: nat)
    requires i < j < |e| && StaysOpen(e, i, j)
    ensures Depth(Square, e[i..j + 1]) == Depth(Square, e[i..j]) + Weight(Square, e[j])
    ensures Depth(Square, e[i..j + 1]) > 0 ==> StaysOpen(e, i, j + 1)
    ensures Depth(Square, e[i..j + 1]) == 0 && e[j] == ']' ==> ClosesBracket(e, i, j)
  {
    assert e[i..j + 1][..j - i] == e[i..j];
  }

  lemma {:induction false} WalkName<V>(h: Host<V>, e: string, i: nat, name: string, cur: V)
    requires name != "" && i + 1 + |name| <= |e| && e[i] == '.'
    requires NameLength(e[i + 1..]) == |name| && e[i + 1..i + 1 + |name|] == name
    ensures Walk(h, e, i, cur) == Walk(h, e, i + 1 + |name|, Member(h, cur, h.str(name)))
  {
    hide Resolve;
  }

  lemma {:induction false} WalkKey<V>(h: Host<V>, e: string, i: nat, inner: string, cur: V)
    requires i + 1 + |inner| < |e| && e[i] == '[' && CloseIndex(e, i + 1, 1) == Some(i + 1 + |inner|)
    requires e[i + 1..i + 1 + |inner|] == inner
    ensures Walk(h, e, i, cur) == Walk(h, e, i + 2 + |inner|, Member(h, cur, Resolve(h, inner)))
  {
    hide Resolve;
  }

  lemma {:induction false} WalkStuck<V>(h: Host<V>, e: string, i: nat, cur: V)
    requires i < |e|
    requires e[i] == '.' ==> NameLength(e[i + 1..]) == 0
    requires e[i] == '[' ==> CloseIndex(e, i + 1, 1) == None
    ensures Walk(h, e, i, cur) == h.undef
  {
    hide Resolve;
  }

  method ResolvePath<V>(h: Host<V>, e: string) returns (v: V)
    ensures v == Path(h, e)
    decreases |e|, 0
  {
    hide Resolve, Read, Walk, CloseIndex, NameLength;
    var n := IdentLength(e);
    if n == 0 {
      return h.undef;
    }
    var cur := h.root(e[..n]);
    var i := n;
    while i < |e|
      invariant i <= |e|
      invariant Walk(h, e, i, cur) == Path(h, e)
    {
      if e[i] == '.' {
        var m := NameLength(e[i + 1..]);
        if m == 0 {
          WalkStuck(h, e, i, cur);
          return h.undef;
        }
        WalkName(h, e, i, e[i + 1..i + 1 + m], cur);
        cur := Member(h, cur, h.str(e[i + 1..i + 1 + m]));
        i := i + 1 + m;
      } else if e[i] == '[' {
        var close := MatchBracket(e, i);
        if close.None? {
          WalkStuck(h, e, i, cur);
          return h.undef;
        }
        var j := close.value;
        WalkKey(h, e, i, e[i + 1..j], cur);
        var key := ResolveText(h, e[i + 1..j]);
        cur := Member(h, cur, key);
        i := j + 1;
      } else {
        WalkStuck(h, e, i, cur);
        return h.undef;
      }
    }
    WalkDone(h, e, cur);
    return cur;
  }

  lemma {:induction false} WalkDone<V>(h: Host<V>, e: string, cur: V)
    ensures Walk(h, e, |e|, cur) == cur
  {}

  lemma {:induction false} FirstSplitIs(e: string, i: nat, n: nat)
    requires i <= n < |e| && IsSplit(e, n)
    requires forall j :: i <= j < n ==> !IsSplit(e, j)
    ensures FirstSplit(e, i) == Some(n)
    decreases n - i
  {
    if i < n {
      FirstSplitIs(e, i + 1, n);
    }
  }
}
