/** Attribute templates: literal text with `{{ }}` holes, as `compileAttr` takes them apart. */
module Attr {
  import opened Options
  import opened Text
  import Expr
  import Grammar
  import Syntax

  datatype Compiled =
    | Whole(path: string)          // one expression; its value is passed on as it is
    | Parts(parts: seq<string>)    // literals at even positions, expressions at odd ones
    | Plain(raw: string)

  /** The same character c at i and i + 1: an opening or a closing of a hole. */
  predicate IsPair(s: string, i: nat, c: char) { i + 1 < |s| && s[i] == c && s[i + 1] == c }

  /** A closing at i with nothing but blanks behind it, where the whole-value pattern may end. */
  predicate ClosesAt(s: string, i: nat) { IsPair(s, i, '}') && Blank(s[i + 2..]) }

  function LeadingBlanks(s: string): (n: nat)
    ensures n <= |s|
  {
    if s != "" && IsSpace(s[0]) then 1 + LeadingBlanks(s[1..]) else 0
  }

  lemma {:induction false} LeadingBlanksOf(lit: string, rest: string)
    requires rest != "" && !IsSpace(rest[0])
    ensures if Blank(lit) then LeadingBlanks(lit + rest) == |lit|
            else LeadingBlanks(lit + rest) < |lit|
  {
    if lit == "" {
      assert lit + rest == rest;
    } else if IsSpace(lit[0]) {
      assert (lit + rest)[1..] == lit[1..] + rest;
      assert Blank(lit) <==> Blank(lit[1..]) by {
        assert forall i :: 0 < i < |lit| ==> lit[i] == lit[1..][i - 1];
      }
      LeadingBlanksOf(lit[1..], rest);
    }
  }

  /** First position from i on where a closing stands. */
  function FirstClose(s: string, i: nat): (r: Option<nat>)
    ensures r.Some? ==> i <= r.value && IsPair(s, r.value, '}')
    ensures forall j :: i <= j && (r.Some? ==> j < r.value) ==> !IsPair(s, j, '}')
    decreases |s| - i
  {
    if i >= |s| then None else if IsPair(s, i, '}') then Some(i) else FirstClose(s, i + 1)
  }

  /** First position from i on where a closing ends the text, up to blanks. */
  function FirstEnd(s: string, i: nat): (r: Option<nat>)
    ensures r.Some? ==> i <= r.value && ClosesAt(s, r.value)
    ensures forall j :: i <= j && (r.Some? ==> j < r.value) ==> !ClosesAt(s, j)
    decreases |s| - i
  {
    if i >= |s| then None else if ClosesAt(s, i) then Some(i) else FirstEnd(s, i + 1)
  }

  /** Where the leftmost hole opens: a hole needs at least one character and a closing after it. */
  function FirstHole(s: string, i: nat): (r: Option<nat>)
    ensures r.Some? ==> i <= r.value && IsPair(s, r.value, '{') && FirstClose(s, r.value + 3).Some?
    ensures forall j :: i <= j && (r.Some? ==> j < r.value)
                        ==> !(IsPair(s, j, '{') && FirstClose(s, j + 3).Some?)
    decreases |s| - i
  {
    if i >= |s| then None
    else if IsPair(s, i, '{') && FirstClose(s, i + 3).Some? then Some(i)
    else FirstHole(s, i + 1)
  }

  /** The whole attribute is one hole: blanks, an opening, at least one character, the first closing that ends it. */
  function WholeMatch(raw: string): (r: Option<string>) {
    var k := LeadingBlanks(raw);
    if !IsPair(raw, k, '{') then None
    else
      match FirstEnd(raw, k + 3)
      case None => None
      case Some(c) => Some(raw[k + 2..c])
  }

  /** Cut at every hole, leftmost and shortest first; the holes' own texts stay in at odd positions. */
  function Split(raw: string): (parts: seq<string>)
    ensures |parts| % 2 == 1
    decreases |raw|
  {
    match FirstHole(raw, 0)
    case None => [raw]
    case Some(q) =>
      var c := FirstClose(raw, q + 3).value;
      [raw[..q], raw[q + 2..c]] + Split(raw[c + 2..])
  }

  predicate HasOpening(raw: string) { exists i: nat :: i < |raw| && IsPair(raw, i, '{') }

  function CompileAttr(raw: string): Compiled {
    match WholeMatch(raw)
    case Some(path) => Whole(path)
    case None => if HasOpening(raw) then Parts(Split(raw)) else Plain(raw)
  }

  /** Text without an opening is passed on as it is; only such text is. */
  lemma {:induction false} PlainIff(raw: string)
    ensures CompileAttr(raw).Plain? <==> forall i :: 0 <= i < |raw| - 1 ==> !(raw[i] == '{' && raw[i + 1] == '{')
    ensures CompileAttr(raw).Plain? ==> CompileAttr(raw).raw == raw
  {
    hide FirstEnd, LeadingBlanks;
    if i: nat :| i < |raw| - 1 && raw[i] == '{' && raw[i + 1] == '{' {
      assert IsPair(raw, i, '{');
    }
  }

  /** An opening that nothing closes is text too: it is rendered as it was written. */
  lemma {:induction false} UnclosedIsText<V>(h: Expr.Host<V>, show: V -> string, raw: string)
    requires CompileAttr(raw).Parts? && forall i :: 0 <= i < |raw| - 1 ==> !(raw[i] == '}' && raw[i + 1] == '}')
    ensures Join(h, show, CompileAttr(raw).parts) == raw
  {
    assert forall i :: 0 <= i ==> !IsPair(raw, i, '}');
    assert FirstHole(raw, 0) == None;
  }

  /** An opening right before a closing is not a hole: there is nothing in it to resolve. */
  lemma {:induction false} EmptyHoleIsText(a: string, b: string)
    requires forall i :: 0 <= i < |a| ==> a[i] != '{' && a[i] != '}'
    requires forall i :: 0 <= i < |b| ==> b[i] != '{' && b[i] != '}'
    ensures CompileAttr(a + "{{}}" + b) == Parts([a + "{{}}" + b])
  {
    hide FirstHole, FirstClose, FirstEnd, LeadingBlanks;
    var s, q := a + "{{}}" + b, |a|;
    assert s[q] == '{' && s[q + 1] == '{' && s[q + 2] == '}' && s[q + 3] == '}';
    assert forall j :: 0 <= j < |s| && j != q && j != q + 1 ==> s[j] != '{';
    assert forall j :: 0 <= j < |s| && j != q + 2 && j != q + 3 ==> s[j] != '}';
    NoHole(s, q);
    LeadingBlanksOf(a, "{{}}" + b);
    assert s == a + ("{{}}" + b);
    assert IsPair(s, q, '{');
    NoEnd(s, q);
  }

  lemma {:induction false} NoHole(s: string, q: nat)
    requires forall j :: 0 <= j ==> (IsPair(s, j, '{') ==> j == q) && (IsPair(s, j, '}') ==> j == q + 2)
    ensures FirstHole(s, 0) == None
  {
    hide FirstHole, FirstClose;
    assert FirstClose(s, q + 3) == None;
  }

  lemma {:induction false} NoEnd(s: string, q: nat)
    requires forall j :: 0 <= j ==> (IsPair(s, j, '{') ==> j == q) && (IsPair(s, j, '}') ==> j == q + 2)
    ensures WholeMatch(s) == None
  {
    hide FirstEnd, LeadingBlanks;
    var k := LeadingBlanks(s);
    if IsPair(s, k, '{') {
      assert forall j :: k + 3 <= j ==> !ClosesAt(s, j);
      assert FirstEnd(s, k + 3) == None;
    }
  }

  // ---------------------------------------------------------------- templates as they are written

  predicate IsLiteral(s: string) { forall i :: 0 <= i < |s| ==> s[i] != '{' }

  predicate IsHole(s: string) { s != "" && forall i :: 0 <= i < |s| ==> s[i] != '}' }

  /** Literals around holes: at least one hole, one literal more than holes. */
  predicate IsTemplate(lits: seq<string>, holes: seq<string>) {
    && |lits| == |holes| + 1 && |holes| > 0
    && (forall i :: 0 <= i < |lits| ==> IsLiteral(lits[i]))
    && (forall i :: 0 <= i < |holes| ==> IsHole(holes[i]))
  }

  function Weave(lits: seq<string>, holes: seq<string>): string
    requires |lits| == |holes| + 1
  {
    if holes == [] then lits[0]
    else lits[0] + "{{" + holes[0] + "}}" + Weave(lits[1..], holes[1..])
  }

  function Segments(lits: seq<string>, holes: seq<string>): seq<string>
    requires |lits| == |holes| + 1
  {
    if holes == [] then [lits[0]] else [lits[0], holes[0]] + Segments(lits[1..], holes[1..])
  }

  /** A closing is found at the very end of the text, seen from the last hole's own closing on. */
  ghost predicate EndsClosed(last: string) { exists c: nat :: ClosesAt("}}" + last, c) }

  lemma {:induction false} FirstHoleOf(lit: string, hole: string, rest: string)
    requires IsLiteral(lit) && IsHole(hole)
    ensures var s := lit + "{{" + hole + "}}" + rest;
            && FirstHole(s, 0) == Some(|lit|)
            && FirstClose(s, |lit| + 3) == Some(|lit| + 2 + |hole|)
  {
    hide FirstHole, FirstClose;
    var s := lit + "{{" + hole + "}}" + rest;
    var q, c := |lit|, |lit| + 2 + |hole|;
    assert s[q] == '{' && s[q + 1] == '{';
    assert s[c] == '}' && s[c + 1] == '}';
    assert forall j :: 0 <= j < q ==> s[j] == lit[j];
    assert forall j :: q + 2 <= j < c ==> s[j] == hole[j - q - 2];
    FirstHoleIs(s, q, c);
  }

  lemma {:induction false} FirstHoleIs(s: string, q: nat, c: nat)
    requires IsPair(s, q, '{') && IsPair(s, c, '}') && q + 3 <= c
    requires forall j :: 0 <= j < q ==> s[j] != '{'
    requires forall j :: q + 2 <= j < c ==> s[j] != '}'
    ensures FirstHole(s, 0) == Some(q) && FirstClose(s, q + 3) == Some(c)
  {
    hide FirstHole, FirstClose;
    assert forall j :: q + 3 <= j < c ==> !IsPair(s, j, '}');
    assert FirstClose(s, q + 3) == Some(c);
    assert forall j :: 0 <= j < q ==> !IsPair(s, j, '{');
  }

  lemma {:induction false} SplitWeave(lits: seq<string>, holes: seq<string>)
    requires |lits| == |holes| + 1
    requires forall i :: 0 <= i < |lits| ==> IsLiteral(lits[i])
    requires forall i :: 0 <= i < |holes| ==> IsHole(holes[i])
    ensures Split(Weave(lits, holes)) == Segments(lits, holes)
    decreases |holes|
  {
    if holes == [] {
      assert FirstHole(lits[0], 0) == None;
    } else {
      SplitWeave(lits[1..], holes[1..]);
      SplitStep(lits[0], holes[0], Weave(lits[1..], holes[1..]));
    }
  }

  lemma {:induction false} SplitStep(lit: string, hole: string, rest: string)
    requires IsLiteral(lit) && IsHole(hole)
    ensures Split(lit + "{{" + hole + "}}" + rest) == [lit, hole] + Split(rest)
  {
    hide FirstHole, FirstClose;
    var s := lit + "{{" + hole + "}}" + rest;
    var q, c := |lit|, |lit| + 2 + |hole|;
    FirstHoleOf(lit, hole, rest);
    assert s[..q] == lit;
    assert s[q + 2..c] == hole;
    assert s[c + 2..] == rest;
  }

  /** Everything between the first opening and the last hole's closing. */
  function Middle(lits: seq<string>, holes: seq<string>): (m: string)
    requires |lits| == |holes| + 1 && |holes| > 0
    decreases |holes|
  {
    if |holes| == 1 then holes[0]
    else holes[0] + "}}" + lits[1] + "{{" + Middle(lits[1..], holes[1..])
  }

  lemma {:induction false} WeaveEnds(lits: seq<string>, holes: seq<string>)
    requires |lits| == |holes| + 1 && |holes| > 0
    ensures Weave(lits, holes) == (lits[0] + "{{" + Middle(lits, holes)) + ("}}" + lits[|holes|])
    decreases |holes|
  {
    if |holes| == 1 {
      assert Weave(lits[1..], holes[1..]) == lits[1];
    } else {
      WeaveEnds(lits[1..], holes[1..]);
      assert lits[1..][|holes| - 1] == lits[|holes|];
    }
  }

  lemma {:induction false} MiddleLast(lits: seq<string>, holes: seq<string>)
    requires IsTemplate(lits, holes)
    ensures var m := Middle(lits, holes); m != "" && m[|m| - 1] != '}'
    decreases |holes|
  {
    if |holes| > 1 {
      assert IsTemplate(lits[1..], holes[1..]);
      MiddleLast(lits[1..], holes[1..]);
    } else {
      assert holes[0][|holes[0]| - 1] != '}';
    }
  }

  lemma {:induction false} EndSeenFromLastHole(p: string, last: string, from: nat)
    requires from <= |p|
    ensures (exists c: nat :: from <= c && ClosesAt(p + ("}}" + last), c)) <==> EndsClosed(last)
  {
    hide Blank;
    var u := "}}" + last;
    var s := p + u;
    if EndsClosed(last) {
      var c: nat :| ClosesAt(u, c);
      ClosesShifted(p, u, c);
    }
    if c: nat :| from <= c && ClosesAt(s, c) {
      assert s[|p| + 1] == '}';
      EndsInTail(s, c, |p|);
      ClosesShifted(p, u, c - |p|);
    }
  }

  /** Behind the last closing there are only blanks, so it cannot lie before a brace. */
  lemma {:induction false} EndsInTail(s: string, c: nat, k: nat)
    requires ClosesAt(s, c) && k + 1 < |s| && s[k] == '}' && s[k + 1] == '}'
    ensures c >= k
  {
    TailIsBlank(s, c);
  }

  lemma {:induction false} TailIsBlank(s: string, c: nat)
    requires ClosesAt(s, c)
    ensures forall j :: c + 2 <= j < |s| ==> IsSpace(s[j])
  {
    assert forall j :: c + 2 <= j < |s| ==> s[j] == s[c + 2..][j - (c + 2)];
  }

  lemma {:induction false} ClosesShifted(p: string, u: string, c: nat)
    ensures ClosesAt(p + u, |p| + c) <==> ClosesAt(u, c)
  {
    var s := p + u;
    if c + 1 < |u| {
      assert s[|p| + c] == u[c] && s[|p| + c + 1] == u[c + 1];
      assert s[|p| + c + 2..] == u[c + 2..];
    }
  }

  /** The whole-value pattern takes a template exactly when it starts blank and ends on a closing. */
  lemma {:induction false} WholeMatchIff(lits: seq<string>, holes: seq<string>)
    requires IsTemplate(lits, holes)
    ensures WholeMatch(Weave(lits, holes)).Some? <==> Blank(lits[0]) && EndsClosed(lits[|holes|])
  {
    hide FirstEnd, LeadingBlanks, Weave, Middle;
    var s, lit := Weave(lits, holes), lits[0];
    var rest := "{{" + Middle(lits, holes) + ("}}" + lits[|holes|]);
    WeaveEnds(lits, holes);
    assert s == lit + rest;
    LeadingBlanksOf(lit, rest);
    var k := LeadingBlanks(s);
    if Blank(lit) {
      MiddleLast(lits, holes);
      EndSeenFromLastHole(lit + "{{" + Middle(lits, holes), lits[|holes|], k + 3);
      assert IsPair(s, k, '{');
    } else {
      assert s[k] == lit[k];
    }
  }

  /**
   * compileAttr recovers the literals and holes a template was written with, except when the
   * template begins blank and ends on a closing: then, and only then, it reads one expression.
   */
  lemma {:induction false} SegmentsRecovered(lits: seq<string>, holes: seq<string>)
    requires IsTemplate(lits, holes)
    ensures CompileAttr(Weave(lits, holes)) == Parts(Segments(lits, holes))
            <==> !(Blank(lits[0]) && EndsClosed(lits[|holes|]))
  {
    var s := Weave(lits, holes);
    WholeMatchIff(lits, holes);
    SplitWeave(lits, holes);
    assert IsPair(s, |lits[0]|, '{');
  }

  /** A blank last literal ends on the hole's own closing; so does one that goes on closing it. */
  lemma {:induction false} BlankEndsClosed(last: string)
    ensures Blank(last) ==> EndsClosed(last)
    ensures EndsClosed(last) && '}' !in last ==> Blank(last)
  {
    var u := "}}" + last;
    if Blank(last) {
      assert u[2..] == last;
      assert ClosesAt(u, 0);
    }
    if EndsClosed(last) && '}' !in last {
      var c: nat :| ClosesAt(u, c);
      assert forall j :: 2 <= j < |u| ==> u[j] == last[j - 2];
      assert u[c + 1] == '}';
      assert u[2..] == last;
    }
  }

  /**
   * A template blank at both ends is read as one expression: everything from its first opening to
   * its last closing. With a single hole that is the hole itself.
   */
  lemma {:induction false} BlankEndsReadAsOne(lits: seq<string>, holes: seq<string>)
    requires IsTemplate(lits, holes) && Blank(lits[0]) && Blank(lits[|holes|])
    ensures CompileAttr(Weave(lits, holes)) == Whole(Middle(lits, holes))
    ensures |holes| == 1 ==> Middle(lits, holes) == holes[0]
  {
    WeaveEnds(lits, holes);
    MiddleLast(lits, holes);
    WholeIs(lits[0], Middle(lits, holes), lits[|holes|]);
  }

  lemma {:induction false} WholeIs(pre: string, path: string, post: string)
    requires Blank(pre) && Blank(post) && path != "" && path[|path| - 1] != '}'
    ensures WholeMatch((pre + "{{" + path) + ("}}" + post)) == Some(path)
  {
    hide FirstEnd;
    var s := (pre + "{{" + path) + ("}}" + post);
    var k, c := |pre|, |pre| + 2 + |path|;
    var rest := "{{" + (path + ("}}" + post));
    assert s == pre + rest;
    LeadingBlanksOf(pre, rest);
    assert s[k] == '{' && s[k + 1] == '{' && s[c] == '}' && s[c + 1] == '}';
    assert s[c - 1] == path[|path| - 1];
    assert s[c + 2..] == post;
    forall j | k + 3 <= j < c ensures !ClosesAt(s, j) {
      if j + 2 <= c {
        assert s[j + 2..][c - (j + 2)] == '}';
      }
    }
    assert ClosesAt(s, c);
    assert FirstEnd(s, k + 3) == Some(c);
    assert s[k + 2..c] == path;
  }

  // ---------------------------------------------------------------- rendering

  /** Text of the parts: literals as they are, each expression by its value, nothing for a nullish one. */
  function Join<V>(h: Expr.Host<V>, show: V -> string, parts: seq<string>): string {
    if parts == [] then ""
    else if |parts| == 1 then parts[0]
    else
      var v := Expr.Resolve(h, parts[1]);
      parts[0] + (if h.nullish(v) then "" else show(v)) + Join(h, show, parts[2..])
  }

  function ShowTree<V>(h: Expr.Host<V>, show: V -> string, t: Syntax.Tree): string {
    var v := Syntax.Meaning(h, t);
    if h.nullish(v) then "" else show(v)
  }

  /** What the author means: the literals with the value of each expression in between. */
  function Filled<V>(h: Expr.Host<V>, show: V -> string, lits: seq<string>, trees: seq<Syntax.Tree>): string
    requires |lits| == |trees| + 1
  {
    if trees == [] then lits[0]
    else lits[0] + ShowTree(h, show, trees[0]) + Filled(h, show, lits[1..], trees[1..])
  }

  /** The blanks written inside a hole, before and after its expression. */
  datatype Padding = Padding(before: string, after: string)

  predicate AllGaps(pads: seq<Padding>) {
    forall i :: 0 <= i < |pads| ==> Grammar.IsGap(pads[i].before) && Grammar.IsGap(pads[i].after)
  }

  function HoleText(pad: Padding, t: Syntax.Tree): string { pad.before + Syntax.Unparse(t) + pad.after }

  function HolesOf(pads: seq<Padding>, trees: seq<Syntax.Tree>): (holes: seq<string>)
    requires |pads| == |trees|
    ensures |holes| == |trees|
    ensures forall i :: 0 <= i < |trees| ==> holes[i] == HoleText(pads[i], trees[i])
  {
    seq(|trees|, i requires 0 <= i < |trees| => HoleText(pads[i], trees[i]))
  }

  lemma {:induction false} JoinFills<V>(
      h: Expr.Host<V>, show: V -> string, lits: seq<string>, pads: seq<Padding>, trees: seq<Syntax.Tree>)
    requires |lits| == |trees| + 1 && |pads| == |trees| && AllGaps(pads)
    requires forall i :: 0 <= i < |trees| ==> Syntax.Writable(trees[i])
    ensures Join(h, show, Segments(lits, HolesOf(pads, trees))) == Filled(h, show, lits, trees)
    decreases |trees|
  {
    hide Expr.Resolve, Expr.Read, Grammar.IsGap, Syntax.Writable;
    if trees != [] {
      var holes := HolesOf(pads, trees);
      var parts := Segments(lits, holes);
      assert HolesOf(pads[1..], trees[1..]) == holes[1..];
      assert parts[0] == lits[0] && parts[1] == holes[0];
      assert parts[2..] == Segments(lits[1..], holes[1..]);
      assert holes[0] == HoleText(pads[0], trees[0]);
      Syntax.RoundTrip(h, pads[0].before, trees[0], pads[0].after);
      JoinFills(h, show, lits[1..], pads[1..], trees[1..]);
    }
  }

  /** From the raw attribute to the rendered text, for any expressions that fit in a hole, however padded. */
  lemma {:induction false} TemplateRenders<V>(
      h: Expr.Host<V>, show: V -> string, lits: seq<string>, pads: seq<Padding>, trees: seq<Syntax.Tree>)
    requires |lits| == |trees| + 1 && |pads| == |trees| > 0 && AllGaps(pads)
    requires forall i :: 0 <= i < |lits| ==> IsLiteral(lits[i])
    requires forall i :: 0 <= i < |trees| ==> Syntax.Writable(trees[i]) && IsHole(Syntax.Unparse(trees[i]))
    requires !(Blank(lits[0]) && EndsClosed(lits[|trees|]))
    ensures var c := CompileAttr(Weave(lits, HolesOf(pads, trees)));
            c.Parts? && Join(h, show, c.parts) == Filled(h, show, lits, trees)
  {
    hide Syntax.Writable, EndsClosed, Grammar.IsGap;
    var holes := HolesOf(pads, trees);
    forall i | 0 <= i < |holes| ensures IsHole(holes[i]) {
      PaddedHole(pads[i], trees[i]);
    }
    SegmentsRecovered(lits, holes);
    JoinFills(h, show, lits, pads, trees);
  }

  lemma {:induction false} PaddedHole(pad: Padding, t: Syntax.Tree)
    requires Grammar.IsGap(pad.before) && Grammar.IsGap(pad.after) && IsHole(Syntax.Unparse(t))
    ensures IsHole(HoleText(pad, t))
  {
    hide Syntax.Unparse, Grammar.IsGap;
    Grammar.GapExactly(pad.before);
    Grammar.GapExactly(pad.after);
  }

  /** An attribute that is one hole, however padded, passes the expression's own value on. */
  lemma {:induction false} OneHolePassesValue<V>(
      h: Expr.Host<V>, before: string, pad: Padding, t: Syntax.Tree, after: string)
    requires Grammar.IsGap(before) && Grammar.IsGap(after) && AllGaps([pad])
    requires Syntax.Writable(t) && IsHole(Syntax.Unparse(t))
    ensures var c := CompileAttr(before + "{{" + HoleText(pad, t) + "}}" + after);
            c.Whole? && Expr.Resolve(h, c.path) == Syntax.Meaning(h, t)
  {
    hide Expr.Resolve, Expr.Read, Syntax.Writable, Syntax.Meaning, Grammar.IsGap, FirstHole, FirstEnd;
    var hole := HoleText(pad, t);
    assert Grammar.IsGap([pad][0].before) && Grammar.IsGap([pad][0].after);
    PaddedHole(pad, t);
    Grammar.GapExactly(before);
    Grammar.GapExactly(after);
    assert hole[|hole| - 1] != '}';
    WholeIs(before, hole, after);
    assert before + "{{" + hole + "}}" + after == (before + "{{" + hole) + ("}}" + after);
    Syntax.RoundTrip(h, pad.before, t, pad.after);
  }

  /** Two holes and nothing around them: one expression is read, and no host can resolve it. */
  lemma {:induction false} TwoHolesMisread<V>(h: Expr.Host<V>)
    ensures Weave(["", " ", ""], ["a", "b"]) == "{{a}} {{b}}"
    ensures CompileAttr("{{a}} {{b}}") == Whole("a}} {{b")
    ensures Expr.Resolve(h, "a}} {{b") == h.undef
  {
    hide CompileAttr, Expr.Resolve, Expr.Read;
    var lits, holes := ["", " ", ""], ["a", "b"];
    assert lits[1..] == [" ", ""] && holes[1..] == ["b"];
    assert lits[1..][1..] == [""] && holes[1..][1..] == [];
    assert Weave([" ", ""], ["b"]) == " {{b}}";
    assert Middle(lits, holes) == "a}} {{b";
    BlankEndsReadAsOne(lits, holes);
    BadPath(h);
  }

  lemma {:induction false} BadPath<V>(h: Expr.Host<V>)
    ensures Expr.Resolve(h, "a}} {{b") == h.undef
  {
    hide Expr.Walk;
    var e := "a}} {{b";
    Syntax.NameShape("a");
    TrimPadded("", e, "");
    assert "" + e + "" == e;
    assert forall i :: 0 <= i < |e| ==> !Expr.EqOrBang(e[i]);
    assert Expr.FirstSplit(e, 0) == None;
    assert e[0] == 'a';
    assert !Expr.IsNumber(e) && !Expr.IsQuoted(e);
    assert Expr.Read(h, e) == Expr.Path(h, e);
    IdentLengthOf("a", "}} {{b");
    assert e == "a" + "}} {{b";
    Expr.WalkStuck(h, e, 1, h.root(e[..1]));
  }

  /** A last literal that only goes on closing is swallowed too, although it is not blank. */
  lemma {:induction false} ClosingLiteralMisread()
    ensures Weave(["", "}"], ["a"]) == "{{a}}}"
    ensures CompileAttr("{{a}}}") == Whole("a}")
  {
    hide Split, FirstHole, FirstClose;
    var s := "{{a}}}";
    assert Weave(["}"], []) == "}";
    assert s[6..] == "" && s[5..] == "}";
    assert ClosesAt(s, 4) && !ClosesAt(s, 3);
    assert FirstEnd(s, 3) == Some(4);
    assert s[2..4] == "a}";
  }
}
