/**
 * Expressions as trees, their meaning computed on the tree, and every way of writing one down.
 *
 * A tree carries its own layout (blanks, redundant parentheses), so that one statement about `Unparse`
 * covers every spelling of an expression.
 */
module Syntax {
  import opened Options
  import opened Text
  import opened Brackets
  import opened Expr
  import opened Grammar

  datatype Constant = True | False | Null | Undefined

  datatype Tree =
    | Const(c: Constant)
    | Num(n: Number)
    | Str(quote: char, body: string)
    | Ref(head: string, steps: Steps)
    | Paren(w1: string, inner: Tree, w2: string)
    | Not(w: string, arg: Tree)
    | Cmp(left: Tree, w1: string, op: Op, w2: string, right: Tree)

  datatype Steps =
    | End
    | Dot(name: string, rest: Steps)
    | At(w1: string, key: Tree, w2: string, rest: Steps)

  function Word(c: Constant): string {
    match c
    case True => "true"
    case False => "false"
    case Null => "null"
    case Undefined => "undefined"
  }

  // ---------------------------------------------------------------- meaning, on the tree

  function Meaning<V>(h: Host<V>, t: Tree): V {
    match t
    case Const(True) => h.boolean(true)
    case Const(False) => h.boolean(false)
    case Const(Null) => h.nul
    case Const(Undefined) => h.undef
    case Num(n) => h.number(NumberText(n))
    case Str(_, b) => h.str(b)
    case Ref(head, steps) => Follow(h, steps, h.root(head))
    case Paren(_, e, _) => Meaning(h, e)
    case Not(_, e) => h.boolean(!h.truthy(Meaning(h, e)))
    case Cmp(l, _, StrictEq, _, r) => h.boolean(h.strictEq(Meaning(h, l), Meaning(h, r)))
    case Cmp(l, _, StrictNe, _, r) => h.boolean(!h.strictEq(Meaning(h, l), Meaning(h, r)))
    case Cmp(l, _, LooseEq, _, r) => h.boolean(h.looseEq(Meaning(h, l), Meaning(h, r)))
    case Cmp(l, _, LooseNe, _, r) => h.boolean(!h.looseEq(Meaning(h, l), Meaning(h, r)))
  }

  function Follow<V>(h: Host<V>, steps: Steps, cur: V): V {
    match steps
    case End => cur
    case Dot(name, rest) => Follow(h, rest, Property(h, cur, h.str(name)))
    case At(_, key, _, rest) => Follow(h, rest, Property(h, cur, Meaning(h, key)))
  }

  /** Nothing has no properties; anything else is asked for its own. */
  function Property<V>(h: Host<V>, cur: V, key: V): V {
    if h.nullish(cur) then h.undef else h.get(cur, key)
  }

  /** The four comparisons, negated or not, are what the comparison case computes. */
  lemma {:induction false} CmpMeaning<V>(h: Host<V>, t: Tree)
    requires t.Cmp?
    ensures Meaning(h, t) == Compare(h, t.op, Meaning(h, t.left), Meaning(h, t.right))
  {}

  // ---------------------------------------------------------------- the text of a tree

  function Unparse(t: Tree): string {
    match t
    case Const(c) => Word(c)
    case Num(n) => NumberText(n)
    case Str(q, b) => [q] + b + [q]
    case Ref(head, steps) => head + UnparseSteps(steps)
    case Paren(w1, e, w2) => "(" + (w1 + Unparse(e) + w2) + ")"
    case Not(w, e) => "!" + (w + Unparse(e))
    case Cmp(l, w1, op, w2, r) => (Unparse(l) + w1) + (OpText(op) + (w2 + Unparse(r)))
  }

  function UnparseSteps(steps: Steps): string {
    match steps
    case End => ""
    case Dot(name, rest) => "." + name + UnparseSteps(rest)
    case At(w1, key, w2, rest) => "[" + (w1 + Unparse(key) + w2) + "]" + UnparseSteps(rest)
  }

  /** An operator pair at i, outside all brackets and not glued to an `=` or `!` before it. */
  predicate OperatorAt(s: string, i: nat)
    requires i < |s| - 1
  {
    && Depth(Both, s[..i]) == 0 && EqOrBang(s[i]) && s[i + 1] == '='
    && !(i > 0 && EqOrBang(s[i - 1]))
  }

  /** No operator pair at bracket depth zero. */
  ghost predicate Quiet(s: string) {
    forall i :: 0 <= i < |s| - 1 ==> !OperatorAt(s, i)
  }

  /** A quoted text that stands anywhere: the scanners see its brackets and operators as their own. */
  ghost predicate SafeBody(b: string) { Balanced(b) && Quiet(b) }

  /**
   * What the language can express, in the words of Grammar. A comparison is an operand of `!` or the
   * left operand of another comparison only inside parentheses; a bare name is not a constant.
   */
  ghost predicate Writable(t: Tree) {
    match t
    case Const(_) => true
    case Num(n) => IsDecimal(n)
    case Str(q, b) => q in QUOTES && SafeBody(b)
    case Ref(head, steps) =>
      IsName(head) && WritableSteps(steps) && (steps.End? ==> head !in ["true", "false", "null", "undefined"])
    case Paren(w1, e, w2) => IsGap(w1) && IsGap(w2) && Writable(e)
    case Not(w, e) => IsGap(w) && Writable(e) && !e.Cmp?
    case Cmp(l, w1, _, w2, r) => IsGap(w1) && IsGap(w2) && Writable(l) && !l.Cmp? && Writable(r)
  }

  ghost predicate WritableSteps(steps: Steps) {
    match steps
    case End => true
    case Dot(name, rest) => (IsName(name) || IsWhole(name)) && WritableSteps(rest)
    case At(w1, key, w2, rest) => IsGap(w1) && IsGap(w2) && Writable(key) && WritableSteps(rest)
  }

  /** The same in terms of what the scanners look for. */
  ghost predicate Readable(t: Tree) {
    match t
    case Const(_) => true
    case Num(n) => IsNumber(NumberText(n))
    case Str(q, b) => IsQuote(q) && SafeBody(b)
    case Ref(head, steps) =>
      IsIdent(head) && ReadableSteps(steps) && (steps.End? ==> forall c: Constant :: head != Word(c))
    case Paren(w1, e, w2) => Blank(w1) && Blank(w2) && Readable(e)
    case Not(w, e) => Blank(w) && Readable(e) && !e.Cmp?
    case Cmp(l, w1, _, w2, r) => Blank(w1) && Blank(w2) && Readable(l) && !l.Cmp? && Readable(r)
  }

  ghost predicate ReadableSteps(steps: Steps) {
    match steps
    case End => true
    case Dot(name, rest) => (IsIdent(name) || IsDigits(name)) && ReadableSteps(rest)
    case At(w1, key, w2, rest) => Blank(w1) && Blank(w2) && Readable(key) && ReadableSteps(rest)
  }

  lemma {:induction false} WritableIsReadable(t: Tree)
    requires Writable(t)
    ensures Readable(t)
  {
    hide IsName, IsWhole, IsGap, IsDecimal, QUOTES, SafeBody;
    match t
    case Const(_) =>
    case Num(n) =>
      NumberExactly(NumberText(n));
    case Str(q, _) =>
      QuoteExactly(q);
    case Ref(head, steps) =>
      NameExactly(head);
      WritableStepsAreReadable(steps);
      assert forall c: Constant :: Word(c) in ["true", "false", "null", "undefined"];
    case Paren(w1, e, w2) =>
      GapExactly(w1);
      GapExactly(w2);
      WritableIsReadable(e);
    case Not(w, e) =>
      GapExactly(w);
      WritableIsReadable(e);
    case Cmp(l, w1, _, w2, r) =>
      GapExactly(w1);
      GapExactly(w2);
      WritableIsReadable(l);
      WritableIsReadable(r);
  }

  lemma {:induction false} WritableStepsAreReadable(steps: Steps)
    requires WritableSteps(steps)
    ensures ReadableSteps(steps)
  {
    hide IsName, IsWhole, IsGap;
    match steps
    case End =>
    case Dot(name, rest) =>
      NameExactly(name);
      WholeExactly(name);
      WritableStepsAreReadable(rest);
    case At(w1, key, w2, rest) =>
      GapExactly(w1);
      GapExactly(w2);
      WritableIsReadable(key);
      WritableStepsAreReadable(rest);
  }

  // ---------------------------------------------------------------- shape of the text

  /** What the text of every writable tree looks like from outside. */
  ghost predicate Shaped(s: string) {
    && Tight(s)
    && Balanced(s)
    && s[0] != '='
    && !EqOrBang(s[|s| - 1])
  }

  lemma {:induction false} QuietFlat(s: string)
    requires forall i :: 0 <= i < |s| ==> s[i] != '='
    ensures Quiet(s)
  {}

  lemma {:induction false} QuietConcat(a: string, b: string)
    requires Quiet(a) && Balanced(a) && Quiet(b)
    requires a == "" || b == "" || b[0] != '=' || !EqOrBang(a[|a| - 1])
    ensures Quiet(a + b)
  {
    var s := a + b;
    forall i | 0 <= i < |s| - 1 ensures !OperatorAt(s, i) {
      if i < |a| {
        assert s[..i] == a[..i];
        if i == |a| - 1 {
          assert s[i + 1] == b[0];
        } else {
          assert !OperatorAt(a, i);
        }
      } else {
        assert s[..i] == a + b[..i - |a|];
        DepthConcat(Both, a, b[..i - |a|]);
        assert Depth(Both, a) == 0;
        if i < |s| - 1 && i > |a| {
          assert s[i - 1] == b[i - |a| - 1];
        }
        assert !OperatorAt(b, i - |a|);
      }
    }
  }

  lemma {:induction false} QuietWrap(open: string, t: string, close: string)
    requires Balanced(t)
    requires (open == "(" && close == ")") || (open == "[" && close == "]")
    ensures Quiet(open + t + close)
  {
    var s := open + t + close;
    forall i | 0 < i < |s| ensures Depth(Both, s[..i]) >= 1 {
      WrappedDepth(Both, open, t, close, i);
    }
  }

  lemma {:induction false} BlankIsFlat(w: string)
    requires Blank(w)
    ensures Balanced(w) && Quiet(w)
  {
    BalancedFlat(w);
  }

  lemma {:induction false} PaddedBalanced(w1: string, s: string, w2: string)
    requires Blank(w1) && Blank(w2) && Balanced(s)
    ensures Balanced(w1 + s + w2)
  {
    BalancedFlat(w1);
    BalancedFlat(w2);
    BalancedConcat(w1, s);
    BalancedConcat(w1 + s, w2);
  }

  lemma {:induction false} NumberShape(d: string)
    requires IsNumber(d)
    ensures Shaped(d) && Quiet(d) && (IsDigit(d[0]) || d[0] == '-')
    ensures d[0] == '-' ==> |d| > 1
  {
    var u := if d[0] == '-' then d[1..] else d;
    var n := DigitsLength(u);
    DigitsPrefix(u);
    assert forall i :: 0 <= i < |u| ==> IsDigit(u[i]) || u[i] == '.' by {
      if n < |u| {
        assert forall i :: n < i < |u| ==> u[i] == u[n + 1..][i - n - 1];
      }
    }
    assert forall i :: 0 <= i < |d| ==> IsDigit(d[i]) || d[i] == '.' || d[i] == '-';
    assert d[|d| - 1] == u[|u| - 1];
    BalancedFlat(d);
    QuietFlat(d);
  }

  lemma {:induction false} DigitsPrefix(s: string)
    ensures forall i :: 0 <= i < DigitsLength(s) ==> IsDigit(s[i])
  {
    if s != "" && IsDigit(s[0]) {
      DigitsPrefix(s[1..]);
      assert forall i :: 0 < i < DigitsLength(s) ==> s[i] == s[1..][i - 1];
    }
  }

  lemma {:induction false} StrShape(q: char, b: string)
    requires IsQuote(q) && SafeBody(b)
    ensures Shaped([q] + b + [q]) && Quiet([q] + b + [q])
  {
    hide Quiet, Balanced;
    QuoteShape(q);
    BalancedConcat([q], b);
    BalancedConcat([q] + b, [q]);
    QuietConcat(b, [q]);
    QuietConcat([q], b + [q]);
    assert [q] + b + [q] == [q] + (b + [q]);
  }

  lemma {:induction false} QuoteShape(q: char)
    requires IsQuote(q)
    ensures Balanced([q]) && Quiet([q])
  {
    BalancedFlat([q]);
  }

  lemma {:induction false} NameShape(name: string)
    requires IsIdent(name) || IsDigits(name)
    ensures Shaped(name) && Quiet(name)
  {
    assert forall i :: 0 <= i < |name| ==> IsIdentPart(name[i]);
    BalancedFlat(name);
    QuietFlat(name);
  }

  lemma {:induction false} Shape(t: Tree)
    requires Readable(t)
    ensures Shaped(Unparse(t))
    ensures !t.Cmp? ==> Quiet(Unparse(t))
    ensures Unparse(t)[0] == '(' && !t.Cmp? ==> t.Paren?
    ensures Unparse(t)[0] == '!' && !t.Cmp? ==> t.Not?
  {
    hide Shaped, Quiet, Balanced;
    match t
    case Const(c) =>
      WordShape(c);
    case Num(n) =>
      NumberShape(NumberText(n));
    case Str(q, b) =>
      StrShape(q, b);
    case Ref(head, steps) =>
      StepsShape(steps);
      RefShape(head, UnparseSteps(steps));
    case Paren(w1, e, w2) =>
      Shape(e);
      ParenShape(w1, Unparse(e), w2);
    case Not(w, e) =>
      Shape(e);
      NotShape(w, Unparse(e));
    case Cmp(l, w1, op, w2, r) =>
      Shape(l);
      Shape(r);
      CmpBalanced(Unparse(l), w1, op, w2, Unparse(r));
  }

  lemma {:induction false} WordShape(c: Constant)
    ensures Shaped(Word(c)) && Quiet(Word(c))
  {
    BalancedFlat(Word(c));
    QuietFlat(Word(c));
  }

  lemma {:induction false} RefShape(head: string, s: string)
    requires IsIdent(head) && Balanced(s) && Quiet(s)
    requires s == "" || (s[0] != '=' && !EqOrBang(s[|s| - 1]) && !IsSpace(s[|s| - 1]))
    ensures Shaped(head + s) && Quiet(head + s) && (head + s)[0] == head[0]
  {
    NameShape(head);
    BalancedConcat(head, s);
    QuietConcat(head, s);
  }

  lemma {:induction false} ParenShape(w1: string, s: string, w2: string)
    requires Blank(w1) && Blank(w2) && Shaped(s)
    ensures Shaped("(" + (w1 + s + w2) + ")") && Quiet("(" + (w1 + s + w2) + ")")
  {
    PaddedBalanced(w1, s, w2);
    BalancedWrap("(", w1 + s + w2, ")");
    QuietWrap("(", w1 + s + w2, ")");
  }

  lemma {:induction false} NotShape(w: string, s: string)
    requires Blank(w) && Shaped(s) && Quiet(s)
    ensures Shaped("!" + (w + s)) && Quiet("!" + (w + s))
  {
    BlankIsFlat(w);
    BalancedConcat(w, s);
    QuietConcat(w, s);
    BalancedFlat("!");
    BalancedConcat("!", w + s);
    QuietConcat("!", w + s);
  }

  lemma {:induction false} CmpBalanced(l: string, w1: string, op: Op, w2: string, r: string)
    requires Blank(w1) && Blank(w2) && Shaped(l) && Shaped(r)
    ensures Shaped((l + w1) + (OpText(op) + (w2 + r)))
  {
    BalancedFlat(w1);
    BalancedFlat(w2);
    BalancedFlat(OpText(op));
    BalancedConcat(l, w1);
    BalancedConcat(w2, r);
    BalancedConcat(OpText(op), w2 + r);
    BalancedConcat(l + w1, OpText(op) + (w2 + r));
  }

  lemma {:induction false} StepsShape(steps: Steps)
    requires ReadableSteps(steps)
    ensures StepsText(UnparseSteps(steps))
    ensures steps.End? <==> UnparseSteps(steps) == ""
  {
    hide StepsText, Shaped;
    match steps
    case End =>
      NoStepsShape();
    case Dot(name, rest) =>
      StepsShape(rest);
      DotShape(name, UnparseSteps(rest));
    case At(w1, key, w2, rest) =>
      Shape(key);
      StepsShape(rest);
      AtShape(w1, Unparse(key), w2, UnparseSteps(rest));
  }

  /** What the text of the steps after a path's head looks like from outside. */
  ghost predicate StepsText(s: string) {
    && Balanced(s) && Quiet(s)
    && (s == "" || (!IsIdentPart(s[0]) && s[0] != '=' && !EqOrBang(s[|s| - 1]) && !IsSpace(s[|s| - 1])))
  }

  lemma {:induction false} NoStepsShape()
    ensures StepsText("")
  {
    BalancedFlat("");
  }

  lemma {:induction false} DotShape(name: string, s: string)
    requires (IsIdent(name) || IsDigits(name)) && StepsText(s)
    ensures StepsText("." + name + s)
  {
    NameShape(name);
    BalancedFlat(".");
    hide Balanced, Quiet;
    QuietDot();
    BalancedConcat(".", name);
    QuietConcat(".", name);
    BalancedConcat("." + name, s);
    QuietConcat("." + name, s);
  }

  lemma {:induction false} QuietDot()
    ensures Quiet(".")
  {}

  lemma {:induction false} AtShape(w1: string, k: string, w2: string, s: string)
    requires Blank(w1) && Blank(w2) && Shaped(k) && StepsText(s)
    ensures StepsText("[" + (w1 + k + w2) + "]" + s)
  {
    hide Balanced, Quiet, Blank;
    var inner := w1 + k + w2;
    PaddedBalanced(w1, k, w2);
    BalancedWrap("[", inner, "]");
    QuietWrap("[", inner, "]");
    BalancedConcat("[" + inner + "]", s);
    QuietConcat("[" + inner + "]", s);
  }

  // ---------------------------------------------------------------- reading the text back

  /** `resolve` applied to any spelling of a tree gives the meaning of the tree, in every host. */
  lemma {:induction false} RoundTrip<V>(h: Host<V>, pre: string, t: Tree, post: string)
    requires Writable(t) && IsGap(pre) && IsGap(post)
    ensures Resolve(h, pre + Unparse(t) + post) == Meaning(h, t)
  {
    hide Resolve, Meaning, Writable, Readable, IsGap;
    GapExactly(pre);
    GapExactly(post);
    WritableIsReadable(t);
    ReadsTree(h, pre, t, post);
  }

  lemma {:induction false} ReadsTree<V>(h: Host<V>, pre: string, t: Tree, post: string)
    requires Readable(t) && Blank(pre) && Blank(post)
    ensures Resolve(h, pre + Unparse(t) + post) == Meaning(h, t)
    decreases t, 2
  {
    Shape(t);
    TrimPadded(pre, Unparse(t), post);
    ReadsBack(h, t);
  }

  lemma {:induction false} ReadsBack<V>(h: Host<V>, t: Tree)
    requires Readable(t)
    ensures Read(h, Unparse(t)) == Meaning(h, t)
    decreases t, 1
  {
    match t
    case Paren(_, _, _) => ReadParen(h, t);
    case Cmp(_, _, _, _, _) => ReadCmp(h, t);
    case Not(_, _) => ReadNot(h, t);
    case Const(_) => ReadLeaf(h, t);
    case Num(_) => ReadLeaf(h, t);
    case Str(_, _) => ReadLeaf(h, t);
    case Ref(_, _) => ReadRef(h, t);
  }

  lemma {:induction false} ReadLeaf<V>(h: Host<V>, t: Tree)
    requires Readable(t) && (t.Const? || t.Num? || t.Str?)
    ensures Read(h, Unparse(t)) == Meaning(h, t)
  {
    hide Resolve, Path, FirstSplit, WrapsWhole, Quiet;
    Shape(t);
    NoSplit(Unparse(t));
    match t
    case Const(_) =>
    case Num(n) =>
      NumberShape(NumberText(n));
    case Str(q, b) =>
      ReadQuoted(h, q, b);
  }

  lemma {:induction false} StartPath(head: string, steps: Steps)
    requires IsIdent(head) && ReadableSteps(steps)
    ensures var e := Unparse(Ref(head, steps));
            && IdentLength(e) == |head| <= |e| && e[..|head|] == head && e[|head|..] == UnparseSteps(steps)
  {
    StepsShape(steps);
    IdentLengthOf(head, UnparseSteps(steps));
  }

  lemma {:induction false} ReadParen<V>(h: Host<V>, t: Tree)
    requires t.Paren? && Readable(t)
    ensures Read(h, Unparse(t)) == Meaning(h, t)
    decreases t, 0
  {
    var e, inner := Unparse(t), t.w1 + Unparse(t.inner) + t.w2;
    ParenWraps(inner, t);
    assert e[1..|e| - 1] == inner;
    ReadsTree(h, t.w1, t.inner, t.w2);
  }

  lemma {:induction false} ReadCmp<V>(h: Host<V>, t: Tree)
    requires t.Cmp? && Readable(t)
    ensures Read(h, Unparse(t)) == Meaning(h, t)
    decreases t, 0
  {
    hide Resolve, Read, OpAt, FirstSplit, WrapsWhole, Compare, Unparse, OpText, Balanced, Quiet;
    Shape(t.right);
    CmpMeaning(h, t);
    CmpReads(t);
    CmpPieces(t);
    ReadSplit(h, Unparse(t), |Unparse(t.left) + t.w1|);
    ReadsTree(h, "", t.left, t.w1);
    ReadsTree(h, t.w2, t.right, "");
  }

  lemma {:induction false} CmpPieces(t: Tree)
    requires t.Cmp?
    ensures var e, n := Unparse(t), |Unparse(t.left) + t.w1|;
            && n + |OpText(t.op)| <= |e|
            && e[..n] == "" + Unparse(t.left) + t.w1
            && e[n + |OpText(t.op)|..] == t.w2 + Unparse(t.right) + ""
  {
    var a, b := Unparse(t.left) + t.w1, t.w2 + Unparse(t.right);
    assert Unparse(t) == a + (OpText(t.op) + b);
  }

  lemma {:induction false} ReadSplit<V>(h: Host<V>, e: string, n: nat)
    requires n < |e| && FirstSplit(e, 0) == Some(n)
    requires !(e[0] == '(' && e[|e| - 1] == ')' && WrapsWhole(e))
    ensures Read(h, e) ==
            Compare(h, OpAt(e, n), Resolve(h, e[..n]), Resolve(h, e[n + |OpText(OpAt(e, n))|..]))
  {
    hide Resolve, WrapsWhole, FirstSplit;
  }

  lemma {:induction false} ReadNot<V>(h: Host<V>, t: Tree)
    requires t.Not? && Readable(t)
    ensures Read(h, Unparse(t)) == Meaning(h, t)
    decreases t, 0
  {
    var e := Unparse(t);
    Shape(t);
    NoSplit(e);
    assert e[1..] == t.w + Unparse(t.arg) + "";
    ReadsTree(h, t.w, t.arg, "");
  }

  lemma {:induction false} ReadRef<V>(h: Host<V>, t: Tree)
    requires t.Ref? && Readable(t)
    ensures Read(h, Unparse(t)) == Meaning(h, t)
    decreases t, 0
  {
    RefIsPath(h, t);
    StartPath(t.head, t.steps);
    WalkFollows(h, Unparse(t), |t.head|, t.steps, h.root(t.head));
  }

  lemma {:induction false} RefIsPath<V>(h: Host<V>, t: Tree)
    requires t.Ref? && Readable(t)
    ensures |t.head| <= |Unparse(t)|
    ensures Read(h, Unparse(t)) == Walk(h, Unparse(t), |t.head|, h.root(t.head))
  {
    Shape(t);
    NoSplit(Unparse(t));
    StartPath(t.head, t.steps);
    RefReads(t.head, t.steps);
    ReadFallsThrough(h, Unparse(t));
  }

  lemma {:induction false} ReadFallsThrough<V>(h: Host<V>, e: string)
    requires e != "" && e[0] != '(' && e[0] != '!' && FirstSplit(e, 0) == None
    requires !IsNumber(e) && !IsQuoted(e) && forall c: Constant :: e != Word(c)
    ensures Read(h, e) == Path(h, e)
  {
    assert e != Word(True) && e != Word(False) && e != Word(Null) && e != Word(Undefined);
  }

  lemma {:induction false} ParenWraps(inner: string, t: Tree)
    requires t.Paren? && Readable(t) && Unparse(t) == "(" + inner + ")"
    requires inner == t.w1 + Unparse(t.inner) + t.w2
    ensures WrapsWhole(Unparse(t))
  {
    var e := Unparse(t);
    Shape(t.inner);
    PaddedBalanced(t.w1, Unparse(t.inner), t.w2);
    forall k | 0 <= k < |e| - 1 && e[k] == ')' ensures Depth(Round, e[..k + 1]) >= 1 {
      WrappedDepth(Round, "(", inner, ")", k + 1);
    }
  }

  lemma {:induction false} NoSplit(e: string)
    requires Quiet(e)
    ensures FirstSplit(e, 0) == None
  {
    forall i: nat | i < |e| ensures !IsSplit(e, i) {
      assert i < |e| - 1 ==> !OperatorAt(e, i);
    }
  }

  /** The comparison at the top of a tree is the one the scanner finds, and it finds it whole. */
  lemma {:induction false} CmpReads(t: Tree)
    requires t.Cmp? && Readable(t.left) && !t.left.Cmp? && Blank(t.w1) && Blank(t.w2)
    requires Unparse(t.right) != "" && Unparse(t.right)[0] != '='
    ensures var e := Unparse(t);
            var n := |Unparse(t.left) + t.w1|;
            && n < |e| && FirstSplit(e, 0) == Some(n) && OpAt(e, n) == t.op
            && !(e[0] == '(' && e[|e| - 1] == ')' && WrapsWhole(e))
  {
    hide FirstSplit, IsSplit, OpAt, WrapsWhole, Quiet;
    var l, o, b := Unparse(t.left), OpText(t.op), t.w2 + Unparse(t.right);
    assert Unparse(t) == l + (t.w1 + (o + b));
    var e := (l + t.w1) + (o + b);
    Shape(t.left);
    assert b[0] != '=';
    SplitHere(l, t.w1, t.op, b);
    FirstSplitIs(e, 0, |l + t.w1|);
    if e[0] == '(' {
      NotWrapped(t.left, t.w1 + (o + b), e);
    }
  }

  /** Parentheses around the left operand are not parentheses around the whole. */
  lemma {:induction false} NotWrapped(left: Tree, rest: string, e: string)
    requires Readable(left) && !left.Cmp? && rest != "" && e == Unparse(left) + rest && e[0] == '('
    ensures !WrapsWhole(e)
  {
    var l := Unparse(left);
    Shape(left);
    assert e[0] == l[0];
    assert e[|l| - 1] == l[|l| - 1] == ')';
    assert e[..|l| - 1 + 1] == l;
    assert Depth(Round, l) == 0;
  }

  lemma {:induction false} SplitHere(l: string, w: string, op: Op, b: string)
    requires Shaped(l) && Quiet(l) && Blank(w) && b != "" && b[0] != '='
    ensures var e := (l + w) + (OpText(op) + b);
            var n := |l + w|;
            && IsSplit(e, n) && OpAt(e, n) == op
            && forall j :: 0 <= j < n ==> !IsSplit(e, j)
  {
    var a, o := l + w, OpText(op);
    var e := a + (o + b);
    var n := |a|;
    BalancedFlat(w);
    BalancedConcat(l, w);
    assert e[..n] == a;
    assert Depth(Both, a) == 0;
    assert a[0] == l[0];
    assert e[n] == o[0] && e[n + 1] == o[1];
    assert e[n + 2] == (o + b)[2];
    assert e[n - 1] == a[n - 1];
    forall j | 0 <= j < n ensures !IsSplit(e, j) {
      assert e[j] == a[j];
      if j < |l| {
        assert e[..j] == l[..j];
        if j + 1 < |l| {
          assert e[j + 1] == l[j + 1];
          assert !OperatorAt(l, j);
        }
      } else {
        assert IsSpace(e[j]);
      }
    }
  }

  /** A path is none of the things `resolve` tries before it: a constant, a number, a quoted text. */
  lemma {:induction false} RefReads(head: string, steps: Steps)
    requires Readable(Ref(head, steps))
    ensures var e := Unparse(Ref(head, steps));
            && !IsNumber(e) && !IsQuoted(e) && e[0] != '!'
            && forall c: Constant :: e != Word(c)
  {
    hide Quiet, Balanced, IsNumber;
    var e := Unparse(Ref(head, steps));
    assert e[0] == head[0];
    IdentIsNoNumber(e);
    forall c: Constant ensures e != Word(c) {
      RefIsNoWord(head, steps, c);
    }
  }

  lemma {:induction false} IdentIsNoNumber(e: string)
    requires e != "" && IsIdentStart(e[0])
    ensures !IsNumber(e)
  {}

  lemma {:induction false} RefIsNoWord(head: string, steps: Steps, c: Constant)
    requires Readable(Ref(head, steps))
    ensures Unparse(Ref(head, steps)) != Word(c)
  {
    hide Quiet, Balanced;
    var e := Unparse(Ref(head, steps));
    StepsShape(steps);
    if steps.End? {
      assert e == head;
    } else {
      assert e[|head|] == UnparseSteps(steps)[0];
      assert forall i :: 0 <= i < |Word(c)| ==> IsIdentPart(Word(c)[i]);
    }
  }

  lemma {:induction false} WalkFollows<V>(h: Host<V>, e: string, i: nat, steps: Steps, cur: V)
    requires i <= |e| && e[i..] == UnparseSteps(steps) && ReadableSteps(steps)
    ensures Walk(h, e, i, cur) == Follow(h, steps, cur)
    decreases steps, 1
  {
    match steps
    case End =>
      assert |e[i..]| == 0;
    case Dot(_, _) =>
      WalkFollowsDot(h, e, i, steps, cur);
    case At(_, _, _, _) =>
      WalkFollowsAt(h, e, i, steps, cur);
  }

  lemma {:induction false} WalkFollowsDot<V>(h: Host<V>, e: string, i: nat, steps: Steps, cur: V)
    requires steps.Dot? && i <= |e| && e[i..] == UnparseSteps(steps) && ReadableSteps(steps)
    ensures Walk(h, e, i, cur) == Follow(h, steps, cur)
    decreases steps, 0
  {
    var j := NameStep(h, e, i, steps, cur);
    WalkFollows(h, e, j, steps.rest, Member(h, cur, h.str(steps.name)));
  }

  lemma {:induction false} NameStep<V>(h: Host<V>, e: string, i: nat, steps: Steps, cur: V) returns (j: nat)
    requires steps.Dot? && ReadableSteps(steps) && i <= |e| && e[i..] == UnparseSteps(steps)
    ensures i < j <= |e| && e[j..] == UnparseSteps(steps.rest)
    ensures Walk(h, e, i, cur) == Walk(h, e, j, Member(h, cur, h.str(steps.name)))
  {
    hide Resolve, Read, Path, Walk;
    j := i + 1 + |steps.name|;
    NameFound(e, i, steps);
    WalkName(h, e, i, steps.name, cur);
  }

  lemma {:induction false} WalkFollowsAt<V>(h: Host<V>, e: string, i: nat, steps: Steps, cur: V)
    requires steps.At? && i <= |e| && e[i..] == UnparseSteps(steps) && ReadableSteps(steps)
    ensures Walk(h, e, i, cur) == Follow(h, steps, cur)
    decreases steps, 0
  {
    hide Resolve, Walk, Path, Read;
    var inner := steps.w1 + Unparse(steps.key) + steps.w2;
    KeyFound(e, i, steps);
    WalkKey(h, e, i, inner, cur);
    ReadsTree(h, steps.w1, steps.key, steps.w2);
    WalkFollows(h, e, i + 2 + |inner|, steps.rest, Member(h, cur, Meaning(h, steps.key)));
  }

  lemma {:induction false} NameFound(e: string, i: nat, steps: Steps)
    requires steps.Dot? && ReadableSteps(steps) && i <= |e| && e[i..] == UnparseSteps(steps)
    ensures var j := i + 1 + |steps.name|;
            && steps.name != "" && j <= |e| && e[i] == '.' && NameLength(e[i + 1..]) == |steps.name|
            && e[i + 1..j] == steps.name && e[j..] == UnparseSteps(steps.rest)
  {
    var name, r := steps.name, UnparseSteps(steps.rest);
    Pieces(e, i, ".", name, r);
    StepsShape(steps.rest);
    NameLengthOf(name, r);
  }

  lemma {:induction false} KeyFound(e: string, i: nat, steps: Steps)
    requires steps.At? && ReadableSteps(steps) && i <= |e| && e[i..] == UnparseSteps(steps)
    ensures var inner := steps.w1 + Unparse(steps.key) + steps.w2;
            var j := i + 1 + |inner|;
            && j < |e| && e[i] == '[' && CloseIndex(e, i + 1, 1) == Some(j)
            && e[i + 1..j] == inner && e[j + 1..] == UnparseSteps(steps.rest)
  {
    hide CloseIndex, Readable;
    var inner, r := steps.w1 + Unparse(steps.key) + steps.w2, UnparseSteps(steps.rest);
    assert e[i..] == "[" + inner + ("]" + r);
    Pieces(e, i, "[", inner, "]" + r);
    var j := i + 1 + |inner|;
    assert e[j] == e[j..][0];
    assert e[j + 1..] == e[j..][1..];
    KeyCloses(e, i + 1, j, steps.w1, steps.key, steps.w2);
  }

  lemma {:induction false} KeyCloses(e: string, start: nat, n: nat, w1: string, key: Tree, w2: string)
    requires start <= n < |e| && e[n] == ']' && e[start..n] == w1 + Unparse(key) + w2
    requires Blank(w1) && Blank(w2) && Readable(key)
    ensures CloseIndex(e, start, 1) == Some(n)
  {
    hide CloseIndex, Balanced, Quiet;
    Shape(key);
    PaddedBalanced(w1, Unparse(key), w2);
    EmptyDepth(Square, e[start..start]);
    CloseIndexOf(e, start, start, n);
  }

  lemma {:induction false} EmptyDepth(k: Kind, s: string)
    requires s == ""
    ensures Depth(k, s) == 0
  {}

  /** Where the parts of a text that starts at i lie. */
  lemma {:induction false} Pieces(e: string, i: nat, open: string, inner: string, rest: string)
    requires i <= |e| && |open| == 1 && e[i..] == open + inner + rest
    ensures var j := i + 1 + |inner|;
            && j <= |e| && e[i] == open[0] && e[i + 1..j] == inner && e[j..] == rest && e[i + 1..] == inner + rest
  {
    var u := e[i..];
    assert u[1..] == inner + rest;
    assert e[i] == u[0];
    assert e[i + 1..] == u[1..];
    assert e[i + 1..i + 1 + |inner|] == u[1..][..|inner|];
    assert e[i + 1 + |inner|..] == u[1..][|inner|..];
  }

  lemma {:induction false} NameLengthOf(name: string, rest: string)
    requires IsIdent(name) || IsDigits(name)
    requires rest == "" || !IsIdentPart(rest[0])
    ensures NameLength(name + rest) == |name|
  {
    if IsIdent(name) {
      IdentLengthOf(name, rest);
    } else {
      assert (name + rest)[0] == name[0];
      DigitsLengthOf(name, rest);
    }
  }

  lemma {:induction false} BalancedDepth(k: Kind, s: string, i: nat)
    requires Balanced(s) && i <= |s|
    ensures Depth(k, s) == 0 && Depth(k, s[..i]) >= 0
  {}

  /** Over balanced text the bracket matcher stops at the bracket after it. */
  lemma {:induction false} CloseIndexOf(e: string, start: nat, j: nat, n: nat)
    requires start <= j <= n < |e| && e[n] == ']' && Balanced(e[start..n])
    ensures Depth(Square, e[start..j]) >= 0
    ensures CloseIndex(e, j, 1 + Depth(Square, e[start..j])) == Some(n)
    decreases n - j
  {
    hide Balanced;
    BalancedDepth(Square, e[start..n], j - start);
    var body := e[start..n];
    assert body[..j - start] == e[start..j];
    assert Depth(Square, body) == 0;
    if j < n {
      assert body[..j + 1 - start] == e[start..j + 1];
      DepthStep(Square, body, j - start);
      assert body[j - start] == e[j];
      CloseIndexOf(e, start, j + 1, n);
    }
  }

  /** Two spellings that read the same are the same expression: the notation is unambiguous. */
  lemma {:induction false} Unambiguous<V>(h: Host<V>, s: Tree, t: Tree)
    requires Writable(s) && Writable(t) && Unparse(s) == Unparse(t)
    ensures Meaning(h, s) == Meaning(h, t)
  {
    hide Resolve, Meaning, Writable;
    RoundTrip(h, "", s, "");
    RoundTrip(h, "", t, "");
  }

  // ---------------------------------------------------------------- what reads as nothing

  lemma {:induction false} GapIsUndefined<V>(h: Host<V>, s: string)
    requires IsGap(s)
    ensures Resolve(h, s) == h.undef
  {
    GapExactly(s);
    TrimIsEmpty(s);
  }

  /** A path that goes on with anything but a proper step has no value, whatever the name stands for. */
  lemma {:induction false} StrayText<V>(h: Host<V>, name: string, rest: string)
    requires IsName(name) && rest != "" && rest[0] !in NAME_PART && rest[|rest| - 1] !in BLANKS
    requires Quiet(name + rest)
    requires rest[0] == '.' ==> |rest| == 1 || (rest[1] !in NAME_START && rest[1] !in DIGITS)
    requires rest[0] == '[' ==> StaysOpen(rest, 0, |rest|)
    ensures Resolve(h, name + rest) == h.undef
  {
    hide Resolve, Read, Path, Walk, FirstSplit, IsName, NAME_START, NAME_PART, BLANKS, DIGITS, CloseIndex, NameLength,
      Quiet, StaysOpen;
    var e := name + rest;
    NoSplit(e);
    NameExactly(name);
    PartExactly(rest[0]);
    SpaceExactly(rest[|rest| - 1]);
    NameShape(name);
    TrimPadded("", e, "");
    assert "" + e + "" == e;
    ResolveTrimmed(h, e);
    IdentLengthOf(name, rest);
    NameAndMore(name, rest);
    ReadFallsThrough(h, e);
    NoStep(e, |name|, rest);
    WalkStuck(h, e, |name|, h.root(e[..|name|]));
    PathWalks(h, e, |name|);
  }

  lemma {:induction false} NameAndMore(name: string, rest: string)
    requires IsIdent(name) && rest != "" && !IsIdentPart(rest[0])
    ensures var e := name + rest;
            e[0] != '(' && e[0] != '!' && !IsNumber(e) && !IsQuoted(e) && forall c: Constant :: e != Word(c)
  {
    hide IsNumber;
    var e := name + rest;
    assert e[0] == name[0];
    IdentIsNoNumber(e);
    forall c: Constant ensures e != Word(c) {
      assert e[|name|] == rest[0];
      assert forall i :: 0 <= i < |Word(c)| ==> IsIdentPart(Word(c)[i]);
    }
  }

  lemma {:induction false} PathWalks<V>(h: Host<V>, e: string, n: nat)
    requires IdentLength(e) == n > 0
    ensures n <= |e| && Path(h, e) == Walk(h, e, n, h.root(e[..n]))
  {}

  lemma {:induction false} NoStep(e: string, i: nat, rest: string)
    requires i < |e| && e[i..] == rest
    requires rest[0] == '.' ==> |rest| == 1 || (rest[1] !in NAME_START && rest[1] !in DIGITS)
    requires rest[0] == '[' ==> StaysOpen(rest, 0, |rest|)
    ensures e[i] == '.' ==> NameLength(e[i + 1..]) == 0
    ensures e[i] == '[' ==> CloseIndex(e, i + 1, 1) == None
  {
    hide CloseIndex, NAME_START, DIGITS;
    assert e[i] == rest[0];
    if e[i] == '.' && |rest| > 1 {
      StartExactly(rest[1]);
      DigitExactly(rest[1]);
      assert e[i + 1..][0] == rest[1];
    }
    if e[i] == '[' {
      assert e[i..i + 1] == "[";
      assert "["[..0] == "";
      forall k | i < k <= |e| ensures Depth(Square, e[i..k]) > 0 {
        assert e[i..k] == rest[0..k - i];
      }
      NeverCloses(e, i, i + 1);
    }
  }

  lemma {:induction false} NeverCloses(e: string, i: nat, j: nat)
    requires i < j <= |e| && forall k :: i < k <= |e| ==> Depth(Square, e[i..k]) > 0
    ensures CloseIndex(e, j, Depth(Square, e[i..j])) == None
    decreases |e| - j
  {
    if j < |e| {
      assert e[i..j + 1][..j - i] == e[i..j];
      assert Depth(Square, e[i..j + 1]) > 0;
      NeverCloses(e, i, j + 1);
    }
  }

  // ---------------------------------------------------------------- quoted texts, whatever is in them

  /** The least a host can tell apart: nothing, a truth value, a text. */
  datatype Value = Nothing | Truth(b: bool) | Words(s: string)

  /** On its own, a quoted text is read as that text exactly when no operator in it is at depth zero. */
  lemma {:induction false} QuotedTextIff(q: char, b: string)
    requires IsQuote(q)
    ensures (forall h: Host<Value> :: Resolve(h, [q] + b + [q]) == h.str(b)) <==> Quiet(b)
  {
    hide Resolve, Read;
    var e := [q] + b + [q];
    TrimPadded("", e, "");
    assert "" + e + "" == e;
    SplitsInQuotes(q, b);
    forall h: Host<Value> ensures Resolve(h, e) == Read(h, e) {
      ResolveTrimmed(h, e);
    }
    if !Quiet(b) {
      OperatorReads(Plainly((v: Value, w: Value) => v == w), q, b);
    } else {
      forall h: Host<Value> ensures Read(h, e) == h.str(b) {
        ReadQuoted(h, q, b);
      }
    }
  }

  /** A host that keeps texts, truth values and nothing apart, with an equality of the caller's choice. */
  function Plainly(eq: (Value, Value) -> bool): (h: Host<Value>)
    ensures forall s: string, t: bool :: h.str(s) != h.boolean(t)
    ensures h.undef != h.boolean(true) && h.undef != h.boolean(false)
  {
    Host(Nothing, Nothing, (t: bool) => Truth(t), (s: string) => Words(s), (s: string) => Words(s),
         (s: string) => Nothing, (v: Value, k: Value) => Nothing, (v: Value) => v.Nothing?,
         (v: Value) => v == Truth(true), eq, eq)
  }

  lemma {:induction false} ResolveTrimmed<V>(h: Host<V>, e: string)
    requires Trim(e) == e
    ensures Resolve(h, e) == Read(h, e)
  {
    hide Read;
  }

  lemma {:induction false} ReadQuoted<V>(h: Host<V>, q: char, b: string)
    requires IsQuote(q) && FirstSplit([q] + b + [q], 0) == None
    ensures Read(h, [q] + b + [q]) == h.str(b)
  {
    hide Resolve, Path, FirstSplit, WrapsWhole;
    var e := [q] + b + [q];
    assert e[0] == q && e[1..|e| - 1] == b;
  }

  lemma {:induction false} SplitsInQuotes(q: char, b: string)
    requires IsQuote(q)
    ensures FirstSplit([q] + b + [q], 0).None? <==> Quiet(b)
  {
    hide IsSplit;
    assert [q] + b + [q] + "" == [q] + b + [q];
    SplitsUpToQuote(q, b, "");
    if Quiet(b) {
      NoFirstSplit([q] + b + [q]);
    }
  }

  /** Up to the closing quote the scanner stops exactly at the operators of the body. */
  lemma {:induction false} SplitInQuotes(q: char, b: string, rest: string, i: nat)
    requires IsQuote(q) && i < |b| + 2
    ensures IsSplit([q] + b + [q] + rest, i) <==> 0 < i < |b| && OperatorAt(b, i - 1)
  {
    var e := [q] + b + [q] + rest;
    assert e[|b| + 1] == q;
    if 0 < i <= |b| {
      assert e[..i] == [q] + b[..i - 1];
      DepthConcat(Both, [q], b[..i - 1]);
      FlatDepth(Both, [q]);
      assert e[i] == b[i - 1];
      assert i < |b| ==> e[i + 1] == b[i];
      assert i > 1 ==> e[i - 1] == b[i - 2];
      assert e[..i][0] == q;
    }
  }

  // ---------------------------------------------------------------- quoted texts compared

  /** Behind a quoted text the operator is found exactly if the body returns to depth zero, quietly. */
  lemma {:induction false} QuotedOperandSplit(q: char, b: string, w: string, op: Op, z: string)
    requires IsQuote(q) && Blank(w)
    ensures var e, n := [q] + b + [q] + w + OpText(op) + z, |b| + 2 + |w|;
            && n < |e| && e[n] == OpText(op)[0]
            && (forall i :: |b| + 2 <= i < n ==> !IsSplit(e, i))
            && (FirstSplit(e, 0) == Some(n) <==> Depth(Both, b) == 0 && Quiet(b))
  {
    hide OperatorAt, FirstSplit, IsSplit, Depth, OpText, EqOrBang;
    var e, n := [q] + b + [q] + w + OpText(op) + z, |b| + 2 + |w|;
    SplitsUpToQuote(q, b, w + OpText(op) + z);
    assert e == [q] + b + [q] + (w + OpText(op) + z);
    SplitBehind(q, b, w, op, z);
    if Depth(Both, b) == 0 && Quiet(b) {
      FirstSplitIs(e, 0, n);
    }
    if FirstSplit(e, 0) == Some(n) {
      assert IsSplit(e, n);
      assert forall j :: 0 <= j < n ==> !IsSplit(e, j);
    }
  }

  /** No split point up to the closing quote exactly when the body is quiet. */
  lemma {:induction false} SplitsUpToQuote(q: char, b: string, rest: string)
    requires IsQuote(q)
    ensures (forall i: nat :: i < |b| + 2 ==> !IsSplit([q] + b + [q] + rest, i)) <==> Quiet(b)
  {
    hide OperatorAt, IsSplit;
    var e := [q] + b + [q] + rest;
    forall i: nat | i < |b| + 2 ensures IsSplit(e, i) <==> 0 < i < |b| && OperatorAt(b, i - 1) {
      SplitInQuotes(q, b, rest, i);
    }
    if !Quiet(b) {
      var i: nat :| i < |b| - 1 && OperatorAt(b, i);
      assert IsSplit(e, i + 1);
    }
  }

  lemma {:induction false} SplitBehind(q: char, b: string, w: string, op: Op, z: string)
    requires IsQuote(q) && Blank(w)
    ensures var e, n := [q] + b + [q] + w + OpText(op) + z, |b| + 2 + |w|;
            && n < |e| && e[n] == OpText(op)[0] && (IsSplit(e, n) <==> Depth(Both, b) == 0)
            && forall i :: |b| + 2 <= i < n ==> !IsSplit(e, i)
  {
    var e, n := [q] + b + [q] + w + OpText(op) + z, |b| + 2 + |w|;
    var a := [q] + b + [q] + w;
    assert e[..n] == a;
    forall i | |b| + 2 <= i < n ensures !IsSplit(e, i) {
      assert e[i] == w[i - |b| - 2];
      NoSplitAtBlank(e, i);
    }
    QuotedDepth(q, b, w);
    assert e[n] == OpText(op)[0] && e[n + 1] == OpText(op)[1];
    hide Depth;
    assert e[n - 1] == a[n - 1];
    assert w == "" ==> a[n - 1] == q;
    assert w != "" ==> a[n - 1] == w[|w| - 1];
    assert a[0] == q;
  }

  lemma {:induction false} NoSplitAtBlank(e: string, i: nat)
    requires i < |e| && IsSpace(e[i])
    ensures !IsSplit(e, i)
  {}

  lemma {:induction false} QuotedDepth(q: char, b: string, w: string)
    requires IsQuote(q) && Blank(w)
    ensures Depth(Both, [q] + b + [q] + w) == Depth(Both, b)
  {
    DepthConcat(Both, [q] + b + [q], w);
    DepthConcat(Both, [q] + b, [q]);
    DepthConcat(Both, [q], b);
    FlatDepth(Both, [q]);
    FlatDepth(Both, w);
  }

  /** What is read of a text that opens with a quote and holds no operator. */
  lemma {:induction false} ReadOpened<V>(h: Host<V>, e: string)
    requires e != "" && IsQuote(e[0]) && FirstSplit(e, 0) == None
    ensures Read(h, e) == if IsQuoted(e) then h.str(e[1..|e| - 1]) else h.undef
  {
    hide Resolve, Walk, FirstSplit, WrapsWhole;
    assert forall c: Constant :: Word(c)[0] != e[0];
    assert !IsNumber(e);
    if !IsQuoted(e) {
      ReadFallsThrough(h, e);
    }
  }

  /** Trimming a text that starts tight only cuts blanks off its end. */
  lemma {:induction false} TrimEnd(s: string)
    requires s != "" && !IsSpace(s[0])
    ensures Trim(s) <= s && Trim(s) != "" && forall k :: |Trim(s)| <= k < |s| ==> IsSpace(s[k])
    ensures !IsSpace(Trim(s)[|Trim(s)| - 1])
  {
    assert TrimLeft(s) == s;
    if IsSpace(s[|s| - 1]) {
      TrimEnd(s[..|s| - 1]);
    }
  }

  lemma {:induction false} CutOff(e: string, i: nat)
    requires i < |e| && IsQuote(e[0]) && FirstSplit(e, 0) == Some(i)
    ensures var l := Trim(e[..i]);
            i > 0 && l <= e && 0 < |l| <= i && (forall k :: |l| <= k < i ==> IsSpace(e[k]))
  {
    hide FirstSplit, Trim;
    assert i > 0 by {
      assert Blank(e[..0]);
    }
    TrimEnd(e[..i]);
  }

  /** Cut at a split point, a text that opens with a quote leaves a quoted text or nothing on the left. */
  lemma {:induction false} LeftOfSplit<V>(h: Host<V>, e: string, i: nat)
    requires i < |e| && IsQuote(e[0]) && FirstSplit(e, 0) == Some(i)
    ensures var l := Trim(e[..i]);
            Resolve(h, e[..i]) == if IsQuoted(l) then h.str(l[1..|l| - 1]) else h.undef
  {
    hide Resolve, Read, IsQuoted, FirstSplit, Trim;
    var l := Trim(e[..i]);
    CutOff(e, i);
    forall j: nat | j < |l| ensures !IsSplit(l, j) {
      assert l[..j] == e[..j];
      assert j + 1 < |l| ==> l[j + 1] == e[j + 1];
      assert l[j] == e[j] && (j > 0 ==> l[j - 1] == e[j - 1]);
      assert !IsSplit(e, j);
    }
    NoFirstSplit(l);
    ReadOpened(h, l);
    ResolveIsRead(h, e[..i]);
  }

  lemma {:induction false} NoFirstSplit(e: string)
    requires forall j: nat :: j < |e| ==> !IsSplit(e, j)
    ensures FirstSplit(e, 0) == None
  {}

  lemma {:induction false} ResolveIsRead<V>(h: Host<V>, s: string)
    ensures Resolve(h, s) == Read(h, Trim(s))
  {
    hide Read;
  }

  predicate Negative(op: Op) { op.StrictNe? || op.LooseNe? }

  /** When the scanner stops elsewhere, some host sees the difference. */
  lemma {:induction false} SplitElsewhere(q: char, b: string, w1: string, op: Op, w2: string, r: Tree)
    returns (h: Host<Value>)
    requires IsQuote(q) && Blank(w1) && Blank(w2) && Readable(r)
    requires !(Depth(Both, b) == 0 && Quiet(b))
    ensures Read(h, Unparse(Cmp(Str(q, b), w1, op, w2, r))) != Meaning(h, Cmp(Str(q, b), w1, op, w2, r))
  {
    hide *;
    var t := Cmp(Str(q, b), w1, op, w2, r);
    var e := Unparse(t);
    QuotedCmpText(q, b, w1, op, w2, r);
    QuotedOperandSplit(q, b, w1, op, w2 + Unparse(r));
    match FirstSplit(e, 0)
    case None =>
      h := Plainly((v: Value, w: Value) => true);
      ReadOpened(h, e);
      MeaningOfCmp(h, t);
      IsTruth(h, op, h.str(b), Meaning(h, r));
    case Some(i) =>
      NotTheBody(q, b, w1, op, w2 + Unparse(r), i);
      h := OtherReading(e, i, b, op, r);
      MeaningOfCmp(h, t);
  }

  lemma {:induction false} QuotedCmpText(q: char, b: string, w1: string, op: Op, w2: string, r: Tree)
    ensures var e := Unparse(Cmp(Str(q, b), w1, op, w2, r));
            e == [q] + b + [q] + w1 + OpText(op) + (w2 + Unparse(r)) && e != "" && e[0] == q
  {
    assert Unparse(Str(q, b)) == [q] + b + [q];
  }

  lemma {:induction false} IsTruth<V>(h: Host<V>, op: Op, a: V, b: V)
    ensures Compare(h, op, a, b) == h.boolean(true) || Compare(h, op, a, b) == h.boolean(false)
  {
    var same := if op.StrictEq? || op.StrictNe? then h.strictEq(a, b) else h.looseEq(a, b);
    var truth := if Negative(op) then !same else same;
    assert Compare(h, op, a, b) == h.boolean(truth);
    assert truth == true || truth == false;
  }

  /** A host in which a comparison with anything but b on its left comes out differently. */
  lemma {:induction false} OtherReading(e: string, i: nat, b: string, op: Op, r: Tree) returns (h: Host<Value>)
    requires i < |e| && IsQuote(e[0]) && FirstSplit(e, 0) == Some(i)
    requires var l := Trim(e[..i]); IsQuoted(l) ==> l[1..|l| - 1] != b
    ensures Read(h, e) != Compare(h, op, h.str(b), Meaning(h, r))
  {
    hide Resolve, Read, Meaning, FirstSplit, Trim, OpAt, WrapsWhole, OpText, Compare, Judge;
    var other := OpAt(e, i);
    h := Judge(Negative(other) == Negative(op), b);
    NotWrappedQuote(e);
    ReadSplit(h, e, i);
    LeftOfSplit(h, e, i);
    var l := Trim(e[..i]);
    assert IsQuoted(l) ==> h.str(l[1..|l| - 1]) != h.str(b);
    JudgedApart(other, op, b, Resolve(h, e[..i]));
  }

  /** A host that calls only b equal to anything, or everything to everything. */
  function Judge(onlyB: bool, b: string): (h: Host<Value>)
    ensures h.str(b) == Words(b) && h.undef == Nothing
    ensures forall s: string :: h.str(s) == h.str(b) ==> s == b
  {
    if onlyB then Plainly((v: Value, w: Value) => v == Words(b)) else Plainly((v: Value, w: Value) => true)
  }

  lemma {:induction false} JudgedApart(other: Op, op: Op, b: string, x: Value)
    requires x != Words(b)
    ensures var h := Judge(Negative(other) == Negative(op), b);
            forall y: Value, m: Value :: Compare(h, other, x, y) != Compare(h, op, h.str(b), m)
  {}

  lemma {:induction false} MeaningOfCmp<V>(h: Host<V>, t: Tree)
    requires t.Cmp? && t.left.Str?
    ensures Meaning(h, t) == Compare(h, t.op, h.str(t.left.body), Meaning(h, t.right))
  {}

  lemma {:induction false} NotWrappedQuote(e: string)
    requires e != "" && IsQuote(e[0])
    ensures e[0] != '('
  {}

  /** What lies left of another split point is not the quoted text itself. */
  lemma {:induction false} NotTheBody(q: char, b: string, w: string, op: Op, z: string, i: nat)
    requires IsQuote(q) && Blank(w)
    requires var e := [q] + b + [q] + w + OpText(op) + z;
             i < |e| && FirstSplit(e, 0) == Some(i) && i != |b| + 2 + |w|
    ensures var l := Trim(([q] + b + [q] + w + OpText(op) + z)[..i]);
            IsQuoted(l) ==> l[1..|l| - 1] != b
  {
    hide IsSplit, FirstSplit, Quiet, Trim;
    var e, n := [q] + b + [q] + w + OpText(op) + z, |b| + 2 + |w|;
    var l := Trim(e[..i]);
    QuotedOperandSplit(q, b, w, op, z);
    CutOff(e, i);
    assert !IsSpace(e[n]);
    assert i >= |b| + 2 ==> |l| > n;
  }

  /**
   * A comparison with a quoted text on its left is read as that comparison, in every host, exactly
   * when the text's brackets cancel out and no operator in it stands at depth zero.
   */
  lemma {:induction false} QuotedOperandIff(q: char, b: string, w1: string, op: Op, w2: string, r: Tree)
    requires IsQuote(q) && Blank(w1) && Blank(w2) && Readable(r)
    ensures var t := Cmp(Str(q, b), w1, op, w2, r);
            (forall h: Host<Value> :: Resolve(h, Unparse(t)) == Meaning(h, t))
            <==> Depth(Both, b) == 0 && Quiet(b)
  {
    hide Resolve, Read, Meaning, Quiet, Readable;
    var t := Cmp(Str(q, b), w1, op, w2, r);
    TightCmp(q, b, w1, op, w2, r);
    forall h: Host<Value> ensures Resolve(h, Unparse(t)) == Read(h, Unparse(t)) {
      ResolveTrimmed(h, Unparse(t));
    }
    if Depth(Both, b) == 0 && Quiet(b) {
      forall h: Host<Value> ensures Read(h, Unparse(t)) == Meaning(h, t) {
        QuotedOperandReads(h, q, b, w1, op, w2, r);
      }
    } else {
      var h := SplitElsewhere(q, b, w1, op, w2, r);
    }
  }

  /** With the quoted text on the right, an operator at depth zero in it is all that can go wrong. */
  lemma {:induction false} QuotedRightIff(l: Tree, w1: string, op: Op, w2: string, q: char, b: string)
    requires Readable(l) && !l.Cmp? && Blank(w1) && Blank(w2) && IsQuote(q)
    ensures var t := Cmp(l, w1, op, w2, Str(q, b));
            (forall h: Host<Value> :: Resolve(h, Unparse(t)) == Meaning(h, t)) <==> Quiet(b)
  {
    hide Resolve, Read, Meaning, Quiet, Readable, Compare;
    var t := Cmp(l, w1, op, w2, Str(q, b));
    forall h: Host<Value>
      ensures Resolve(h, Unparse(t)) == Compare(h, op, Meaning(h, l), Resolve(h, [q] + b + [q]))
      ensures Meaning(h, t) == Compare(h, op, Meaning(h, l), h.str(b))
    {
      QuotedRightReads(h, l, w1, op, w2, q, b);
    }
    if Quiet(b) {
      QuotedTextIff(q, b);
    } else {
      var h := Plainly((v: Value, w: Value) => w == Words(b));
      OperatorReads(h, q, b);
      assert h.str(b) == Words(b);
      OnlyBEqual(op, b, Meaning(h, l), Resolve(h, [q] + b + [q]));
      assert Resolve(h, Unparse(t)) != Meaning(h, t);
    }
  }

  lemma {:induction false} OnlyBEqual(op: Op, b: string, x: Value, y: Value)
    requires y != Words(b)
    ensures var h := Plainly((v: Value, w: Value) => w == Words(b));
            Compare(h, op, x, y) != Compare(h, op, x, h.str(b))
  {}

  lemma {:induction false} QuotedRightReads<V>(
      h: Host<V>, l: Tree, w1: string, op: Op, w2: string, q: char, b: string)
    requires Readable(l) && !l.Cmp? && Blank(w1) && Blank(w2) && IsQuote(q)
    ensures var t := Cmp(l, w1, op, w2, Str(q, b));
            && Resolve(h, Unparse(t)) == Compare(h, op, Meaning(h, l), Resolve(h, [q] + b + [q]))
            && Meaning(h, t) == Compare(h, op, Meaning(h, l), h.str(b))
  {
    hide Resolve, Read, Meaning, Readable, Compare, OpAt, FirstSplit, WrapsWhole, OpText, Trim, Balanced, Quiet;
    var t := Cmp(l, w1, op, w2, Str(q, b));
    StrMeaning(h, q, b);
    var s := [q] + b + [q];
    assert Unparse(t.right) == s;
    CmpMeaning(h, t);
    CmpReads(t);
    CmpPieces(t);
    TightAround(t);
    ResolveTrimmed(h, Unparse(t));
    ReadSplit(h, Unparse(t), |Unparse(l) + w1|);
    ReadsTree(h, "", l, w1);
    PaddingIsTrimmed(h, w2, s);
  }

  lemma {:induction false} PaddingIsTrimmed<V>(h: Host<V>, w: string, s: string)
    requires Blank(w) && Tight(s)
    ensures Resolve(h, w + s + "") == Resolve(h, s)
  {
    hide Resolve, Read, Trim;
    TrimPadded(w, s, "");
    TrimPadded("", s, "");
    assert "" + s + "" == s;
    ResolveIsRead(h, w + s + "");
    ResolveIsRead(h, s);
  }

  lemma {:induction false} StrMeaning<V>(h: Host<V>, q: char, b: string)
    ensures Meaning(h, Str(q, b)) == h.str(b)
  {}

  lemma {:induction false} TightAround(t: Tree)
    requires t.Cmp? && Readable(t.left) && Tight(Unparse(t.right))
    ensures Trim(Unparse(t)) == Unparse(t)
  {
    hide Readable, Balanced, Quiet;
    var e := Unparse(t);
    Shape(t.left);
    assert e[0] == Unparse(t.left)[0];
    assert e[|e| - 1] == Unparse(t.right)[|Unparse(t.right)| - 1];
    TrimPadded("", e, "");
    assert "" + e + "" == e;
  }

  lemma {:induction false} OperatorReads(h: Host<Value>, q: char, b: string)
    requires IsQuote(q) && !Quiet(b) && forall s: string, t: bool :: h.str(s) != h.boolean(t)
    ensures Resolve(h, [q] + b + [q]) != h.str(b)
  {
    hide Resolve, Read, Quiet;
    var e := [q] + b + [q];
    TrimPadded("", e, "");
    assert "" + e + "" == e;
    SplitsInQuotes(q, b);
    ResolveTrimmed(h, e);
    var i := FirstSplit(e, 0).value;
    ReadSplit(h, e, i);
    IsTruth(h, OpAt(e, i), Resolve(h, e[..i]), Resolve(h, e[i + |OpText(OpAt(e, i))|..]));
    assert h.str(b) != h.boolean(true) && h.str(b) != h.boolean(false);
  }

  lemma {:induction false} TightCmp(q: char, b: string, w1: string, op: Op, w2: string, r: Tree)
    requires IsQuote(q) && Readable(r)
    ensures var e := Unparse(Cmp(Str(q, b), w1, op, w2, r)); Trim(e) == e
  {
    hide Readable;
    var e := Unparse(Cmp(Str(q, b), w1, op, w2, r));
    Shape(r);
    assert Unparse(Str(q, b))[0] == q;
    assert e[0] == q;
    assert e[|e| - 1] == Unparse(r)[|Unparse(r)| - 1];
    TrimPadded("", e, "");
    assert "" + e + "" == e;
  }

  lemma {:induction false} QuotedOperandReads<V>(
      h: Host<V>, q: char, b: string, w1: string, op: Op, w2: string, r: Tree)
    requires IsQuote(q) && Blank(w1) && Blank(w2) && Readable(r)
    requires Depth(Both, b) == 0 && Quiet(b)
    ensures var t := Cmp(Str(q, b), w1, op, w2, r); Read(h, Unparse(t)) == Meaning(h, t)
  {
    hide *;
    var t := Cmp(Str(q, b), w1, op, w2, r);
    var e, n := Unparse(t), |b| + 2 + |w1|;
    QuotedCmpText(q, b, w1, op, w2, r);
    StrText(q, b);
    QuotedOperandSplit(q, b, w1, op, w2 + Unparse(r));
    OpFound(q, b, w1, op, w2, r);
    CmpPieces(t);
    NotWrappedQuote(e);
    ReadSplit(h, e, n);
    PaddedQuoted(h, q, b, w1);
    ReadsTree(h, w2, r, "");
    MeaningOfCmp(h, t);
  }

  lemma {:induction false} StrText(q: char, b: string)
    ensures Unparse(Str(q, b)) == [q] + b + [q]
  {}

  lemma {:induction false} OpFound(q: char, b: string, w1: string, op: Op, w2: string, r: Tree)
    requires Blank(w2) && Readable(r)
    ensures var e, n := Unparse(Cmp(Str(q, b), w1, op, w2, r)), |b| + 2 + |w1|;
            n < |e| && OpAt(e, n) == op
  {
    hide Readable;
    var e, n := Unparse(Cmp(Str(q, b), w1, op, w2, r)), |b| + 2 + |w1|;
    var z := w2 + Unparse(r);
    Shape(r);
    assert z[0] != '=';
    assert Unparse(Str(q, b)) == [q] + b + [q];
    assert e == ([q] + b + [q] + w1) + (OpText(op) + z);
    assert e[n] == OpText(op)[0] && e[n + 2] == (OpText(op) + z)[2];
  }

  lemma {:induction false} PaddedQuoted<V>(h: Host<V>, q: char, b: string, w: string)
    requires IsQuote(q) && Blank(w) && Quiet(b)
    ensures Resolve(h, "" + ([q] + b + [q]) + w) == h.str(b)
  {
    hide Read, Quiet;
    TrimPadded("", [q] + b + [q], w);
    SplitsInQuotes(q, b);
    ReadQuoted(h, q, b);
  }

  /** An opening bracket in quotes hides every operator after it. */
  lemma {:induction false} OpenedHides(rest: string)
    requires BracketFree(rest)
    ensures FirstSplit("'(" + rest, 0) == None
  {
    var e := "'(" + rest;
    forall i: nat | i < |e| ensures !IsSplit(e, i) {
      if i >= 2 {
        var front := "'(";
        assert e[..i] == front + rest[..i - 2];
        assert front[..1] == "'";
        FlatDepth(Both, front[..1]);
        DepthStep(Both, front, 1);
        assert front[..2] == front;
        DepthConcat(Both, front, rest[..i - 2]);
        FlatDepth(Both, rest[..i - 2]);
      }
    }
  }

  /** Brackets in a quoted text hide what stands around it: no host gets this comparison. */
  lemma {:induction false} QuotedBracketMisread<V>(h: Host<V>)
    ensures Unparse(Cmp(Str('\'', "("), " ", StrictEq, " ", Num(Number(false, "1", None)))) == "'(' === 1"
    ensures Resolve(h, "'(' === 1") == h.undef
  {
    hide Resolve, Read, Path, FirstSplit, Trim, Unparse;
    var e := "'(' === 1";
    QuotedBracketText();
    TrimPadded("", e, "");
    assert "" + e + "" == e;
    ResolveTrimmed(h, e);
    OpenedHides("' === 1");
    assert e == "'(" + "' === 1";
    ReadOpened(h, e);
  }

  lemma {:induction false} QuotedBracketText()
    ensures Unparse(Cmp(Str('\'', "("), " ", StrictEq, " ", Num(Number(false, "1", None)))) == "'(' === 1"
  {}
}
