/** Bracket depth over a text: the counter that the expression scanners keep. */
module Brackets {

  /** Which brackets a scanner counts: round ones, square ones, or both together. */
  datatype Kind = Round | Square | Both

  function Weight(k: Kind, c: char): int {
    if c == '(' then (if k.Square? then 0 else 1)
    else if c == ')' then (if k.Square? then 0 else -1)
    else if c == '[' then (if k.Round? then 0 else 1)
    else if c == ']' then (if k.Round? then 0 else -1)
    else 0
  }

  function Depth(k: Kind, s: string): int {
    if s == "" then 0 else Depth(k, s[..|s| - 1]) + Weight(k, s[|s| - 1])
  }

  predicate BracketFree(s: string) {
    forall i :: 0 <= i < |s| ==> s[i] != '(' && s[i] != ')' && s[i] != '[' && s[i] != ']'
  }

  /** Every counter starts and ends at zero over s and never drops below it. */
  ghost predicate Balanced(s: string) {
    forall k: Kind :: Depth(k, s) == 0 && forall i :: 0 <= i <= |s| ==> Depth(k, s[..i]) >= 0
  }

  lemma {:induction false} DepthConcat(k: Kind, a: string, b: string)
    ensures Depth(k, a + b) == Depth(k, a) + Depth(k, b)
  {
    if b == "" {
      assert a + b == a;
    } else {
      var t := a + b;
      assert t[..|t| - 1] == a + b[..|b| - 1];
      DepthConcat(k, a, b[..|b| - 1]);
    }
  }

  lemma {:induction false} DepthStep(k: Kind, s: string, i: nat)
    requires i < |s|
    ensures Depth(k, s[..i + 1]) == Depth(k, s[..i]) + Weight(k, s[i])
  {
    assert s[..i + 1][..i] == s[..i];
  }

  lemma {:induction false} BalancedConcat(a: string, b: string)
    requires Balanced(a) && Balanced(b)
    ensures Balanced(a + b)
  {
    forall k: Kind
      ensures Depth(k, a + b) == 0 && forall i :: 0 <= i <= |a + b| ==> Depth(k, (a + b)[..i]) >= 0
    {
      DepthConcat(k, a, b);
      forall i | 0 <= i <= |a + b| ensures Depth(k, (a + b)[..i]) >= 0 {
        if i <= |a| {
          assert (a + b)[..i] == a[..i];
        } else {
          assert (a + b)[..i] == a + b[..i - |a|];
          DepthConcat(k, a, b[..i - |a|]);
        }
      }
    }
  }

  lemma {:induction false} FlatDepth(k: Kind, s: string)
    requires BracketFree(s)
    ensures Depth(k, s) == 0
  {
    if s != "" {
      FlatDepth(k, s[..|s| - 1]);
    }
  }

  lemma {:induction false} BalancedFlat(s: string)
    requires BracketFree(s)
    ensures Balanced(s)
  {
    forall k: Kind ensures Depth(k, s) == 0 && forall i :: 0 <= i <= |s| ==> Depth(k, s[..i]) >= 0 {
      FlatDepth(k, s);
      forall i | 0 <= i <= |s| ensures Depth(k, s[..i]) >= 0 {
        FlatDepth(k, s[..i]);
      }
    }
  }

  /** Inside a bracketed text the counter of that bracket never returns to zero. */
  lemma {:induction false} WrappedDepth(k: Kind, open: string, t: string, close: string, i: nat)
    requires Balanced(t) && |open| == |close| == 1 && 0 < i <= |t| + 1
    ensures Depth(k, (open + t + close)[..i]) >= Weight(k, open[0])
    ensures i == |t| + 1 ==> Depth(k, (open + t + close)[..i]) == Weight(k, open[0])
  {
    assert (open + t + close)[..i] == open + t[..i - 1];
    DepthConcat(k, open, t[..i - 1]);
    assert Depth(k, t) == 0;
    assert open[..0] == "";
    assert Depth(k, open) == Weight(k, open[0]);
    assert i == |t| + 1 ==> t[..i - 1] == t;
  }

  lemma {:induction false} BalancedWrap(open: string, t: string, close: string)
    requires Balanced(t)
    requires (open == "(" && close == ")") || (open == "[" && close == "]")
    ensures Balanced(open + t + close)
  {
    var s := open + t + close;
    forall k: Kind ensures Depth(k, s) == 0 && forall i :: 0 <= i <= |s| ==> Depth(k, s[..i]) >= 0 {
      WrappedDepth(k, open, t, close, |t| + 1);
      DepthStep(k, s, |t| + 1);
      assert s[..|s|] == s;
      forall i | 0 <= i <= |s| ensures Depth(k, s[..i]) >= 0 {
        if 0 < i <= |t| + 1 {
          WrappedDepth(k, open, t, close, i);
        }
      }
    }
  }
}
