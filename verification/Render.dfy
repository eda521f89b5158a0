/** Rendering components that import each other: the ancestor chain and its guard against cycles. */
module Render {
  import opened Seqs

  /** For each component that has a template, the components its template mounts, in order. */
  type Graph = map<string, seq<string>>

  datatype Tree =
    | Circular(name: string, cycle: seq<string>)   // "circular import" placeholder
    | Pending(name: string)                        // no template yet
    | Mounted(name: string, children: seq<Tree>)

  /** The chain from the first occurrence of name on, closed by name itself. */
  function CycleText(chain: seq<string>, name: string): seq<string> {
    if chain == [] then [name]
    else if chain[0] == name then chain + [name]
    else CycleText(chain[1..], name)
  }

  function RenderOne(g: Graph, name: string, chain: seq<string>): Tree
    decreases |g.Keys - Elements(chain)|, 0, 0
  {
    if name in chain then Circular(name, CycleText(chain, name))
    else if name !in g then Pending(name)
    else
      RoomShrinks(g, name, chain);
      Mounted(name, RenderAll(g, g[name], chain + [name]))
  }

  function RenderAll(g: Graph, names: seq<string>, chain: seq<string>): (ts: seq<Tree>)
    ensures |ts| == |names|
    decreases |g.Keys - Elements(chain)|, 1, |names|
  {
    if names == [] then [] else [RenderOne(g, names[0], chain)] + RenderAll(g, names[1..], chain)
  }

  lemma RoomShrinks(g: Graph, name: string, chain: seq<string>)
    requires name in g && name !in chain
    ensures |g.Keys - Elements(chain + [name])| < |g.Keys - Elements(chain)|
  {
    assert g.Keys - Elements(chain + [name]) < g.Keys - Elements(chain) by {
      assert name in chain + [name];
      assert forall n :: n in chain ==> n in chain + [name];
      assert name in g.Keys - Elements(chain);
    }
    SubsetSize(g.Keys - Elements(chain + [name]), g.Keys - Elements(chain));
  }

  lemma {:induction false} RenderAllAt(g: Graph, names: seq<string>, chain: seq<string>, k: nat)
    requires k < |names|
    ensures RenderAll(g, names, chain)[k] == RenderOne(g, names[k], chain)
    decreases |names|
  {
    if k > 0 {
      RenderAllAt(g, names[1..], chain, k - 1);
    }
  }

  // ---------------------------------------------------------------- depth

  function Height(t: Tree): nat {
    match t
    case Mounted(_, ts) => 1 + MaxHeight(ts)
    case _ => 1
  }

  function MaxHeight(ts: seq<Tree>): nat {
    if ts == [] then 0
    else
      var a, b := Height(ts[0]), MaxHeight(ts[1..]);
      if a > b then a else b
  }

  /** A component is never mounted deeper than there are templates that its ancestors left unused. */
  lemma {:induction false} HeightBound(g: Graph, name: string, chain: seq<string>)
    ensures Height(RenderOne(g, name, chain)) <= |g.Keys - Elements(chain)| + 1
    decreases |g.Keys - Elements(chain)|, 0, 0
  {
    if name !in chain && name in g {
      RoomShrinks(g, name, chain);
      HeightBoundAll(g, g[name], chain + [name]);
    }
  }

  lemma {:induction false} HeightBoundAll(g: Graph, names: seq<string>, chain: seq<string>)
    ensures MaxHeight(RenderAll(g, names, chain)) <= |g.Keys - Elements(chain)| + 1
    decreases |g.Keys - Elements(chain)|, 1, |names|
  {
    if names != [] {
      HeightBound(g, names[0], chain);
      HeightBoundAll(g, names[1..], chain);
      assert RenderAll(g, names, chain)[1..] == RenderAll(g, names[1..], chain);
    }
  }

  // ---------------------------------------------------------------- cycles

  ghost predicate IsWalk(g: Graph, w: seq<string>) {
    forall k :: 0 <= k < |w| - 1 ==> w[k] in g && w[k + 1] in g[w[k]]
  }

  /** Following imports from root comes back to a component already passed. */
  ghost predicate CycleReachable(g: Graph, root: string) {
    exists w: seq<string> :: w != [] && w[0] == root && IsWalk(g, w) && !Distinct(w)
  }

  predicate ShowsCircular(t: Tree) {
    match t
    case Circular(_, _) => true
    case Pending(_) => false
    case Mounted(_, ts) => exists t' :: t' in ts && ShowsCircular(t')
  }

  /**
   * Every placeholder sits where its name first repeats on its chain and names the cycle it closes; a
   * component without a template is pending; any other is mounted with its imports below it, in order.
   */
  ghost predicate Honest(g: Graph, t: Tree, chain: seq<string>)
    decreases t
  {
    match t
    case Circular(n, cycle) =>
      && n in chain
      && IsWalk(g, cycle) && 1 < |cycle| <= |chain| + 1 && cycle[0] == n
      && cycle == chain[|chain| + 1 - |cycle|..] + [n]
      && Distinct(cycle[..|cycle| - 1])
    case Pending(n) => n !in chain && n !in g
    case Mounted(n, ts) =>
      && n !in chain && n in g && |ts| == |g[n]|
      && forall k :: 0 <= k < |ts| ==> ts[k].name == g[n][k] && Honest(g, ts[k], chain + [n])
  }

  lemma WalkTail(g: Graph, w: seq<string>)
    requires w != [] && IsWalk(g, w)
    ensures IsWalk(g, w[1..])
  {
    forall k | 0 <= k < |w[1..]| - 1 ensures w[1..][k] in g && w[1..][k + 1] in g[w[1..][k]] {
      assert w[1..][k] == w[k + 1] && w[1..][k + 1] == w[k + 2];
    }
  }

  lemma WalkExtends(g: Graph, w: seq<string>, n: string)
    requires w != [] && IsWalk(g, w) && w[|w| - 1] in g && n in g[w[|w| - 1]]
    ensures IsWalk(g, w + [n])
  {
    var l := w + [n];
    forall k | 0 <= k < |l| - 1 ensures l[k] in g && l[k + 1] in g[l[k]] {
      assert l[k] == w[k];
      if k < |w| - 1 {
        assert l[k + 1] == w[k + 1];
      }
    }
  }

  lemma {:induction false} CycleFrom(chain: seq<string>, name: string) returns (k: nat)
    requires name in chain
    ensures k < |chain| && chain[k] == name && CycleText(chain, name) == chain[k..] + [name]
  {
    if chain[0] == name {
      k := 0;
      assert chain[0..] == chain;
    } else {
      assert name in chain[1..];
      k := CycleFrom(chain[1..], name);
      assert chain[1..][k..] == chain[k + 1..];
      k := k + 1;
    }
  }

  lemma {:induction false} CycleTextIsCycle(g: Graph, chain: seq<string>, name: string)
    requires name in chain && Distinct(chain) && IsWalk(g, chain + [name])
    ensures var c := CycleText(chain, name);
            && IsWalk(g, c) && 1 < |c| <= |chain| + 1 && c[0] == name && Distinct(c[..|c| - 1])
            && c == chain[|chain| + 1 - |c|..] + [name]
  {
    hide CycleText;
    var k := CycleFrom(chain, name);
    var c, w := CycleText(chain, name), chain + [name];
    assert forall j :: 0 <= j < |c| ==> c[j] == w[k + j];
    assert c[..|c| - 1] == chain[k..];
    forall j | 0 <= j < |c| - 1 ensures c[j] in g && c[j + 1] in g[c[j]] {
      assert c[j] == w[k + j] && c[j + 1] == w[k + j + 1];
    }
  }

  /** What is rendered under a duplicate-free chain keeps every chain below it duplicate-free. */
  lemma {:induction false} RenderIsHonest(g: Graph, name: string, chain: seq<string>)
    requires Distinct(chain) && IsWalk(g, chain + [name])
    ensures Honest(g, RenderOne(g, name, chain), chain) && RenderOne(g, name, chain).name == name
    decreases |g.Keys - Elements(chain)|
  {
    if name in chain {
      CycleTextIsCycle(g, chain, name);
    } else if name in g {
      RoomShrinks(g, name, chain);
      var t := RenderOne(g, name, chain);
      forall k | 0 <= k < |t.children|
        ensures t.children[k].name == g[name][k] && Honest(g, t.children[k], chain + [name])
      {
        RenderAllAt(g, g[name], chain + [name], k);
        WalkExtends(g, chain + [name], g[name][k]);
        RenderIsHonest(g, g[name][k], chain + [name]);
      }
    }
  }

  lemma {:induction false} PlaceholderMeansRepeat(g: Graph, name: string, chain: seq<string>)
    returns (w: seq<string>)
    requires IsWalk(g, chain + [name]) && ShowsCircular(RenderOne(g, name, chain))
    ensures chain + [name] <= w && IsWalk(g, w) && !Distinct(w)
    decreases |g.Keys - Elements(chain)|
  {
    w := chain + [name];
    if name in chain {
      var i :| 0 <= i < |chain| && chain[i] == name;
      assert w[i] == w[|chain|];
    } else {
      RoomShrinks(g, name, chain);
      var t := RenderOne(g, name, chain);
      var t' :| t' in t.children && ShowsCircular(t');
      var k :| 0 <= k < |t.children| && t.children[k] == t';
      RenderAllAt(g, g[name], chain + [name], k);
      WalkExtends(g, w, g[name][k]);
      w := PlaceholderMeansRepeat(g, g[name][k], chain + [name]);
    }
  }

  lemma {:induction false} NoPlaceholderMeansDistinct(g: Graph, chain: seq<string>, w: seq<string>)
    requires w != [] && IsWalk(g, w) && Distinct(chain)
    requires !ShowsCircular(RenderOne(g, w[0], chain))
    ensures Distinct(chain + w)
    decreases |w|
  {
    var name := w[0];
    assert name !in chain;
    if |w| == 1 {
      assert chain + w == chain + [name];
    } else {
      var t := RenderOne(g, name, chain);
      var k :| 0 <= k < |g[name]| && g[name][k] == w[1];
      RenderAllAt(g, g[name], chain + [name], k);
      assert t.children[k] in t.children;
      WalkTail(g, w);
      NoPlaceholderMeansDistinct(g, chain + [name], w[1..]);
      assert chain + w == chain + [name] + w[1..];
    }
  }

  /** The placeholder is shown exactly when following imports from the root runs in a circle. */
  lemma {:induction false} PlaceholderIffCycle(g: Graph, root: string)
    ensures ShowsCircular(RenderOne(g, root, [])) <==> CycleReachable(g, root)
    ensures Honest(g, RenderOne(g, root, []), []) && RenderOne(g, root, []).name == root
    ensures Height(RenderOne(g, root, [])) <= |g| + 1
  {
    hide Honest;
    assert [] + [root] == [root];
    RenderIsHonest(g, root, []);
    HeightBound(g, root, []);
    assert g.Keys - Elements([]) == g.Keys;
    if ShowsCircular(RenderOne(g, root, [])) {
      var w := PlaceholderMeansRepeat(g, root, []);
      assert w[0] == root;
    }
    if CycleReachable(g, root) {
      var w: seq<string> :| w != [] && w[0] == root && IsWalk(g, w) && !Distinct(w);
      assert [] + w == w;
      if !ShowsCircular(RenderOne(g, root, [])) {
        NoPlaceholderMeansDistinct(g, [], w);
      }
    }
  }
}
