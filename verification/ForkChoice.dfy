/**
 * Fork choice as a state machine over block hashes: which blocks are recorded at which height, and which one is the
 * tip of the active chain.
 */
module ForkChoice {
  import opened Types
  import Counting

  datatype Node = Node(parent: uint32, height: nat)

  type Tree = map<uint32, Node>

  // ----- The tree of recorded blocks -----

  /** The genesis block g is at height 1; any other block is one higher than its recorded parent. */
  predicate Anchored(t: Tree, g: uint32, h: uint32)
    requires h in t
  {
    if h == g then t[h].height == 1
    else t[h].height > 1 && t[h].parent in t && t[t[h].parent].height == t[h].height - 1
  }

  ghost predicate Rooted(t: Tree, g: uint32) {
    g in t && forall h {:trigger Anchored(t, g, h)} | h in t :: Anchored(t, g, h)
  }

  /** The hashes from the genesis block to h, by ascending height. */
  ghost function Path(t: Tree, g: uint32, h: uint32): (p: seq<uint32>)
    requires Rooted(t, g) && h in t
    ensures |p| == t[h].height
    decreases t[h].height
  {
    assert Anchored(t, g, h);
    if h == g then [h] else Path(t, g, t[h].parent) + [h]
  }

  lemma {:induction false} PathAt(t: Tree, g: uint32, h: uint32, i: nat)
    requires Rooted(t, g) && h in t && i < t[h].height
    ensures var p := Path(t, g, h);
            && p[i] in t && t[p[i]].height == i + 1
            && Path(t, g, p[i]) == p[..i + 1]
            && (i == 0 ==> p[i] == g)
            && (i > 0 ==> p[i] != g && t[p[i]].parent == p[i - 1])
    decreases t[h].height
  {
    var p := Path(t, g, h);
    assert Anchored(t, g, h);
    if i == t[h].height - 1 {
      assert p[..i + 1] == p;
    } else {
      PathAt(t, g, t[h].parent, i);
      assert p[..i + 1] == Path(t, g, t[h].parent)[..i + 1];
    }
  }

  /** Two paths that hold one block hold the same blocks below it: once they diverge they never meet again. */
  lemma PathsMeetOnce(t: Tree, g: uint32, a: uint32, b: uint32, i: nat, j: nat)
    requires Rooted(t, g) && a in t && b in t && i < t[a].height && j < t[b].height
    requires Path(t, g, a)[i] == Path(t, g, b)[j]
    ensures i == j && Path(t, g, a)[..i + 1] == Path(t, g, b)[..i + 1]
  {
    PathAt(t, g, a, i);
    PathAt(t, g, b, j);
  }

  lemma PathDistinct(t: Tree, g: uint32, h: uint32)
    requires Rooted(t, g) && h in t
    ensures forall i, j | 0 <= i < j < t[h].height :: Path(t, g, h)[i] != Path(t, g, h)[j]
  {
    forall i, j | 0 <= i < j < t[h].height
      ensures Path(t, g, h)[i] != Path(t, g, h)[j]
    {
      PathAt(t, g, h, i);
      PathAt(t, g, h, j);
    }
  }

  /** A path is no longer than there are recorded blocks. */
  lemma HeightBound(t: Tree, g: uint32, h: uint32)
    requires Rooted(t, g) && h in t
    ensures t[h].height <= |t.Keys|
  {
    var p := Path(t, g, h);
    PathDistinct(t, g, h);
    forall i | 0 <= i < |p|
      ensures p[i] in t.Keys
    {
      PathAt(t, g, h, i);
    }
    Counting.DistinctBound(p, t.Keys);
  }

  /** Hashes below n leave room for at most n recorded blocks, hence for n heights. */
  lemma HashesBoundHeight(t: Tree, g: uint32, h: uint32, n: nat)
    requires Rooted(t, g) && h in t
    requires forall k | k in t :: k < n
    ensures t[h].height <= n
  {
    HeightBound(t, g, h);
    Counting.InjectionBound(t.Keys, (k: uint32) => k as nat, n);
  }

  // ----- Recording a block -----

  function HeightOf(t: Tree, h: uint32): nat {
    if h in t then t[h].height else 0
  }

  /** The height is one more than that of the parent; an unknown parent counts as height zero. */
  function Record(t: Tree, h: uint32, parent: uint32): Tree {
    t[h := Node(parent, HeightOf(t, parent) + 1)]
  }

  /** Recording a new block keeps the tree exactly when its parent is recorded. */
  lemma RecordKeepsTreeIff(t: Tree, g: uint32, h: uint32, parent: uint32)
    requires Rooted(t, g) && h !in t
    ensures Rooted(Record(t, h, parent), g) <==> parent in t
  {
    var after := Record(t, h, parent);
    if Rooted(after, g) {
      assert Anchored(after, g, h);
    } else if parent in t {
      assert Anchored(t, g, parent);
      forall k | k in after
        ensures Anchored(after, g, k)
      {
        assert k in t ==> Anchored(t, g, k);
      }
    }
  }

  /** Recording a block that is already there, with the same parent, changes nothing. */
  lemma RecordAgain(t: Tree, g: uint32, h: uint32)
    requires Rooted(t, g) && h in t && h != g
    ensures Record(t, h, t[h].parent) == t
  {
    assert Anchored(t, g, h);
  }

  ghost predicate Grows(t: Tree, later: Tree) {
    forall h | h in t :: h in later && later[h] == t[h]
  }

  lemma RecordKnown(t: Tree, g: uint32, h: uint32, parent: uint32)
    requires Rooted(t, g) && parent in t && h != g && (h in t ==> t[h].parent == parent)
    ensures Rooted(Record(t, h, parent), g) && Grows(t, Record(t, h, parent))
  {
    if h in t {
      RecordAgain(t, g, h);
    } else {
      RecordKeepsTreeIff(t, g, h, parent);
    }
  }

  /** No path changes when blocks are added. */
  lemma {:induction false} PathStays(t: Tree, later: Tree, g: uint32, h: uint32)
    requires Rooted(t, g) && Rooted(later, g) && Grows(t, later) && h in t
    ensures Path(later, g, h) == Path(t, g, h)
    decreases t[h].height
  {
    assert Anchored(t, g, h);
    if h != g {
      PathStays(t, later, g, t[h].parent);
    }
  }

  // ----- The state machine -----

  datatype State = State(tree: Tree, tip: uint32, length: nat)

  /** A block handed in, and whether its transactions pass validation. */
  datatype Event = Event(hash: uint32, parent: uint32, valid: bool)

  function Initial(g: uint32, parent: uint32): State {
    State(map[g := Node(parent, 1)], g, 1)
  }

  /** Extends the tip if valid; records any other block, and moves the tip to it if it is strictly higher. */
  function Step(s: State, e: Event): State {
    if e.parent == s.tip then
      if e.valid then State(s.tree[e.hash := Node(e.parent, s.length + 1)], e.hash, s.length + 1) else s
    else
      var tree := Record(s.tree, e.hash, e.parent);
      if tree[e.hash].height > s.length then State(tree, e.hash, s.length + 1)
      else State(tree, s.tip, s.length)
  }

  ghost predicate Inv(s: State, g: uint32) {
    && Rooted(s.tree, g)
    && s.tip in s.tree && s.tree[s.tip].height == s.length
    && forall h | h in s.tree :: s.tree[h].height <= s.length
  }

  /** The parent is known, the hash stands for no other block seen so far, and the genesis block does not come again. */
  predicate Admissible(s: State, g: uint32, e: Event) {
    && e.parent in s.tree && e.hash != g
    && (e.hash in s.tree ==> s.tree[e.hash].parent == e.parent)
  }

  lemma InitialInv(g: uint32, parent: uint32)
    ensures Inv(Initial(g, parent), g)
  {
  }

  /** Which blocks are recorded, where, and which becomes the tip, case by case. */
  lemma StepDecides(s: State, g: uint32, e: Event)
    requires Inv(s, g) && Admissible(s, g, e)
    ensures var after := Step(s, e);
            && (e.hash in after.tree <==> e.hash in s.tree || e.parent != s.tip || e.valid)
            && (e.hash in after.tree && e.hash !in s.tree ==>
                  after.tree[e.hash] == Node(e.parent, s.tree[e.parent].height + 1))
            && (after.tip == e.hash && after.length == s.length + 1 <==>
                  if e.parent == s.tip then e.valid else s.tree[e.parent].height == s.length)
            && (after.tip != s.tip ==> after.tip == e.hash)
            && forall h | h != e.hash :: h in after.tree <==> h in s.tree
  {
    StepKeepsInv(s, g, e);
    assert e.hash in s.tree ==> Anchored(s.tree, g, e.hash);
  }

  /** What one block can do: the tree only grows, and the tip moves only to a block one higher than all before. */
  lemma StepKeepsInv(s: State, g: uint32, e: Event)
    requires Inv(s, g) && Admissible(s, g, e)
    ensures Inv(Step(s, e), g)
    ensures Grows(s.tree, Step(s, e).tree)
    ensures Step(s, e).length == s.length || Step(s, e).length == s.length + 1
    ensures Step(s, e).tip == s.tip <==> Step(s, e).length == s.length
    ensures Step(s, e).tip != s.tip ==> Step(s, e).tip == e.hash && e.hash !in s.tree
  {
    var tree := Record(s.tree, e.hash, e.parent);
    assert e.parent == s.tip ==> tree == s.tree[e.hash := Node(e.parent, s.length + 1)];
    RecordKnown(s.tree, g, e.hash, e.parent);
    if e.hash in s.tree {
      RecordAgain(s.tree, g, e.hash);
    }
    hide Rooted;
  }

  /** The step of a block that is not put on the tip. */
  lemma SideStep(s: State, g: uint32, e: Event)
    requires Inv(s, g) && Admissible(s, g, e) && e.parent != s.tip
    ensures var tree := Record(s.tree, e.hash, e.parent);
            && Inv(Step(s, e), g) && Grows(s.tree, tree) && e.hash in tree
            && Step(s, e) == (if tree[e.hash].height > s.length then State(tree, e.hash, s.length + 1)
                              else State(tree, s.tip, s.length))
            && (Step(s, e).tip == s.tip <==> tree[e.hash].height <= s.length)
  {
    StepKeepsInv(s, g, e);
    hide Rooted, Inv;
  }

  /** On a takeover the first difference of the two chains lies strictly between genesis and the end of the old one. */
  lemma TakeoverMismatch(t: Tree, g: uint32, tip: uint32, h: uint32)
    requires Rooted(t, g) && tip in t && h in t && h != g
    requires t[h].parent != tip && t[h].height == t[tip].height + 1
    ensures var m := Mismatch(Path(t, g, tip), Path(t, g, h)); 1 <= m <= t[tip].height - 1
  {
    var p, q := Path(t, g, tip), Path(t, g, h);
    PathAt(t, g, tip, 0);
    PathAt(t, g, h, 0);
    PathAt(t, g, tip, |p| - 1);
    PathAt(t, g, h, |q| - 1);
    PathAt(t, g, h, |q| - 2);
    assert p[|p| - 1] == tip && q[|q| - 1] == h;
  }

  /** The first position at which two sequences differ, or at which one of them ends. */
  function Mismatch(p: seq<uint32>, q: seq<uint32>): (m: nat)
    ensures m <= |p| && m <= |q|
    ensures p[..m] == q[..m]
    ensures m < |p| && m < |q| ==> p[m] != q[m]
  {
    if p == [] || q == [] || p[0] != q[0] then 0 else 1 + Mismatch(p[1..], q[1..])
  }

  /** a is on the chain that ends in h. */
  ghost predicate IsAncestor(t: Tree, g: uint32, a: uint32, h: uint32)
    requires Rooted(t, g) && h in t
  {
    a in Path(t, g, h)
  }

  /** c is the highest block that the chains ending in a and b share. */
  ghost predicate IsDeepestCommonAncestor(t: Tree, g: uint32, c: uint32, a: uint32, b: uint32)
    requires Rooted(t, g) && a in t && b in t
  {
    && c in t && IsAncestor(t, g, c, a) && IsAncestor(t, g, c, b)
    && forall x | x in t && IsAncestor(t, g, x, a) && IsAncestor(t, g, x, b) :: t[x].height <= t[c].height
  }

  /** The last block before the chains ending in a and b differ. */
  ghost function Ancestor(t: Tree, g: uint32, a: uint32, b: uint32): uint32 {
    if Rooted(t, g) && a in t && b in t then
      var m := Mismatch(Path(t, g, a), Path(t, g, b));
      if m == 0 then g else Path(t, g, a)[m - 1]
    else g
  }

  lemma OnPath(t: Tree, g: uint32, h: uint32, i: nat)
    requires Rooted(t, g) && h in t && i < t[h].height
    ensures IsAncestor(t, g, Path(t, g, h)[i], h)
  {
  }

  /** There is only one. */
  lemma DeepestIsUnique(t: Tree, g: uint32, a: uint32, b: uint32, c: uint32, d: uint32)
    requires Rooted(t, g) && a in t && b in t
    requires IsDeepestCommonAncestor(t, g, c, a, b) && IsDeepestCommonAncestor(t, g, d, a, b)
    ensures c == d
  {
    var p := Path(t, g, a);
    var i :| 0 <= i < |p| && p[i] == c;
    var j :| 0 <= j < |p| && p[j] == d;
    PathAt(t, g, a, i);
    PathAt(t, g, a, j);
  }

  lemma CommonBelowMismatch(t: Tree, g: uint32, a: uint32, b: uint32, x: uint32)
    requires Rooted(t, g) && a in t && b in t && x in t
    requires IsAncestor(t, g, x, a) && IsAncestor(t, g, x, b)
    ensures t[x].height <= Mismatch(Path(t, g, a), Path(t, g, b))
  {
    var p, q := Path(t, g, a), Path(t, g, b);
    var i :| 0 <= i < |p| && p[i] == x;
    var j :| 0 <= j < |q| && q[j] == x;
    PathAt(t, g, a, i);
    PathsMeetOnce(t, g, a, b, i, j);
    hide Path, Mismatch;
    forall k | 0 <= k <= i
      ensures p[k] == q[k]
    {
      assert p[..i + 1][k] == q[..i + 1][k];
    }
  }

  /** The parent of the first block by which two chains differ is their deepest common ancestor. */
  lemma MismatchParentIsDeepest(t: Tree, g: uint32, a: uint32, b: uint32)
    requires Rooted(t, g) && a in t && b in t
    requires var m := Mismatch(Path(t, g, a), Path(t, g, b)); 1 <= m < t[a].height && m < t[b].height
    ensures var p := Path(t, g, a);
            var m := Mismatch(p, Path(t, g, b));
            && p[m] in t && t[p[m]].parent == p[m - 1]
            && IsDeepestCommonAncestor(t, g, p[m - 1], a, b)
  {
    hide Path, Mismatch, Rooted, IsAncestor;
    var p, q := Path(t, g, a), Path(t, g, b);
    var m := Mismatch(p, q);
    PathAt(t, g, a, m);
    PathAt(t, g, a, m - 1);
    assert p[m - 1] == p[..m][m - 1] == q[..m][m - 1] == q[m - 1];
    OnPath(t, g, a, m - 1);
    OnPath(t, g, b, m - 1);
    forall x | x in t && IsAncestor(t, g, x, a) && IsAncestor(t, g, x, b)
      ensures t[x].height <= m
    {
      CommonBelowMismatch(t, g, a, b, x);
    }
  }

  /** On every takeover the comparison of the two chains finds their deepest common ancestor. */
  lemma TakeoverAncestor(t: Tree, g: uint32, tip: uint32, h: uint32)
    requires Rooted(t, g) && tip in t && h in t && h != g
    requires t[h].parent != tip && t[h].height == t[tip].height + 1
    ensures var p := Path(t, g, tip);
            var m := Mismatch(p, Path(t, g, h));
            && 1 <= m <= |p| - 1 && p[m] in t && t[p[m]].parent == p[m - 1]
            && p[m - 1] == Ancestor(t, g, tip, h)
            && IsDeepestCommonAncestor(t, g, Ancestor(t, g, tip, h), tip, h)
  {
    TakeoverMismatch(t, g, tip, h);
    MismatchParentIsDeepest(t, g, tip, h);
  }

  // ----- Whole runs -----

  function Run(s: State, events: seq<Event>): State {
    var n := |events|;
    if n == 0 then s else Step(Run(s, events[..n - 1]), events[n - 1])
  }

  predicate AllAdmissible(s: State, g: uint32, events: seq<Event>) {
    var n := |events|;
    n == 0 || (AllAdmissible(s, g, events[..n - 1]) && Admissible(Run(s, events[..n - 1]), g, events[n - 1]))
  }

  lemma RunNext(s: State, g: uint32, events: seq<Event>, e: Event)
    ensures Run(s, events + [e]) == Step(Run(s, events), e)
    ensures AllAdmissible(s, g, events + [e]) <==> AllAdmissible(s, g, events) && Admissible(Run(s, events), g, e)
  {
    hide Step, Admissible;
    assert (events + [e])[..|events|] == events;
  }

  lemma {:induction false} RunKeepsInv(s: State, g: uint32, events: seq<Event>)
    requires Inv(s, g) && AllAdmissible(s, g, events)
    ensures Inv(Run(s, events), g)
  {
    var n := |events|;
    if n > 0 {
      RunKeepsInv(s, g, events[..n - 1]);
      StepKeepsInv(Run(s, events[..n - 1]), g, events[n - 1]);
    }
  }

  lemma {:induction false} LengthNeverShrinks(s: State, g: uint32, events: seq<Event>, i: nat)
    requires Inv(s, g) && AllAdmissible(s, g, events) && i <= |events|
    ensures AllAdmissible(s, g, events[..i])
    ensures var earlier, now := Run(s, events[..i]), Run(s, events);
            earlier.length <= now.length && (earlier.length == now.length ==> earlier.tip == now.tip)
  {
    var n := |events|;
    if i == n {
      assert events[..i] == events;
    } else {
      LengthNeverShrinks(s, g, events[..n - 1], i);
      assert events[..n - 1][..i] == events[..i];
      RunKeepsInv(s, g, events[..n - 1]);
      StepKeepsInv(Run(s, events[..n - 1]), g, events[n - 1]);
    }
  }

  /** First seen wins: when any block of the final height was recorded, the final tip already was the tip. */
  lemma FirstSeenWins(s: State, g: uint32, events: seq<Event>, i: nat, h: uint32)
    requires Inv(s, g) && AllAdmissible(s, g, events) && i <= |events|
    requires h in Run(s, events[..i]).tree && Run(s, events[..i]).tree[h].height == Run(s, events).length
    ensures Run(s, events[..i]).tip == Run(s, events).tip
  {
    LengthNeverShrinks(s, g, events, i);
    RunKeepsInv(s, g, events[..i]);
  }
}
