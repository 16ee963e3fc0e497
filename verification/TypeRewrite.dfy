/**
 The bottom-up rewrite of a type: the plain recursion it stands for, the
 memoised depth-guarded walk it really performs, and the explicit-stack loop
 that computes the latter.
 */
module TypeRewrite {
  import opened Types

  const MAX_REWRITE_DEPTH: nat := 1_000_000

  /** What a policy decides for one node: a final result, or "rewrite the children". */
  datatype Verdict = Done(ty: Ty) | Recur

  type Policy = Ty -> Verdict
  type Memo = map<Ty, Ty>

  // ----- specification: the recursive rewrite

  function Rewrite(t: Ty, leaf: Policy): Ty
    decreases t
  {
    match leaf(t)
    case Done(ty) => ty
    case Recur =>
      var kids := Children(t);
      Rebuild(t, seq(|kids|, i requires 0 <= i < |kids| => Rewrite(kids[i], leaf)))
  }

  function RewriteAll(ts: seq<Ty>, leaf: Policy): (rs: seq<Ty>)
    ensures |rs| == |ts|
  {
    seq(|ts|, i requires 0 <= i < |ts| => Rewrite(ts[i], leaf))
  }

  lemma RewriteUnfolds(t: Ty, leaf: Policy)
    requires leaf(t).Recur?
    ensures Rewrite(t, leaf) == Rebuild(t, RewriteAll(Children(t), leaf))
  {
    var kids := Children(t);
    assert RewriteAll(kids, leaf)
        == seq(|kids|, i requires 0 <= i < |kids| => Rewrite(kids[i], leaf));
  }

  /** No path of visited nodes below `t` is longer than `n`. */
  ghost predicate Fits(t: Ty, leaf: Policy, n: int)
    decreases t
  {
    && n > 0
    && (leaf(t).Recur? ==> forall i | 0 <= i < |Children(t)| :: Fits(Children(t)[i], leaf, n - 1))
  }

  // ----- the memoised walk with its depth guard

  /** The memo after visiting `t` below `active` unfinished nodes. */
  ghost function GuardedVisit(t: Ty, leaf: Policy, active: nat, memo: Memo): (m: Memo)
    ensures t in m && memo.Keys <= m.Keys
    decreases Size(t), 0
  {
    if t in memo then memo
    else if active >= MAX_REWRITE_DEPTH then memo[t := Error]
    else match leaf(t)
      case Done(ty) => memo[t := ty]
      case Recur =>
        SizeUnfolds(t);
        var m := GuardedVisitAll(Children(t), leaf, active + 1, memo[t := t]);
        m[t := Rebuild(t, Select(Children(t), m))]
  }

  ghost function GuardedVisitAll(ts: seq<Ty>, leaf: Policy, active: nat, memo: Memo): (m: Memo)
    ensures memo.Keys <= m.Keys
    ensures forall i | 0 <= i < |ts| :: ts[i] in m
    decreases SizeAll(ts), |ts|
  {
    if ts == [] then memo
    else
      SizeAllStep(ts);
      SizeAllBounds(ts, 0);
      GuardedVisitAll(ts[1..], leaf, active, GuardedVisit(ts[0], leaf, active, memo))
  }

  function Select(ts: seq<Ty>, memo: Memo): (rs: seq<Ty>)
    requires forall i | 0 <= i < |ts| :: ts[i] in memo
    ensures |rs| == |ts|
  {
    seq(|ts|, i requires 0 <= i < |ts| => memo[ts[i]])
  }

  ghost function GuardedRewrite(root: Ty, leaf: Policy): Ty {
    GuardedVisit(root, leaf, 0, map[])[root]
  }

  // ----- the walk is the recursion wherever the guard stays quiet

  /** Every finished entry holds its rewrite; the `reserved` ones are still being built. */
  ghost predicate Finished(memo: Memo, leaf: Policy, reserved: set<Ty>) {
    forall k | k in memo && k !in reserved :: memo[k] == Rewrite(k, leaf)
  }

  /** A reserved slot belongs to a node larger than anything still to be visited. */
  ghost predicate Above(reserved: set<Ty>, n: nat) {
    forall k | k in reserved :: Size(k) > n
  }

  lemma {:induction false} VisitRefines(t: Ty, leaf: Policy, active: nat, memo: Memo, reserved: set<Ty>)
    requires Finished(memo, leaf, reserved) && Above(reserved, Size(t))
    requires Fits(t, leaf, MAX_REWRITE_DEPTH - active)
    ensures Finished(GuardedVisit(t, leaf, active, memo), leaf, reserved)
    ensures GuardedVisit(t, leaf, active, memo)[t] == Rewrite(t, leaf)
    decreases Size(t), 0
  {
    if t !in memo && leaf(t).Recur? {
      var kids := Children(t);
      SizeUnfolds(t);
      VisitAllRefines(kids, leaf, active + 1, memo[t := t], reserved + {t});
      var m := GuardedVisitAll(kids, leaf, active + 1, memo[t := t]);
      forall i | 0 <= i < |kids| ensures m[kids[i]] == Rewrite(kids[i], leaf) {
        ChildIsSmaller(t, i);
      }
      assert Select(kids, m) == RewriteAll(kids, leaf);
      RewriteUnfolds(t, leaf);
    }
  }

  lemma {:induction false} VisitAllRefines(ts: seq<Ty>, leaf: Policy, active: nat, memo: Memo, reserved: set<Ty>)
    requires Finished(memo, leaf, reserved) && Above(reserved, SizeAll(ts))
    requires forall i | 0 <= i < |ts| :: Fits(ts[i], leaf, MAX_REWRITE_DEPTH - active)
    ensures Finished(GuardedVisitAll(ts, leaf, active, memo), leaf, reserved)
    decreases SizeAll(ts), |ts|
  {
    if ts != [] {
      SizeAllStep(ts);
      SizeAllBounds(ts, 0);
      VisitRefines(ts[0], leaf, active, memo, reserved);
      VisitAllRefines(ts[1..], leaf, active, GuardedVisit(ts[0], leaf, active, memo), reserved);
    }
  }

  lemma GuardedRewriteIsRewrite(root: Ty, leaf: Policy)
    requires Fits(root, leaf, MAX_REWRITE_DEPTH)
    ensures GuardedRewrite(root, leaf) == Rewrite(root, leaf)
  {
    VisitRefines(root, leaf, 0, map[], {});
  }

  // ----- where the guard trips: the exact cut on a tower of arrays

  function Tower(n: nat, core: Ty): Ty {
    if n == 0 then core else Array(Tower(n - 1, core))
  }

  ghost predicate RecursOnTower(n: nat, core: Ty, leaf: Policy) {
    forall k: nat | 0 < k <= n :: leaf(Tower(k, core)).Recur?
  }

  lemma RecursBelow(n: nat, core: Ty, leaf: Policy)
    requires n > 0 && RecursOnTower(n, core, leaf)
    ensures RecursOnTower(n - 1, core, leaf)
  {}

  lemma SingleChildVisit(t: Ty, kid: Ty, leaf: Policy, active: nat, memo: Memo)
    requires Children(t) == [kid] && t !in memo && active < MAX_REWRITE_DEPTH && leaf(t).Recur?
    ensures GuardedVisit(t, leaf, active, memo)[t]
         == Rebuild(t, [GuardedVisit(kid, leaf, active + 1, memo[t := t])[kid]])
  {
    var m := GuardedVisit(kid, leaf, active + 1, memo[t := t]);
    assert [kid][1..] == [];
    assert GuardedVisitAll([kid], leaf, active + 1, memo[t := t]) == m;
    assert Select([kid], m) == [m[kid]];
  }

  lemma ArrayIsLarger(elem: Ty)
    ensures Size(elem) < Size(Array(elem)) && Children(Array(elem)) == [elem]
  {
    ChildIsSmaller(Array(elem), 0);
  }

  /** Nothing as small as `t` is in the memo. */
  ghost predicate OnlyLarger(memo: Memo, t: Ty) {
    forall k | k in memo :: Size(k) > Size(t)
  }

  lemma OnlyLargerBelow(memo: Memo, elem: Ty)
    requires OnlyLarger(memo, Array(elem))
    ensures Array(elem) !in memo && OnlyLarger(memo[Array(elem) := Array(elem)], elem)
  {
    ArrayIsLarger(elem);
  }

  /** With room for `left` nodes on a path, a tower of at least that many is cut below them. */
  lemma {:induction false} GuardCutsTower(n: nat, core: Ty, leaf: Policy, left: nat, memo: Memo)
    requires RecursOnTower(n, core, leaf) && OnlyLarger(memo, Tower(n, core))
    requires left <= n && left <= MAX_REWRITE_DEPTH
    ensures GuardedVisit(Tower(n, core), leaf, MAX_REWRITE_DEPTH - left, memo)[Tower(n, core)] == Tower(left, Error)
    decreases n
  {
    var t, active := Tower(n, core), MAX_REWRITE_DEPTH - left;
    assert t !in memo;
    if left > 0 {
      var inner := Tower(n - 1, core);
      OnlyLargerBelow(memo, inner);
      RecursBelow(n, core, leaf);
      GuardCutsTower(n - 1, core, leaf, left - 1, memo[t := t]);
      ArrayIsLarger(inner);
      SingleChildVisit(t, inner, leaf, active, memo);
    }
  }

  lemma {:induction false} TowerFits(n: nat, core: Ty, leaf: Policy, left: int)
    requires RecursOnTower(n, core, leaf) && Fits(core, leaf, left - n)
    ensures Fits(Tower(n, core), leaf, left)
    ensures Rewrite(Tower(n, core), leaf) == Tower(n, Rewrite(core, leaf))
  {
    if n > 0 {
      var t, inner := Tower(n, core), Tower(n - 1, core);
      RecursBelow(n, core, leaf);
      TowerFits(n - 1, core, leaf, left - 1);
      RewriteUnfolds(t, leaf);
      assert Children(t) == [inner] && RewriteAll([inner], leaf) == [Rewrite(inner, leaf)];
    }
  }

  /**
   The guard counts nodes: a tower of arrays over any type that fits below it is
   rewritten whole, and one as high as the limit is cut there, its core replaced by an error.
   */
  lemma DeepTowerDegrades(n: nat, core: Ty, leaf: Policy)
    requires RecursOnTower(n, core, leaf)
    ensures Fits(core, leaf, MAX_REWRITE_DEPTH - n) ==> GuardedRewrite(Tower(n, core), leaf) == Tower(n, Rewrite(core, leaf))
    ensures n >= MAX_REWRITE_DEPTH ==> GuardedRewrite(Tower(n, core), leaf) == Tower(MAX_REWRITE_DEPTH, Error)
  {
    if Fits(core, leaf, MAX_REWRITE_DEPTH - n) {
      TowerFits(n, core, leaf, MAX_REWRITE_DEPTH);
      GuardedRewriteIsRewrite(Tower(n, core), leaf);
    }
    if n >= MAX_REWRITE_DEPTH {
      GuardCutsTower(n, core, leaf, MAX_REWRITE_DEPTH, map[]);
    }
  }

  // ----- the explicit stack

  datatype Frame = Visit(ty: Ty) | Build(ty: Ty)

  /** The number of nodes on the current path: the value `active` must hold. */
  function Builds(stack: seq<Frame>): nat {
    if stack == [] then 0
    else Builds(stack[..|stack| - 1]) + (if stack[|stack| - 1].Build? then 1 else 0)
  }

  /** The memo left once every frame has been popped, last first. */
  ghost function Drain(stack: seq<Frame>, leaf: Policy, memo: Memo): Memo
    decreases |stack|
  {
    if stack == [] then memo
    else
      var rest := stack[..|stack| - 1];
      match stack[|stack| - 1]
      case Visit(ty) => Drain(rest, leaf, GuardedVisit(ty, leaf, Builds(rest), memo))
      case Build(ty) =>
        var kids := Children(ty);
        if forall i | 0 <= i < |kids| :: kids[i] in memo
        then Drain(rest, leaf, memo[ty := Rebuild(ty, Select(kids, memo))])
        else memo
  }

  function Visits(ts: seq<Ty>): seq<Frame> {
    seq(|ts|, i requires 0 <= i < |ts| => Visit(ts[|ts| - 1 - i]))
  }

  lemma BuildsPush(stack: seq<Frame>, frame: Frame)
    ensures Builds(stack + [frame]) == Builds(stack) + if frame.Build? then 1 else 0
  {
    assert (stack + [frame])[..|stack|] == stack;
  }

  lemma VisitsSplit(ts: seq<Ty>)
    requires ts != []
    ensures Visits(ts) == Visits(ts[1..]) + [Visit(ts[0])]
  {}

  lemma {:induction false} BuildsUnderVisits(stack: seq<Frame>, ts: seq<Ty>)
    ensures Builds(stack + Visits(ts)) == Builds(stack)
    decreases |ts|
  {
    if ts == [] {
      assert stack + Visits(ts) == stack;
    } else {
      VisitsSplit(ts);
      assert stack + Visits(ts) == (stack + Visits(ts[1..])) + [Visit(ts[0])];
      BuildsPush(stack + Visits(ts[1..]), Visit(ts[0]));
      BuildsUnderVisits(stack, ts[1..]);
    }
  }

  /** Children pushed in reverse are visited in order, all under the same path. */
  lemma {:induction false} DrainVisits(stack: seq<Frame>, ts: seq<Ty>, leaf: Policy, memo: Memo)
    ensures Drain(stack + Visits(ts), leaf, memo)
         == Drain(stack, leaf, GuardedVisitAll(ts, leaf, Builds(stack), memo))
    decreases |ts|
  {
    if ts == [] {
      assert stack + Visits(ts) == stack;
    } else {
      VisitsSplit(ts);
      var rest := stack + Visits(ts[1..]);
      assert stack + Visits(ts) == rest + [Visit(ts[0])];
      assert (rest + [Visit(ts[0])])[..|rest|] == rest;
      BuildsUnderVisits(stack, ts[1..]);
      DrainVisits(stack, ts[1..], leaf, GuardedVisit(ts[0], leaf, Builds(stack), memo));
    }
  }

  lemma DrainBuild(stack: seq<Frame>, t: Ty, leaf: Policy, memo: Memo)
    requires forall i | 0 <= i < |Children(t)| :: Children(t)[i] in memo
    ensures Drain(stack + [Build(t)], leaf, memo)
         == Drain(stack, leaf, memo[t := Rebuild(t, Select(Children(t), memo))])
  {
    assert (stack + [Build(t)])[..|stack|] == stack;
  }

  /** The memo once the children of `t` are done and `t` is rebuilt from them. */
  ghost function Rebuilt(t: Ty, leaf: Policy, active: nat, memo: Memo): Memo {
    var m := GuardedVisitAll(Children(t), leaf, active + 1, memo);
    m[t := Rebuild(t, Select(Children(t), m))]
  }

  lemma RecurVisit(t: Ty, leaf: Policy, active: nat, memo: Memo)
    requires t !in memo && active < MAX_REWRITE_DEPTH && leaf(t).Recur?
    ensures GuardedVisit(t, leaf, active, memo) == Rebuilt(t, leaf, active, memo[t := t])
  {}

  /** The children, then the node itself, come off the stack. */
  lemma DrainNode(stack: seq<Frame>, t: Ty, leaf: Policy, memo: Memo)
    ensures Drain(stack + [Build(t)] + Visits(Children(t)), leaf, memo)
         == Drain(stack, leaf, Rebuilt(t, leaf, Builds(stack), memo))
  {
    var base := stack + [Build(t)];
    var m := GuardedVisitAll(Children(t), leaf, Builds(base), memo);
    assert Drain(base + Visits(Children(t)), leaf, memo) == Drain(base, leaf, m) by {
      DrainVisits(base, Children(t), leaf, memo);
    }
    assert Drain(base, leaf, m) == Drain(stack, leaf, m[t := Rebuild(t, Select(Children(t), m))]) by {
      DrainBuild(stack, t, leaf, m);
    }
    assert Builds(base) == Builds(stack) + 1 by {
      BuildsPush(stack, Build(t));
    }
  }

  lemma DrainRecur(stack: seq<Frame>, t: Ty, leaf: Policy, memo: Memo)
    requires t !in memo && Builds(stack) < MAX_REWRITE_DEPTH && leaf(t).Recur?
    ensures Drain(stack + [Build(t)] + Visits(Children(t)), leaf, memo[t := t])
         == Drain(stack, leaf, GuardedVisit(t, leaf, Builds(stack), memo))
  {
    RecurVisit(t, leaf, Builds(stack), memo);
    DrainNode(stack, t, leaf, memo[t := t]);
  }

  // ----- what the loop keeps

  /** A child of an unfinished node is memoised, or waits above it on the stack. */
  ghost predicate Ready(stack: seq<Frame>, memo: Memo) {
    forall i, c | 0 <= i < |stack| && stack[i].Build? && 0 <= c < |Children(stack[i].ty)| ::
      Children(stack[i].ty)[c] in memo || Waits(stack, i, Children(stack[i].ty)[c])
  }

  ghost predicate Waits(stack: seq<Frame>, i: int, t: Ty) {
    exists j :: 0 <= i < j < |stack| && stack[j] == Visit(t)
  }

  lemma ReadyAfterPop(stack: seq<Frame>, memo: Memo, memo': Memo)
    requires stack != [] && Ready(stack, memo)
    requires memo.Keys <= memo'.Keys && (stack[|stack| - 1].Visit? ==> stack[|stack| - 1].ty in memo')
    ensures Ready(stack[..|stack| - 1], memo')
  {
    var rest := stack[..|stack| - 1];
    forall i, c | 0 <= i < |rest| && rest[i].Build? && 0 <= c < |Children(rest[i].ty)|
      ensures Children(rest[i].ty)[c] in memo' || Waits(rest, i, Children(rest[i].ty)[c])
    {
      var k := Children(rest[i].ty)[c];
      assert rest[i] == stack[i];
      if k !in memo' {
        assert Waits(stack, i, k);
        var j :| i < j < |stack| && stack[j] == Visit(k);
        assert rest[j] == Visit(k);
      }
    }
  }

  lemma ReadyAfterPush(stack: seq<Frame>, t: Ty, memo: Memo)
    requires Ready(stack, memo)
    ensures Ready(stack + [Build(t)] + Visits(Children(t)), memo)
  {
    var kids := Children(t);
    var all := stack + [Build(t)] + Visits(kids);
    forall i, c | 0 <= i < |all| && all[i].Build? && 0 <= c < |Children(all[i].ty)|
      ensures Children(all[i].ty)[c] in memo || Waits(all, i, Children(all[i].ty)[c])
    {
      if i < |stack| {
        var k := Children(stack[i].ty)[c];
        if k !in memo {
          var j :| i < j < |stack| && stack[j] == Visit(k);
          assert all[j] == Visit(k);
        }
      } else {
        assert all[|stack| + |kids| - c] == Visit(kids[c]);
      }
    }
  }

  ghost function Work(stack: seq<Frame>): nat {
    if stack == [] then 0
    else Work(stack[..|stack| - 1]) + (match stack[|stack| - 1] case Visit(t) => 2 * Size(t) case Build(_) => 1)
  }

  lemma WorkPush(stack: seq<Frame>, frame: Frame)
    ensures Work(stack + [frame]) == Work(stack) + match frame case Visit(t) => 2 * Size(t) case Build(_) => 1
  {
    assert (stack + [frame])[..|stack|] == stack;
  }

  lemma {:induction false} WorkVisits(stack: seq<Frame>, ts: seq<Ty>)
    ensures Work(stack + Visits(ts)) == Work(stack) + 2 * SizeAll(ts)
    decreases |ts|
  {
    if ts == [] {
      assert stack + Visits(ts) == stack;
    } else {
      VisitsSplit(ts);
      SizeAllStep(ts);
      assert stack + Visits(ts) == (stack + Visits(ts[1..])) + [Visit(ts[0])];
      WorkPush(stack + Visits(ts[1..]), Visit(ts[0]));
      WorkVisits(stack, ts[1..]);
    }
  }

  /** The iterative rewrite: an explicit stack, a memo with reserved slots and a depth counter. */
  method RewriteWith(root: Ty, leaf: Policy) returns (r: Ty)
    ensures r == GuardedRewrite(root, leaf)
    ensures Fits(root, leaf, MAX_REWRITE_DEPTH) ==> r == Rewrite(root, leaf)
  {
    var memo: Memo := map[];
    var stack := [Visit(root)];
    var active := 0;
    assert [Visit(root)][..0] == [];
    while stack != []
      invariant active == Builds(stack)
      invariant Ready(stack, memo)
      invariant Drain(stack, leaf, memo) == GuardedVisit(root, leaf, 0, map[])
      decreases Work(stack)
    {
      var frame := stack[|stack| - 1];
      ghost var before := stack;
      var rest := stack[..|stack| - 1];
      assert before == rest + [frame];
      match frame {
        case Visit(ty) =>
          if ty in memo {
            ReadyAfterPop(before, memo, memo);
            stack := rest;
          } else if active >= MAX_REWRITE_DEPTH {
            ReadyAfterPop(before, memo, memo[ty := Error]);
            stack, memo := rest, memo[ty := Error];
          } else {
            match leaf(ty) {
              case Done(done) =>
                ReadyAfterPop(before, memo, memo[ty := done]);
                stack, memo := rest, memo[ty := done];
              case Recur =>
                ReadyAfterPop(before, memo, memo[ty := ty]);
                ReadyAfterPush(rest, ty, memo[ty := ty]);
                DrainRecur(rest, ty, leaf, memo);
                BuildsPush(rest, Build(ty));
                BuildsUnderVisits(rest + [Build(ty)], Children(ty));
                WorkPush(rest, Build(ty));
                WorkVisits(rest + [Build(ty)], Children(ty));
                SizeUnfolds(ty);
                stack := rest + [Build(ty)] + Visits(Children(ty));
                memo := memo[ty := ty];
                active := active + 1;
            }
          }
        case Build(ty) =>
          forall i | 0 <= i < |Children(ty)| ensures Children(ty)[i] in memo {
            var kid := Children(ty)[i];
            assert before[|rest|] == frame;
            assert kid in memo || Waits(before, |rest|, kid);
          }
          var rebuilt := Rebuild(ty, Select(Children(ty), memo));
          ReadyAfterPop(before, memo, memo[ty := rebuilt]);
          stack, memo, active := rest, memo[ty := rebuilt], active - 1;
      }
    }
    r := memo[root];
    if Fits(root, leaf, MAX_REWRITE_DEPTH) {
      GuardedRewriteIsRewrite(root, leaf);
    }
  }
}
