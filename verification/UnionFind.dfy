/** The array-based disjoint-set forest of common/unionfind.h: lazy initialisation, union by the
  number of elements and path compression. */
module UnionFinding {
  import opened Equivalence
  import opened FiniteSets
  import opened Powers
  import opened Accesses

  // The members of the class represented by r.
  ghost function Class(rep: seq<nat>, r: nat): set<nat> {
    set i | 0 <= i < |rep| && rep[i] == r
  }

  ghost predicate IsRoot(p: seq<nat>, i: nat)
    requires i < |p|
  {
    p[i] == UNINIT || p[i] == i
  }

  // Node i of the forest p: its link stays in its class and climbs in h, and only roots are fixed.
  ghost predicate NodeOk(p: seq<nat>, rep: seq<nat>, h: seq<nat>, i: nat)
    requires |p| == |rep| == |h| && i < |p|
  {
    && rep[i] < |p| && rep[rep[i]] == rep[i] && h[i] <= h[rep[i]]
    && (IsRoot(p, i) <==> rep[i] == i)
    && (p[i] != UNINIT ==>
          p[i] < |p| && p[p[i]] != UNINIT && rep[p[i]] == rep[i] && (p[i] != i ==> h[i] < h[p[i]]))
  }

  // p is a forest whose roots are the fixed points of rep; h grows along every parent link.
  ghost predicate IsForest(p: seq<nat>, rep: seq<nat>, h: seq<nat>) {
    && |p| == |rep| == |h| <= UNINIT
    && forall i: nat :: i < |p| ==> NodeOk(p, rep, h, i)
  }

  // A root's size entry is its class cardinality minus one, and a class of height k has at least 2^k members.
  ghost predicate RootOk(size: seq<nat>, rep: seq<nat>, h: seq<nat>, i: nat)
    requires |size| == |rep| == |h| && i < |rep|
  {
    rep[i] == i ==> size[i] + 1 == |Class(rep, i)| && Pow2(h[i]) <= |Class(rep, i)|
  }

  ghost predicate SizesMatch(size: seq<nat>, rep: seq<nat>, h: seq<nat>) {
    |size| == |rep| == |h| && forall i: nat :: i < |rep| ==> RootOk(size, rep, h, i)
  }

  // rep is the partition generated by the recorded pairs.
  ghost predicate Generates(pairs: set<Edge>, rep: seq<nat>) {
    && (forall e :: e in pairs ==> SameClass(rep, e))
    && (forall f: nat -> int :: Respects(f, pairs) ==> ConstantOnClasses(f, rep))
  }

  ghost predicate SameClass(rep: seq<nat>, e: Edge) {
    e.0 < |rep| && e.1 < |rep| && rep[e.0] == rep[e.1]
  }

  ghost predicate ConstantOnClasses(f: nat -> int, rep: seq<nat>) {
    forall i :: 0 <= i < |rep| ==> f(i) == f(rep[i])
  }

  // How far node i is below its root, in heights.
  ghost function Climb(rep: seq<nat>, h: seq<nat>, i: nat): int
    requires i < |rep| == |h|
  {
    if rep[i] < |h| then (h[rep[i]] as int) - h[i] else 0
  }

  // Links between a node and its root.
  ghost function Depth(p: seq<nat>, rep: seq<nat>, h: seq<nat>, i: nat): nat
    requires IsForest(p, rep, h) && i < |p|
    decreases Climb(rep, h, i)
  {
    assert NodeOk(p, rep, h, i);
    if IsRoot(p, i) then 0 else assert NodeOk(p, rep, h, p[i]); 1 + Depth(p, rep, h, p[i])
  }

  // The partition after joining the classes of a and b: the larger class keeps its representative,
  // on a tie b's does.
  ghost function Joined(rep: seq<nat>, a: nat, b: nat): seq<nat>
    requires a < |rep| && b < |rep|
  {
    var (loser, winner) :=
      if |Class(rep, rep[a])| > |Class(rep, rep[b])| then (rep[b], rep[a]) else (rep[a], rep[b]);
    Redirect(rep, loser, winner)
  }

  ghost function Redirect(rep: seq<nat>, loser: nat, winner: nat): (r: seq<nat>)
    ensures |r| == |rep|
  {
    seq(|rep|, i requires 0 <= i < |rep| => if rep[i] == loser then winner else rep[i])
  }

  // Two ids have one representative iff the closure of the connected pairs relates them.
  lemma RepIffLinked(pairs: set<Edge>, rep: seq<nat>, a: nat, b: nat)
    requires Generates(pairs, rep) && a < |rep| && b < |rep|
    ensures rep[a] == rep[b] <==> Linked(pairs, a, b)
  {
    LinkedIffLabelled(pairs, a, b);
    var f := (x: nat) => if x < |rep| then rep[x] as int else 0;
    assert Respects(f, pairs);
    assert Linked(pairs, a, b) ==> f(a) == f(b);
  }

  // Union by size keeps trees shallow: 2^depth never exceeds the class cardinality.
  lemma DepthIsLogarithmic(p: seq<nat>, size: seq<nat>, rep: seq<nat>, h: seq<nat>, i: nat)
    requires IsForest(p, rep, h) && SizesMatch(size, rep, h) && i < |p|
    ensures rep[i] < |p| && Pow2(Depth(p, rep, h, i)) <= |Class(rep, rep[i])|
  {
    DepthBelowHeight(p, rep, h, i);
    assert NodeOk(p, rep, h, i) && RootOk(size, rep, h, rep[i]);
    Pow2Mono(Depth(p, rep, h, i), h[rep[i]]);
  }

  lemma {:induction false} DepthBelowHeight(p: seq<nat>, rep: seq<nat>, h: seq<nat>, i: nat)
    requires IsForest(p, rep, h) && i < |p|
    ensures rep[i] < |p| && Depth(p, rep, h, i) <= Climb(rep, h, i)
    decreases Climb(rep, h, i)
  {
    assert NodeOk(p, rep, h, i);
    if !IsRoot(p, i) {
      assert NodeOk(p, rep, h, p[i]);
      DepthBelowHeight(p, rep, h, p[i]);
    }
  }

  lemma {:induction false} ClassBound(rep: seq<nat>, r: nat)
    ensures |Class(rep, r)| <= |rep|
  {
    if rep != [] {
      var n := |rep| - 1;
      ClassBound(rep[..n], r);
      SubsetCard(Class(rep, r), Class(rep[..n], r) + {n});
    }
  }

  lemma RedirectClasses(rep: seq<nat>, loser: nat, winner: nat)
    requires loser != winner
    ensures var rep' := Redirect(rep, loser, winner);
            && |Class(rep', winner)| == |Class(rep, loser)| + |Class(rep, winner)|
            && forall r :: r != loser && r != winner ==> Class(rep', r) == Class(rep, r)
  {
    var rep' := Redirect(rep, loser, winner);
    assert Class(rep', winner) == Class(rep, loser) + Class(rep, winner);
    assert Class(rep, loser) !! Class(rep, winner);
  }

  // Linking one root below another joins the two classes and nothing else.
  lemma LinkKeepsForest(p: seq<nat>, size: seq<nat>, rep: seq<nat>, h: seq<nat>, loser: nat, winner: nat)
    returns (h': seq<nat>)
    requires IsForest(p, rep, h) && SizesMatch(size, rep, h)
    requires loser < |p| && winner < |p| && loser != winner && p[loser] == loser && p[winner] == winner
    requires |Class(rep, loser)| <= |Class(rep, winner)|
    ensures IsForest(p[loser := winner], Redirect(rep, loser, winner), h')
    ensures SizesMatch(size[winner := size[winner] + (size[loser] + 1)], Redirect(rep, loser, winner), h')
  {
    h' := h[winner := if h[winner] <= h[loser] then h[loser] + 1 else h[winner]];
    RedirectClasses(rep, loser, winner);
    var p', rep' := p[loser := winner], Redirect(rep, loser, winner);
    var size' := size[winner := size[winner] + (size[loser] + 1)];
    assert NodeOk(p, rep, h, loser) && NodeOk(p, rep, h, winner);
    assert RootOk(size, rep, h, loser) && RootOk(size, rep, h, winner);
    forall i: nat | i < |p| ensures RootOk(size', rep', h', i) {
      assert NodeOk(p, rep, h, i) && RootOk(size, rep, h, i);
    }
    forall i: nat | i < |p| ensures NodeOk(p', rep', h', i) {
      assert NodeOk(p, rep, h, i) && NodeOk(p, rep, h, rep[i]);
      if p[i] < |p| {
        assert NodeOk(p, rep, h, p[i]);
      }
    }
  }

  lemma JoinGenerates(pairs: set<Edge>, rep: seq<nat>, a: nat, b: nat, loser: nat, winner: nat)
    requires Generates(pairs, rep) && a < |rep| && b < |rep| && loser < |rep| && winner < |rep|
    requires (rep[a] == loser && rep[b] == winner) || (rep[a] == winner && rep[b] == loser)
    ensures Generates(pairs + {(a, b)}, Redirect(rep, loser, winner))
  {
    var E := pairs + {(a, b)};
    var rep' := Redirect(rep, loser, winner);
    forall f: nat -> int, i | Respects(f, E) && 0 <= i < |rep| ensures f(i) == f(rep'[i]) {
      assert (a, b) in E && f((a, b).0) == f((a, b).1);
      assert Respects(f, pairs);
      assert f(a) == f(rep[a]) && f(b) == f(rep[b]) && f(i) == f(rep[i]);
    }
  }

  lemma RedirectSelf(rep: seq<nat>, r: nat)
    ensures Redirect(rep, r, r) == rep
  {
  }

  lemma CompressKeepsForest(p: seq<nat>, rep: seq<nat>, h: seq<nat>, id: nat)
    requires IsForest(p, rep, h) && id < |p| && p[id] != UNINIT && p[id] != id
    requires rep[id] < |p| && p[rep[id]] == rep[id]
    ensures IsForest(p[id := rep[id]], rep, h)
  {
    assert NodeOk(p, rep, h, id) && NodeOk(p, rep, h, p[id]) && NodeOk(p, rep, h, rep[id]);
    var p' := p[id := rep[id]];
    forall i: nat | i < |p| ensures NodeOk(p', rep, h, i) {
      assert NodeOk(p, rep, h, i);
    }
  }

  // A node that was never queried becomes its own initialised root.
  lemma TouchKeepsForest(p: seq<nat>, rep: seq<nat>, h: seq<nat>, id: nat)
    requires IsForest(p, rep, h) && id < |p| && p[id] == UNINIT
    ensures rep[id] == id && IsForest(p[id := id], rep, h)
  {
    assert NodeOk(p, rep, h, id);
    var p' := p[id := id];
    forall i: nat | i < |p| ensures NodeOk(p', rep, h, i) {
      assert NodeOk(p, rep, h, i);
    }
  }

  class UnionFind {
    const maxid: nat
    const parent: array<nat>
    const size: array<nat>

    // The partition, a height for every node and the pairs connected so far.
    ghost var rep: seq<nat>
    ghost var height: seq<nat>
    ghost var pairs: set<Edge>

    ghost predicate Valid()
      reads this, parent, size
    {
      && parent != size
      && parent.Length == size.Length == maxid + 1 == |rep|
      && IsForest(parent[..], rep, height)
      && SizesMatch(size[..], rep, height)
      && Generates(pairs, rep)
    }

    ghost function Memory(): Mem
      reads parent, size
    {
      Mem(parent[..], size[..])
    }

    // The machine that starts at `from` is, after so many steps, at `pc` with the arrays as they are now.
    ghost predicate At(from: State, steps: nat, pc: Pc)
      reads parent, size
    {
      Iterate(from, steps) == State(Memory(), from.local.(pc := pc))
    }

    constructor (maxid: nat)
      requires maxid < UNINIT
      ensures Valid() && fresh(parent) && fresh(size) && this.maxid == maxid
      ensures pairs == {} && rep == seq(maxid + 1, i => i)
      ensures Memory() == Mem(seq(maxid + 1, _ => UNINIT), seq(maxid + 1, _ => 0))
    {
      this.maxid := maxid;
      parent := new nat[maxid + 1](_ => UNINIT);
      size := new nat[maxid + 1](_ => 0);
      rep := seq(maxid + 1, i => i);
      height := seq(maxid + 1, _ => 0);
      pairs := {};
      new;
      forall i | 0 <= i < |rep| ensures Class(rep, i) == {i} {
      }
    }

    /** Finds the representative and compresses the path to it, in steps of the access machine: as many as five for
      every level the id is below its root, and three more. */
    method Representative(id: nat, ghost use: Use, ghost ops: seq<Edge>) returns (root: nat, ghost steps: nat)
      requires Valid() && id <= maxid
      modifies parent
      ensures Valid()
      ensures root == rep[id] <= maxid && rep[root] == root == parent[root]
      ensures parent[id] == root
      ensures forall i :: 0 <= i <= maxid && parent[i] != old(parent[i]) ==> rep[i] == root == parent[i]
      ensures At(State(old(Memory()), Local(Enter(id, use), ops)), steps, Found(root, use))
      ensures steps <= 3 + 5 * Climb(rep, height, id) && 0 <= Climb(rep, height, id)
      ensures Pow2(Climb(rep, height, id)) <= |Class(rep, root)|
    {
      ghost var from := State(Memory(), Local(Enter(id, use), ops));
      root := parent[id];
      steps := 1;
      assert NodeOk(parent[..], rep, height, id);
      ClimbIsLogarithmic(parent[..], size[..], rep, height, id);
      if root == UNINIT {
        TouchKeepsForest(parent[..], rep, height, id);
        parent[id] := id;
        assert parent[..] == old(parent[..])[id := id];
        return id, 2;
      }

      root, steps := Chase(id, root, use, from);
      steps := Compress(id, root, use, from, steps);
    }

    // The first loop of the find.
    method Chase(id: nat, root0: nat, ghost use: Use, ghost from: State) returns (root: nat, ghost steps: nat)
      requires Valid() && id <= maxid && root0 == parent[id] != UNINIT && At(from, 1, Test(id, root0, use))
      ensures root == rep[id] <= maxid && parent[root] == root
      ensures At(from, steps, Check(id, root, use)) && steps <= 2 + 2 * ((height[root] as int) - height[id])
    {
      root, steps := root0, 1;
      ghost var p := parent[..];
      assert NodeOk(p, rep, height, id);
      assert NodeOk(p, rep, height, root);
      while parent[root] != root
        invariant root <= maxid && rep[root] == rep[id] <= maxid && parent[root] != UNINIT
        invariant NodeOk(p, rep, height, root)
        invariant At(from, steps, Test(id, root, use)) && steps <= 1 + 2 * ((height[root] as int) - height[id])
        decreases height[rep[id]] - height[root]
      {
        HopStep(from, steps, Memory(), id, root, use);
        root := parent[root];
        assert NodeOk(p, rep, height, root);
        steps := steps + 2;
      }
      ChaseEnds(from, steps, Memory(), id, root, use);
      steps := steps + 1;
    }

    // The second loop of the find: every node on the path is made to point at the root.
    method Compress(start: nat, root: nat, ghost use: Use, ghost from: State, ghost steps0: nat) returns (ghost steps: nat)
      requires Valid() && start <= maxid && root <= maxid
      requires root == rep[start] && parent[root] == root && parent[start] != UNINIT
      requires At(from, steps0, Check(start, root, use))
      modifies parent
      ensures Valid() && parent[start] == root && parent[root] == root
      ensures forall i :: 0 <= i <= maxid && parent[i] != old(parent[i]) ==> rep[i] == root == parent[i]
      ensures At(from, steps, Found(root, use)) && steps <= steps0 + 1 + 3 * ((height[root] as int) - height[start])
    {
      steps := steps0;
      var id: nat := start;
      assert NodeOk(parent[..], rep, height, start) && NodeOk(parent[..], rep, height, root);
      while parent[id] != root
        invariant Valid() && id <= maxid && rep[id] == root == rep[root] && parent[id] != UNINIT
        invariant (id == start || parent[start] == root) && parent[root] == root
        invariant forall i :: 0 <= i <= maxid && parent[i] != old(parent[i]) ==> rep[i] == root == parent[i]
        invariant height[id] <= height[root]
        invariant At(from, steps, Check(id, root, use)) && steps <= steps0 + 3 * (height[id] - height[start])
        decreases height[root] - height[id]
      {
        var tmp := parent[id];
        ghost var before := Memory();
        PointsAtRoot(before.parent, id, root, tmp);
        parent[id] := root;
        PointStep(from, steps, before, id, root, use);
        assert Memory().parent == before.parent[id := root];
        steps := steps + 3;
        id := tmp;
      }
      CompressEnds(from, steps, Memory(), id, root, use);
      steps := steps + 1;
    }

    // Redirecting a node on the path keeps the forest, and its old parent is nearer to the root.
    lemma PointsAtRoot(p: seq<nat>, id: nat, root: nat, tmp: nat)
      requires IsForest(p, rep, height) && id < |p| && root < |p| && rep[id] == root == p[root] && p[id] == tmp
      requires tmp != UNINIT && tmp != root
      ensures tmp < |p| && rep[tmp] == root && p[tmp] != UNINIT && height[id] < height[tmp] <= height[root]
      ensures id != root && IsForest(p[id := root], rep, height)
    {
      assert NodeOk(p, rep, height, id) && NodeOk(p, rep, height, root);
      assert NodeOk(p, rep, height, tmp);
      CompressKeepsForest(p, rep, height, id);
    }

    // The cardinality of id's class.
    method SetSize(id: nat) returns (n: nat)
      requires Valid() && id <= maxid
      modifies parent
      ensures Valid()
      ensures n == |Class(rep, rep[id])| <= maxid + 1
      ensures forall i :: 0 <= i <= maxid && parent[i] != old(parent[i]) ==> rep[i] == rep[id] == parent[i]
    {
      var repid, _ := Representative(id, Alone, []);
      ClassBound(rep, repid);
      assert RootOk(size[..], rep, height, repid);
      n := size[repid] + 1;
    }

    // The two finds of a connect.
    method FindBoth(aid: nat, bid: nat) returns (aroot: nat, broot: nat, ghost n: nat)
      requires Valid() && aid <= maxid && bid <= maxid
      modifies parent
      ensures Valid() && aroot == rep[aid] <= maxid && broot == rep[bid] <= maxid
      ensures parent[aroot] == aroot && parent[broot] == broot && n > 0
      ensures Iterate(Start(old(Memory()), [(aid, bid)]), n - 1) == State(Memory(), Local(Found(broot, Second(aroot)), []))
    {
      ghost var m0 := Memory();
      ghost var sa, sb;
      aroot, sa := Representative(aid, First(bid), []);
      ghost var m1 := Memory();
      broot, sb := Representative(bid, Second(aroot), []);
      FindsInTurn(m0, m1, Memory(), aid, bid, aroot, broot, sa, sb);
      n := sa + sb + 3;
    }

    /** Joins two classes: one more pair, the larger class keeps its representative, and the accesses are those of the
      machine. */
    method Connect(aid: nat, bid: nat) returns (r: nat)
      requires Valid() && aid <= maxid && bid <= maxid
      modifies this, parent, size
      ensures Valid()
      ensures pairs == old(pairs) + {(aid, bid)}
      ensures rep == Joined(old(rep), aid, bid) && r == rep[aid] == rep[bid]
      ensures Runs(old(Memory()), [(aid, bid)], Memory())
    {
      ghost var m0 := Memory();
      ghost var n;
      var aroot, broot;
      aroot, broot, n := FindBoth(aid, bid);
      if aroot == broot {
        RedirectSelf(rep, aroot);
        JoinGenerates(pairs, rep, aid, bid, aroot, broot);
        pairs := pairs + {(aid, bid)};
        SameRoots(m0, Memory(), aid, bid, aroot, n);
        return aroot;
      }
      r := JoinRoots(aid, bid, aroot, broot, m0, n);
    }

    // The part of a connect after its two finds.
    method JoinRoots(ghost aid: nat, ghost bid: nat, aroot: nat, broot: nat, ghost m0: Mem, ghost n: nat) returns (r: nat)
      requires Valid() && aid <= maxid && bid <= maxid && aroot == rep[aid] <= maxid && broot == rep[bid] <= maxid
      requires aroot != broot && parent[aroot] == aroot && parent[broot] == broot && n > 0
      requires Iterate(Start(m0, [(aid, bid)]), n - 1) == State(Memory(), Local(Found(broot, Second(aroot)), []))
      modifies this, parent, size
      ensures Valid()
      ensures pairs == old(pairs) + {(aid, bid)}
      ensures rep == Joined(old(rep), aid, bid) && r == rep[aid] == rep[bid]
      ensures Runs(m0, [(aid, bid)], Memory())
    {
      assert NodeOk(parent[..], rep, height, aroot) && NodeOk(parent[..], rep, height, broot);
      assert RootOk(size[..], rep, height, aroot) && RootOk(size[..], rep, height, broot);
      var asize := size[aroot] + 1;
      var bsize := size[broot] + 1;
      ghost var loser, winner := aroot, broot;
      if asize > bsize {
        loser, winner := broot, aroot;
      }
      ghost var m2 := Memory();
      ghost var h := LinkKeepsForest(m2.parent, m2.size, rep, height, loser, winner);
      JoinGenerates(pairs, rep, aid, bid, loser, winner);
      if asize > bsize {
        parent[broot] := aroot;
        size[aroot] := size[aroot] + bsize;
        r := aroot;
      } else {
        parent[aroot] := broot;
        size[broot] := size[broot] + asize;
        r := broot;
      }
      assert Memory() == Mem(m2.parent[loser := winner], m2.size[winner := m2.size[winner] + (m2.size[loser] + 1)]);
      LinkSteps(m0, m2, Memory(), aid, bid, aroot, broot, loser, winner, n);
      rep, height, pairs := Redirect(rep, loser, winner), h, pairs + {(aid, bid)};
    }
  }

  // Ids are at most as far below their roots as the logarithm of the class.
  lemma ClimbIsLogarithmic(p: seq<nat>, size: seq<nat>, rep: seq<nat>, h: seq<nat>, i: nat)
    requires IsForest(p, rep, h) && SizesMatch(size, rep, h) && i < |p|
    ensures rep[i] < |p| && 0 <= Climb(rep, h, i) && Pow2(Climb(rep, h, i)) <= |Class(rep, rep[i])|
  {
    assert NodeOk(p, rep, h, i) && RootOk(size, rep, h, rep[i]);
    Pow2Mono(Climb(rep, h, i), h[rep[i]]);
  }

  // ---- The machine's steps beside the methods ----

  // Test and Hop.
  lemma HopStep(from: State, steps: nat, m: Mem, id: nat, root: nat, use: Use)
    requires Iterate(from, steps) == State(m, from.local.(pc := Test(id, root, use)))
    requires |m.size| == |m.parent| && root < |m.parent| && m.parent[root] != root
    ensures Iterate(from, steps + 2) == State(m, from.local.(pc := Test(id, m.parent[root], use)))
  {
    var s := Iterate(from, steps);
    assert Iterate(from, steps + 1) == Step(s);
    assert Iterate(from, steps + 2) == Step(Step(s));
  }

  // Test at the root.
  lemma ChaseEnds(from: State, steps: nat, m: Mem, id: nat, root: nat, use: Use)
    requires Iterate(from, steps) == State(m, from.local.(pc := Test(id, root, use)))
    requires |m.size| == |m.parent| && root < |m.parent| && m.parent[root] == root
    ensures Iterate(from, steps + 1) == State(m, from.local.(pc := Check(id, root, use)))
  {
    assert Iterate(from, steps + 1) == Step(Iterate(from, steps));
  }

  // Check next to the root.
  lemma CompressEnds(from: State, steps: nat, m: Mem, id: nat, root: nat, use: Use)
    requires Iterate(from, steps) == State(m, from.local.(pc := Check(id, root, use)))
    requires |m.size| == |m.parent| && id < |m.parent| && m.parent[id] == root
    ensures Iterate(from, steps + 1) == State(m, from.local.(pc := Found(root, use)))
  {
    assert Iterate(from, steps + 1) == Step(Iterate(from, steps));
  }

  // Check, Save and Point.
  lemma PointStep(from: State, steps: nat, m: Mem, id: nat, root: nat, use: Use)
    requires Iterate(from, steps) == State(m, from.local.(pc := Check(id, root, use)))
    requires |m.size| == |m.parent| && id < |m.parent| && m.parent[id] != root
    ensures Iterate(from, steps + 3)
         == State(m.(parent := m.parent[id := root]), from.local.(pc := Check(m.parent[id], root, use)))
  {
    var s := Iterate(from, steps);
    assert Iterate(from, steps + 1) == Step(s);
    assert Iterate(from, steps + 2) == Step(Step(s));
    assert Iterate(from, steps + 3) == Step(Step(Step(s)));
  }

  // Two finds, from the beginning of a connect.
  lemma FindsInTurn(m0: Mem, m1: Mem, m2: Mem, aid: nat, bid: nat, aroot: nat, broot: nat, sa: nat, sb: nat)
    requires |m0.size| == |m0.parent| && |m1.size| == |m1.parent|
    requires Iterate(State(m0, Local(Enter(aid, First(bid)), [])), sa) == State(m1, Local(Found(aroot, First(bid)), []))
    requires Iterate(State(m1, Local(Enter(bid, Second(aroot)), [])), sb) == State(m2, Local(Found(broot, Second(aroot)), []))
    ensures Iterate(Start(m0, [(aid, bid)]), sa + sb + 2) == State(m2, Local(Found(broot, Second(aroot)), []))
  {
    var s := Start(m0, [(aid, bid)]);
    assert Iterate(s, 1) == Step(Iterate(s, 0)) == State(m0, Local(Enter(aid, First(bid)), []));
    IterateAdd(s, 1, sa);
    assert Iterate(s, sa + 2) == Step(Iterate(s, 1 + sa)) == State(m1, Local(Enter(bid, Second(aroot)), []));
    IterateAdd(s, sa + 2, sb);
  }

  lemma SameRoots(m0: Mem, m2: Mem, aid: nat, bid: nat, root: nat, n: nat)
    requires |m2.size| == |m2.parent| && n > 0
    requires Iterate(Start(m0, [(aid, bid)]), n - 1) == State(m2, Local(Found(root, Second(root)), []))
    ensures Runs(m0, [(aid, bid)], m2)
  {
    assert Iterate(Start(m0, [(aid, bid)]), n) == Step(Iterate(Start(m0, [(aid, bid)]), n - 1));
    assert RunsIn(m0, [(aid, bid)], m2, n);
  }

  // From the second root to the end: sizes, link, new size.
  lemma LinkSteps(m0: Mem, m2: Mem, m3: Mem, aid: nat, bid: nat, aroot: nat, broot: nat, loser: nat, winner: nat, n: nat)
    requires |m2.size| == |m2.parent| && aroot < |m2.size| && broot < |m2.size| && aroot != broot && n > 0
    requires Iterate(Start(m0, [(aid, bid)]), n - 1) == State(m2, Local(Found(broot, Second(aroot)), []))
    requires (loser, winner) == if m2.size[aroot] + 1 > m2.size[broot] + 1 then (broot, aroot) else (aroot, broot)
    requires m3 == Mem(m2.parent[loser := winner], m2.size[winner := m2.size[winner] + (m2.size[loser] + 1)])
    ensures Runs(m0, [(aid, bid)], m3)
  {
    var s := Start(m0, [(aid, bid)]);
    assert Iterate(s, n) == Step(Iterate(s, n - 1)) == State(m2, Local(SizeA(aroot, broot), []));
    assert Iterate(s, n + 1) == Step(Iterate(s, n)) == State(m2, Local(SizeB(aroot, broot, m2.size[aroot] + 1), []));
    assert Iterate(s, n + 2) == Step(Iterate(s, n + 1)) == State(m2, Local(Link(loser, winner, m2.size[loser] + 1), []));
    LinkEnd(s, n + 2, m2, m3, loser, winner);
    assert RunsIn(m0, [(aid, bid)], m3, n + 5);
  }

  lemma LinkEnd(s: State, n: nat, m2: Mem, m3: Mem, loser: nat, winner: nat)
    requires |m2.size| == |m2.parent| && loser < |m2.size| && winner < |m2.size|
    requires Iterate(s, n) == State(m2, Local(Link(loser, winner, m2.size[loser] + 1), []))
    requires m3 == Mem(m2.parent[loser := winner], m2.size[winner := m2.size[winner] + (m2.size[loser] + 1)])
    ensures Iterate(s, n + 3) == State(m3, Local(Ready, []))
  {
    var total := m2.size[winner] + (m2.size[loser] + 1);
    var linked := Mem(m2.parent[loser := winner], m2.size);
    assert Iterate(s, n + 1) == Step(Iterate(s, n)) == State(linked, Local(Grow(winner, m2.size[loser] + 1), []));
    assert Iterate(s, n + 2) == Step(Iterate(s, n + 1)) == State(linked, Local(Store(winner, total), []));
    assert Iterate(s, n + 3) == Step(Iterate(s, n + 2));
  }
}
