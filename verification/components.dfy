/** 8-connected components of a boolean mask, the part of
    cv2.connectedComponentsWithStats(mask, connectivity=8) the refiner relies on:
    which pixels form one component, and its area. Label numbering is not modelled. */
module Components {
  import opened Grids

  /** The 8-neighbourhood: distinct pixels that differ by at most one in each coordinate. */
  predicate Adjacent(p: Pixel, q: Pixel) {
    p != q && -1 <= p.r - q.r <= 1 && -1 <= p.c - q.c <= 1
  }

  /** A walk through set pixels of g, each step to an 8-neighbour. */
  ghost predicate IsPath(g: Grid<bool>, path: seq<Pixel>) {
    |path| > 0 &&
    (forall i :: 0 <= i < |path| ==> At(g, path[i])) &&
    (forall i :: 0 < i < |path| ==> Adjacent(path[i - 1], path[i]))
  }

  /** q can be reached from p through set pixels of g. */
  ghost predicate Connected(g: Grid<bool>, p: Pixel, q: Pixel) {
    exists path :: IsPath(g, path) && path[0] == p && path[|path| - 1] == q
  }

  /** The 8-connected component of p: every pixel reachable from p. Its size is
      the component's area (CC_STAT_AREA). Empty when p itself is not set. */
  ghost function Component(g: Grid<bool>, p: Pixel): set<Pixel> {
    set q | q in Cells(g) && Connected(g, p, q)
  }

  /** C is one whole component: non-empty, and the component of each of its pixels. */
  ghost predicate IsComponent(g: Grid<bool>, C: set<Pixel>) {
    C != {} && forall p :: p in C ==> Component(g, p) == C
  }

  /** S is closed under stepping to a set 8-neighbour. */
  ghost predicate AdjacencyClosed(g: Grid<bool>, S: set<Pixel>) {
    forall p, q :: p in S && Adjacent(p, q) && At(g, q) ==> q in S
  }

  /** S is a union of whole components: set pixels only, closed under adjacency. */
  ghost predicate UnionOfComponents(g: Grid<bool>, S: set<Pixel>) {
    (forall p :: p in S ==> At(g, p)) && AdjacencyClosed(g, S)
  }

  lemma ConnectedRefl(g: Grid<bool>, p: Pixel)
    requires At(g, p)
    ensures Connected(g, p, p)
  {
    assert IsPath(g, [p]);
  }

  lemma ConnectedEnds(g: Grid<bool>, p: Pixel, q: Pixel)
    requires Connected(g, p, q)
    ensures At(g, p) && At(g, q)
  {
    var path :| IsPath(g, path) && path[0] == p && path[|path| - 1] == q;
  }

  lemma ConnectedStep(g: Grid<bool>, s: Pixel, p: Pixel, n: Pixel)
    requires Connected(g, s, p) && Adjacent(p, n) && At(g, n)
    ensures Connected(g, s, n)
  {
    var path :| IsPath(g, path) && path[0] == s && path[|path| - 1] == p;
    var longer := path + [n];
    assert IsPath(g, longer);
  }

  /** Reachability is symmetric: a path walked backwards is a path. */
  lemma ConnectedSymmetric(g: Grid<bool>, p: Pixel, q: Pixel)
    requires Connected(g, p, q)
    ensures Connected(g, q, p)
  {
    var path :| IsPath(g, path) && path[0] == p && path[|path| - 1] == q;
    var n := |path|;
    var back := seq(n, i requires 0 <= i < n => path[n - 1 - i]);
    forall i | 0 < i < n
      ensures Adjacent(back[i - 1], back[i])
    {
      assert Adjacent(path[n - 1 - i], path[n - i]);
    }
    assert IsPath(g, back);
  }

  /** Reachability is transitive: two paths that meet can be joined. */
  lemma ConnectedTransitive(g: Grid<bool>, p: Pixel, q: Pixel, x: Pixel)
    requires Connected(g, p, q) && Connected(g, q, x)
    ensures Connected(g, p, x)
  {
    var first :| IsPath(g, first) && first[0] == p && first[|first| - 1] == q;
    var second :| IsPath(g, second) && second[0] == q && second[|second| - 1] == x;
    var joined := first + second[1..];
    forall i | 0 < i < |joined|
      ensures Adjacent(joined[i - 1], joined[i])
    {
      if i >= |first| {
        assert joined[i - 1] == second[i - |first|];
        assert joined[i] == second[i - |first| + 1];
      }
    }
    assert IsPath(g, joined);
  }

  /** Every pixel of a component has that same component: components partition the mask. */
  lemma ComponentOfMember(g: Grid<bool>, p: Pixel, q: Pixel)
    requires q in Component(g, p)
    ensures Component(g, q) == Component(g, p)
  {
    assert Connected(g, p, q);
    ConnectedSymmetric(g, p, q);
    forall x | x in Component(g, q)
      ensures x in Component(g, p)
    {
      ConnectedTransitive(g, p, q, x);
    }
    forall x | x in Component(g, p)
      ensures x in Component(g, q)
    {
      ConnectedTransitive(g, q, p, x);
    }
  }

  /** A path that starts in an adjacency-closed set never leaves it. */
  lemma {:induction false} PathStaysIn(g: Grid<bool>, S: set<Pixel>, path: seq<Pixel>)
    requires IsPath(g, path) && path[0] in S && AdjacencyClosed(g, S)
    ensures path[|path| - 1] in S
    decreases |path|
  {
    if |path| > 1 {
      var prefix := path[..|path| - 1];
      assert IsPath(g, prefix);
      PathStaysIn(g, S, prefix);
      assert Adjacent(path[|path| - 2], path[|path| - 1]);
    }
  }

  /** The set pixels reachable from p make up exactly any adjacency-closed set of
      pixels reachable from p that contains p. */
  lemma ClosedReachableIsComponent(g: Grid<bool>, p: Pixel, C: set<Pixel>)
    requires p in C && AdjacencyClosed(g, C)
    requires forall q :: q in C ==> At(g, q) && Connected(g, p, q)
    ensures C == Component(g, p)
  {
    forall q | q in Component(g, p)
      ensures q in C
    {
      var path :| IsPath(g, path) && path[0] == p && path[|path| - 1] == q;
      PathStaysIn(g, C, path);
    }
  }

  /** The visited array marks exactly the pixels of V. */
  ghost predicate Tracks(visited: array2<bool>, V: set<Pixel>)
    reads visited
  {
    forall r, c :: 0 <= r < visited.Length0 && 0 <= c < visited.Length1 ==>
      (visited[r, c] <==> Pixel(r, c) in V)
  }

  /** Flood-fill invariant: comp holds set pixels reachable from seed, none of them
      visited before the fill; the stack holds pixels of comp whose neighbours may
      still be unexplored; every other pixel of comp has all its set neighbours visited. */
  ghost predicate FillInv(g: Grid<bool>, seed: Pixel, V: set<Pixel>, comp: set<Pixel>, stack: seq<Pixel>) {
    seed in comp && comp !! V &&
    (forall q :: q in comp ==> At(g, q) && Connected(g, seed, q)) &&
    (forall x :: x in stack ==> x in comp) &&
    (forall p, q :: p in comp && p !in stack && Adjacent(p, q) && At(g, q) ==> q in V + comp)
  }

  lemma FillInvPush(g: Grid<bool>, seed: Pixel, V: set<Pixel>, comp: set<Pixel>, stack: seq<Pixel>, n: Pixel)
    requires FillInv(g, seed, V, comp, stack)
    requires n !in V + comp && At(g, n) && Connected(g, seed, n)
    ensures FillInv(g, seed, V, comp + {n}, stack + [n])
  {
  }

  /** Popping the top of stack + pushed keeps every other element. */
  lemma PopMembers(stack: seq<Pixel>, pushed: seq<Pixel>)
    requires |stack| > 0
    ensures forall x :: x in stack[..|stack| - 1] + pushed ==> x in stack + pushed
    ensures forall x :: x in stack + pushed && x != stack[|stack| - 1] ==> x in stack[..|stack| - 1] + pushed
  {
    assert stack == stack[..|stack| - 1] + [stack[|stack| - 1]];
  }

  /** Once the top of the stack has all its set neighbours visited it may be popped. */
  lemma FillInvPop(g: Grid<bool>, seed: Pixel, V: set<Pixel>, comp: set<Pixel>, stack: seq<Pixel>, pushed: seq<Pixel>)
    requires |stack| > 0 && FillInv(g, seed, V, comp, stack + pushed)
    requires forall q :: Adjacent(stack[|stack| - 1], q) && At(g, q) ==> q in V + comp
    ensures FillInv(g, seed, V, comp, stack[..|stack| - 1] + pushed)
  {
    PopMembers(stack, pushed);
  }

  /** Visits pixel n, a candidate neighbour of p: a set, in-image, unvisited n is
      marked, added to the component and pushed. */
  method VisitPixel(g: Grid<bool>, h: nat, w: nat, visited: array2<bool>, ghost V: set<Pixel>, seed: Pixel,
                    ghost stack: seq<Pixel>, comp: set<Pixel>, pushed: seq<Pixel>, p: Pixel, n: Pixel)
    returns (comp': set<Pixel>, pushed': seq<Pixel>)
    requires IsGrid(g, h, w) && visited.Length0 == h && visited.Length1 == w
    requires Tracks(visited, V + comp) && FillInv(g, seed, V, comp, stack + pushed)
    requires p in comp && (Adjacent(p, n) || n == p)
    modifies visited
    ensures Tracks(visited, V + comp') && FillInv(g, seed, V, comp', stack + pushed')
    ensures comp <= comp' && (At(g, n) && n != p ==> n in V + comp')
    ensures |pushed| <= |pushed'| && pushed'[..|pushed|] == pushed
    ensures forall i :: |pushed| <= i < |pushed'| ==> pushed'[i] in comp' && pushed'[i] !in comp
  {
    comp', pushed' := comp, pushed;
    if n != p && 0 <= n.r < h && 0 <= n.c < w && g[n.r][n.c] && !visited[n.r, n.c] {
      assert n !in V + comp;
      ConnectedStep(g, seed, p, n);
      FillInvPush(g, seed, V, comp, stack + pushed, n);
      visited[n.r, n.c] := true;
      comp' := comp + {n};
      pushed' := pushed + [n];
      assert stack + pushed' == (stack + pushed) + [n];
    }
  }

  /** Visits the eight neighbours of p, row by row. */
  method ExploreNeighbours(g: Grid<bool>, h: nat, w: nat, visited: array2<bool>, ghost V: set<Pixel>, seed: Pixel,
                           ghost stack: seq<Pixel>, comp: set<Pixel>, p: Pixel)
    returns (comp': set<Pixel>, pushed: seq<Pixel>)
    requires IsGrid(g, h, w) && visited.Length0 == h && visited.Length1 == w
    requires Tracks(visited, V + comp) && FillInv(g, seed, V, comp, stack) && p in comp
    modifies visited
    ensures Tracks(visited, V + comp') && FillInv(g, seed, V, comp', stack + pushed)
    ensures comp <= comp' && forall i :: 0 <= i < |pushed| ==> pushed[i] in comp' - comp
    ensures forall q :: Adjacent(p, q) && At(g, q) ==> q in V + comp'
  {
    comp', pushed := comp, [];
    assert stack + pushed == stack;
    var dr := -1;
    while dr <= 1
      invariant -1 <= dr <= 2
      invariant Tracks(visited, V + comp') && FillInv(g, seed, V, comp', stack + pushed)
      invariant comp <= comp' && forall i :: 0 <= i < |pushed| ==> pushed[i] in comp' - comp
      invariant forall q :: Adjacent(p, q) && q.r < p.r + dr && At(g, q) ==> q in V + comp'
    {
      var dc := -1;
      while dc <= 1
        invariant -1 <= dc <= 2
        invariant Tracks(visited, V + comp') && FillInv(g, seed, V, comp', stack + pushed)
        invariant comp <= comp' && forall i :: 0 <= i < |pushed| ==> pushed[i] in comp' - comp
        invariant forall q :: Adjacent(p, q) && (q.r < p.r + dr || (q.r == p.r + dr && q.c < p.c + dc)) && At(g, q) ==>
          q in V + comp'
      {
        ghost var pushed0, comp0 := pushed, comp';
        var n := Pixel(p.r + dr, p.c + dc);
        comp', pushed := VisitPixel(g, h, w, visited, V, seed, stack, comp', pushed, p, n);
        forall i | 0 <= i < |pushed|
          ensures pushed[i] in comp' - comp
        {
          if i < |pushed0| {
            assert pushed[i] == pushed0[i];
          }
        }
        assert forall q: Pixel :: q.r == p.r + dr && q.c == p.c + dc ==> q == n;
        dc := dc + 1;
      }
      dr := dr + 1;
    }
  }

  /** Depth-first flood fill from an unvisited set pixel. V is the set already
      visited (whole components of earlier fills); the fill marks and returns the
      component of seed. */
  method FloodFill(g: Grid<bool>, h: nat, w: nat, visited: array2<bool>, ghost V: set<Pixel>, seed: Pixel)
    returns (comp: set<Pixel>)
    requires IsGrid(g, h, w) && visited.Length0 == h && visited.Length1 == w
    requires Tracks(visited, V) && UnionOfComponents(g, V)
    requires At(g, seed) && seed !in V
    modifies visited
    ensures comp == Component(g, seed) && comp !! V
    ensures Tracks(visited, V + comp) && UnionOfComponents(g, V + comp)
  {
    visited[seed.r, seed.c] := true;
    comp := {seed};
    var stack := [seed];
    ConnectedRefl(g, seed);
    while stack != []
      invariant Tracks(visited, V + comp)
      invariant FillInv(g, seed, V, comp, stack)
      decreases Cells(g) - comp, |stack|
    {
      var p := stack[|stack| - 1];
      ghost var comp0 := comp;
      var pushed;
      comp, pushed := ExploreNeighbours(g, h, w, visited, V, seed, stack, comp, p);
      FillInvPop(g, seed, V, comp, stack, pushed);
      stack := stack[..|stack| - 1] + pushed;
      if pushed != [] {
        assert pushed[0] in Cells(g) - comp0 && pushed[0] !in Cells(g) - comp;
      }
    }
    forall p, q | q in V && Adjacent(p, q) && At(g, p)
      ensures p in V
    {
      assert Adjacent(q, p);
    }
    assert AdjacencyClosed(g, comp);
    ClosedReachableIsComponent(g, seed, comp);
  }

  /** Invariant of the labelling scan: V, the visited pixels, is the union of the
      components found so far, which are whole and pairwise disjoint. */
  ghost predicate LabelInv(g: Grid<bool>, visited: array2<bool>, V: set<Pixel>, comps: seq<set<Pixel>>)
    reads visited
  {
    Tracks(visited, V) && Partition(g, V, comps)
  }

  /** V is a union of whole components, and comps lists those components, each once. */
  ghost predicate Partition(g: Grid<bool>, V: set<Pixel>, comps: seq<set<Pixel>>) {
    UnionOfComponents(g, V) &&
    (forall p :: p in V <==> exists i :: 0 <= i < |comps| && p in comps[i]) &&
    (forall i :: 0 <= i < |comps| ==> IsComponent(g, comps[i])) &&
    (forall i, j :: 0 <= i < j < |comps| ==> comps[i] !! comps[j])
  }

  /** A flood-filled component is a whole component. */
  lemma FilledIsComponent(g: Grid<bool>, seed: Pixel, comp: set<Pixel>)
    requires At(g, seed) && comp == Component(g, seed)
    ensures seed in comp && IsComponent(g, comp)
  {
    ConnectedRefl(g, seed);
    assert seed in comp;
    forall p | p in comp
      ensures Component(g, p) == comp
    {
      ComponentOfMember(g, seed, p);
    }
  }

  /** Appending a whole component disjoint from V keeps the labelling invariant. */
  lemma PartitionAppend(g: Grid<bool>, V: set<Pixel>, comps: seq<set<Pixel>>, comp: set<Pixel>)
    requires Partition(g, V, comps) && IsComponent(g, comp) && comp !! V
    requires UnionOfComponents(g, V + comp)
    ensures Partition(g, V + comp, comps + [comp])
  {
    var comps' := comps + [comp];
    forall p | p in V + comp
      ensures exists i :: 0 <= i < |comps'| && p in comps'[i]
    {
      if p in comp {
        assert p in comps'[|comps|];
      } else {
        var i :| 0 <= i < |comps| && p in comps[i];
        assert p in comps'[i];
      }
    }
    forall i | 0 <= i < |comps|
      ensures comps[i] !! comp
    {
      forall p | p in comps[i]
        ensures p in V
      {
        assert exists j :: 0 <= j < |comps| && p in comps[j];
      }
    }
  }

  /** One step of the raster scan: an unvisited set pixel starts a new component. */
  method ScanPixel(g: Grid<bool>, h: nat, w: nat, visited: array2<bool>, ghost V: set<Pixel>,
                   comps: seq<set<Pixel>>, r: nat, c: nat)
    returns (comps': seq<set<Pixel>>, ghost V': set<Pixel>)
    requires IsGrid(g, h, w) && visited.Length0 == h && visited.Length1 == w && r < h && c < w
    requires LabelInv(g, visited, V, comps)
    modifies visited
    ensures LabelInv(g, visited, V', comps') && V <= V'
    ensures At(g, Pixel(r, c)) ==> Pixel(r, c) in V'
  {
    comps', V' := comps, V;
    assert visited[r, c] <==> Pixel(r, c) in V;
    if g[r][c] && !visited[r, c] {
      var seed := Pixel(r, c);
      var comp := FloodFill(g, h, w, visited, V, seed);
      FilledIsComponent(g, seed, comp);
      PartitionAppend(g, V, comps, comp);
      comps', V' := comps + [comp], V + comp;
    }
  }

  /** Splits the set pixels of g into its 8-connected components: every result is a
      whole component, no two share a pixel, and every set pixel is in one of them. */
  method Label(g: Grid<bool>, h: nat, w: nat) returns (comps: seq<set<Pixel>>)
    requires IsGrid(g, h, w)
    ensures forall i :: 0 <= i < |comps| ==> IsComponent(g, comps[i])
    ensures forall i, j :: 0 <= i < j < |comps| ==> comps[i] !! comps[j]
    ensures forall p :: At(g, p) ==> exists i :: 0 <= i < |comps| && p in comps[i]
  {
    var visited := new bool[h, w]((_, _) => false);
    ghost var V: set<Pixel> := {};
    comps := [];
    for r := 0 to h
      invariant LabelInv(g, visited, V, comps)
      invariant forall p :: At(g, p) && p.r < r ==> p in V
    {
      for c := 0 to w
        invariant LabelInv(g, visited, V, comps)
        invariant forall p :: At(g, p) && (p.r < r || (p.r == r && p.c < c)) ==> p in V
      {
        comps, V := ScanPixel(g, h, w, visited, V, comps, r, c);
        assert forall p: Pixel :: p.r == r && p.c == c ==> p == Pixel(r, c);
      }
    }
  }
}
