/** The intrusive doubly linked ring of ccan/list.

    A list is a ring of nodes whose first node is the list head.  The abstract value of a
    list is the sequence of its nodes, which the callers of the macros never see: here it is a
    ghost argument, so that every operation says which sequence it turns into which. */
module RingList {

  class Node {
    var next: Node?
    var prev: Node?

    constructor ()
      ensures next == null && prev == null
    {
      next, prev := null, null;
    }
  }

  ghost predicate Distinct<T>(s: seq<T>) {
    forall i, j | 0 <= i < j < |s| :: s[i] != s[j]
  }

  ghost function After<T>(r: seq<T>, i: nat): T
    requires i < |r|
  {
    r[if i + 1 < |r| then i + 1 else 0]
  }

  ghost function Before<T>(r: seq<T>, i: nat): T
    requires i < |r|
  {
    r[if i == 0 then |r| - 1 else i - 1]
  }

  /** The nodes of `r`, in this order, are linked into one closed ring in both directions. */
  ghost predicate Ring(r: seq<Node>)
    reads r
  {
    && |r| > 0
    && Distinct(r)
    && (forall i {:trigger r[i].next} | 0 <= i < |r| :: r[i].next == After(r, i))
    && (forall i {:trigger r[i].prev} | 0 <= i < |r| :: r[i].prev == Before(r, i))
  }

  ghost function Without<T>(r: seq<T>, k: nat): seq<T>
    requires k < |r|
  {
    r[..k] + r[k + 1..]
  }

  lemma WithoutNeighbours<T>(r: seq<T>, k: nat)
    requires Distinct(r) && 0 < k < |r|
    ensures var r' := Without(r, k);
            && Distinct(r')
            && (forall i {:trigger After(r', i)} | 0 <= i < |r'| ::
                  var o := if i < k then i else i + 1;
                  r'[i] == r[o] != r[k] && After(r', i) == (if r[o] == Before(r, k) then After(r, k) else After(r, o)))
            && (forall i {:trigger Before(r', i)} | 0 <= i < |r'| ::
                  var o := if i < k then i else i + 1;
                  r'[i] == r[o] != r[k] && Before(r', i) == (if r[o] == After(r, k) then Before(r, k) else Before(r, o)))
  {
  }

  ghost function With<T>(r: seq<T>, k: nat, x: T): seq<T>
    requires k <= |r|
  {
    r[..k] + [x] + r[k..]
  }

  lemma WithNeighbours<T>(r: seq<T>, k: nat, x: T)
    requires Distinct(r) && x !in r && 0 < k <= |r|
    ensures var r' := With(r, k, x);
            && Distinct(r')
            && r'[k] == x && Before(r', k) == r[k - 1] && After(r', k) == After(r, k - 1)
            && (forall i {:trigger After(r', i)} | 0 <= i < |r'| && i != k ::
                  var o := if i < k then i else i - 1;
                  r'[i] == r[o] && After(r', i) == (if o == k - 1 then x else After(r, o)))
            && (forall i {:trigger Before(r', i)} | 0 <= i < |r'| && i != k ::
                  var o := if i < k then i else i - 1;
                  r'[i] == r[o] && Before(r', i) == (if r[o] == After(r, k - 1) then x else Before(r, o)))
  {
  }

  // ---------------------------------------------------------------- list.h

  method ListHeadInit(h: Node)
    modifies h
    ensures Ring([h])
  {
    h.prev := h;
    h.next := h.prev;
  }

  /** Prepends `n` to the list `r[1..]` of head `h`; whatever links `n` held before are overwritten. */
  method ListAdd(h: Node, n: Node, ghost r: seq<Node>)
    requires Ring(r) && r[0] == h && n !in r
    modifies h, n, h.next
    ensures Ring([h, n] + r[1..])
  {
    WithNeighbours(r, 1, n);
    assert [h, n] + r[1..] == With(r, 1, n);
    n.next := h.next;
    n.prev := h;
    h.next.prev := n;
    h.next := n;
  }

  method ListAddTail(h: Node, n: Node, ghost r: seq<Node>)
    requires Ring(r) && r[0] == h && n !in r
    modifies h, n, h.prev
    ensures Ring(r + [n])
  {
    WithNeighbours(r, |r|, n);
    assert r + [n] == With(r, |r|, n);
    n.next := h;
    n.prev := h.prev;
    h.prev.next := n;
    h.prev := n;
  }

  method ListEmpty(h: Node, ghost r: seq<Node>) returns (empty: bool)
    requires Ring(r) && r[0] == h
    ensures empty <==> r[1..] == []
  {
    empty := h.next == h;
  }

  /** Unlinks `n`, the node at position `k` of the ring; its own two links are left as they were. */
  method ListDel(n: Node, ghost r: seq<Node>, ghost k: nat)
    requires Ring(r) && 0 < k < |r| && r[k] == n
    modifies n.next, n.prev
    ensures Ring(Without(r, k))
    ensures n.next == old(n.next) && n.prev == old(n.prev)
  {
    WithoutNeighbours(r, k);
    assert n.prev == Before(r, k) && n.next == After(r, k);
    n.next.prev := n.prev;
    n.prev.next := n.next;
  }

  /** Deleting the node just added restores every link of the list. */
  method AddThenDel(h: Node, n: Node, ghost r: seq<Node>)
    requires Ring(r) && r[0] == h && n !in r
    modifies h, n, h.next
    ensures Ring(r)
    ensures forall m | m in r :: m.next == old(m.next) && m.prev == old(m.prev)
  {
    ListAdd(h, n, r);
    ghost var r' := [h, n] + r[1..];
    assert r'[1] == n && n.next == After(r', 1) && n.prev == h;
    ListDel(n, r', 1);
    assert Without(r', 1) == r;
    forall m | m in r
      ensures m.next == old(m.next) && m.prev == old(m.prev)
    {
      var i :| 0 <= i < |r| && r[i] == m;
      assert r[i].next == old(r[i].next) && r[i].prev == old(r[i].prev);
    }
  }

  // ---------------------------------------------------------------- list.c

  /** Either the checked node comes back, or NULL, or the program aborts because a message was given. */
  datatype CheckResult = Intact | Null | Aborted

  /** A heap region in which every next link leads somewhere inside the region.  Its prev links are
      arbitrary, and its next links may form a lasso. */
  ghost predicate Closed(heap: set<Node>)
    reads heap
  {
    forall m | m in heap :: m.next != null && m.next in heap
  }

  ghost function Nth(node: Node, k: nat, heap: set<Node>): (m: Node)
    requires node in heap && Closed(heap)
    reads heap
    ensures m in heap
  {
    if k == 0 then node else Nth(node, k - 1, heap).next
  }

  ghost predicate PrevIntact(node: Node, k: nat, heap: set<Node>)
    requires node in heap && Closed(heap)
    reads heap
  {
    Nth(node, k, heap).next.prev == Nth(node, k, heap)
  }

  lemma {:induction false} NthOnRing(r: seq<Node>, k: nat, heap: set<Node>) returns (i: nat)
    requires Ring(r) && Closed(heap) && r[0] in heap
    ensures i < |r| && Nth(r[0], k, heap) == r[i]
  {
    i := 0;
    if k > 0 {
      var j := NthOnRing(r, k - 1, heap);
      assert r[j].next == After(r, j);
      i := if j + 1 < |r| then j + 1 else 0;
    }
  }

  lemma RingPrevIntact(r: seq<Node>, heap: set<Node>)
    requires Ring(r) && Closed(heap) && r[0] in heap
    ensures forall k: nat :: PrevIntact(r[0], k, heap)
  {
    forall k: nat
      ensures PrevIntact(r[0], k, heap)
    {
      var i := NthOnRing(r, k, heap);
      var j := if i + 1 < |r| then i + 1 else 0;
      assert r[i].next == r[j] && r[j].prev == r[i];
    }
  }

  /** The nodes met so far: distinct, and linked both ways except back to the start. */
  ghost predicate Walked(walk: seq<Node>, heap: set<Node>)
    requires Closed(heap)
    reads heap, walk
  {
    && walk != [] && walk[0] in heap
    && Distinct(walk) && (forall i | 0 <= i < |walk| :: walk[i] in heap)
    && walk[|walk| - 1] == Nth(walk[0], |walk| - 1, heap)
    && (forall i {:trigger walk[i].next} | 0 <= i < |walk| - 1 :: walk[i].next == walk[i + 1])
    && (forall i {:trigger walk[i].prev} | 0 < i < |walk| :: walk[i].prev == walk[i - 1])
  }

  lemma WalkOn(walk: seq<Node>, n: Node, heap: set<Node>)
    requires Closed(heap) && Walked(walk, heap)
    requires walk[|walk| - 1].next == n && n.prev == walk[|walk| - 1] && n != walk[0]
    ensures Walked(walk + [n], heap) && |walk| < |heap|
  {
    forall i | 0 < i < |walk|
      ensures walk[i] != n
    {
      assert walk[i].prev == walk[i - 1];
    }
    DistinctInSet(walk + [n], heap);
  }

  lemma WalkCloses(walk: seq<Node>, heap: set<Node>)
    requires Closed(heap) && Walked(walk, heap)
    requires walk[|walk| - 1].next == walk[0] && walk[0].prev == walk[|walk| - 1]
    ensures Ring(walk) && forall k: nat :: PrevIntact(walk[0], k, heap)
  {
    RingPrevIntact(walk, heap);
  }

  lemma NoRing(node: Node, k: nat, heap: set<Node>)
    requires node in heap && Closed(heap) && !PrevIntact(node, k, heap)
    ensures !exists r: seq<Node> :: Ring(r) && r[0] == node
  {
    forall r: seq<Node> | Ring(r) && r[0] == node
      ensures false
    {
      RingPrevIntact(r, heap);
    }
  }

  /** Returns the node exactly when the nodes reached from it form a consistent ring, which is the
      same as every prev link met on the way pointing back.  The walk ends on every closed heap: a
      next link that re-enters the walk anywhere but at its start has a prev link that points into
      the walk already, so the check fails there. */
  method ListCheckNode(node: Node, abortStr: bool, ghost heap: set<Node>) returns (result: CheckResult)
    requires node in heap && Closed(heap)
    ensures result == Intact <==> exists r: seq<Node> :: Ring(r) && r[0] == node
    ensures result == Intact <==> forall k: nat :: PrevIntact(node, k, heap)
    ensures result == Aborted ==> abortStr
    ensures result == Null ==> !abortStr
  {
    var p: Node, n: Node := node, node.next;
    var count := 0;
    ghost var walk := [node];
    while n != node
      invariant Walked(walk, heap) && walk[0] == node && |walk| == count + 1
      invariant p == walk[count] && n == p.next && n in heap
      decreases |heap| - |walk|
    {
      if n.prev != p {
        NoRing(node, count, heap);
        return if abortStr then Aborted else Null;
      }
      count := count + 1;
      WalkOn(walk, n, heap);
      walk := walk + [n];
      p, n := n, n.next;
    }
    if node.prev != p {
      NoRing(node, count, heap);
      return if abortStr then Aborted else Null;
    }
    WalkCloses(walk, heap);
    return Intact;
  }

  lemma {:induction false} DistinctInSet<T>(s: seq<T>, pool: set<T>)
    requires Distinct(s) && forall i | 0 <= i < |s| :: s[i] in pool
    ensures |s| <= |pool|
  {
    if s != [] {
      var last := s[|s| - 1];
      DistinctInSet(s[..|s| - 1], pool - {last});
    }
  }

  // ---------------------------------------------------------------- safe walks

  ghost predicate Apart(r: seq<Node>, r2: seq<Node>) {
    forall m | m in r :: m !in r2
  }

  lemma WithoutMembers<T>(r: seq<T>, k: nat)
    requires Distinct(r) && k < |r|
    ensures r[k] !in Without(r, k)
    ensures forall x | x in Without(r, k) :: x in r
  {
  }

  /** The delete-then-append pair that moves a node from one list to the end of another. */
  method MoveTail(n: Node, h2: Node, ghost r: seq<Node>, ghost k: nat, ghost r2: seq<Node>)
    requires Ring(r) && 0 < k < |r| && r[k] == n
    requires Ring(r2) && r2[0] == h2 && Apart(r, r2)
    modifies r, r2
    ensures Ring(Without(r, k)) && Ring(r2 + [n]) && Apart(Without(r, k), r2 + [n])
  {
    WithoutNeighbours(r, k);
    assert n.prev == Before(r, k) && n.prev in r && n.next == After(r, k) && n.next in r;
    assert h2.prev == Before(r2, 0) && h2.prev in r2;
    ListDel(n, r, k);
    WithoutMembers(r, k);
    ListAddTail(h2, n, r2);
  }

  /** The nodes added at the head during a walk over `s`, most recent first. */
  ghost function AddedDuring(s: seq<Node>, add: map<Node, Node>): seq<Node> {
    if s == [] then []
    else
      var last := s[|s| - 1];
      (if last in add then [add[last]] else []) + AddedDuring(s[..|s| - 1], add)
  }

  ghost function Kept(s: seq<Node>, move: set<Node>): seq<Node> {
    if s == [] then []
    else
      var last := s[|s| - 1];
      Kept(s[..|s| - 1], move) + if last in move then [] else [last]
  }

  ghost function Moved(s: seq<Node>, move: set<Node>): seq<Node> {
    if s == [] then []
    else
      var last := s[|s| - 1];
      Moved(s[..|s| - 1], move) + if last in move then [last] else []
  }

  /** `part` is what stands in `s` at the positions `f`, in the order of `s`. */
  ghost predicate Picked(f: seq<nat>, s: seq<Node>, part: seq<Node>) {
    && |f| == |part| && (forall i | 0 <= i < |f| :: f[i] < |s| && part[i] == s[f[i]])
    && forall i, j | 0 <= i < j < |f| :: f[i] < f[j]
  }

  lemma PickedMore(f: seq<nat>, s: seq<Node>, part: seq<Node>, n: Node)
    requires Picked(f, s, part)
    ensures Picked(f, s + [n], part) && Picked(f + [|s|], s + [n], part + [n])
  {
    var g := f + [|s|];
    assert forall i | 0 <= i < |f| :: g[i] == f[i] < |s|;
  }

  /** `f` lists the positions of `s` whose nodes are in `move`, or those whose nodes are not. */
  ghost predicate Marks(f: seq<nat>, s: seq<Node>, move: set<Node>, wanted: bool) {
    && (forall i | 0 <= i < |f| :: f[i] < |s|)
    && (forall k: nat | k < |s| :: k in f <==> ((s[k] in move) == wanted))
  }

  lemma MarksMore(f: seq<nat>, s: seq<Node>, n: Node, move: set<Node>, wanted: bool)
    requires Marks(f, s, move, wanted)
    ensures Marks(if (n in move) == wanted then f + [|s|] else f, s + [n], move, wanted)
  {
    assert |s| !in f;
  }

  lemma NothingPicked(move: set<Node>, wanted: bool)
    ensures Picked([], [], []) && Marks([], [], move, wanted)
  {
  }

  /** The nodes moved are exactly those to be moved, in the order of the list. */
  lemma {:induction false} MovedAre(s: seq<Node>, move: set<Node>) returns (f: seq<nat>)
    ensures Picked(f, s, Moved(s, move)) && Marks(f, s, move, true)
  {
    hide Picked, Marks;
    f := [];
    if s == [] {
      NothingPicked(move, true);
    } else {
      var front, last := s[..|s| - 1], s[|s| - 1];
      var g := MovedAre(front, move);
      assert s == front + [last] && Moved(front, move) + [] == Moved(front, move);
      PickedMore(g, front, Moved(front, move), last);
      MarksMore(g, front, last, move, true);
      f := if last in move then g + [|front|] else g;
    }
  }

  /** The nodes kept are exactly the others, in the order of the list. */
  lemma {:induction false} KeptAre(s: seq<Node>, move: set<Node>) returns (f: seq<nat>)
    ensures Picked(f, s, Kept(s, move)) && Marks(f, s, move, false)
  {
    hide Picked, Marks;
    f := [];
    if s == [] {
      NothingPicked(move, false);
    } else {
      var front, last := s[..|s| - 1], s[|s| - 1];
      var g := KeptAre(front, move);
      assert s == front + [last] && Kept(front, move) + [] == Kept(front, move);
      PickedMore(g, front, Kept(front, move), last);
      MarksMore(g, front, last, move, false);
      f := if last in move then g else g + [|front|];
    }
  }

  /** `part` is what is added at the positions `f` of `s`, from the last position to the first. */
  ghost predicate AddedAt(f: seq<nat>, s: seq<Node>, add: map<Node, Node>, part: seq<Node>) {
    && |f| == |part| && (forall i | 0 <= i < |f| :: f[i] < |s| && s[f[i]] in add && part[i] == add[s[f[i]]])
    && (forall i, j | 0 <= i < j < |f| :: f[i] > f[j])
    && forall k: nat | k < |s| && s[k] in add :: k in f
  }

  lemma AddedMore(f: seq<nat>, s: seq<Node>, add: map<Node, Node>, part: seq<Node>, n: Node)
    requires AddedAt(f, s, add, part)
    ensures n !in add ==> AddedAt(f, s + [n], add, part)
    ensures n in add ==> AddedAt([|s|] + f, s + [n], add, [add[n]] + part)
  {
    var t := s + [n];
    assert forall k: nat | k < |s| :: t[k] == s[k];
    if n in add {
      var g := [|s|] + f;
      assert g[0] == |s|;
      forall k: nat | k < |t| && t[k] in add
        ensures k in g
      {
        assert k < |s| ==> k in f;
      }
    }
  }

  lemma NothingAdded(add: map<Node, Node>)
    ensures AddedAt([], [], add, [])
  {
  }

  /** What stands at the head after a walk: the nodes added, the latest first. */
  lemma {:induction false} AddedAre(s: seq<Node>, add: map<Node, Node>) returns (f: seq<nat>)
    ensures AddedAt(f, s, add, AddedDuring(s, add))
  {
    hide AddedAt;
    f := [];
    if s == [] {
      NothingAdded(add);
    } else {
      var front, last := s[..|s| - 1], s[|s| - 1];
      var g := AddedAre(front, add);
      assert s == front + [last] && [] + AddedDuring(front, add) == AddedDuring(front, add);
      AddedMore(g, front, add, AddedDuring(front, add), last);
      f := if last in add then [|front|] + g else g;
    }
  }

  ghost function AddedAtHead(r: seq<Node>, n: Node?): seq<Node>
    requires r != []
  {
    if n == null then r else [r[0], n] + r[1..]
  }

  /** One body of the walk: adds `extra` at the head, if there is one, then moves the visited node. */
  method Visit(h: Node, h2: Node, n: Node, extra: Node?, move: bool,
               ghost r: seq<Node>, ghost k: nat, ghost r2: seq<Node>)
    requires Ring(r) && r[0] == h && Ring(r2) && r2[0] == h2 && Apart(r, r2)
    requires 0 < k < |r| && r[k] == n
    requires extra != null ==> extra !in r && extra !in r2
    modifies r, r2, extra
    ensures var added := AddedAtHead(r, extra);
            var at := if extra == null then k else k + 1;
            && Ring(if move then Without(added, at) else added)
            && Ring(if move then r2 + [n] else r2)
            && Apart(if move then Without(added, at) else added, if move then r2 + [n] else r2)
  {
    ghost var at := k;
    if extra != null {
      assert h.next == After(r, 0) && h.next in r;
      ListAdd(h, extra, r);
      at := k + 1;
    }
    ghost var added := AddedAtHead(r, extra);
    assert Ring(added) && added[at] == n;
    assert Ring(r2);
    assert forall m | m in added :: m in r || m == extra;
    if move {
      MoveTail(n, h2, added, at, r2);
    }
  }

  /** The walked list after `k` of the original nodes `s` have been visited. */
  ghost function Midway(h: Node, s: seq<Node>, k: nat, move: set<Node>, add: map<Node, Node>): seq<Node>
    requires k <= |s|
  {
    ([h] + AddedDuring(s[..k], add) + Kept(s[..k], move)) + s[k..]
  }

  ghost function VisitedShape(r: seq<Node>, pos: nat, extra: Node?, move: bool): seq<Node>
    requires 0 < pos < |r|
  {
    var added := AddedAtHead(r, extra);
    if move then Without(added, if extra == null then pos else pos + 1) else added
  }

  lemma VisitedShapeParts(p: seq<Node>, x: Node, rest: seq<Node>, extra: Node?, move: bool)
    requires p != []
    ensures var r := p + ([x] + rest);
            && r[|p|] == x
            && After(r, |p|) == (if rest == [] then p[0] else rest[0])
            && VisitedShape(r, |p|, extra, move)
               == (if move then AddedAtHead(p, extra) else AddedAtHead(p, extra) + [x]) + rest
  {
    AddedAtHeadAppend(p, [x] + rest, extra);
    WithoutMiddle(AddedAtHead(p, extra), x, rest);
  }

  lemma AddedAtHeadAppend(p: seq<Node>, t: seq<Node>, extra: Node?)
    requires p != []
    ensures AddedAtHead(p + t, extra) == AddedAtHead(p, extra) + t
  {
    assert (p + t)[1..] == p[1..] + t;
  }

  lemma WithoutMiddle(p: seq<Node>, x: Node, rest: seq<Node>)
    ensures Without(p + ([x] + rest), |p|) == p + rest
    ensures p + [x] + rest == p + ([x] + rest)
  {
    var r := p + ([x] + rest);
    assert r[..|p|] == p && r[|p| + 1..] == rest;
  }

  lemma PrefixStep(s: seq<Node>, k: nat, move: set<Node>, add: map<Node, Node>)
    requires k < |s|
    ensures s[..k + 1] == s[..k] + [s[k]] && s[k..] == [s[k]] + s[k + 1..]
    ensures AddedDuring(s[..k + 1], add) == (if s[k] in add then [add[s[k]]] else []) + AddedDuring(s[..k], add)
    ensures Kept(s[..k + 1], move) == Kept(s[..k], move) + if s[k] in move then [] else [s[k]]
    ensures Moved(s[..k + 1], move) == Moved(s[..k], move) + if s[k] in move then [s[k]] else []
  {
    assert s[..k + 1][..k] == s[..k];
  }

  lemma MidwayStep(h: Node, s: seq<Node>, k: nat, move: set<Node>, add: map<Node, Node>)
    requires k < |s|
    ensures var cur := Midway(h, s, k, move, add);
            var pos := |cur| - (|s| - k);
            var extra: Node? := if s[k] in add then add[s[k]] else null;
            && 0 < pos && cur[0] == h && cur[pos] == s[k]
            && After(cur, pos) == (if k + 1 < |s| then s[k + 1] else h)
            && VisitedShape(cur, pos, extra, s[k] in move) == Midway(h, s, k + 1, move, add)
  {
    hide AddedDuring, Kept, VisitedShape, AddedAtHead;
    var extra: Node? := if s[k] in add then add[s[k]] else null;
    var a, kept := AddedDuring(s[..k], add), Kept(s[..k], move);
    var p := [h] + a + kept;
    PrefixStep(s, k, move, add);
    VisitedShapeParts(p, s[k], s[k + 1..], extra, s[k] in move);
    MidwayAdd(h, a, kept, s[k], extra);
  }

  lemma MidwayAdd(h: Node, a: seq<Node>, kept: seq<Node>, x: Node, extra: Node?)
    ensures var q := [h] + ((if extra == null then [] else [extra]) + a);
            && AddedAtHead([h] + a + kept, extra) == q + (kept + [])
            && AddedAtHead([h] + a + kept, extra) + [x] == q + (kept + [x])
  {
  }

  lemma {:induction false} WalkMembers(s: seq<Node>, move: set<Node>, add: map<Node, Node>)
    ensures forall m | m in AddedDuring(s, add) :: exists j :: 0 <= j < |s| && s[j] in add && add[s[j]] == m
    ensures forall m | m in Kept(s, move) :: m in s
    ensures forall m | m in Moved(s, move) :: m in s
  {
    if s != [] {
      WalkMembers(s[..|s| - 1], move, add);
    }
  }

  /** Nothing but original nodes and added nodes is ever linked, and the node to be added next is not linked yet. */
  lemma MidwayMembers(r: seq<Node>, k: nat, move: set<Node>, add: map<Node, Node>)
    requires Distinct(r) && r != [] && k <= |r| - 1
    requires forall m | m in add :: add[m] !in r
    requires forall m, m' | m in add && m' in add && m != m' :: add[m] != add[m']
    ensures var cur := Midway(r[0], r[1..], k, move, add);
            && (forall m | m in cur :: m in r || m in add.Values)
            && (k + 1 < |r| && r[k + 1] in add ==> add[r[k + 1]] !in cur)
  {
    var s := r[1..];
    WalkMembers(s[..k], move, add);
    forall m | m in Midway(r[0], s, k, move, add)
      ensures m in r || m in add.Values
      ensures k < |s| && s[k] in add ==> add[s[k]] != m
    {
      if m in AddedDuring(s[..k], add) {
        var j :| 0 <= j < k && s[j] in add && add[s[j]] == m;
        assert s[j] == r[j + 1];
      } else {
        assert m == r[0] || m in s;
      }
    }
  }

  /** One turn of the walk, from the state after `k` visits to the state after `k + 1`. */
  method Turn(h: Node, h2: Node, i: Node, nxt: Node, move: set<Node>, add: map<Node, Node>,
              ghost s: seq<Node>, ghost k: nat, ghost r2: seq<Node>, ghost all: set<Node>)
    returns (i': Node, nxt': Node)
    requires k < |s| && i == s[k] && nxt == i.next && r2 != [] && r2[0] == h2
    requires var cur, tail := Midway(h, s, k, move, add), r2 + Moved(s[..k], move);
             && Ring(cur) && Ring(tail) && Apart(cur, tail)
             && (i in add ==> add[i] !in cur && add[i] !in tail)
             && (forall m | m in cur || m in tail || (i in add && m == add[i]) :: m in all)
    modifies all
    ensures var cur, tail := Midway(h, s, k + 1, move, add), r2 + Moved(s[..k + 1], move);
            Ring(cur) && Ring(tail) && Apart(cur, tail)
    ensures i' == (if k + 1 < |s| then s[k + 1] else h) && i'.next == nxt'
  {
    hide Moved, AddedDuring, Kept, Ring, Apart, After, Midway, Without, AddedAtHead;
    ghost var cur, tail := Midway(h, s, k, move, add), r2 + Moved(s[..k], move);
    ghost var pos := |cur| - (|s| - k);
    MidwayStep(h, s, k, move, add);
    PrefixStep(s, k, move, add);
    TailStep(r2, Moved(s[..k], move), i);
    var extra: Node? := if i in add then add[i] else null;
    NextLink(cur, pos);
    assert nxt == After(cur, pos);
    Visit(h, h2, i, extra, i in move, cur, pos, tail);
    i' := nxt;
    ghost var cur' := Midway(h, s, k + 1, move, add);
    ghost var at := if k + 1 < |s| then |cur'| - (|s| - (k + 1)) else 0;
    MidwayAt(h, s, k + 1, move, add);
    NextLink(cur', at);
    nxt' := i'.next;
  }

  lemma MidwayAt(h: Node, s: seq<Node>, k: nat, move: set<Node>, add: map<Node, Node>)
    requires k <= |s|
    ensures var cur := Midway(h, s, k, move, add);
            cur != [] && cur[0] == h && (k < |s| ==> 0 <= |cur| - (|s| - k) < |cur| && cur[|cur| - (|s| - k)] == s[k])
  {
  }

  lemma NextLink(r: seq<Node>, i: nat)
    requires Ring(r) && i < |r|
    ensures r[i].next == After(r, i) && r[i].next != null
  {
  }

  lemma TurnReady(r: seq<Node>, r2: seq<Node>, k: nat, move: set<Node>, add: map<Node, Node>, all: set<Node>)
    requires Distinct(r) && r != [] && k + 1 < |r|
    requires forall m | m in add :: add[m] !in r && add[m] !in r2
    requires forall m, m' | m in add && m' in add && m != m' :: add[m] != add[m']
    requires all == (set m | m in r) + (set m | m in r2) + add.Values
    ensures var cur, tail, i := Midway(r[0], r[1..], k, move, add), r2 + Moved(r[1..][..k], move), r[1..][k];
            && (forall m | m in cur || m in tail || (i in add && m == add[i]) :: m in all)
            && (i in add ==> add[i] !in cur && add[i] !in tail)
  {
    MidwayMembers(r, k, move, add);
    WalkMembers(r[1..][..k], move, add);
  }

  lemma TailStep(a: seq<Node>, b: seq<Node>, n: Node)
    ensures (a + b) + [n] == a + (b + [n]) && b + [] == b
  {
  }

  /** A list_for_each_safe walk whose body may add one new node at the head of the walked list
      and may move the visited node to the end of another list.  It visits each original node once,
      in order, and no added node. */
  method WalkSafe(h: Node, h2: Node, move: set<Node>, add: map<Node, Node>, ghost r: seq<Node>, ghost r2: seq<Node>)
    returns (visited: seq<Node>)
    requires Ring(r) && r[0] == h && Ring(r2) && r2[0] == h2 && Apart(r, r2)
    requires forall m | m in add :: add[m] !in r && add[m] !in r2
    requires forall m, m' | m in add && m' in add && m != m' :: add[m] != add[m']
    modifies r, r2, add.Values
    ensures visited == r[1..]
    ensures Ring([h] + AddedDuring(r[1..], add) + Kept(r[1..], move))
    ensures Ring(r2 + Moved(r[1..], move))
  {
    hide Ring, Apart, Midway, Moved, AddedDuring, Kept;
    RingStarts(r);
    RingStarts(r2);
    visited := [];
    ghost var s := r[1..];
    var i: Node := h.next;
    var nxt: Node := i.next;
    ghost var k := 0;
    ghost var all := (set m | m in r) + (set m | m in r2) + add.Values;
    assert i == After(r, 0);
    WalkStarts(h, s, r2, move, add);
    assert [h] + s == r;
    while i != h
      invariant k <= |s| && visited == s[..k]
      invariant Ring(Midway(h, s, k, move, add)) && Ring(r2 + Moved(s[..k], move))
      invariant Apart(Midway(h, s, k, move, add), r2 + Moved(s[..k], move))
      invariant i == (if k < |s| then s[k] else h) && nxt == i.next
      decreases |s| - k
    {
      TurnReady(r, r2, k, move, add, all);
      assert s[..k + 1] == s[..k] + [s[k]];
      visited := visited + [i];
      i, nxt := Turn(h, h2, i, nxt, move, add, s, k, r2, all);
      k := k + 1;
    }
    assert s[..|s|] == s;
    WalkEnds(h, s, move, add);
  }

  lemma RingStarts(r: seq<Node>)
    requires Ring(r)
    ensures |r| > 0 && Distinct(r) && r[0].next == After(r, 0) && After(r, 0).next != null
  {
    assert r[if |r| == 1 then 0 else 1].next != null;
  }

  lemma WalkStarts(h: Node, s: seq<Node>, r2: seq<Node>, move: set<Node>, add: map<Node, Node>)
    ensures Midway(h, s, 0, move, add) == [h] + s && r2 + Moved(s[..0], move) == r2
  {
  }

  lemma WalkEnds(h: Node, s: seq<Node>, move: set<Node>, add: map<Node, Node>)
    ensures Midway(h, s, |s|, move, add) == [h] + AddedDuring(s, add) + Kept(s, move)
  {
    assert s[..|s|] == s;
  }
}
