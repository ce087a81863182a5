/** The allocator's arena as a value: which blocks tile it and which are on the free list.

    Addresses and sizes count 16-byte cells (a header and a footer are one cell each), so
    16-byte alignment is built into the address space.  The block whose header sits at `a`
    occupies the cells `a .. End(a)`: header, `blocks[a]` payload cells, footer.  The cells
    `lo` and `hi - 1` are the two sentinels.  Address 0 is NULL. */
module Arenas {

  /** The address just above the block with header `a`. */
  function End(blocks: map<int, int>, a: int): int
    requires a in blocks
  {
    a + 2 + blocks[a]
  }

  /** The footer cell of the block with header `a`. */
  function Foot(blocks: map<int, int>, a: int): int
    requires a in blocks
  {
    a + 1 + blocks[a]
  }

  datatype Arena = Arena(lo: int, hi: int, blocks: map<int, int>, free: seq<int>) {

    /** Blocks follow one another from the low sentinel to the high one, without overlap or gap. */
    ghost predicate Tiled() {
      && 0 <= lo
      && lo + 1 in blocks
      && (forall a :: a in blocks ==> lo < a && 0 <= blocks[a])
      && (forall a {:trigger End(blocks, a)} :: a in blocks ==>
          End(blocks, a) < hi && (End(blocks, a) in blocks || End(blocks, a) == hi - 1))
      && (forall a, b {:trigger End(blocks, a), b in blocks} :: a in blocks && b in blocks && a < b ==>
          End(blocks, a) <= b)
    }

    /** The free list names blocks of the arena, each at most once. */
    ghost predicate Listed() {
      && (forall k :: 0 <= k < |free| ==> free[k] in blocks)
      && Distinct(free)
    }

    /** No two neighbouring blocks are both free. */
    ghost predicate Coalesced() {
      forall a {:trigger End(blocks, a)} :: a in blocks && a in free && End(blocks, a) in blocks ==>
          End(blocks, a) !in free
    }

    ghost predicate Valid() {
      Tiled() && Listed() && Coalesced()
    }

    ghost predicate IsLive(a: int) {
      a in blocks && a !in free
    }
  }

  // ----- Free-list helpers

  ghost predicate Distinct(s: seq<int>) {
    forall i, j :: 0 <= i < j < |s| ==> s[i] != s[j]
  }

  function Without(s: seq<int>, x: int): (r: seq<int>)
  {
    if s == [] then []
    else if s[0] == x then s[1..]
    else [s[0]] + Without(s[1..], x)
  }

  lemma {:induction false} WithoutAt(s: seq<int>, k: nat)
    requires k < |s|
    requires Distinct(s)
    ensures Without(s, s[k]) == s[..k] + s[k + 1..]
  {
    if k > 0 {
      WithoutAt(s[1..], k - 1);
      assert s == [s[0]] + s[1..];
      assert s[..k] + s[k + 1..] == [s[0]] + (s[1..][..k - 1] + s[1..][k..]);
    }
  }

  lemma {:induction false} WithoutMembers(s: seq<int>, x: int)
    requires Distinct(s)
    ensures forall y :: y in Without(s, x) <==> y in s && y != x
  {
    if s != [] {
      assert s == [s[0]] + s[1..];
      assert s[0] !in s[1..];
      if s[0] != x {
        WithoutMembers(s[1..], x);
      }
    }
  }

  lemma {:induction false} WithoutDistinct(s: seq<int>, x: int)
    requires Distinct(s)
    ensures Distinct(Without(s, x))
  {
    if s != [] && s[0] != x {
      WithoutDistinct(s[1..], x);
      WithoutMembers(s[1..], x);
      assert s[0] !in s[1..];
      assert s[0] !in Without(s[1..], x);
    }
  }

  /** The free block of list `fl` whose last cell is just below `e`, or 0 when there is none. */
  function FreeEnding(s: Arena, fl: seq<int>, e: int): (p: int)
    requires forall x :: x in fl ==> x in s.blocks && x != 0
    ensures p != 0 ==> p in fl && End(s.blocks, p) == e
    ensures p == 0 ==> forall x :: x in fl ==> End(s.blocks, x) != e
  {
    if fl == [] then 0
    else
      assert fl[0] in fl && forall x :: x in fl[1..] ==> x in fl;
      assert forall x :: x in fl ==> x == fl[0] || x in fl[1..];
      if End(s.blocks, fl[0]) == e then fl[0] else FreeEnding(s, fl[1..], e)
  }

  /** Position of the first free block of at least `u` cells, or the length of the list. */
  function FirstFit(s: Arena, u: int, from: nat): (k: nat)
    requires from <= |s.free|
    requires s.Listed()
    ensures from <= k <= |s.free|
    ensures k < |s.free| ==> s.blocks[s.free[k]] >= u
    ensures forall j :: from <= j < k ==> s.blocks[s.free[j]] < u
    decreases |s.free| - from
  {
    if from == |s.free| then from
    else if s.blocks[s.free[from]] >= u then from
    else FirstFit(s, u, from + 1)
  }

  // ----- The allocator's operations on arenas

  /** A remainder is split off only when it is worth a header, a footer and more than 8 bytes. */
  predicate Splits(size: int, u: int) {
    16 * (size - u) > 16 + 16 + 8
  }

  /** Block `a` keeps `u` payload cells; the rest of it becomes a block of its own. */
  function Cut(s: Arena, a: int, u: int): Arena
    requires a in s.blocks
  {
    s.(blocks := s.blocks[a := u][a + 2 + u := s.blocks[a] - u - 2])
  }

  /** Hand out the k-th free block for `u` cells; a split leaves the remainder in its list position. */
  function Take(s: Arena, k: nat, u: int): Arena
    requires k < |s.free| && s.free[k] in s.blocks
  {
    var a := s.free[k];
    if Splits(s.blocks[a], u) then
      Cut(s, a, u).(free := s.free[k := a + 2 + u])
    else
      s.(free := s.free[..k] + s.free[k + 1..])
  }

  /** The least page boundary (4096 bytes, 256 cells) at or above x. */
  function PageUp(x: int): (r: int)
    ensures x <= r < x + 256 && r % 256 == 0
  {
    (16 * x + 4095) / 4096 * 256
  }

  /** Move the break to `hi'`: the last block grows when it is free, else a new free block appears. */
  function Grow(s: Arena, hi': int): Arena
    requires forall x :: x in s.free ==> x in s.blocks && x != 0
  {
    var last := FreeEnding(s, s.free, s.hi - 1);
    if last != 0 then
      s.(hi := hi', blocks := s.blocks[last := s.blocks[last] + hi' - s.hi])
    else
      s.(hi := hi', blocks := s.blocks[s.hi - 1 := hi' - s.hi - 2], free := [s.hi - 1] + s.free)
  }

  /** Let block `h` swallow its upper neighbour `n`. */
  function Absorb(s: Arena, h: int, n: int): Arena
    requires h in s.blocks && n in s.blocks
  {
    s.(blocks := (s.blocks - {n})[h := s.blocks[h] + s.blocks[n] + 2])
  }

  /** Coalesce the head of the list with a free block that ends where it starts. */
  function JoinBelow(s: Arena): Arena
    requires s.free != [] && forall x :: x in s.free ==> x in s.blocks && x != 0
  {
    var a := s.free[0];
    var p := FreeEnding(s, s.free, a);
    if p == 0 then s
    else Absorb(s, p, a).(free := [p] + Without(s.free[1..], p))
  }

  /** Coalesce the head of the list with a free block that starts where it ends. */
  function JoinAbove(s: Arena): Arena
    requires s.free != [] && forall x :: x in s.free ==> x in s.blocks && x != 0
  {
    var h := s.free[0];
    var n := End(s.blocks, h);
    if n in s.blocks && n in s.free then Absorb(s, h, n).(free := [h] + Without(s.free[1..], n))
    else s
  }

  // ----- Tiling facts

  lemma InBounds(s: Arena, x: int)
    requires s.Tiled()
    ensures x in s.blocks ==> s.lo < x < s.hi - 2
  {
    if x in s.blocks {
      assert End(s.blocks, x) < s.hi;
    }
  }

  lemma EndsDiffer(s: Arena, a: int, b: int)
    requires s.Tiled() && a in s.blocks && b in s.blocks && a != b
    ensures End(s.blocks, a) != End(s.blocks, b)
  {
    if a < b {
      assert End(s.blocks, a) <= b;
    } else {
      assert End(s.blocks, b) <= a;
    }
  }

  /** Every block but the lowest has a lower neighbour. */
  lemma {:induction false} LowerNeighbour(s: Arena, a: int, from: int) returns (p: int)
    requires s.Tiled() && a in s.blocks && from in s.blocks && from < a
    ensures p in s.blocks && End(s.blocks, p) == a
    decreases a - from
  {
    assert End(s.blocks, a) < s.hi;
    if End(s.blocks, from) == a {
      p := from;
    } else {
      p := LowerNeighbour(s, a, End(s.blocks, from));
    }
  }

  lemma {:induction false} TopBlock(s: Arena, from: int) returns (p: int)
    requires s.Tiled() && from in s.blocks
    ensures p in s.blocks && End(s.blocks, p) == s.hi - 1
    decreases s.hi - from
  {
    if End(s.blocks, from) == s.hi - 1 {
      p := from;
    } else {
      p := TopBlock(s, End(s.blocks, from));
    }
  }

  // ----- Each operation keeps the arena valid

  /** Cutting block `a` after `u` payload cells keeps the tiling. */
  lemma CutTiled(s: Arena, a: int, u: int)
    requires s.Tiled() && a in s.blocks && 0 <= u && u + 2 <= s.blocks[a]
    ensures a + 2 + u !in s.blocks
    ensures Cut(s, a, u).Tiled()
  {
    var t := Cut(s, a, u);
    var rest := a + 2 + u;
    assert End(s.blocks, a) == a + 2 + s.blocks[a];
    assert rest !in s.blocks;
    assert End(t.blocks, a) == rest && End(t.blocks, rest) == End(s.blocks, a);
    assert forall b {:trigger End(t.blocks, b)} :: b in s.blocks && b != a ==> End(t.blocks, b) == End(s.blocks, b);
    forall b, c | b in t.blocks && c in t.blocks && b < c ensures End(t.blocks, b) <= c {
      var b' := if b == rest then a else b;
      assert End(s.blocks, b') <= s.hi;
    }
  }

  lemma {:induction false} ReplacedMembers(s: seq<int>, k: nat, y: int)
    requires k < |s| && Distinct(s) && y !in s
    ensures Distinct(s[k := y])
    ensures forall x :: x in s[k := y] <==> x == y || (x in s && x != s[k])
  {
    var t := s[k := y];
    forall x | x in s && x != s[k] ensures x in t {
      var j :| 0 <= j < |s| && s[j] == x;
      assert t[j] == x;
    }
    assert t[k] == y;
  }

  lemma TakeValid(s: Arena, k: nat, u: int)
    requires s.Valid() && k < |s.free| && 0 <= u <= s.blocks[s.free[k]]
    ensures Take(s, k, u).Valid()
  {
    var a := s.free[k];
    assert a in s.free;
    var t := Take(s, k, u);
    if Splits(s.blocks[a], u) {
      CutTiled(s, a, u);
      ReplacedMembers(s.free, k, a + 2 + u);
      assert End(t.blocks, a + 2 + u) == End(s.blocks, a);
      assert forall b {:trigger End(t.blocks, b)} :: b in s.blocks && b != a ==> End(t.blocks, b) == End(s.blocks, b);
    } else {
      WithoutAt(s.free, k);
      WithoutMembers(s.free, a);
      WithoutDistinct(s.free, a);
    }
  }


  /** A block handed out is live, big enough, and was free; the other live blocks are untouched. */
  lemma TakeLive(s: Arena, k: nat, u: int)
    requires s.Valid() && k < |s.free| && 0 <= u <= s.blocks[s.free[k]]
    ensures Take(s, k, u).IsLive(s.free[k]) && Take(s, k, u).blocks[s.free[k]] >= u
    ensures forall b :: b != s.free[k] ==> (Take(s, k, u).IsLive(b) <==> s.IsLive(b))
    ensures forall b :: s.IsLive(b) ==> Take(s, k, u).blocks[b] == s.blocks[b]
  {
    var a := s.free[k];
    assert a in s.free;
    if Splits(s.blocks[a], u) {
      CutTiled(s, a, u);
      ReplacedMembers(s.free, k, a + 2 + u);
    } else {
      WithoutAt(s.free, k);
      WithoutMembers(s.free, a);
    }
  }

  lemma StretchTiled(s: Arena, last: int, hi': int)
    requires s.Tiled() && last in s.blocks && End(s.blocks, last) == s.hi - 1 && hi' >= s.hi
    ensures s.(hi := hi', blocks := s.blocks[last := s.blocks[last] + hi' - s.hi]).Tiled()
  {
    var t := s.(hi := hi', blocks := s.blocks[last := s.blocks[last] + hi' - s.hi]);
    assert End(t.blocks, last) == hi' - 1;
    assert forall b {:trigger End(t.blocks, b)} :: b in s.blocks && b != last ==> End(t.blocks, b) == End(s.blocks, b);
    forall b, c | b in t.blocks && c in t.blocks && b < c ensures End(t.blocks, b) <= c {
      assert End(s.blocks, b) <= c;
      InBounds(s, c);
    }
  }

  lemma AppendTiled(s: Arena, hi': int)
    requires s.Tiled() && hi' >= s.hi + 4
    ensures s.(hi := hi', blocks := s.blocks[s.hi - 1 := hi' - s.hi - 2]).Tiled()
  {
    var t := s.(hi := hi', blocks := s.blocks[s.hi - 1 := hi' - s.hi - 2]);
    InBounds(s, s.hi - 1);
    InBounds(s, s.lo + 1);
    assert End(t.blocks, s.hi - 1) == hi' - 1;
    assert forall b {:trigger End(t.blocks, b)} :: b in s.blocks ==> End(t.blocks, b) == End(s.blocks, b);
    forall b, c | b in t.blocks && c in t.blocks && b < c ensures End(t.blocks, b) <= c {
      InBounds(s, c);
    }
  }

  lemma GrowTiled(s: Arena, hi': int)
    requires s.Tiled() && s.Listed() && hi' >= s.hi + 4
    ensures forall x :: x in s.free ==> x in s.blocks && x != 0
    ensures Grow(s, hi').Tiled()
    ensures s.hi - 1 !in s.blocks
  {
    InBounds(s, s.hi - 1);
    var last := FreeEnding(s, s.free, s.hi - 1);
    if last != 0 {
      StretchTiled(s, last, hi');
    } else {
      AppendTiled(s, hi');
    }
  }

  lemma GrowValid(s: Arena, hi': int)
    requires s.Valid() && hi' >= s.hi + 4
    ensures Grow(s, hi').Valid()
  {
    GrowTiled(s, hi');
    var t := Grow(s, hi');
    var last := FreeEnding(s, s.free, s.hi - 1);
    InBounds(s, hi' - 1);
    if last != 0 {
      assert forall b {:trigger End(t.blocks, b)} :: b in s.blocks && b != last ==>
          End(t.blocks, b) == End(s.blocks, b);
      assert End(t.blocks, last) == hi' - 1;
    } else {
      assert forall b {:trigger End(t.blocks, b)} :: b in s.blocks ==> End(t.blocks, b) == End(s.blocks, b);
      assert End(t.blocks, s.hi - 1) == hi' - 1;
      assert forall x :: x in t.free <==> x == s.hi - 1 || x in s.free;
    }
  }

  /** Growing the arena leaves the live blocks alone and makes room for what was asked. */
  lemma GrowRoom(s: Arena, hi': int)
    requires s.Valid() && hi' >= s.hi + 4
    ensures forall b :: s.IsLive(b) <==> Grow(s, hi').IsLive(b)
    ensures forall b :: s.IsLive(b) ==> Grow(s, hi').blocks[b] == s.blocks[b]
    ensures exists x :: x in Grow(s, hi').free && x in Grow(s, hi').blocks && Grow(s, hi').blocks[x] >= hi' - s.hi - 2
  {
    GrowTiled(s, hi');
    var t := Grow(s, hi');
    var last := FreeEnding(s, s.free, s.hi - 1);
    if last != 0 {
      assert last in t.free && t.blocks[last] >= hi' - s.hi - 2;
    } else {
      assert s.hi - 1 in t.free && t.blocks[s.hi - 1] >= hi' - s.hi - 2;
      assert forall x :: x in t.free <==> x == s.hi - 1 || x in s.free;
    }
  }

  lemma AbsorbEnds(s: Arena, h: int, n: int, b: int)
    requires s.Tiled() && h in s.blocks && n in s.blocks && End(s.blocks, h) == n
    requires b in Absorb(s, h, n).blocks
    ensures b in s.blocks && b != n
    ensures End(Absorb(s, h, n).blocks, b) == if b == h then End(s.blocks, n) else End(s.blocks, b)
    ensures End(s.blocks, n) != n && (b != h ==> End(s.blocks, b) != n)
  {
    if b != h {
      EndsDiffer(s, b, h);
    }
  }

  lemma AbsorbChain(s: Arena, h: int, n: int, b: int)
    requires s.Tiled() && h in s.blocks && n in s.blocks && End(s.blocks, h) == n
    requires b in Absorb(s, h, n).blocks
    ensures var e := End(Absorb(s, h, n).blocks, b);
            e < s.hi && (e in Absorb(s, h, n).blocks || e == s.hi - 1)
  {
    AbsorbEnds(s, h, n, b);
  }

  lemma AbsorbOrder(s: Arena, h: int, n: int, b: int, c: int)
    requires s.Tiled() && h in s.blocks && n in s.blocks && End(s.blocks, h) == n
    requires b in Absorb(s, h, n).blocks && c in Absorb(s, h, n).blocks && b < c
    ensures End(Absorb(s, h, n).blocks, b) <= c
  {
    AbsorbEnds(s, h, n, b);
    AbsorbEnds(s, h, n, c);
    assert End(s.blocks, b) <= c;
    assert n < c ==> End(s.blocks, n) <= c;
  }

  lemma AbsorbTiled(s: Arena, h: int, n: int)
    requires s.Tiled() && h in s.blocks && n in s.blocks && End(s.blocks, h) == n
    ensures Absorb(s, h, n).Tiled()
    ensures End(Absorb(s, h, n).blocks, h) == End(s.blocks, n)
  {
    var t := Absorb(s, h, n);
    AbsorbEnds(s, h, n, h);
    forall b {:trigger End(t.blocks, b)} | b in t.blocks
      ensures End(t.blocks, b) < t.hi && (End(t.blocks, b) in t.blocks || End(t.blocks, b) == t.hi - 1)
    {
      AbsorbChain(s, h, n, b);
    }
    forall b, c {:trigger End(t.blocks, b), c in t.blocks} | b in t.blocks && c in t.blocks && b < c
      ensures End(t.blocks, b) <= c
    {
      AbsorbOrder(s, h, n, b, c);
    }
    AbsorbLows(s, h, n);
  }

  lemma AbsorbLows(s: Arena, h: int, n: int)
    requires s.Tiled() && h in s.blocks && n in s.blocks && End(s.blocks, h) == n
    ensures s.lo + 1 in Absorb(s, h, n).blocks
    ensures forall a :: a in Absorb(s, h, n).blocks ==> s.lo < a && 0 <= Absorb(s, h, n).blocks[a]
  {
  }

  // ----- Freeing

  /** Only pairs of neighbours that involve block `x` may both be free. */
  ghost predicate CoalescedExcept(s: Arena, x: int) {
    forall b {:trigger End(s.blocks, b)} :: b in s.blocks && b in s.free && b != x && End(s.blocks, b) in s.free ==>
      End(s.blocks, b) == x
  }

  ghost predicate NoneEnds(s: Arena, e: int) {
    forall b {:trigger End(s.blocks, b)} :: b in s.blocks && b in s.free ==> End(s.blocks, b) != e
  }

  /** The arena while `free` is at work: like Valid, but the head of the list may still be uncoalesced. */
  ghost predicate Joining(s: Arena) {
    && s.Tiled()
    && s.Listed()
    && s.free != []
    && CoalescedExcept(s, s.free[0])
  }

  /** Put a live block at the head of the free list and coalesce it with both neighbours. */
  function Release(s: Arena, a: int): Arena
    requires s.Tiled() && s.Listed() && s.IsLive(a)
  {
    PushListed(s, a);
    var s1 := s.(free := [a] + s.free);
    JoinBelowListed(s1);
    JoinAbove(JoinBelow(s1))
  }

  lemma ListedIn(s: Arena, x: int)
    requires s.Listed() && x in s.free
    ensures x in s.blocks
  {
    var k :| 0 <= k < |s.free| && s.free[k] == x;
  }

  lemma PushListed(s: Arena, a: int)
    requires s.Tiled() && s.Listed() && s.IsLive(a)
    ensures s.(free := [a] + s.free).Listed()
    ensures forall x :: x in s.(free := [a] + s.free).free <==> x == a || x in s.free
    ensures forall x :: x in [a] + s.free ==> x in s.blocks && x != 0
  {
    var t := s.(free := [a] + s.free);
    assert forall x :: x in t.free <==> x == a || x in s.free;
  }

  /** What one coalescing step does to the list: `keep` stays at the head, `gone` disappears. */
  lemma AbsorbListed(s: Arena, keep: int, gone: int, other: int)
    requires s.Tiled() && s.Listed() && s.free != []
    requires keep in s.free && gone in s.free && keep != gone
    requires (other == keep && s.free[0] == gone) || (other == gone && s.free[0] == keep)
    requires End(s.blocks, keep) == gone
    ensures Absorb(s, keep, gone).(free := [keep] + Without(s.free[1..], other)).Listed()
    ensures forall x :: x in [keep] + Without(s.free[1..], other) <==> x in s.free && x != gone
  {
    var rest := s.free[1..];
    assert s.free == [s.free[0]] + rest;
    assert s.free[0] !in rest;
    WithoutMembers(rest, other);
    WithoutDistinct(rest, other);
    var l := [keep] + Without(rest, other);
    assert forall x :: x in l <==> x == keep || x in Without(rest, other);
    var t := Absorb(s, keep, gone);
    forall i | 0 <= i < |l| ensures l[i] in t.blocks {
      assert l[i] in l;
      ListedIn(s, l[i]);
    }
    assert keep !in Without(rest, other);
  }

  lemma JoinBelowListed(s: Arena)
    requires s.Tiled() && s.Listed() && s.free != []
    ensures forall x :: x in s.free ==> x in s.blocks && x != 0
    ensures JoinBelow(s).Tiled() && JoinBelow(s).Listed() && JoinBelow(s).free != []
    ensures forall x :: x in JoinBelow(s).free ==> x in JoinBelow(s).blocks && x != 0
  {
    var a := s.free[0];
    var p := FreeEnding(s, s.free, a);
    if p != 0 {
      AbsorbTiled(s, p, a);
      AbsorbListed(s, p, a, p);
    }
  }

  lemma JoinBelowJoining(s: Arena)
    requires Joining(s)
    ensures forall x :: x in s.free ==> x in s.blocks && x != 0
    ensures Joining(JoinBelow(s))
    ensures NoneEnds(JoinBelow(s), JoinBelow(s).free[0])
  {
    JoinBelowListed(s);
    var a := s.free[0];
    var p := FreeEnding(s, s.free, a);
    var t := JoinBelow(s);
    if p != 0 {
      AbsorbTiled(s, p, a);
      AbsorbListed(s, p, a, p);
      assert forall b {:trigger End(t.blocks, b)} :: b in t.blocks && b != p ==> End(t.blocks, b) == End(s.blocks, b);
    }
  }

  lemma JoinAboveValid(s: Arena)
    requires Joining(s) && NoneEnds(s, s.free[0])
    ensures forall x :: x in s.free ==> x in s.blocks && x != 0
    ensures JoinAbove(s).Valid()
  {
    var h := s.free[0];
    var n := End(s.blocks, h);
    var t := JoinAbove(s);
    if n in s.blocks && n in s.free {
      AbsorbTiled(s, h, n);
      AbsorbListed(s, h, n, n);
      assert forall b {:trigger End(t.blocks, b)} :: b in t.blocks && b != h ==> End(t.blocks, b) == End(s.blocks, b);
    }
  }

  lemma ReleaseValid(s: Arena, a: int)
    requires s.Valid() && s.IsLive(a)
    ensures Release(s, a).Valid()
  {
    PushListed(s, a);
    var s1 := s.(free := [a] + s.free);
    assert Joining(s1);
    JoinBelowJoining(s1);
    JoinAboveValid(JoinBelow(s1));
  }

  /** Freeing makes exactly one block stop being live; the others keep address and size. */
  lemma ReleaseLive(s: Arena, a: int)
    requires s.Valid() && s.IsLive(a)
    ensures forall b :: Release(s, a).IsLive(b) <==> s.IsLive(b) && b != a
    ensures forall b :: Release(s, a).IsLive(b) ==> Release(s, a).blocks[b] == s.blocks[b]
    ensures Release(s, a).lo == s.lo && Release(s, a).hi == s.hi
  {
    PushListed(s, a);
    var s1 := s.(free := [a] + s.free);
    JoinBelowListed(s1);
    var p := FreeEnding(s1, s1.free, a);
    if p != 0 {
      AbsorbListed(s1, p, a, p);
    }
    var s2 := JoinBelow(s1);
    assert forall b :: s2.IsLive(b) <==> s.IsLive(b) && b != a;
    var h := s2.free[0];
    var n := End(s2.blocks, h);
    if n in s2.blocks && n in s2.free {
      AbsorbListed(s2, h, n, n);
    }
  }

}
