/** malloc and free on arenas, and what holds over every run of them. */
module ArenaRuns {
  import opened Arenas

  /** A request of n bytes in cells. */
  function Cells(n: nat): nat {
    (n + 15) / 16
  }

  /** After growing the heap the request is retried with at least 32 bytes. */
  function Retried(u: nat): nat {
    if 16 * u < 32 then 2 else u
  }

  /** The arena that `extend` leaves when the break moves for a request of u cells. */
  function Extended(s: Arena, u: nat): Arena
    requires s.Valid()
  {
    Grow(s, PageUp(s.hi + Retried(u) + 2))
  }

  /** The break that malloc asks for when it has to grow the heap. */
  function Wanted(s: Arena, n: nat): int {
    PageUp(s.hi + Retried(Cells(n)) + 2)
  }

  /** No free block has u cells. */
  ghost predicate NoneFits(s: Arena, u: int) {
    forall x :: x in s.free && x in s.blocks ==> s.blocks[x] < u
  }

  lemma NoneFitsIs(s: Arena, u: int)
    requires s.Listed()
    ensures NoneFits(s, u) <==> FirstFit(s, u, 0) == |s.free|
  {
    var k := FirstFit(s, u, 0);
    if k < |s.free| {
      assert s.free[k] in s.free && s.free[k] in s.blocks;
    }
  }

  lemma WantedIs(s: Arena, n: nat)
    ensures Wanted(s, n) == PageUp(s.hi + Retried(Cells(n)) + 2)
  {
  }

  /** The break asked for is the first page boundary that leaves room for the request, or for 32 bytes, and
      for the header and footer of a block. */
  lemma GrowthMeans(s: Arena, n: nat)
    ensures var room := (if n <= 32 then 32 else n) + 32;
            16 * s.hi + room <= 16 * Wanted(s, n) < 16 * s.hi + room + 15 + 4096
    ensures 16 * Wanted(s, n) % 4096 == 0
  {
    CellsHold(n);
  }

  /** malloc below the mmap threshold; `granted` is the answer of brk, should it be asked. */
  function Malloc(s: Arena, n: nat, granted: bool): (r: (Arena, int))
    requires s.Valid()
  {
    var u := Cells(n);
    var k := FirstFit(s, u, 0);
    if k < |s.free| then (Take(s, k, u), s.free[k] + 1)
    else if !granted then (s, 0)
    else
      GrowValid(s, PageUp(s.hi + Retried(u) + 2));
      var t := Extended(s, u);
      var j := FirstFit(t, Retried(u), 0);
      if j < |t.free| then (Take(t, j, Retried(u)), t.free[j] + 1) else (t, 0)
  }

  /** The live regions: header address and payload size of every block that is not free. */
  ghost function LiveRegions(s: Arena): map<int, int> {
    map a | a in s.blocks && a !in s.free :: s.blocks[a]
  }

  lemma LiveIff(s: Arena)
    ensures forall a {:trigger s.IsLive(a)} {:trigger a in LiveRegions(s)} :: a in LiveRegions(s) <==> s.IsLive(a)
  {
  }

  /** A map is the live regions once it has the live blocks as keys and their sizes as values. */
  lemma RegionsAre(s: Arena, m: map<int, int>)
    requires forall a {:trigger s.IsLive(a)} {:trigger a in m} :: a in m <==> s.IsLive(a)
    requires forall a {:trigger m[a]} :: a in m && s.IsLive(a) ==> m[a] == s.blocks[a]
    ensures LiveRegions(s) == m
  {
    LiveIff(s);
    assert forall a :: a in LiveRegions(s) <==> a in m;
  }

  lemma ExtendedFits(s: Arena, u: nat)
    requires s.Valid()
    ensures Extended(s, u).Valid()
    ensures FirstFit(Extended(s, u), Retried(u), 0) < |Extended(s, u).free|
    ensures LiveRegions(Extended(s, u)) == LiveRegions(s)
    ensures Extended(s, u).lo == s.lo && Extended(s, u).hi > s.hi
  {
    var hi' := PageUp(s.hi + Retried(u) + 2);
    GrowValid(s, hi');
    GrowRoom(s, hi');
    var t := Extended(s, u);
    FitExists(t, hi' - s.hi - 2, Retried(u));
    LiveIff(s);
    RegionsAre(t, LiveRegions(s));
  }

  lemma FitExists(t: Arena, room: int, u: nat)
    requires t.Listed() && u <= room
    requires exists x :: x in t.free && x in t.blocks && t.blocks[x] >= room
    ensures FirstFit(t, u, 0) < |t.free|
  {
    var x :| x in t.free && x in t.blocks && t.blocks[x] >= room;
    var k :| 0 <= k < |t.free| && t.free[k] == x;
  }

  lemma TakeRegions(s: Arena, k: nat, u: nat)
    requires s.Valid() && k < |s.free| && u <= s.blocks[s.free[k]]
    ensures Take(s, k, u).Valid()
    ensures s.free[k] !in LiveRegions(s)
    ensures s.free[k] in Take(s, k, u).blocks && u <= Take(s, k, u).blocks[s.free[k]] <= u + 2
    ensures LiveRegions(Take(s, k, u)) == LiveRegions(s)[s.free[k] := Take(s, k, u).blocks[s.free[k]]]
  {
    TakeValid(s, k, u);
    TakeLive(s, k, u);
    assert s.free[k] in s.free;
    LiveIff(s);
    RegionsAre(Take(s, k, u), LiveRegions(s)[s.free[k] := Take(s, k, u).blocks[s.free[k]]]);
  }

  /** malloc gives NULL exactly when no free block has n bytes and brk refused; a retry always succeeds. */
  lemma MallocNull(s: Arena, n: nat, granted: bool)
    requires s.Valid()
    ensures Malloc(s, n, granted).1 == 0 <==>
            !granted && forall x :: x in s.free ==> 16 * s.blocks[x] < n
    ensures Malloc(s, n, granted).1 == 0 ==> Malloc(s, n, granted).0 == s
  {
    var u := Cells(n);
    assert forall size: int :: size < u <==> 16 * size < n;
    var k := FirstFit(s, u, 0);
    if k < |s.free| {
      assert s.free[k] in s.free;
    } else {
      ExtendedFits(s, u);
    }
  }

  /** malloc adds one region to the live ones: big enough but for little, inside the arena, and not live
      before. */
  lemma MallocRegions(s: Arena, n: nat, granted: bool)
    requires s.Valid()
    ensures Malloc(s, n, granted).0.Valid()
    ensures Malloc(s, n, granted).0.lo == s.lo && Malloc(s, n, granted).0.hi >= s.hi
    ensures Malloc(s, n, granted).1 != 0 ==>
              var t := Malloc(s, n, granted).0;
              var a := Malloc(s, n, granted).1 - 1;
              && a !in LiveRegions(s)
              && a in t.blocks && n <= 16 * t.blocks[a] <= (if n <= 32 then 32 else n + 15) + 32
              && LiveRegions(t) == LiveRegions(s)[a := t.blocks[a]]
              && t.lo < a && End(t.blocks, a) < t.hi
  {
    hide *;
    MallocCases(s, n);
    var u := Cells(n);
    var k := FirstFit(s, u, 0);
    CellsHold(n);
    if k < |s.free| {
      ListedAt(s, k);
      TakenRegion(s, k, u);
    } else if granted {
      MallocRetried(s, n);
      ExtendedFits(s, u);
      ListedAt(Extended(s, u), FirstFit(Extended(s, u), Retried(u), 0));
      TakenRegion(Extended(s, u), FirstFit(Extended(s, u), Retried(u), 0), Retried(u));
    }
  }

  lemma ListedAt(s: Arena, k: nat)
    requires s.Valid() && k < |s.free|
    ensures s.free[k] in s.blocks
  {
  }

  lemma CellsHold(n: nat)
    ensures n <= 16 * Cells(n) <= n + 15 && Retried(Cells(n)) == if Cells(n) > 2 then Cells(n) else 2
  {
  }

  /** The block taken at a fitting list position becomes a live region inside the arena. */
  lemma TakenRegion(s: Arena, k: nat, u: nat)
    requires s.Valid() && k < |s.free| && s.free[k] in s.blocks && u <= s.blocks[s.free[k]]
    ensures var t, a := Take(s, k, u), s.free[k];
            && t.Valid() && t.lo == s.lo && t.hi == s.hi
            && a !in LiveRegions(s) && a in t.blocks && u <= t.blocks[a] <= u + 2
            && LiveRegions(t) == LiveRegions(s)[a := t.blocks[a]]
            && t.lo < a && End(t.blocks, a) < t.hi && a + 1 != 0
  {
    hide LiveRegions, Arena.Coalesced;
    TakeRegions(s, k, u);
    InBounds(Take(s, k, u), s.free[k]);
  }

  /** Distinct live regions, headers and footers included, never share a cell. */
  lemma RegionsDisjoint(s: Arena, a: int, b: int)
    requires s.Valid() && a in LiveRegions(s) && b in LiveRegions(s) && a != b
    ensures End(s.blocks, a) <= b || End(s.blocks, b) <= a
  {
    if a < b {
      assert End(s.blocks, a) <= b;
    } else {
      assert End(s.blocks, b) <= a;
    }
  }

  lemma FreeRegions(s: Arena, a: int)
    requires s.Valid() && s.IsLive(a)
    ensures Release(s, a).Valid()
    ensures LiveRegions(Release(s, a)) == LiveRegions(s) - {a}
  {
    ReleaseValid(s, a);
    ReleaseLive(s, a);
    LiveIff(s);
    var t := Release(s, a);
    hide Release;
    RegionsAre(t, LiveRegions(s) - {a});
  }

  // ----- malloc undone by free

  lemma NoFreeBelow(s: Arena, a: int)
    requires s.Valid() && a in s.free
    ensures forall x :: x in s.free ==> x in s.blocks && End(s.blocks, x) != a
  {
    forall x | x in s.free ensures x in s.blocks && End(s.blocks, x) != a {
      assert x in s.blocks;
    }
  }

  lemma NothingBelowTaken(s: Arena, k: nat, u: nat)
    requires s.Valid() && k < |s.free| && u <= s.blocks[s.free[k]]
    ensures Take(s, k, u).Valid() && Take(s, k, u).IsLive(s.free[k])
    ensures var t := Take(s, k, u);
            var t1 := t.(free := [s.free[k]] + t.free);
            && t1.Listed()
            && (forall x :: x in t1.free ==> x in t1.blocks && x != 0)
            && JoinBelow(t1) == t1
  {
    var a := s.free[k];
    assert a in s.free;
    var t := Take(s, k, u);
    TakeValid(s, k, u);
    TakeLive(s, k, u);
    PushListed(t, a);
    var t1 := t.(free := [a] + t.free);
    NoFreeBelow(s, a);
    TakenList(s, k, u);
    forall x | x in t1.free ensures End(t1.blocks, x) != a {
      if x != a && x in s.free {
        assert End(t1.blocks, x) == End(s.blocks, x);
      }
    }
  }

  lemma TakenList(s: Arena, k: nat, u: nat)
    requires s.Valid() && k < |s.free| && u <= s.blocks[s.free[k]]
    ensures var a := s.free[k];
            forall x :: x in Take(s, k, u).free ==>
                (x in s.free && x != a) || (Splits(s.blocks[a], u) && x == a + 2 + u)
  {
    var a := s.free[k];
    assert a in s.free;
    if Splits(s.blocks[a], u) {
      CutTiled(s, a, u);
      ReplacedMembers(s.free, k, a + 2 + u);
    } else {
      WithoutAt(s.free, k);
      WithoutMembers(s.free, a);
    }
  }

  lemma UndoSplit(s: Arena, k: nat, u: nat)
    requires s.Valid() && k < |s.free| && u <= s.blocks[s.free[k]] && Splits(s.blocks[s.free[k]], u)
    ensures Take(s, k, u).Valid() && Take(s, k, u).IsLive(s.free[k])
    ensures Release(Take(s, k, u), s.free[k]).blocks == s.blocks
    ensures multiset(Release(Take(s, k, u), s.free[k]).free) == multiset(s.free)
  {
    var a := s.free[k];
    var rest := a + 2 + u;
    var t := Take(s, k, u);
    NothingBelowTaken(s, k, u);
    var t1 := t.(free := [a] + t.free);
    assert t1.free[1..] == t.free;
    assert End(t1.blocks, a) == rest && t.free[k] == rest;
    assert rest in t1.free by { assert t1.free[k + 1] == rest; }
    CutTiled(s, a, u);
    assert Absorb(t1, a, rest).blocks == s.blocks;
    WithoutAt(t.free, k);
    assert Without(t.free, rest) == s.free[..k] + s.free[k + 1..];
    Rejoined(s.free, k);
  }

  lemma Rejoined(l: seq<int>, k: nat)
    requires k < |l|
    ensures multiset([l[k]] + (l[..k] + l[k + 1..])) == multiset(l)
  {
    assert l == l[..k] + [l[k]] + l[k + 1..];
  }

  lemma UndoWhole(s: Arena, k: nat, u: nat)
    requires s.Valid() && k < |s.free| && u <= s.blocks[s.free[k]] && !Splits(s.blocks[s.free[k]], u)
    ensures Take(s, k, u).Valid() && Take(s, k, u).IsLive(s.free[k])
    ensures Release(Take(s, k, u), s.free[k]).blocks == s.blocks
    ensures multiset(Release(Take(s, k, u), s.free[k]).free) == multiset(s.free)
  {
    var a := s.free[k];
    assert a in s.free;
    NothingBelowTaken(s, k, u);
    WithoutAt(s.free, k);
    WithoutMembers(s.free, a);
    assert End(s.blocks, a) !in [a] + Take(s, k, u).free;
    Rejoined(s.free, k);
  }

  /** The arena that malloc takes the block from: grown first when nothing fits. */
  function Source(s: Arena, n: nat): (g: Arena)
    requires s.Valid()
  {
    if FirstFit(s, Cells(n), 0) < |s.free| then s else Extended(s, Cells(n))
  }

  /** malloc followed by free restores the tiling, up to the growth of the arena, and permutes the list. */
  lemma MallocThenFree(s: Arena, n: nat, granted: bool)
    requires s.Valid() && Malloc(s, n, granted).1 != 0
    ensures Malloc(s, n, granted).0.Valid() && Malloc(s, n, granted).0.IsLive(Malloc(s, n, granted).1 - 1)
    ensures Release(Malloc(s, n, granted).0, Malloc(s, n, granted).1 - 1).blocks == Source(s, n).blocks
    ensures multiset(Release(Malloc(s, n, granted).0, Malloc(s, n, granted).1 - 1).free) == multiset(Source(s, n).free)
  {
    var u := Cells(n);
    var k := FirstFit(s, u, 0);
    if k < |s.free| {
      UndoTake(s, k, u);
    } else {
      ExtendedFits(s, u);
      var t := Extended(s, u);
      UndoTake(t, FirstFit(t, Retried(u), 0), Retried(u));
    }
  }

  lemma UndoTake(s: Arena, k: nat, u: nat)
    requires s.Valid() && k < |s.free| && u <= s.blocks[s.free[k]]
    ensures Take(s, k, u).Valid() && Take(s, k, u).IsLive(s.free[k])
    ensures Release(Take(s, k, u), s.free[k]).blocks == s.blocks
    ensures multiset(Release(Take(s, k, u), s.free[k]).free) == multiset(s.free)
  {
    if Splits(s.blocks[s.free[k]], u) {
      UndoSplit(s, k, u);
    } else {
      UndoWhole(s, k, u);
    }
  }

  // ----- Whole runs

  datatype Op = Alloc(n: nat, granted: bool) | Free(ptr: int)

  /** The client stays below the mmap threshold and frees only live pointers. */
  ghost predicate Allowed(s: Arena, op: Op) {
    match op
    case Alloc(n, _) => n <= 0x1_fff0
    case Free(ptr) => s.IsLive(ptr - 1)
  }

  ghost function Step(s: Arena, op: Op): Arena
    requires s.Valid() && Allowed(s, op)
  {
    match op
    case Alloc(n, granted) => Malloc(s, n, granted).0
    case Free(ptr) => Release(s, ptr - 1)
  }

  lemma StepValid(s: Arena, op: Op)
    requires s.Valid() && Allowed(s, op)
    ensures Step(s, op).Valid() && Step(s, op).lo == s.lo && Step(s, op).hi >= s.hi
  {
    match op
    case Alloc(n, granted) => MallocRegions(s, n, granted);
    case Free(ptr) =>
      ReleaseValid(s, ptr - 1);
      ReleaseLive(s, ptr - 1);
  }

  /** `t` is reached from `s` by the run `ops`. */
  ghost predicate Reaches(s: Arena, ops: seq<Op>, t: Arena)
    requires s.Valid()
    decreases ops
  {
    if ops == [] then s == t
    else Allowed(s, ops[0]) && (StepValid(s, ops[0]); Reaches(Step(s, ops[0]), ops[1..], t))
  }

  function Initial(lo: int, hi: int): Arena {
    Arena(lo, hi, map[lo + 1 := hi - lo - 4], [lo + 1])
  }

  lemma InitialValid(lo: int, hi: int)
    requires 0 <= lo && lo + 4 <= hi
    ensures Initial(lo, hi).Valid()
  {
  }

  /** Safety: every arena that any run can reach is tiled, coalesced and consistently listed. */
  lemma {:induction false} ReachableValid(s: Arena, ops: seq<Op>, t: Arena)
    requires s.Valid() && Reaches(s, ops, t)
    ensures t.Valid() && t.lo == s.lo && t.hi >= s.hi
    decreases ops
  {
    if ops != [] {
      StepValid(s, ops[0]);
      ReachableValid(Step(s, ops[0]), ops[1..], t);
    }
  }

  lemma NothingAboveTop(s: Arena, a: int)
    requires s.Tiled() && a in s.blocks && End(s.blocks, a) == s.hi - 1
    ensures forall b :: b in s.blocks ==> b <= a
  {
    forall b | b in s.blocks ensures b <= a {
      InBounds(s, b);
    }
  }

  lemma TwoDiffer(l: seq<int>, a: int)
    requires Distinct(l) && 1 < |l|
    ensures exists i :: 0 <= i < |l| && l[i] != a
  {
    assert l[0] != l[1];
  }

  /** An arena without live blocks is one free block that spans it. */
  lemma AllFree(s: Arena)
    requires s.Valid() && forall a :: !s.IsLive(a)
    ensures s == Initial(s.lo, s.hi)
  {
    var a := s.lo + 1;
    forall b | b in s.blocks ensures b in s.free {
      assert !s.IsLive(b);
    }
    assert End(s.blocks, a) == s.hi - 1;
    NothingAboveTop(s, a);
    assert s.blocks.Keys == {a};
    assert s.blocks == map[a := s.blocks[a]];
    forall i | 0 <= i < |s.free| ensures s.free[i] == a {
      assert s.free[i] in s.blocks;
    }
    if 1 < |s.free| {
      TwoDiffer(s.free, a);
    }
    assert s.free == [a];
  }

  /** Nothing leaks: once a run has freed all it allocated, the heap is a single free block again. */
  lemma NothingLeaks(lo: int, hi: int, ops: seq<Op>, t: Arena)
    requires 0 <= lo && lo + 4 <= hi
    requires Initial(lo, hi).Valid() && Reaches(Initial(lo, hi), ops, t)
    requires LiveRegions(t) == map[]
    ensures t == Initial(lo, t.hi)
    ensures 16 * t.blocks[lo + 1] == 16 * (t.hi - lo) - 64
  {
    hide *;
    InitialIs(lo, hi);
    ReachableValid(Initial(lo, hi), ops, t);
    LiveIff(t);
    AllFree(t);
    InitialIs(t.lo, t.hi);
  }

  lemma InitialIs(lo: int, hi: int)
    ensures var s := Initial(lo, hi);
            s.lo == lo && s.hi == hi && lo + 1 in s.blocks && s.blocks[lo + 1] == hi - lo - 4
  {
  }

  // ----- Accounting

  /** The headers met by walking the arena upwards from `from`. */
  ghost function Walk(s: Arena, from: int): seq<int>
    requires s.Tiled() && (from in s.blocks || from == s.hi - 1)
    decreases s.hi - from
  {
    if from == s.hi - 1 then [] else [from] + Walk(s, End(s.blocks, from))
  }

  ghost function CellsOf(s: Arena, w: seq<int>): int
    requires forall i :: 0 <= i < |w| ==> w[i] in s.blocks
  {
    if w == [] then 0 else s.blocks[w[0]] + CellsOf(s, w[1..])
  }

  ghost function FreeOnes(s: Arena, w: seq<int>): seq<int> {
    if w == [] then [] else (if w[0] in s.free then [w[0]] else []) + FreeOnes(s, w[1..])
  }

  ghost function LiveOnes(s: Arena, w: seq<int>): seq<int> {
    if w == [] then [] else (if w[0] in s.free then [] else [w[0]]) + LiveOnes(s, w[1..])
  }

  /** The walk meets every block at or above its start, in ascending order. */
  lemma {:induction false} WalkVisits(s: Arena, from: int)
    requires s.Tiled() && (from in s.blocks || from == s.hi - 1)
    ensures forall i :: 0 <= i < |Walk(s, from)| ==> Walk(s, from)[i] in s.blocks && Walk(s, from)[i] >= from
    ensures forall i, j :: 0 <= i < j < |Walk(s, from)| ==> Walk(s, from)[i] < Walk(s, from)[j]
    ensures forall b :: b in s.blocks && b >= from ==> b in Walk(s, from)
    decreases s.hi - from
  {
    if from == s.hi - 1 {
      forall b | b in s.blocks ensures b < from {
        InBounds(s, b);
      }
    } else {
      var e := End(s.blocks, from);
      WalkVisits(s, e);
      forall b | b in s.blocks && b > from ensures b in Walk(s, e) {
        assert End(s.blocks, from) <= b;
      }
    }
  }


  lemma {:induction false} OnesMembers(s: Arena, w: seq<int>)
    requires forall i :: 0 <= i < |w| ==> w[i] in s.blocks
    ensures forall i :: 0 <= i < |FreeOnes(s, w)| ==> FreeOnes(s, w)[i] in s.blocks
    ensures forall i :: 0 <= i < |LiveOnes(s, w)| ==> LiveOnes(s, w)[i] in s.blocks
    ensures forall x :: x in FreeOnes(s, w) <==> x in w && x in s.free
    ensures forall x :: x in LiveOnes(s, w) <==> x in w && x !in s.free
  {
    if w != [] {
      OnesMembers(s, w[1..]);
      assert w == [w[0]] + w[1..];
    }
  }

  lemma {:induction false} CellsSplit(s: Arena, w: seq<int>)
    requires forall i :: 0 <= i < |w| ==> w[i] in s.blocks
    requires forall i :: 0 <= i < |FreeOnes(s, w)| ==> FreeOnes(s, w)[i] in s.blocks
    requires forall i :: 0 <= i < |LiveOnes(s, w)| ==> LiveOnes(s, w)[i] in s.blocks
    ensures CellsOf(s, w) == CellsOf(s, FreeOnes(s, w)) + CellsOf(s, LiveOnes(s, w))
  {
    if w != [] {
      OnesMembers(s, w[1..]);
      CellsSplit(s, w[1..]);
      if w[0] in s.free {
        assert FreeOnes(s, w)[1..] == FreeOnes(s, w[1..]) && LiveOnes(s, w) == LiveOnes(s, w[1..]);
      } else {
        assert LiveOnes(s, w)[1..] == LiveOnes(s, w[1..]) && FreeOnes(s, w) == FreeOnes(s, w[1..]);
      }
    }
  }

  lemma {:induction false} WalkSpans(s: Arena, from: int)
    requires s.Tiled() && (from in s.blocks || from == s.hi - 1)
    requires forall i :: 0 <= i < |Walk(s, from)| ==> Walk(s, from)[i] in s.blocks
    ensures CellsOf(s, Walk(s, from)) + 2 * |Walk(s, from)| == s.hi - 1 - from
    decreases s.hi - from
  {
    if from != s.hi - 1 {
      var e := End(s.blocks, from);
      WalkVisits(s, e);
      WalkSpans(s, e);
    }
  }

  lemma {:induction false} CellsPermuted(s: Arena, v: seq<int>, w: seq<int>)
    requires forall i :: 0 <= i < |v| ==> v[i] in s.blocks
    requires forall i :: 0 <= i < |w| ==> w[i] in s.blocks
    requires Distinct(v) && Distinct(w) && forall x :: x in v <==> x in w
    ensures CellsOf(s, v) == CellsOf(s, w)
    decreases v
  {
    if v == [] {
      FirstMember(w);
    } else {
      var x := v[0];
      assert x in v && v == [x] + v[1..];
      WithoutMembers(w, x);
      WithoutDistinct(w, x);
      forall i | 0 <= i < |Without(w, x)| ensures Without(w, x)[i] in s.blocks {
        var y := Without(w, x)[i];
        assert y in Without(w, x);
        var j :| 0 <= j < |w| && w[j] == y;
      }
      assert x !in v[1..];
      CellsPermuted(s, v[1..], Without(w, x));
      CellsWithout(s, w, x);
    }
  }

  lemma FirstMember(w: seq<int>)
    ensures w != [] ==> exists i :: 0 <= i < |w| && w[i] == w[0] && w[i] in w
  {
    if w != [] {
      assert w[0] in w;
    }
  }

  lemma {:induction false} CellsWithout(s: Arena, w: seq<int>, x: int)
    requires forall i :: 0 <= i < |w| ==> w[i] in s.blocks
    requires forall i :: 0 <= i < |Without(w, x)| ==> Without(w, x)[i] in s.blocks
    requires x in w
    ensures CellsOf(s, w) == s.blocks[x] + CellsOf(s, Without(w, x))
  {
    if w[0] != x {
      assert w == [w[0]] + w[1..];
      assert Without(w, x)[1..] == Without(w[1..], x);
      CellsWithout(s, w[1..], x);
    }
  }

  lemma {:induction false} FreeOnesDistinct(s: Arena, w: seq<int>)
    requires forall i, j :: 0 <= i < j < |w| ==> w[i] < w[j]
    ensures Distinct(FreeOnes(s, w))
  {
    if w != [] {
      FreeOnesDistinct(s, w[1..]);
      FreeOnesIn(s, w[1..]);
      var f := FreeOnes(s, w[1..]);
      forall i | 0 <= i < |f| ensures f[i] != w[0] {
        assert f[i] in w[1..];
      }
    }
  }

  lemma {:induction false} FreeOnesIn(s: Arena, w: seq<int>)
    ensures forall i :: 0 <= i < |FreeOnes(s, w)| ==> FreeOnes(s, w)[i] in w
  {
    if w != [] {
      FreeOnesIn(s, w[1..]);
    }
  }

  lemma AscendingDistinct(w: seq<int>)
    requires forall i, j :: 0 <= i < j < |w| ==> w[i] < w[j]
    ensures Distinct(w)
  {
  }

  /** Conservation: the blocks met by the walk are all blocks; live and free payload, 32 bytes for
      each block and 32 for the sentinels add up to the arena; the free list holds all free payload. */
  lemma Accounting(s: Arena)
    requires s.Valid()
    ensures var w := Walk(s, s.lo + 1);
            && (forall b :: b in s.blocks <==> b in w)
            && (forall i, j :: 0 <= i < j < |w| ==> w[i] < w[j])
            && (forall i :: 0 <= i < |FreeOnes(s, w)| ==> FreeOnes(s, w)[i] in s.blocks)
            && (forall i :: 0 <= i < |LiveOnes(s, w)| ==> LiveOnes(s, w)[i] in s.blocks)
            && (forall x :: x in LiveOnes(s, w) <==> x in LiveRegions(s))
            && 16 * CellsOf(s, FreeOnes(s, w)) + 16 * CellsOf(s, LiveOnes(s, w)) + 32 * |w| + 32 == 16 * (s.hi - s.lo)
            && CellsOf(s, s.free) == CellsOf(s, FreeOnes(s, w))
  {
    hide Walk, CellsOf, FreeOnes, LiveOnes, Distinct, Arena.Coalesced;
    var w := Walk(s, s.lo + 1);
    WalkVisits(s, s.lo + 1);
    AscendingDistinct(w);
    forall b | b in s.blocks ensures b in w {
      InBounds(s, b);
    }
    WalkSpans(s, s.lo + 1);
    OnesMembers(s, w);
    CellsSplit(s, w);
    FreeOnesDistinct(s, w);
    forall x | x in s.free ensures x in w {
      assert x in s.blocks;
    }
    CellsPermuted(s, s.free, FreeOnes(s, w));
  }


  /** The aligned request, in cells, on the first pass and on the retry of malloc's search. */
  lemma AlignUnits(n: nat, bytes: nat)
    ensures bytes == n ==> (bytes + 15) / 16 == Cells(n)
    ensures bytes == 16 * Retried(Cells(n)) ==> (bytes + 15) / 16 == Retried(Cells(n))
    ensures ((bytes + 15) / 16 * 16) / 16 == (bytes + 15) / 16
    ensures (if (bytes + 15) / 16 * 16 < 32 then 32 else (bytes + 15) / 16 * 16) == 16 * Retried((bytes + 15) / 16)
    ensures (if (bytes + 15) / 16 * 16 < 32 then 32 else (bytes + 15) / 16 * 16) / 16 == Retried((bytes + 15) / 16) >= 2
  {
  }

  lemma MallocCases(s: Arena, n: nat)
    requires s.Valid()
    ensures s.Listed() && FirstFit(s, Cells(n), 0) <= |s.free|
    ensures FirstFit(s, Cells(n), 0) < |s.free| ==>
              forall g :: Malloc(s, n, g) ==
                  (Take(s, FirstFit(s, Cells(n), 0), Cells(n)), s.free[FirstFit(s, Cells(n), 0)] + 1)
    ensures FirstFit(s, Cells(n), 0) == |s.free| ==> Malloc(s, n, false) == (s, 0)
  {
    hide Arena.Tiled, Arena.Coalesced, FirstFit, Take;
  }

  lemma MallocRetried(s: Arena, n: nat)
    requires s.Valid() && FirstFit(s, Cells(n), 0) == |s.free|
    ensures (forall x :: x in s.free ==> x in s.blocks && x != 0)
    ensures Extended(s, Cells(n)) == Grow(s, PageUp(s.hi + Retried(Cells(n)) + 2))
    ensures Extended(s, Cells(n)).Valid() && Extended(s, Cells(n)).Listed()
    ensures FirstFit(Extended(s, Cells(n)), Retried(Cells(n)), 0) < |Extended(s, Cells(n)).free|
    ensures Malloc(s, n, true) ==
              var t, u := Extended(s, Cells(n)), Retried(Cells(n));
              (Take(t, FirstFit(t, u, 0), u), t.free[FirstFit(t, u, 0)] + 1)
  {
    hide FirstFit, Take, Grow;
    forall x | x in s.free ensures x in s.blocks && x != 0 {
      ListedIn(s, x);
    }
    ExtendedFits(s, Cells(n));
  }

  lemma ExtendedLive(s: Arena, u: nat)
    requires s.Valid()
    ensures Extended(s, u).Valid()
    ensures forall b {:trigger s.IsLive(b)} {:trigger Extended(s, u).IsLive(b)} ::
              (s.IsLive(b) <==> Extended(s, u).IsLive(b)) && (s.IsLive(b) ==> Extended(s, u).blocks[b] == s.blocks[b])
  {
    hide *;
    ExtendedIs(s, u);
    GrowValid(s, PageUp(s.hi + Retried(u) + 2));
    GrowRoom(s, PageUp(s.hi + Retried(u) + 2));
  }

  lemma ExtendedIs(s: Arena, u: nat)
    requires s.Valid()
    ensures Extended(s, u) == Grow(s, PageUp(s.hi + Retried(u) + 2)) && PageUp(s.hi + Retried(u) + 2) >= s.hi + 4
  {
    hide Grow;
  }

  /** The search of malloc has found position k, at once or after the heap has been extended. */
  lemma MallocPlaced(s0: Arena, n: nat, granted: bool, extended: bool, s: Arena, u: nat, k: nat)
    requires s0.Valid() && s.Listed() && FirstFit(s, u, 0) == k < |s.free|
    requires !extended ==> s == s0 && u == Cells(n)
    requires extended ==>
               && granted && s == Extended(s0, Cells(n)) && u == Retried(Cells(n))
               && FirstFit(s0, Cells(n), 0) == |s0.free|
    ensures Malloc(s0, n, granted) == (Take(s, k, u), s.free[k] + 1)
    ensures forall b {:trigger s0.IsLive(b)} :: s0.IsLive(b) ==> s.IsLive(b) && s.blocks[b] == s0.blocks[b]
  {
    hide *;
    MallocCases(s0, n);
    if extended {
      MallocRetried(s0, n);
      ExtendedLive(s0, Cells(n));
    } else {
      SameLive(s0);
    }
  }

  lemma SameLive(s: Arena)
    ensures forall b {:trigger s.IsLive(b)} :: s.IsLive(b) ==> b in s.blocks
  {
  }
}
