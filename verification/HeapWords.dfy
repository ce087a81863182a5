/** How an arena is written into memory.  Memory is a run of 16-byte cells, held as two
    sequences of 64-bit words: word 0 (`info`) and word 1 (`size`) of every cell.

    A block has a header cell below its payload and a footer cell above it, both holding its
    size.  In a used block both `info` words are USED; in a free block the header's is the next
    free block and the footer's the previous one. */
module HeapWords {
  import opened Arenas

  const NULL := 0
  const USED := 0x8000_0000_0000_0000

  /** The links of the k-th member of list `l`. */
  function NextOf(l: seq<int>, k: nat): int {
    if k + 1 < |l| then l[k + 1] else NULL
  }

  function PrevOf(l: seq<int>, k: nat): int
    requires k <= |l|
  {
    if k > 0 then l[k - 1] else NULL
  }

  function HeadOf(l: seq<int>): int {
    if l == [] then NULL else l[0]
  }

  /** The arena lies inside a memory of n cells, whose addresses cannot be mistaken for USED. */
  ghost predicate Fits(s: Arena, n: nat) {
    && s.Tiled() && s.Listed()
    && 0 <= s.lo < s.hi - 1 < n <= USED
    && (forall a {:trigger a in s.blocks} {:trigger Foot(s.blocks, a)} :: a in s.blocks ==>
          0 < a < Foot(s.blocks, a) < s.hi - 1)
    && (forall a, b {:trigger Foot(s.blocks, a), Foot(s.blocks, b)} {:trigger Foot(s.blocks, a), b in s.blocks} ::
          a in s.blocks && b in s.blocks && a != b ==> Foot(s.blocks, a) < b || Foot(s.blocks, b) < a)
  }

  ghost predicate Sized(z: seq<int>, s: Arena)
    requires Fits(s, |z|)
  {
    forall a {:trigger a in s.blocks} {:trigger Foot(s.blocks, a)} :: a in s.blocks ==>
      z[a] == s.blocks[a] && z[Foot(s.blocks, a)] == s.blocks[a]
  }

  ghost predicate Linked(w: seq<int>, s: Arena)
    requires Fits(s, |w|)
  {
    forall k {:trigger s.free[k]} :: 0 <= k < |s.free| ==>
      w[s.free[k]] == NextOf(s.free, k) && w[Foot(s.blocks, s.free[k])] == PrevOf(s.free, k)
  }

  ghost predicate Fenced(w: seq<int>, s: Arena)
    requires Fits(s, |w|)
  {
    w[s.lo] == USED && w[s.hi - 1] == USED
  }

  /** Every block that is neither free nor in `loose` is marked used. */
  ghost predicate Marked(w: seq<int>, s: Arena, loose: set<int>)
    requires Fits(s, |w|)
  {
    forall a {:trigger a in s.blocks} {:trigger Foot(s.blocks, a)} :: a in s.blocks && a !in s.free && a !in loose ==>
      w[a] == USED && w[Foot(s.blocks, a)] == USED
  }

  /** Cells of a block, tags included, that agree in two memories. */
  ghost predicate SameCells(w: seq<int>, w': seq<int>, s: Arena, b: int)
    requires Fits(s, |w|) && |w| == |w'| && b in s.blocks
  {
    forall i :: b <= i <= Foot(s.blocks, b) ==> w'[i] == w[i]
  }

  lemma FitsListed(s: Arena, n: nat)
    requires Fits(s, n)
    ensures s.Tiled() && s.Listed()
  {
  }

  lemma FitsTiled(s: Arena, n: nat)
    requires s.Tiled() && s.Listed() && s.hi <= n <= USED
    ensures Fits(s, n)
  {
    InBounds(s, s.lo + 1);
    forall a | a in s.blocks ensures 0 < a < Foot(s.blocks, a) < s.hi - 1 {
      assert End(s.blocks, a) < s.hi;
    }
    forall a, b | a in s.blocks && b in s.blocks && a != b
      ensures Foot(s.blocks, a) < b || Foot(s.blocks, b) < a
    {
      if a < b {
        assert End(s.blocks, a) <= b;
      } else {
        assert End(s.blocks, b) <= a;
      }
    }
  }

  // ----- Linking a block in

  function Inserted(l: seq<int>, k: nat, x: int): seq<int>
    requires k <= |l|
  {
    l[..k] + [x] + l[k..]
  }

  /** Memory after the four link writes that put `x` at position k. */
  function LinkIn(w: seq<int>, s: Arena, k: nat, x: int): (w': seq<int>)
    requires Fits(s, |w|) && k <= |s.free| && x in s.blocks
    ensures |w'| == |w|
  {
    var w1 := w[x := if k < |s.free| then s.free[k] else NULL][Foot(s.blocks, x) := PrevOf(s.free, k)];
    var w2 := if k > 0 then w1[s.free[k - 1] := x] else w1;
    if k < |s.free| then w2[Foot(s.blocks, s.free[k]) := x] else w2
  }

  /** The writes of `insert_into_list` in terms of the cells involved; `nextFoot` is the footer of `next`. */
  function LinkWrites(w: seq<int>, x: int, foot: int, prev: int, next: int, nextFoot: int): (w': seq<int>)
    requires 0 <= x < |w| && 0 <= foot < |w| && 0 <= prev < |w| && 0 <= nextFoot < |w|
    ensures |w'| == |w|
  {
    var w1 := w[x := next][foot := prev];
    var w2 := if prev != NULL then w1[prev := x] else w1;
    if next != NULL then w2[nextFoot := x] else w2
  }

  /** The member that an insertion at position k will precede, and its footer. */
  function AtOf(l: seq<int>, k: nat): int {
    if k < |l| then l[k] else NULL
  }

  function AtFoot(s: Arena, k: nat): int
    requires k < |s.free| ==> s.free[k] in s.blocks
  {
    if k < |s.free| then Foot(s.blocks, s.free[k]) else 0
  }

  lemma LinkCells(s: Arena, n: nat, k: nat, x: int)
    requires Fits(s, n) && k <= |s.free| && x in s.blocks && x !in s.free
    ensures 0 < x < Foot(s.blocks, x) < n
    ensures k > 0 ==> 0 < s.free[k - 1] < Foot(s.blocks, s.free[k - 1]) < n && s.free[k - 1] != x
    ensures k < |s.free| ==> s.free[k] in s.blocks && 0 < s.free[k] < Foot(s.blocks, s.free[k]) < n && s.free[k] != x
  {
    if k > 0 {
      assert s.free[k - 1] in s.blocks && s.free[k - 1] in s.free;
    }
    if k < |s.free| {
      assert s.free[k] in s.blocks && s.free[k] in s.free;
    }
  }

  lemma LinkInWrites(w: seq<int>, s: Arena, k: nat, x: int)
    requires Fits(s, |w|) && k <= |s.free| && x in s.blocks && x !in s.free
    requires k < |s.free| ==> s.free[k] in s.blocks
    ensures 0 <= x < |w| && 0 <= Foot(s.blocks, x) < |w| && 0 <= PrevOf(s.free, k) < |w| && 0 <= AtFoot(s, k) < |w|
    ensures LinkWrites(w, x, Foot(s.blocks, x), PrevOf(s.free, k), AtOf(s.free, k), AtFoot(s, k)) == LinkIn(w, s, k, x)
  {
    LinkCells(s, |w|, k, x);
  }

  lemma InsertedListed(s: Arena, k: nat, x: int)
    requires s.Listed() && k <= |s.free| && x in s.blocks && x !in s.free
    ensures s.(free := Inserted(s.free, k, x)).Listed()
    ensures forall y :: y in Inserted(s.free, k, x) <==> y == x || y in s.free
  {
    assert s.free == s.free[..k] + s.free[k..];
  }

  /** The four writes hit four different cells (when they happen at all). */
  lemma LinkInCells(w: seq<int>, s: Arena, k: nat, x: int)
    requires Fits(s, |w|) && k <= |s.free| && x in s.blocks && x !in s.free
    ensures LinkIn(w, s, k, x)[x] == if k < |s.free| then s.free[k] else NULL
    ensures LinkIn(w, s, k, x)[Foot(s.blocks, x)] == PrevOf(s.free, k)
    ensures k > 0 ==> LinkIn(w, s, k, x)[s.free[k - 1]] == x
    ensures k < |s.free| ==> LinkIn(w, s, k, x)[Foot(s.blocks, s.free[k])] == x
    ensures forall i | 0 <= i < |w| && i != x && i != Foot(s.blocks, x) :: (k > 0 ==> i != s.free[k - 1]) ==>
              (k < |s.free| ==> i != Foot(s.blocks, s.free[k])) ==> LinkIn(w, s, k, x)[i] == w[i]
  {
    assert x in s.blocks && x < Foot(s.blocks, x);
    if k > 0 {
      assert s.free[k - 1] in s.free;
      assert s.free[k - 1] in s.blocks && s.free[k - 1] < Foot(s.blocks, s.free[k - 1]);
    }
    if k < |s.free| {
      assert s.free[k] in s.free;
      assert s.free[k] in s.blocks && s.free[k] < Foot(s.blocks, s.free[k]);
    }
  }

  /** What the insertion does to the links of an old list member. */
  lemma LinkedOther(w: seq<int>, s: Arena, k: nat, x: int, j: nat)
    requires Fits(s, |w|) && k <= |s.free| && x in s.blocks && x !in s.free && j < |s.free|
    ensures j + 1 != k ==> LinkIn(w, s, k, x)[s.free[j]] == w[s.free[j]]
    ensures j != k ==> LinkIn(w, s, k, x)[Foot(s.blocks, s.free[j])] == w[Foot(s.blocks, s.free[j])]
  {
    LinkInCells(w, s, k, x);
    var y := s.free[j];
    assert y in s.free && y in s.blocks && y < Foot(s.blocks, y);
    assert x < Foot(s.blocks, x);
    if k > 0 {
      assert s.free[k - 1] in s.blocks && s.free[k - 1] < Foot(s.blocks, s.free[k - 1]);
    }
    if k < |s.free| {
      assert s.free[k] in s.blocks && s.free[k] < Foot(s.blocks, s.free[k]);
    }
  }

  lemma InsertedLinks(l: seq<int>, k: nat, x: int, i: nat)
    requires k <= |l| && i <= |l|
    ensures Inserted(l, k, x)[i] == if i < k then l[i] else if i == k then x else l[i - 1]
    ensures NextOf(Inserted(l, k, x), i) ==
              if i == k then (if k < |l| then l[k] else NULL)
              else if i < k then (if i + 1 == k then x else NextOf(l, i)) else NextOf(l, i - 1)
    ensures PrevOf(Inserted(l, k, x), i) ==
              if i == k then PrevOf(l, k)
              else if i < k then PrevOf(l, i)
              else if i - 1 == k then x else PrevOf(l, i - 1)
  {
  }

  lemma LinkInLinked(w: seq<int>, s: Arena, k: nat, x: int, i: nat)
    requires Fits(s, |w|) && Linked(w, s) && k <= |s.free| && x in s.blocks && x !in s.free
    requires i <= |s.free|
    ensures Inserted(s.free, k, x)[i] in s.blocks
    ensures LinkIn(w, s, k, x)[Inserted(s.free, k, x)[i]] == NextOf(Inserted(s.free, k, x), i)
    ensures LinkIn(w, s, k, x)[Foot(s.blocks, Inserted(s.free, k, x)[i])] == PrevOf(Inserted(s.free, k, x), i)
  {
    LinkInCells(w, s, k, x);
    InsertedLinks(s.free, k, x, i);
    if i != k {
      LinkedOther(w, s, k, x, if i < k then i else i - 1);
    }
  }

  /** Linking `x` in writes tags of free blocks only. */
  lemma LinkInFrame(w: seq<int>, s: Arena, k: nat, x: int, b: int)
    requires Fits(s, |w|) && k <= |s.free| && x in s.blocks && x !in s.free
    requires b in s.blocks && b !in s.free && b != x
    ensures SameCells(w, LinkIn(w, s, k, x), s, b)
  {
    LinkInCells(w, s, k, x);
    assert b < Foot(s.blocks, b) && x < Foot(s.blocks, x);
    if k > 0 {
      assert s.free[k - 1] in s.free;
      assert s.free[k - 1] in s.blocks && s.free[k - 1] < Foot(s.blocks, s.free[k - 1]);
    }
    if k < |s.free| {
      assert s.free[k] in s.free;
      assert s.free[k] in s.blocks && s.free[k] < Foot(s.blocks, s.free[k]);
    }
  }

  // ----- Linking a block out

  function Removed(l: seq<int>, k: nat): seq<int>
    requires k < |l|
  {
    l[..k] + l[k + 1..]
  }

  /** Memory after the link writes that bypass the k-th list member. */
  function LinkOut(w: seq<int>, s: Arena, k: nat): (w': seq<int>)
    requires Fits(s, |w|) && k < |s.free|
    ensures |w'| == |w|
  {
    var w1 := if k > 0 then w[s.free[k - 1] := NextOf(s.free, k)] else w;
    if k + 1 < |s.free| then w1[Foot(s.blocks, s.free[k + 1]) := PrevOf(s.free, k)] else w1
  }

  lemma RemovedListed(s: Arena, k: nat)
    requires s.Listed() && k < |s.free|
    ensures s.(free := Removed(s.free, k)).Listed()
    ensures forall y :: y in Removed(s.free, k) <==> y in s.free && y != s.free[k]
  {
    WithoutAt(s.free, k);
    WithoutMembers(s.free, s.free[k]);
  }

  lemma LinkOutCells(w: seq<int>, s: Arena, k: nat)
    requires Fits(s, |w|) && k < |s.free|
    ensures k > 0 ==> LinkOut(w, s, k)[s.free[k - 1]] == NextOf(s.free, k)
    ensures k + 1 < |s.free| ==> LinkOut(w, s, k)[Foot(s.blocks, s.free[k + 1])] == PrevOf(s.free, k)
    ensures forall i | 0 <= i < |w| :: (k > 0 ==> i != s.free[k - 1]) ==>
              (k + 1 < |s.free| ==> i != Foot(s.blocks, s.free[k + 1])) ==> LinkOut(w, s, k)[i] == w[i]
  {
    if k > 0 {
      assert s.free[k - 1] in s.blocks && s.free[k - 1] < Foot(s.blocks, s.free[k - 1]);
    }
    if k + 1 < |s.free| {
      assert s.free[k + 1] in s.blocks && s.free[k + 1] < Foot(s.blocks, s.free[k + 1]);
    }
  }

  lemma LinkOutOther(w: seq<int>, s: Arena, k: nat, j: nat)
    requires Fits(s, |w|) && k < |s.free| && j < |s.free|
    ensures j + 1 != k ==> LinkOut(w, s, k)[s.free[j]] == w[s.free[j]]
    ensures j != k + 1 ==> LinkOut(w, s, k)[Foot(s.blocks, s.free[j])] == w[Foot(s.blocks, s.free[j])]
  {
    LinkOutCells(w, s, k);
    assert s.free[j] in s.blocks && s.free[j] < Foot(s.blocks, s.free[j]);
    if k > 0 {
      assert s.free[k - 1] in s.blocks && s.free[k - 1] < Foot(s.blocks, s.free[k - 1]);
    }
    if k + 1 < |s.free| {
      assert s.free[k + 1] in s.blocks && s.free[k + 1] < Foot(s.blocks, s.free[k + 1]);
    }
  }

  lemma RemovedLinks(l: seq<int>, k: nat, i: nat)
    requires k < |l| && i + 1 < |l|
    ensures Removed(l, k)[i] == if i < k then l[i] else l[i + 1]
    ensures NextOf(Removed(l, k), i) ==
              if i + 1 < k then NextOf(l, i) else if i + 1 == k then NextOf(l, k) else NextOf(l, i + 1)
    ensures PrevOf(Removed(l, k), i) ==
              if i < k then PrevOf(l, i) else if i == k then PrevOf(l, k) else PrevOf(l, i + 1)
  {
  }

  lemma LinkOutLinked(w: seq<int>, s: Arena, k: nat, i: nat)
    requires Fits(s, |w|) && Linked(w, s) && k < |s.free| && i + 1 < |s.free|
    ensures Removed(s.free, k)[i] in s.blocks
    ensures LinkOut(w, s, k)[Removed(s.free, k)[i]] == NextOf(Removed(s.free, k), i)
    ensures LinkOut(w, s, k)[Foot(s.blocks, Removed(s.free, k)[i])] == PrevOf(Removed(s.free, k), i)
  {
    LinkOutCells(w, s, k);
    RemovedLinks(s.free, k, i);
    LinkOutOther(w, s, k, if i < k then i else i + 1);
  }

  lemma LinkOutFrame(w: seq<int>, s: Arena, k: nat, b: int)
    requires Fits(s, |w|) && k < |s.free| && b in s.blocks && b !in s.free
    ensures SameCells(w, LinkOut(w, s, k), s, b)
  {
    LinkOutCells(w, s, k);
    assert b < Foot(s.blocks, b);
    if k > 0 {
      assert s.free[k - 1] in s.free;
      assert s.free[k - 1] in s.blocks && s.free[k - 1] < Foot(s.blocks, s.free[k - 1]);
    }
    if k + 1 < |s.free| {
      assert s.free[k + 1] in s.free;
      assert s.free[k + 1] in s.blocks && s.free[k + 1] < Foot(s.blocks, s.free[k + 1]);
    }
  }

  /** Memory represents the arena `s`, except that the tags of blocks in `loose` may hold anything. */
  ghost predicate Represents(w: seq<int>, z: seq<int>, s: Arena, loose: set<int>) {
    |w| == |z| && Fits(s, |w|) && Sized(z, s) && Linked(w, s) && Marked(w, s, loose)
  }

  lemma LinkInMarked(w: seq<int>, s: Arena, loose: set<int>, k: nat, x: int)
    requires Fits(s, |w|) && Marked(w, s, loose) && k <= |s.free| && x in s.blocks && x !in s.free
    ensures Fits(s.(free := Inserted(s.free, k, x)), |w|)
    ensures Marked(LinkIn(w, s, k, x), s.(free := Inserted(s.free, k, x)), loose - {x})
  {
    InsertedListed(s, k, x);
    var t := s.(free := Inserted(s.free, k, x));
    var w' := LinkIn(w, s, k, x);
    forall a | a in t.blocks && a !in t.free && a !in loose - {x}
      ensures w'[a] == USED && w'[Foot(s.blocks, a)] == USED
    {
      LinkInFrame(w, s, k, x, a);
      assert a <= Foot(s.blocks, a);
    }
  }

  /** Linking in touches neither sentinel. */
  lemma LinkInFence(w: seq<int>, s: Arena, k: nat, x: int)
    requires Fits(s, |w|) && k <= |s.free| && x in s.blocks && x !in s.free
    ensures LinkIn(w, s, k, x)[s.lo] == w[s.lo] && LinkIn(w, s, k, x)[s.hi - 1] == w[s.hi - 1]
  {
    LinkInCells(w, s, k, x);
    Bracketed(s, |w|, x);
    if k > 0 {
      Bracketed(s, |w|, s.free[k - 1]);
    }
    if k < |s.free| {
      Bracketed(s, |w|, s.free[k]);
    }
  }

  lemma Bracketed(s: Arena, n: nat, x: int)
    requires Fits(s, n) && x in s.blocks
    ensures s.lo < x < Foot(s.blocks, x) < s.hi - 1
  {
  }

  /** Linked, member by member. */
  lemma LinkedOf(w: seq<int>, s: Arena)
    requires Fits(s, |w|)
    requires forall i {:trigger s.free[i]} :: 0 <= i < |s.free| ==>
               s.free[i] in s.blocks && 0 <= s.free[i] < |w| && 0 <= Foot(s.blocks, s.free[i]) < |w|
               && w[s.free[i]] == NextOf(s.free, i) && w[Foot(s.blocks, s.free[i])] == PrevOf(s.free, i)
    ensures Linked(w, s)
  {
    hide Fits, NextOf, PrevOf;
  }

  lemma InsertedFits(s: Arena, n: nat, k: nat, x: int)
    requires Fits(s, n) && k <= |s.free| && x in s.blocks && x !in s.free
    ensures Fits(s.(free := Inserted(s.free, k, x)), n) && |Inserted(s.free, k, x)| == |s.free| + 1
  {
    InsertedListed(s, k, x);
  }

  lemma LinkInAllLinked(w: seq<int>, s: Arena, k: nat, x: int)
    requires Fits(s, |w|) && Linked(w, s) && k <= |s.free| && x in s.blocks && x !in s.free
    ensures Fits(s.(free := Inserted(s.free, k, x)), |w|)
    ensures Linked(LinkIn(w, s, k, x), s.(free := Inserted(s.free, k, x)))
  {
    hide *;
    InsertedFits(s, |w|, k, x);
    var t := s.(free := Inserted(s.free, k, x));
    var w' := LinkIn(w, s, k, x);
    forall i | 0 <= i < |t.free|
      ensures t.free[i] in t.blocks && 0 <= t.free[i] < |w'| && 0 <= Foot(t.blocks, t.free[i]) < |w'|
      ensures w'[t.free[i]] == NextOf(t.free, i) && w'[Foot(t.blocks, t.free[i])] == PrevOf(t.free, i)
    {
      LinkInLinked(w, s, k, x, i);
      FootInside(t, |w|, t.free[i]);
    }
    LinkedOf(w', t);
  }

  lemma FootInside(s: Arena, n: nat, x: int)
    requires Fits(s, n) && x in s.blocks
    ensures 0 <= x < n && 0 <= Foot(s.blocks, x) < n
  {
  }

  lemma InsertRepresents(w: seq<int>, z: seq<int>, s: Arena, loose: set<int>, k: nat, x: int)
    requires Represents(w, z, s, loose) && k <= |s.free| && x in s.blocks && x !in s.free
    ensures Represents(LinkIn(w, s, k, x), z, s.(free := Inserted(s.free, k, x)), loose - {x})
    ensures forall b :: b in s.blocks && b !in s.free && b != x ==> SameCells(w, LinkIn(w, s, k, x), s, b)
  {
    hide Fits, Linked, Marked, LinkIn;
    LinkInAllLinked(w, s, k, x);
    forall b | b in s.blocks && b !in s.free && b != x ensures SameCells(w, LinkIn(w, s, k, x), s, b) {
      LinkInFrame(w, s, k, x, b);
    }
    LinkInMarked(w, s, loose, k, x);
  }

  lemma LinkOutMarked(w: seq<int>, s: Arena, loose: set<int>, k: nat)
    requires Fits(s, |w|) && Marked(w, s, loose) && k < |s.free|
    ensures Fits(s.(free := Removed(s.free, k)), |w|)
    ensures Marked(LinkOut(w, s, k), s.(free := Removed(s.free, k)), loose + {s.free[k]})
  {
    RemovedListed(s, k);
    var x := s.free[k];
    var t := s.(free := Removed(s.free, k));
    var w' := LinkOut(w, s, k);
    forall a | a in t.blocks && a !in t.free && a !in loose + {x}
      ensures w'[a] == USED && w'[Foot(s.blocks, a)] == USED
    {
      LinkOutFrame(w, s, k, a);
      assert a <= Foot(s.blocks, a);
    }
  }

  lemma LinkOutFence(w: seq<int>, s: Arena, k: nat)
    requires Fits(s, |w|) && k < |s.free|
    ensures LinkOut(w, s, k)[s.lo] == w[s.lo] && LinkOut(w, s, k)[s.hi - 1] == w[s.hi - 1]
  {
    LinkOutCells(w, s, k);
    if k > 0 {
      Bracketed(s, |w|, s.free[k - 1]);
    }
    if k + 1 < |s.free| {
      Bracketed(s, |w|, s.free[k + 1]);
    }
  }

  lemma LinkOutAllLinked(w: seq<int>, s: Arena, k: nat)
    requires Fits(s, |w|) && Linked(w, s) && k < |s.free|
    ensures Fits(s.(free := Removed(s.free, k)), |w|)
    ensures Linked(LinkOut(w, s, k), s.(free := Removed(s.free, k)))
  {
    RemovedListed(s, k);
    forall i | 0 <= i < |s.free| - 1
      ensures LinkOut(w, s, k)[Removed(s.free, k)[i]] == NextOf(Removed(s.free, k), i)
      ensures LinkOut(w, s, k)[Foot(s.blocks, Removed(s.free, k)[i])] == PrevOf(Removed(s.free, k), i)
    {
      LinkOutLinked(w, s, k, i);
    }
  }

  lemma RemoveRepresents(w: seq<int>, z: seq<int>, s: Arena, loose: set<int>, k: nat)
    requires Represents(w, z, s, loose) && k < |s.free|
    ensures Represents(LinkOut(w, s, k), z, s.(free := Removed(s.free, k)), loose + {s.free[k]})
    ensures forall b :: b in s.blocks && b !in s.free ==> SameCells(w, LinkOut(w, s, k), s, b)
  {
    hide Fits, Linked, Marked;
    LinkOutAllLinked(w, s, k);
    forall b | b in s.blocks && b !in s.free ensures SameCells(w, LinkOut(w, s, k), s, b) {
      LinkOutFrame(w, s, k, b);
    }
    LinkOutMarked(w, s, loose, k);
  }

  // ----- Writes that change tags or sizes

  /** Marking a loose block used. */
  lemma MarkRepresents(w: seq<int>, z: seq<int>, s: Arena, a: int)
    requires Represents(w, z, s, {a}) && a in s.blocks && a !in s.free
    ensures Represents(w[a := USED][Foot(s.blocks, a) := USED], z, s, {})
    ensures forall b :: b in s.blocks && b != a ==> SameCells(w, w[a := USED][Foot(s.blocks, a) := USED], s, b)
  {
    var w' := w[a := USED][Foot(s.blocks, a) := USED];
    assert a < Foot(s.blocks, a);
    forall k | 0 <= k < |s.free|
      ensures w'[s.free[k]] == w[s.free[k]] && w'[Foot(s.blocks, s.free[k])] == w[Foot(s.blocks, s.free[k])]
    {
      assert s.free[k] in s.free && s.free[k] < Foot(s.blocks, s.free[k]);
    }
    forall b | b in s.blocks && b != a ensures SameCells(w, w', s, b) {
      assert b < Foot(s.blocks, b);
    }
  }

  /** The sizes written when block `a` is cut after u cells. */
  function CutSizes(z: seq<int>, s: Arena, a: int, u: int): (z': seq<int>)
    requires Fits(s, |z|) && a in s.blocks && 0 <= u && u + 2 <= s.blocks[a]
    ensures |z'| == |z|
  {
    var left := s.blocks[a] - u - 2;
    z[a := u][a + 1 + u := u][a + 2 + u := left][Foot(s.blocks, a) := left]
  }

  lemma CutFits(s: Arena, n: nat, a: int, u: int)
    requires Fits(s, n) && a in s.blocks && 0 <= u && u + 2 <= s.blocks[a]
    ensures Fits(Cut(s, a, u), n)
    ensures a + 2 + u !in s.blocks
    ensures Foot(Cut(s, a, u).blocks, a) == a + 1 + u
    ensures Foot(Cut(s, a, u).blocks, a + 2 + u) == Foot(s.blocks, a)
    ensures forall b {:trigger Foot(Cut(s, a, u).blocks, b)} :: b in s.blocks && b != a ==>
              Foot(Cut(s, a, u).blocks, b) == Foot(s.blocks, b)
  {
    CutTiled(s, a, u);
    FitsTiled(Cut(s, a, u), n);
  }

  lemma CutSized(z: seq<int>, s: Arena, a: int, u: int)
    requires Fits(s, |z|) && Sized(z, s) && a in s.blocks && 0 <= u && u + 2 <= s.blocks[a]
    ensures Fits(Cut(s, a, u), |z|)
    ensures Sized(CutSizes(z, s, a, u), Cut(s, a, u))
    ensures forall b :: b in s.blocks && b != a ==> SameCells(z, CutSizes(z, s, a, u), s, b)
  {
    CutFits(s, |z|, a, u);
    var t := Cut(s, a, u);
    var z' := CutSizes(z, s, a, u);
    forall b | b in s.blocks && b != a ensures SameCells(z, z', s, b) {
      assert b < Foot(s.blocks, b) && a < Foot(s.blocks, a);
    }
    forall b | b in t.blocks ensures z'[b] == t.blocks[b] && z'[Foot(t.blocks, b)] == t.blocks[b] {
      if b in s.blocks && b != a {
        assert SameCells(z, z', s, b);
        assert b <= Foot(s.blocks, b) == Foot(t.blocks, b);
      }
    }
  }

  lemma CutFrame(w: seq<int>, s: Arena, k: nat, u: int, b: int)
    requires Fits(s, |w|) && k < |s.free| && 0 <= u && u + 2 <= s.blocks[s.free[k]]
    requires b in s.blocks && b != s.free[k]
    ensures 0 < s.free[k] + 1 + u < Foot(s.blocks, s.free[k])
    ensures SameCells(w, w[s.free[k] + 1 + u := PrevOf(s.free, k)], s, b)
    ensures w[s.free[k] + 1 + u := PrevOf(s.free, k)][b] == w[b]
    ensures w[s.free[k] + 1 + u := PrevOf(s.free, k)][Foot(s.blocks, b)] == w[Foot(s.blocks, b)]
  {
    assert b < Foot(s.blocks, b) && s.free[k] < Foot(s.blocks, s.free[k]);
  }

  /** Re-linking the shortened block: its footer moves, and the previous link with it. */
  lemma CutLinkedAt(w: seq<int>, s: Arena, k: nat, u: int, i: nat)
    requires Fits(s, |w|) && Linked(w, s) && k < |s.free| && i < |s.free|
    requires 0 <= u && u + 2 <= s.blocks[s.free[k]]
    ensures var t := Cut(s, s.free[k], u);
            var w' := w[s.free[k] + 1 + u := PrevOf(s.free, k)];
            && s.free[i] in t.blocks && 0 <= s.free[i] < |w| && 0 <= Foot(t.blocks, s.free[i]) < |w|
            && w'[s.free[i]] == NextOf(s.free, i) && w'[Foot(t.blocks, s.free[i])] == PrevOf(s.free, i)
  {
    CutFits(s, |w|, s.free[k], u);
    assert 0 < s.free[i] < Foot(s.blocks, s.free[i]);
    assert 0 < s.free[k] < Foot(s.blocks, s.free[k]);
    if i != k {
      CutFrame(w, s, k, u, s.free[i]);
    }
  }

  lemma CutLinked(w: seq<int>, s: Arena, k: nat, u: int)
    requires Fits(s, |w|) && Linked(w, s) && k < |s.free|
    requires 0 <= u && u + 2 <= s.blocks[s.free[k]]
    ensures Fits(Cut(s, s.free[k], u), |w|)
    ensures Linked(w[s.free[k] + 1 + u := PrevOf(s.free, k)], Cut(s, s.free[k], u))
  {
    hide Fits;
    FitsListed(s, |w|);
    CutFits(s, |w|, s.free[k], u);
    var t := Cut(s, s.free[k], u);
    var w' := w[s.free[k] + 1 + u := PrevOf(s.free, k)];
    forall i | 0 <= i < |s.free|
      ensures s.free[i] in t.blocks && 0 <= s.free[i] < |w| && 0 <= Foot(t.blocks, s.free[i]) < |w|
      ensures |w'| == |w| && w'[s.free[i]] == NextOf(s.free, i) && w'[Foot(t.blocks, s.free[i])] == PrevOf(s.free, i)
    {
      CutLinkedAt(w, s, k, u, i);
    }
  }

  lemma CutMarked(w: seq<int>, s: Arena, k: nat, u: int)
    requires Fits(s, |w|) && Marked(w, s, {}) && k < |s.free|
    requires 0 <= u && u + 2 <= s.blocks[s.free[k]]
    ensures Fits(Cut(s, s.free[k], u), |w|)
    ensures Marked(w[s.free[k] + 1 + u := PrevOf(s.free, k)], Cut(s, s.free[k], u), {s.free[k] + 2 + u})
  {
    var a := s.free[k];
    CutFits(s, |w|, a, u);
    assert a in s.free;
    forall b | b in s.blocks && b !in s.free
      ensures w[a + 1 + u := PrevOf(s.free, k)][b] == w[b]
      ensures w[a + 1 + u := PrevOf(s.free, k)][Foot(s.blocks, b)] == w[Foot(s.blocks, b)]
    {
      CutFrame(w, s, k, u, b);
    }
  }

  // ----- Coalescing

  function Absorbed(s: Arena, h: int, n: int, l: seq<int>): Arena
    requires h in s.blocks && n in s.blocks
  {
    Absorb(s, h, n).(free := l)
  }

  lemma AbsorbFits(s: Arena, h: int, n: int, l: seq<int>, len: nat)
    requires Fits(s, len) && h in s.blocks && n in s.blocks && End(s.blocks, h) == n
    requires Absorbed(s, h, n, l).Listed()
    ensures Fits(Absorbed(s, h, n, l), len)
    ensures Foot(Absorbed(s, h, n, l).blocks, h) == Foot(s.blocks, n)
    ensures forall b {:trigger Foot(Absorbed(s, h, n, l).blocks, b)} :: b in Absorbed(s, h, n, l).blocks && b != h ==>
              b in s.blocks && b != n && Foot(Absorbed(s, h, n, l).blocks, b) == Foot(s.blocks, b)
  {
    AbsorbTiled(s, h, n);
    FitsTiled(Absorbed(s, h, n, l), len);
  }

  /** The two writes of the merged block's size. */
  function AbsorbSizes(z: seq<int>, s: Arena, h: int, n: int): (z': seq<int>)
    requires Fits(s, |z|) && h in s.blocks && n in s.blocks
    ensures |z'| == |z|
  {
    var size := s.blocks[h] + s.blocks[n] + 2;
    z[h := size][Foot(s.blocks, n) := size]
  }

  lemma AbsorbFrame(z: seq<int>, s: Arena, h: int, n: int, b: int)
    requires Fits(s, |z|) && h in s.blocks && n in s.blocks && b in s.blocks && b != h && b != n
    ensures SameCells(z, AbsorbSizes(z, s, h, n), s, b)
    ensures AbsorbSizes(z, s, h, n)[b] == z[b]
    ensures AbsorbSizes(z, s, h, n)[Foot(s.blocks, b)] == z[Foot(s.blocks, b)]
  {
    assert h < Foot(s.blocks, h) && n < Foot(s.blocks, n) && b < Foot(s.blocks, b);
  }

  lemma AbsorbSized(z: seq<int>, s: Arena, h: int, n: int, l: seq<int>)
    requires Fits(s, |z|) && Sized(z, s) && h in s.blocks && n in s.blocks && End(s.blocks, h) == n
    requires Absorbed(s, h, n, l).Listed()
    ensures Fits(Absorbed(s, h, n, l), |z|)
    ensures Sized(AbsorbSizes(z, s, h, n), Absorbed(s, h, n, l))
  {
    AbsorbFits(s, h, n, l, |z|);
    var t := Absorbed(s, h, n, l);
    assert h < Foot(s.blocks, h) && n < Foot(s.blocks, n);
    forall b | b in t.blocks && b != h
      ensures AbsorbSizes(z, s, h, n)[b] == t.blocks[b] && AbsorbSizes(z, s, h, n)[Foot(t.blocks, b)] == t.blocks[b]
    {
      AbsorbFrame(z, s, h, n, b);
      assert Foot(t.blocks, b) == Foot(s.blocks, b);
    }
  }

  /** Memory after the lower neighbour `p` has taken the place of the list's head. */
  function BelowWords(w: seq<int>, s: Arena, p: int): (w': seq<int>)
    requires Fits(s, |w|) && s.free != [] && p in s.blocks
    ensures |w'| == |w|
  {
    var w1 := w[Foot(s.blocks, s.free[0]) := NULL][p := NextOf(s.free, 0)];
    if |s.free| > 1 then w1[Foot(s.blocks, s.free[1]) := p] else w1
  }

  lemma BelowCells(w: seq<int>, s: Arena, p: int)
    requires Fits(s, |w|) && s.free != [] && p in s.blocks && p !in s.free
    ensures BelowWords(w, s, p)[p] == NextOf(s.free, 0)
    ensures BelowWords(w, s, p)[Foot(s.blocks, s.free[0])] == NULL
    ensures |s.free| > 1 ==> BelowWords(w, s, p)[Foot(s.blocks, s.free[1])] == p
    ensures forall i | 0 <= i < |w| && i != p && i != Foot(s.blocks, s.free[0]) ::
              (|s.free| > 1 ==> i != Foot(s.blocks, s.free[1])) ==> BelowWords(w, s, p)[i] == w[i]
  {
    assert s.free[0] in s.free && s.free[0] < Foot(s.blocks, s.free[0]);
    assert p < Foot(s.blocks, p);
    if |s.free| > 1 {
      assert s.free[1] in s.free && s.free[1] < Foot(s.blocks, s.free[1]);
    }
  }

  lemma BelowFrame(w: seq<int>, s: Arena, p: int, b: int)
    requires Fits(s, |w|) && s.free != [] && p in s.blocks && p !in s.free
    requires b in s.blocks && b !in s.free && b != p
    ensures SameCells(w, BelowWords(w, s, p), s, b)
  {
    BelowCells(w, s, p);
    assert s.free[0] in s.free && s.free[0] < Foot(s.blocks, s.free[0]);
    assert p < Foot(s.blocks, p) && b < Foot(s.blocks, b);
    if |s.free| > 1 {
      assert s.free[1] in s.free && s.free[1] < Foot(s.blocks, s.free[1]);
    }
  }

  lemma BelowOther(w: seq<int>, s: Arena, p: int, i: nat)
    requires Fits(s, |w|) && Linked(w, s) && p in s.blocks && p !in s.free && 1 <= i < |s.free|
    ensures BelowWords(w, s, p)[s.free[i]] == NextOf(s.free, i)
    ensures BelowWords(w, s, p)[Foot(s.blocks, s.free[i])] == if i == 1 then p else PrevOf(s.free, i)
  {
    BelowCells(w, s, p);
    var y := s.free[i];
    assert y in s.free && y < Foot(s.blocks, y);
    assert s.free[0] in s.free && s.free[0] < Foot(s.blocks, s.free[0]);
    assert s.free[1] in s.free && s.free[1] < Foot(s.blocks, s.free[1]);
    assert p < Foot(s.blocks, p);
  }

  lemma BelowListed(s: Arena, p: int)
    requires s.Listed() && s.free != [] && p in s.blocks && p !in s.free
    ensures Absorbed(s, p, s.free[0], [p] + s.free[1..]).Listed()
    ensures forall y :: y in [p] + s.free[1..] <==> y == p || (y in s.free && y != s.free[0])
  {
    assert s.free == [s.free[0]] + s.free[1..];
    var t := Absorbed(s, p, s.free[0], [p] + s.free[1..]);
    forall i, j | 0 <= i < j < |t.free| ensures t.free[i] != t.free[j] {
      assert t.free[j] == s.free[j];
      assert s.free[j] in s.free;
    }
    forall y | y in s.free[1..] ensures y != s.free[0] {
    }
  }

  lemma BelowLinkedAt(w: seq<int>, s: Arena, p: int, i: nat)
    requires Fits(s, |w|) && Linked(w, s) && p in s.blocks && p !in s.free
    requires s.free != [] && End(s.blocks, p) == s.free[0] && i < |s.free|
    ensures var l := [p] + s.free[1..];
            var t := Absorbed(s, p, s.free[0], l);
            && l[i] in t.blocks && 0 <= l[i] < |w| && 0 <= Foot(t.blocks, l[i]) < |w|
            && BelowWords(w, s, p)[l[i]] == NextOf(l, i)
            && BelowWords(w, s, p)[Foot(t.blocks, l[i])] == PrevOf(l, i)
  {
    var l := [p] + s.free[1..];
    BelowListed(s, p);
    AbsorbFits(s, p, s.free[0], l, |w|);
    if i == 0 {
      BelowCells(w, s, p);
      assert 0 < p < Foot(s.blocks, p);
      assert 0 < Foot(s.blocks, s.free[0]) < |w|;
    } else {
      BelowOther(w, s, p, i);
      assert l[i] == s.free[i] && l[i] in l;
      assert s.free[i] in s.free;
      assert 0 < s.free[i] < Foot(s.blocks, s.free[i]) < |w|;
    }
  }

  lemma BelowLinked(w: seq<int>, s: Arena, p: int)
    requires Fits(s, |w|) && Linked(w, s) && s.free != [] && p in s.blocks && p !in s.free
    requires s.Listed() && End(s.blocks, p) == s.free[0]
    ensures Fits(Absorbed(s, p, s.free[0], [p] + s.free[1..]), |w|)
    ensures Linked(BelowWords(w, s, p), Absorbed(s, p, s.free[0], [p] + s.free[1..]))
  {
    hide Fits;
    hide BelowWords;
    BelowListed(s, p);
    var l := [p] + s.free[1..];
    AbsorbFits(s, p, s.free[0], l, |w|);
    var t := Absorbed(s, p, s.free[0], l);
    forall i | 0 <= i < |t.free|
      ensures t.free[i] in t.blocks && 0 <= t.free[i] < |w| && 0 <= Foot(t.blocks, t.free[i]) < |w|
      ensures BelowWords(w, s, p)[t.free[i]] == NextOf(t.free, i)
      ensures BelowWords(w, s, p)[Foot(t.blocks, t.free[i])] == PrevOf(t.free, i)
    {
      BelowLinkedAt(w, s, p, i);
    }
  }

  lemma BelowMarked(w: seq<int>, s: Arena, p: int)
    requires Fits(s, |w|) && Marked(w, s, {p}) && s.free != [] && p in s.blocks && p !in s.free
    requires End(s.blocks, p) == s.free[0]
    ensures Fits(Absorbed(s, p, s.free[0], [p] + s.free[1..]), |w|)
    ensures Marked(BelowWords(w, s, p), Absorbed(s, p, s.free[0], [p] + s.free[1..]), {})
  {
    var a := s.free[0];
    BelowListed(s, p);
    AbsorbFits(s, p, a, [p] + s.free[1..], |w|);
    var t := Absorbed(s, p, a, [p] + s.free[1..]);
    forall b | b in t.blocks && b !in t.free
      ensures BelowWords(w, s, p)[b] == USED && BelowWords(w, s, p)[Foot(t.blocks, b)] == USED
    {
      BelowFrame(w, s, p, b);
      assert b < Foot(s.blocks, b) == Foot(t.blocks, b);
    }
  }

  lemma AboveLinked(w: seq<int>, s: Arena, n: int)
    requires Fits(s, |w|) && Linked(w, s) && s.free != [] && n in s.blocks && n !in s.free
    requires End(s.blocks, s.free[0]) == n && Absorbed(s, s.free[0], n, s.free).Listed()
    ensures Fits(Absorbed(s, s.free[0], n, s.free), |w|)
    ensures Linked(w[Foot(s.blocks, n) := NULL], Absorbed(s, s.free[0], n, s.free))
  {
    var h := s.free[0];
    var t := Absorbed(s, h, n, s.free);
    AbsorbFits(s, h, n, s.free, |w|);
    var w' := w[Foot(s.blocks, n) := NULL];
    forall i | 0 <= i < |t.free|
      ensures w'[t.free[i]] == NextOf(t.free, i) && w'[Foot(t.blocks, t.free[i])] == PrevOf(t.free, i)
    {
      var y := s.free[i];
      assert y in s.free && y < Foot(s.blocks, y) && n < Foot(s.blocks, n);
      assert y in t.blocks && (i > 0 ==> y != h);
    }
  }

  lemma BelowRepresents(w: seq<int>, z: seq<int>, s: Arena, p: int)
    requires Represents(w, z, s, {p}) && s.free != [] && p in s.blocks && p !in s.free
    requires End(s.blocks, p) == s.free[0]
    ensures Represents(BelowWords(w, s, p), AbsorbSizes(z, s, p, s.free[0]),
                       Absorbed(s, p, s.free[0], [p] + s.free[1..]), {})
  {
    hide Fits, Sized, Linked, Marked;
    FitsListed(s, |w|);
    BelowListed(s, p);
    BelowLinked(w, s, p);
    AbsorbSized(z, s, p, s.free[0], [p] + s.free[1..]);
    BelowMarked(w, s, p);
  }

  lemma AboveListed(s: Arena, n: int)
    requires s.Listed() && s.free != [] && s.free[0] in s.blocks && n in s.blocks && n !in s.free
    ensures Absorbed(s, s.free[0], n, s.free).Listed()
  {
    forall i | 0 <= i < |s.free| ensures s.free[i] in Absorbed(s, s.free[0], n, s.free).blocks {
      assert s.free[i] in s.free;
    }
  }

  lemma AboveFrame(w: seq<int>, s: Arena, n: int, b: int)
    requires Fits(s, |w|) && n in s.blocks && b in s.blocks && b != n
    ensures SameCells(w, w[Foot(s.blocks, n) := NULL], s, b)
  {
    assert b < Foot(s.blocks, b) && n < Foot(s.blocks, n);
  }

  lemma AboveMarked(w: seq<int>, s: Arena, n: int)
    requires Fits(s, |w|) && Marked(w, s, {n}) && s.free != [] && n in s.blocks && n !in s.free
    requires End(s.blocks, s.free[0]) == n && Absorbed(s, s.free[0], n, s.free).Listed()
    ensures Fits(Absorbed(s, s.free[0], n, s.free), |w|)
    ensures Marked(w[Foot(s.blocks, n) := NULL], Absorbed(s, s.free[0], n, s.free), {})
  {
    AbsorbFits(s, s.free[0], n, s.free, |w|);
    var t := Absorbed(s, s.free[0], n, s.free);
    forall b | b in t.blocks && b !in t.free
      ensures w[Foot(s.blocks, n) := NULL][b] == USED && w[Foot(s.blocks, n) := NULL][Foot(t.blocks, b)] == USED
    {
      AboveFrame(w, s, n, b);
      assert s.free[0] in s.free;
      assert b < Foot(s.blocks, b) == Foot(t.blocks, b);
    }
  }

  /** The list's head takes over its upper neighbour `n`, which is already off the list. */
  lemma AboveRepresents(w: seq<int>, z: seq<int>, s: Arena, n: int)
    requires Represents(w, z, s, {n}) && s.free != [] && n in s.blocks && n !in s.free
    requires End(s.blocks, s.free[0]) == n
    ensures Represents(w[Foot(s.blocks, n) := NULL], AbsorbSizes(z, s, s.free[0], n),
                       Absorbed(s, s.free[0], n, s.free), {})
  {
    hide Sized, Linked, Marked;
    FitsListed(s, |w|);
    AboveListed(s, n);
    AbsorbSized(z, s, s.free[0], n, s.free);
    AboveLinked(w, s, n);
    AboveMarked(w, s, n);
  }

  // ----- Growing

  /** Copying the two cells at `from` to `to`, as the 32-byte memcpy of `extend` does. */
  function CopyTwo(w: seq<int>, from: nat, to: nat): (w': seq<int>)
    requires from + 1 < to && to + 1 < |w|
    ensures |w'| == |w|
  {
    w[to := w[from]][to + 1 := w[from + 1]]
  }

  function Stretched(s: Arena, last: int, hi': int): Arena
    requires last in s.blocks
  {
    s.(hi := hi', blocks := s.blocks[last := s.blocks[last] + hi' - s.hi])
  }

  lemma StretchFits(s: Arena, last: int, hi': int, n: nat)
    requires s.Valid() && Fits(s, n) && last in s.free && last in s.blocks && End(s.blocks, last) == s.hi - 1
    requires s.hi + 4 <= hi' <= n
    ensures Fits(Stretched(s, last, hi'), n)
    ensures Foot(s.blocks, last) == s.hi - 2 && Foot(Stretched(s, last, hi').blocks, last) == hi' - 2
    ensures forall b {:trigger Foot(Stretched(s, last, hi').blocks, b)} :: b in s.blocks && b != last ==>
              Foot(Stretched(s, last, hi').blocks, b) == Foot(s.blocks, b) < s.hi - 2
  {
    hide Arena.Tiled, Arena.Coalesced;
    StretchTiled(s, last, hi');
    FitsTiled(Stretched(s, last, hi'), n);
    assert Foot(Stretched(s, last, hi').blocks, last) == hi' - 2;
    forall b | b in s.blocks && b != last ensures Foot(s.blocks, b) < s.hi - 2 {
      Bracketed(s, n, b);
    }
  }

  /** The sizes after the last free block has grown up to the new sentinel. */
  function StretchSizes(z: seq<int>, s: Arena, last: int, hi': int): (z': seq<int>)
    requires Fits(s, |z|) && last in s.blocks && s.hi + 4 <= hi' <= |z|
    ensures |z'| == |z|
  {
    var size := s.blocks[last] + hi' - s.hi;
    CopyTwo(z, s.hi - 2, hi' - 2)[last := size][hi' - 2 := size]
  }

  lemma StretchSized(z: seq<int>, s: Arena, last: int, hi': int)
    requires s.Valid() && Fits(s, |z|) && Sized(z, s)
    requires last in s.free && last in s.blocks && End(s.blocks, last) == s.hi - 1 && s.hi + 4 <= hi' <= |z|
    ensures Fits(Stretched(s, last, hi'), |z|)
    ensures Sized(StretchSizes(z, s, last, hi'), Stretched(s, last, hi'))
    ensures forall b :: b in s.blocks && b != last ==> SameCells(z, StretchSizes(z, s, last, hi'), s, b)
  {
    StretchFits(s, last, hi', |z|);
    var t := Stretched(s, last, hi');
    var z' := StretchSizes(z, s, last, hi');
    forall b | b in s.blocks && b != last ensures SameCells(z, z', s, b) {
      assert Foot(t.blocks, b) == Foot(s.blocks, b) && b < Foot(s.blocks, b) && last < Foot(s.blocks, last);
    }
    forall b | b in t.blocks ensures z'[b] == t.blocks[b] && z'[Foot(t.blocks, b)] == t.blocks[b] {
      if b != last {
        assert SameCells(z, z', s, b);
        assert b < Foot(s.blocks, b) == Foot(t.blocks, b);
      }
    }
  }

  /** The moved footer carries the previous link of the last block along; no other tag moves. */
  lemma StretchTags(w: seq<int>, s: Arena, last: int, hi': int, y: int)
    requires s.Valid() && Fits(s, |w|)
    requires last in s.free && last in s.blocks && End(s.blocks, last) == s.hi - 1 && s.hi + 4 <= hi' <= |w|
    requires y in s.blocks
    ensures y in Stretched(s, last, hi').blocks && 0 <= Foot(Stretched(s, last, hi').blocks, y) < |w|
    ensures CopyTwo(w, s.hi - 2, hi' - 2)[y] == w[y]
    ensures CopyTwo(w, s.hi - 2, hi' - 2)[Foot(Stretched(s, last, hi').blocks, y)] == w[Foot(s.blocks, y)]
  {
    StretchFits(s, last, hi', |w|);
    assert y < Foot(s.blocks, y) && 0 <= Foot(Stretched(s, last, hi').blocks, y);
  }

  lemma StretchLinked(w: seq<int>, s: Arena, last: int, hi': int)
    requires s.Valid() && Fits(s, |w|) && Linked(w, s)
    requires last in s.free && last in s.blocks && End(s.blocks, last) == s.hi - 1 && s.hi + 4 <= hi' <= |w|
    ensures Fits(Stretched(s, last, hi'), |w|)
    ensures Linked(CopyTwo(w, s.hi - 2, hi' - 2), Stretched(s, last, hi'))
  {
    StretchFits(s, last, hi', |w|);
    var t := Stretched(s, last, hi');
    var w' := CopyTwo(w, s.hi - 2, hi' - 2);
    forall i | 0 <= i < |t.free|
      ensures w'[t.free[i]] == NextOf(t.free, i) && w'[Foot(t.blocks, t.free[i])] == PrevOf(t.free, i)
    {
      StretchTags(w, s, last, hi', s.free[i]);
    }
  }

  lemma StretchFenced(w: seq<int>, s: Arena, last: int, hi': int)
    requires Fits(s, |w|) && Fenced(w, s) && last in s.blocks
    requires s.hi + 4 <= hi' <= |w| && Fits(Stretched(s, last, hi'), |w|)
    ensures Fenced(CopyTwo(w, s.hi - 2, hi' - 2), Stretched(s, last, hi'))
  {
    Bracketed(s, |w|, last);
  }

  lemma StretchMarked(w: seq<int>, s: Arena, last: int, hi': int)
    requires s.Valid() && Fits(s, |w|) && Marked(w, s, {})
    requires last in s.free && last in s.blocks && End(s.blocks, last) == s.hi - 1 && s.hi + 4 <= hi' <= |w|
    ensures Fits(Stretched(s, last, hi'), |w|)
    ensures Marked(CopyTwo(w, s.hi - 2, hi' - 2), Stretched(s, last, hi'), {})
    ensures forall b :: b in s.blocks && b != last ==> SameCells(w, CopyTwo(w, s.hi - 2, hi' - 2), s, b)
  {
    StretchFits(s, last, hi', |w|);
    var t := Stretched(s, last, hi');
    var w' := CopyTwo(w, s.hi - 2, hi' - 2);
    forall b | b in s.blocks && b != last ensures SameCells(w, w', s, b) {
      assert Foot(t.blocks, b) == Foot(s.blocks, b);
    }
    forall b | b in t.blocks && b !in t.free ensures w'[b] == USED && w'[Foot(t.blocks, b)] == USED {
      assert b < Foot(s.blocks, b) == Foot(t.blocks, b);
    }
  }

  /** The arena with a new, not yet listed block between the old and the new sentinel. */
  function Appended(s: Arena, hi': int): Arena {
    s.(hi := hi', blocks := s.blocks[s.hi - 1 := hi' - s.hi - 2])
  }

  lemma AppendFits(s: Arena, hi': int, n: nat)
    requires s.Valid() && Fits(s, n) && s.hi + 4 <= hi' <= n && FreeEnding(s, s.free, s.hi - 1) == 0
    ensures s.hi - 1 !in s.blocks && s.hi - 1 !in s.free
    ensures Fits(Appended(s, hi'), n)
    ensures Foot(Appended(s, hi').blocks, s.hi - 1) == hi' - 2
    ensures forall b {:trigger Foot(Appended(s, hi').blocks, b)} :: b in s.blocks ==>
              Foot(Appended(s, hi').blocks, b) == Foot(s.blocks, b) < s.hi - 1
  {
    hide Arena.Tiled, Arena.Coalesced;
    InBounds(s, s.hi - 1);
    AppendTiled(s, hi');
    FitsTiled(Appended(s, hi'), n);
  }

  lemma AppendLinked(w: seq<int>, s: Arena, hi': int)
    requires s.Valid() && Fits(s, |w|) && Linked(w, s)
    requires s.hi + 4 <= hi' <= |w| && FreeEnding(s, s.free, s.hi - 1) == 0
    ensures Fits(Appended(s, hi'), |w|)
    ensures Linked(w, Appended(s, hi'))
  {
    AppendFits(s, hi', |w|);
    var t := Appended(s, hi');
    forall i | 0 <= i < |t.free|
      ensures w[t.free[i]] == NextOf(t.free, i) && w[Foot(t.blocks, t.free[i])] == PrevOf(t.free, i)
    {
      assert Foot(t.blocks, t.free[i]) == Foot(s.blocks, s.free[i]);
    }
  }

  function AppendSizes(z: seq<int>, s: Arena, hi': int): (z': seq<int>)
    requires Fits(s, |z|) && s.hi + 4 <= hi' <= |z|
    ensures |z'| == |z|
  {
    z[s.hi - 1 := hi' - s.hi - 2][hi' - 2 := hi' - s.hi - 2]
  }

  lemma AppendSized(z: seq<int>, s: Arena, hi': int)
    requires s.Valid() && Fits(s, |z|) && Sized(z, s)
    requires s.hi + 4 <= hi' <= |z| && FreeEnding(s, s.free, s.hi - 1) == 0
    ensures Fits(Appended(s, hi'), |z|)
    ensures Sized(AppendSizes(z, s, hi'), Appended(s, hi'))
  {
    AppendFits(s, hi', |z|);
    var t := Appended(s, hi');
    var z' := AppendSizes(z, s, hi');
    forall b | b in t.blocks ensures z'[b] == t.blocks[b] && z'[Foot(t.blocks, b)] == t.blocks[b] {
      if b in s.blocks {
        assert b < Foot(s.blocks, b) == Foot(t.blocks, b);
      }
    }
  }

  lemma AppendSizesFrame(z: seq<int>, s: Arena, hi': int, b: int)
    requires Fits(s, |z|) && s.hi + 4 <= hi' <= |z| && b in s.blocks
    ensures SameCells(z, AppendSizes(z, s, hi'), s, b)
  {
    Bracketed(s, |z|, b);
  }

  lemma AppendMarked(w: seq<int>, s: Arena, hi': int)
    requires s.Valid() && Fits(s, |w|) && Marked(w, s, {})
    requires s.hi + 4 <= hi' <= |w| && FreeEnding(s, s.free, s.hi - 1) == 0
    ensures Fits(Appended(s, hi'), |w|)
    ensures Marked(w, Appended(s, hi'), {s.hi - 1})
  {
    hide Arena.Tiled, Arena.Coalesced;
    AppendFits(s, hi', |w|);
    var t := Appended(s, hi');
    forall b | b in t.blocks && b !in t.free && b != s.hi - 1 ensures w[b] == USED && w[Foot(t.blocks, b)] == USED {
      assert Foot(t.blocks, b) == Foot(s.blocks, b);
    }
  }

  lemma AppendRepresents(w: seq<int>, z: seq<int>, s: Arena, hi': int)
    requires s.Valid() && Represents(w, z, s, {}) && s.hi + 4 <= hi' <= |w| && FreeEnding(s, s.free, s.hi - 1) == 0
    ensures Represents(w, AppendSizes(z, s, hi'), Appended(s, hi'), {s.hi - 1})
  {
    hide Fits, Sized, Linked, Marked;
    AppendLinked(w, s, hi');
    AppendSized(z, s, hi');
    AppendMarked(w, s, hi');
  }

  /** The high sentinel is no tag of any block. */
  lemma FenceRepresents(w: seq<int>, z: seq<int>, s: Arena, loose: set<int>)
    requires Represents(w, z, s, loose)
    ensures Represents(w[s.hi - 1 := USED], z, s, loose)
    ensures forall b :: b in s.blocks ==> SameCells(w, w[s.hi - 1 := USED], s, b)
  {
    var w' := w[s.hi - 1 := USED];
    forall i | 0 <= i < |s.free|
      ensures w'[s.free[i]] == NextOf(s.free, i) && w'[Foot(s.blocks, s.free[i])] == PrevOf(s.free, i)
    {
      assert s.free[i] in s.blocks && s.free[i] < Foot(s.blocks, s.free[i]);
    }
  }

  // ----- What the list routines of the class need to know, and what they achieve

  lemma CanInsert(w: seq<int>, z: seq<int>, s: Arena, loose: set<int>, k: nat, x: int)
    requires Represents(w, z, s, loose) && k <= |s.free| && x in s.blocks && x !in s.free
    ensures 0 < x < Foot(s.blocks, x) < |w| && z[x] == Foot(s.blocks, x) - x - 1 == z[Foot(s.blocks, x)]
    ensures 0 <= PrevOf(s.free, k) < |w| && PrevOf(s.free, k) != x
    ensures AtOf(s.free, k) == if PrevOf(s.free, k) != NULL then w[PrevOf(s.free, k)] else HeadOf(s.free)
    ensures AtOf(s.free, k) != NULL ==>
              0 < AtOf(s.free, k) < |w| && 0 < AtOf(s.free, k) + 1 + z[AtOf(s.free, k)] == AtFoot(s, k) < |w|
    ensures AtOf(s.free, k) == NULL ==> AtFoot(s, k) == 0
    ensures LinkWrites(w, x, Foot(s.blocks, x), PrevOf(s.free, k), AtOf(s.free, k), AtFoot(s, k)) == LinkIn(w, s, k, x)
  {
    LinkCells(s, |w|, k, x);
    LinkInWrites(w, s, k, x);
    if k > 0 {
      assert w[s.free[k - 1]] == NextOf(s.free, k - 1);
    }
  }

  function UnlinkWrites(w: seq<int>, prev: int, next: int, nextFoot: int): (w': seq<int>)
    requires 0 <= prev < |w| && 0 <= nextFoot < |w|
    ensures |w'| == |w|
  {
    var w1 := if prev != NULL then w[prev := next] else w;
    if next != NULL then w1[nextFoot := prev] else w1
  }

  function NextFoot(s: Arena, k: nat): int
    requires k + 1 < |s.free| ==> s.free[k + 1] in s.blocks
  {
    if k + 1 < |s.free| then Foot(s.blocks, s.free[k + 1]) else 0
  }

  lemma CanRemove(w: seq<int>, z: seq<int>, s: Arena, loose: set<int>, k: nat)
    requires Represents(w, z, s, loose) && k < |s.free|
    ensures s.free[k] in s.blocks && (k + 1 < |s.free| ==> s.free[k + 1] in s.blocks)
    ensures var x := s.free[k];
            && 0 < x < Foot(s.blocks, x) < |w| && z[x] == Foot(s.blocks, x) - x - 1 == z[Foot(s.blocks, x)]
            && w[x] == NextOf(s.free, k) && w[Foot(s.blocks, x)] == PrevOf(s.free, k)
    ensures 0 <= PrevOf(s.free, k) < |w|
    ensures NextOf(s.free, k) != NULL ==>
              0 < NextOf(s.free, k) < |w| && 0 < NextOf(s.free, k) + 1 + z[NextOf(s.free, k)] == NextFoot(s, k) < |w|
    ensures NextOf(s.free, k) == NULL ==> NextFoot(s, k) == 0
    ensures UnlinkWrites(w, PrevOf(s.free, k), NextOf(s.free, k), NextFoot(s, k)) == LinkOut(w, s, k)
  {
    assert s.free[k] in s.blocks;
    if k > 0 {
      assert s.free[k - 1] in s.blocks && 0 < s.free[k - 1];
    }
    if k + 1 < |s.free| {
      assert s.free[k + 1] in s.blocks && 0 < s.free[k + 1] < Foot(s.blocks, s.free[k + 1]);
    }
  }

  // ----- The cell below an address tells whether a free block ends there

  lemma FreeLinksSmall(w: seq<int>, s: Arena, a: int)
    requires Fits(s, |w|) && Linked(w, s) && a in s.free
    ensures a in s.blocks && 0 <= w[a] < USED && 0 <= w[Foot(s.blocks, a)] < USED
  {
    var k :| 0 <= k < |s.free| && s.free[k] == a;
    assert s.free[k] in s.blocks;
    if k > 0 {
      assert 0 < s.free[k - 1] < Foot(s.blocks, s.free[k - 1]) < |w|;
    }
    if k + 1 < |s.free| {
      assert 0 < s.free[k + 1] < Foot(s.blocks, s.free[k + 1]) < |w|;
    }
  }

  lemma EndingIs(s: Arena, p: int)
    requires s.Tiled() && s.Listed() && p in s.blocks
    ensures forall x :: x in s.free ==> x in s.blocks && x != 0
    ensures FreeEnding(s, s.free, End(s.blocks, p)) == if p in s.free then p else 0
  {
    var q := FreeEnding(s, s.free, End(s.blocks, p));
    if q != 0 && q != p {
      EndsDiffer(s, q, p);
    }
  }

  /** The footer below address `e` is unmarked exactly when a free block of the list ends at `e`. */
  lemma FooterBelow(w: seq<int>, z: seq<int>, s: Arena, p: int)
    requires Represents(w, z, s, {}) && p in s.blocks
    ensures w[Foot(s.blocks, p)] != USED <==> p in s.free
    ensures 0 < p < Foot(s.blocks, p) < s.hi - 1 && z[Foot(s.blocks, p)] == s.blocks[p] == z[p]
  {
    assert 0 < Foot(s.blocks, p);
    if p in s.free {
      FreeLinksSmall(w, s, p);
    }
  }

  lemma StretchRepresents(w: seq<int>, z: seq<int>, s: Arena, last: int, hi': int)
    requires s.Valid() && Represents(w, z, s, {}) && Fenced(w, s)
    requires last in s.free && last in s.blocks && End(s.blocks, last) == s.hi - 1 && s.hi + 4 <= hi' <= |w|
    ensures Represents(CopyTwo(w, s.hi - 2, hi' - 2), StretchSizes(z, s, last, hi'), Stretched(s, last, hi'), {})
    ensures Fenced(CopyTwo(w, s.hi - 2, hi' - 2), Stretched(s, last, hi'))
  {
    hide Fits, Sized, Linked, Marked, Fenced;
    StretchFits(s, last, hi', |w|);
    StretchSized(z, s, last, hi');
    StretchLinked(w, s, last, hi');
    StretchMarked(w, s, last, hi');
    StretchFenced(w, s, last, hi');
  }

  lemma GrowIsStretched(s: Arena, last: int, hi': int)
    requires s.Tiled() && s.Listed() && last in s.free && last in s.blocks && End(s.blocks, last) == s.hi - 1
    ensures forall x :: x in s.free ==> x in s.blocks && x != 0
    ensures Grow(s, hi') == Stretched(s, last, hi')
  {
    EndingIs(s, last);
  }

  lemma StretchFrame(w: seq<int>, z: seq<int>, s: Arena, last: int, hi': int, b: int)
    requires s.Valid() && Represents(w, z, s, {}) && Fenced(w, s) && s.IsLive(b)
    requires last in s.free && last in s.blocks && End(s.blocks, last) == s.hi - 1 && s.hi + 4 <= hi' <= |w|
    ensures SameCells(w, CopyTwo(w, s.hi - 2, hi' - 2), s, b)
    ensures SameCells(z, StretchSizes(z, s, last, hi'), s, b)
  {
    assert b in s.blocks && b != last;
    StretchMarked(w, s, last, hi');
    StretchSized(z, s, last, hi');
  }

  lemma AppendIsGrow(s: Arena, hi': int)
    requires s.Tiled() && s.Listed()
    ensures forall x :: x in s.free ==> x in s.blocks && x != 0
    ensures FreeEnding(s, s.free, s.hi - 1) == 0 ==>
              Grow(s, hi') == Appended(s, hi').(free := Inserted(s.free, 0, s.hi - 1))
  {
    forall x | x in s.free ensures x in s.blocks && x != 0 {
      ListedIn(s, x);
    }
    assert Inserted(s.free, 0, s.hi - 1) == [s.hi - 1] + s.free;
  }

  lemma RepresentsFits(w: seq<int>, z: seq<int>, s: Arena, loose: set<int>)
    requires Represents(w, z, s, loose)
    ensures |w| == |z| && Fits(s, |w|)
  {
  }

  lemma AppendFrame(w: seq<int>, t: Arena, x: int, w': seq<int>, b: int)
    requires Fits(t, |w|) && x in t.blocks && x !in t.free
    requires w' == LinkIn(w, t, 0, x)[t.hi - 1 := USED]
    requires b in t.blocks && b !in t.free && b != x
    ensures SameCells(w, w', t, b)
  {
    LinkInFrame(w, t, 0, x, b);
    Bracketed(t, |w|, b);
  }

  lemma CutRepresents(w: seq<int>, z: seq<int>, s: Arena, k: nat, u: int)
    requires Represents(w, z, s, {}) && k < |s.free| && s.free[k] in s.blocks
    requires 0 <= u && u + 2 <= s.blocks[s.free[k]]
    ensures 0 <= s.free[k] + 1 + u < |w|
    ensures Represents(w[s.free[k] + 1 + u := PrevOf(s.free, k)], CutSizes(z, s, s.free[k], u),
                       Cut(s, s.free[k], u), {s.free[k] + 2 + u})
  {
    hide Sized, Linked, Marked;
    CutBounds(s, |w|, k, u);
    CutSized(z, s, s.free[k], u);
    CutLinked(w, s, k, u);
    CutMarked(w, s, k, u);
  }

  lemma CutBounds(s: Arena, n: nat, k: nat, u: int)
    requires Fits(s, n) && k < |s.free| && s.free[k] in s.blocks && 0 <= u && u + 2 <= s.blocks[s.free[k]]
    ensures 0 < s.free[k] < s.free[k] + 1 + u < Foot(s.blocks, s.free[k]) < n
  {
    Bracketed(s, n, s.free[k]);
  }

  /** What `extend` may rely on at the head of the list. */
  lemma HeadCells(w: seq<int>, z: seq<int>, s: Arena)
    requires Represents(w, z, s, {})
    ensures s.free != [] ==> HeadOf(s.free) == s.free[0]
    ensures 0 < s.hi - 1 && s.hi - 1 < |w| == |z|
    ensures s.free != [] ==>
              var x := s.free[0];
              x in s.blocks && 0 < x && x + 1 + z[x] == Foot(s.blocks, x) <= s.hi - 2
    ensures HeadOf(s.free) == NULL <==> s.free == []
    ensures NULL == 0
  {
    if s.free != [] {
      assert s.free[0] in s.blocks;
      Bracketed(s, |w|, s.free[0]);
    }
  }

  /** Memory holds the valid arena `s`: tags, sizes, links and sentinels. */
  ghost predicate Holds(w: seq<int>, z: seq<int>, s: Arena) {
    s.Valid() && Represents(w, z, s, {}) && Fenced(w, s)
  }

  /** Every live block of `s` has the same cells, tags included, in both memories. */
  ghost predicate LiveKept(w: seq<int>, z: seq<int>, s: Arena, w': seq<int>, z': seq<int>) {
    && |w| == |z| == |w'| == |z'| && Fits(s, |w|)
    && forall b {:trigger s.IsLive(b)} :: s.IsLive(b) ==> SameCells(w, w', s, b) && SameCells(z, z', s, b)
  }

  lemma HoldsParts(w: seq<int>, z: seq<int>, s: Arena)
    requires Holds(w, z, s)
    ensures s.Valid() && s.Tiled() && s.Listed() && Represents(w, z, s, {})
    ensures |w| == |z| && Fits(s, |w|) && 0 <= s.lo < s.hi - 1 < |w|
    ensures s.lo + 1 in s.blocks
    ensures forall x :: x in s.free ==> x in s.blocks && x != 0
    ensures Fenced(w, s)
  {
    forall x | x in s.free ensures x in s.blocks && x != 0 {
      ListedIn(s, x);
    }
  }

  lemma StretchDone(w: seq<int>, z: seq<int>, s: Arena, last: int, hi': int, w': seq<int>, z': seq<int>)
    requires Holds(w, z, s)
    requires last in s.free && last in s.blocks && End(s.blocks, last) == s.hi - 1
    requires 3 <= s.hi && s.hi + 4 <= hi' <= |w| && |z| == |w| && 0 <= last < |z|
    requires w' == CopyTwo(w, s.hi - 2, hi' - 2)
    requires z' == CopyTwo(z, s.hi - 2, hi' - 2)
                     [last := s.blocks[last] + hi' - s.hi][hi' - 2 := s.blocks[last] + hi' - s.hi]
    requires forall x :: x in s.free ==> x in s.blocks && x != 0
    ensures Holds(w', z', Grow(s, hi')) && LiveKept(w, z, s, w', z')
  {
    hide *;
    HoldsParts(w, z, s);
    StretchSizesAre(z, s, last, hi');
    GrowIsStretched(s, last, hi');
    StretchRepresents(w, z, s, last, hi');
    GrowValid(s, hi');
    var t := Grow(s, hi');
    RepresentsFits(w', z', t, {});
    HoldsOf(w', z', t);
    forall b | s.IsLive(b) ensures b in s.blocks && SameCells(w, w', s, b) && SameCells(z, z', s, b) {
      IsLiveIn(s, b);
      StretchFrame(w, z, s, last, hi', b);
    }
    LiveKeptOf(w, z, s, w', z');
  }

  lemma StretchSizesAre(z: seq<int>, s: Arena, last: int, hi': int)
    requires Fits(s, |z|) && last in s.blocks && s.hi + 4 <= hi' <= |z|
    ensures 3 <= s.hi && 0 <= last
    ensures StretchSizes(z, s, last, hi') ==
              CopyTwo(z, s.hi - 2, hi' - 2)[last := s.blocks[last] + hi' - s.hi][hi' - 2 := s.blocks[last] + hi' - s.hi]
  {
    Bracketed(s, |z|, last);
  }

  lemma IsLiveIn(s: Arena, b: int)
    requires s.IsLive(b)
    ensures b in s.blocks && b !in s.free
  {
  }

  lemma HoldsOf(w: seq<int>, z: seq<int>, s: Arena)
    requires s.Valid() && Represents(w, z, s, {}) && Fits(s, |w|) && Fenced(w, s)
    ensures Holds(w, z, s)
  {
  }

  lemma LiveKeptOf(w: seq<int>, z: seq<int>, s: Arena, w': seq<int>, z': seq<int>)
    requires |w| == |z| == |w'| == |z'| && Fits(s, |w|)
    requires forall b {:trigger s.IsLive(b)} :: s.IsLive(b) ==>
             b in s.blocks && SameCells(w, w', s, b) && SameCells(z, z', s, b)
    ensures LiveKept(w, z, s, w', z')
  {
    hide Fits, SameCells;
  }

  lemma AppendDone(w: seq<int>, z: seq<int>, s: Arena, hi': int, foot: int, w': seq<int>, z': seq<int>)
    requires Holds(w, z, s) && s.hi + 4 <= hi' <= |w| && |z| == |w| && 1 <= s.hi
    requires forall x :: x in s.free ==> x in s.blocks && x != 0
    requires FreeEnding(s, s.free, s.hi - 1) == 0
    requires s.free != [] ==> s.free[0] in s.blocks && s.free[0] != NULL && foot == Foot(s.blocks, s.free[0])
    requires s.free == [] ==> foot == 0
    requires 0 <= foot < |w|
    requires w' == LinkWrites(w, s.hi - 1, hi' - 2, NULL, HeadOf(s.free), foot)[hi' - 1 := USED]
    requires z' == z[s.hi - 1 := hi' - s.hi - 2][hi' - 2 := hi' - s.hi - 2]
    ensures Holds(w', z', Grow(s, hi')) && LiveKept(w, z, s, w', z')
  {
    hide *;
    var x := s.hi - 1;
    HoldsParts(w, z, s);
    AppendFits(s, hi', |w|);
    AppendWritesAre(w, s, hi');
    HeadFootIs(s, foot);
    AppendSizesAre(z, s, hi');
    AppendedFields(s, hi');
    AppendIsGrow(s, hi');
    GrowValid(s, hi');
    var t := Appended(s, hi');
    var g := Grow(s, hi');
    AppendRepresents(w, z, s, hi');
    InsertRepresents(w, z', t, {x}, 0, x);
    assert {x} - {x} == {};
    GrowHi(s, hi');
    RepresentsFits(LinkIn(w, t, 0, x), z', g, {});
    FenceRepresents(LinkIn(w, t, 0, x), z', g, {});
    RepresentsFits(w', z', g, {});
    AppendFenced(w, s, hi', w');
    HoldsOf(w', z', g);
    forall b | s.IsLive(b) ensures b in s.blocks && SameCells(w, w', s, b) && SameCells(z, z', s, b) {
      IsLiveIn(s, b);
      AppendFrames(w, z, s, hi', w', b);
    }
    LiveKeptOf(w, z, s, w', z');
  }

  lemma GrowHi(s: Arena, hi': int)
    requires forall x :: x in s.free ==> x in s.blocks && x != 0
    ensures Grow(s, hi').hi == hi'
  {
  }

  lemma HeadFootIs(s: Arena, foot: int)
    requires s.free != [] ==> s.free[0] in s.blocks && foot == Foot(s.blocks, s.free[0])
    requires s.free == [] ==> foot == 0
    ensures HeadFoot(s) == foot
  {
  }

  lemma AppendSizesAre(z: seq<int>, s: Arena, hi': int)
    requires Fits(s, |z|) && s.hi + 4 <= hi' <= |z|
    ensures 1 <= s.hi && AppendSizes(z, s, hi') == z[s.hi - 1 := hi' - s.hi - 2][hi' - 2 := hi' - s.hi - 2]
  {
  }

  function HeadFoot(s: Arena): int
    requires s.free != [] ==> s.free[0] in s.blocks
  {
    if s.free != [] then Foot(s.blocks, s.free[0]) else 0
  }

  lemma AppendWritesAre(w: seq<int>, s: Arena, hi': int)
    requires s.Valid() && Fits(s, |w|) && s.hi + 4 <= hi' <= |w| && FreeEnding(s, s.free, s.hi - 1) == 0
    ensures Fits(Appended(s, hi'), |w|) && s.hi - 1 in Appended(s, hi').blocks
    ensures s.free != [] ==> s.free[0] in s.blocks && 0 < s.free[0] && 0 < Foot(s.blocks, s.free[0]) < |w|
    ensures LinkWrites(w, s.hi - 1, hi' - 2, NULL, HeadOf(s.free), HeadFoot(s)) ==
            LinkIn(w, Appended(s, hi'), 0, s.hi - 1)
  {
    AppendFits(s, hi', |w|);
    var t := Appended(s, hi');
    LinkCells(t, |w|, 0, s.hi - 1);
    if s.free != [] {
      Bracketed(s, |w|, s.free[0]);
      assert Foot(t.blocks, s.free[0]) == Foot(s.blocks, s.free[0]);
    }
  }

  lemma AppendedFields(s: Arena, hi': int)
    ensures Appended(s, hi').hi == hi' && Appended(s, hi').lo == s.lo && Appended(s, hi').free == s.free
  {
  }

  lemma AppendFenced(w: seq<int>, s: Arena, hi': int, w': seq<int>)
    requires Fits(s, |w|) && Fenced(w, s)
    requires s.hi + 4 <= hi' <= |w|
    requires forall x :: x in s.free ==> x in s.blocks && x != 0
    requires FreeEnding(s, s.free, s.hi - 1) == 0
    requires s.hi - 1 !in s.free
    requires Fits(Appended(s, hi'), |w|) && s.hi - 1 in Appended(s, hi').blocks
    requires w' == LinkIn(w, Appended(s, hi'), 0, s.hi - 1)[hi' - 1 := USED]
    requires Fits(Grow(s, hi'), |w'|)
    ensures Fenced(w', Grow(s, hi'))
  {
    hide LinkIn;
    LinkInFence(w, Appended(s, hi'), 0, s.hi - 1);
  }

  lemma AppendFrames(w: seq<int>, z: seq<int>, s: Arena, hi': int, w': seq<int>, b: int)
    requires s.Valid() && |w| == |z| && Fits(s, |w|) && b in s.blocks && b !in s.free
    requires s.hi + 4 <= hi' <= |w| && FreeEnding(s, s.free, s.hi - 1) == 0
    requires Fits(Appended(s, hi'), |w|) && s.hi - 1 in Appended(s, hi').blocks
    requires w' == LinkIn(w, Appended(s, hi'), 0, s.hi - 1)[hi' - 1 := USED]
    ensures |w'| == |w| && SameCells(w, w', s, b)
    ensures SameCells(z, AppendSizes(z, s, hi'), s, b)
  {
    hide LinkIn, FreeEnding, AppendSizes;
    AppendFits(s, hi', |w|);
    AppendFrame(w, Appended(s, hi'), s.hi - 1, w', b);
    AppendSizesFrame(z, s, hi', b);
    assert Foot(Appended(s, hi').blocks, b) == Foot(s.blocks, b);
  }

  lemma LiveKeptSelf(w: seq<int>, z: seq<int>, s: Arena)
    requires |w| == |z| && Fits(s, |w|)
    ensures LiveKept(w, z, s, w, z)
  {
  }

  lemma EndFoot(s: Arena, p: int)
    requires p in s.blocks
    ensures End(s.blocks, p) == Foot(s.blocks, p) + 1 == p + 2 + s.blocks[p]
  {
  }

  lemma GrowHead(s: Arena, hi': int)
    requires forall x :: x in s.free ==> x in s.blocks && x != 0
    ensures Grow(s, hi').hi == hi'
    ensures HeadOf(Grow(s, hi').free) ==
              if FreeEnding(s, s.free, s.hi - 1) != 0 then HeadOf(s.free) else s.hi - 1
  {
  }

  lemma SplitIs(size: int, u: int)
    ensures Splits(size, u) <==> 16 * (size - u) > 16 + 16 + 8
  {
  }

  lemma CutSizesAre(z: seq<int>, s: Arena, a: int, u: int)
    requires Fits(s, |z|) && a in s.blocks && 0 <= u && u + 2 <= s.blocks[a]
    ensures 0 < a && a + 2 + s.blocks[a] <= |z| && Foot(s.blocks, a) == a + 1 + s.blocks[a]
    ensures CutSizes(z, s, a, u) ==
              z[a := u][a + 1 + u := u][a + 2 + u := s.blocks[a] - u - 2][Foot(s.blocks, a) := s.blocks[a] - u - 2]
  {
    Bracketed(s, |z|, a);
  }

  lemma NotListed(s: Arena, x: int)
    requires s.Listed() && x !in s.blocks
    ensures x !in s.free
  {
  }

  lemma PrevIs(l: seq<int>, k: nat)
    requires 0 < k <= |l|
    ensures PrevOf(l, k) == l[k - 1]
  {
  }
}
