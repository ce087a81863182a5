/** What the sequences of writes in malloc and free achieve, step after step. */
module HeapSteps {
  import opened Arenas
  import opened HeapWords
  import opened ArenaRuns

  lemma LiveKeptTrans(w: seq<int>, z: seq<int>, s: Arena, w1: seq<int>, z1: seq<int>, t: Arena, w2: seq<int>,
      z2: seq<int>)
    requires LiveKept(w, z, s, w1, z1) && LiveKept(w1, z1, t, w2, z2)
    requires forall b {:trigger s.IsLive(b)} :: s.IsLive(b) ==> t.IsLive(b) && t.blocks[b] == s.blocks[b]
    ensures LiveKept(w, z, s, w2, z2)
  {
    forall b | s.IsLive(b) ensures b in s.blocks && SameCells(w, w2, s, b) && SameCells(z, z2, s, b) {
      assert t.IsLive(b) && Foot(t.blocks, b) == Foot(s.blocks, b);
      Bracketed(s, |w|, b);
      Bracketed(t, |w|, b);
      SameCellsTrans(w, w1, w2, s, t, b);
      SameCellsTrans(z, z1, z2, s, t, b);
    }
    LiveKeptOf(w, z, s, w2, z2);
  }

  lemma SameCellsTrans(w: seq<int>, w1: seq<int>, w2: seq<int>, s: Arena, t: Arena, b: int)
    requires |w| == |w1| == |w2| && Fits(s, |w|) && Fits(t, |w|) && b in s.blocks && b in t.blocks
    requires s.blocks[b] == t.blocks[b] && SameCells(w, w1, s, b) && SameCells(w1, w2, t, b)
    ensures SameCells(w, w2, s, b)
  {
    Bracketed(s, |w|, b);
  }

  // ----- malloc: cutting

  /** The writes that shorten block `a` (footer at `foot`) to u cells and tag the rest. */
  lemma CutDone(w: seq<int>, z: seq<int>, s: Arena, k: nat, u: int, w': seq<int>, z': seq<int>)
    requires Represents(w, z, s, {}) && Fits(s, |w|) && |z| == |w| && Fenced(w, s)
    requires k < |s.free| && s.free[k] in s.blocks && 0 <= u && u + 2 <= s.blocks[s.free[k]]
    requires 0 <= s.free[k] + 1 + u < |w|
    requires w' == w[s.free[k] + 1 + u := PrevOf(s.free, k)]
    requires z' == CutSizes(z, s, s.free[k], u)
    ensures Represents(w', z', Cut(s, s.free[k], u), {s.free[k] + 2 + u})
    ensures Fits(Cut(s, s.free[k], u), |w'|) && Fenced(w', Cut(s, s.free[k], u))
    ensures LiveKept(w, z, s, w', z')
  {
    hide *;
    var a := s.free[k];
    CutRepresents(w, z, s, k, u);
    RepresentsFits(w', z', Cut(s, a, u), {a + 2 + u});
    CutFenced(w, s, k, u);
    CutSized'(z, s, a, u, w);
    forall b | s.IsLive(b) ensures b in s.blocks && SameCells(w, w', s, b) && SameCells(z, z', s, b) {
      IsLiveIn(s, b);
      InFree(s, k);
      CutFrame(w, s, k, u, b);
      CutSizesFrame(z, s, a, u, b);
    }
    LiveKeptOf(w, z, s, w', z');
  }

  lemma InFree(s: Arena, k: nat)
    requires k < |s.free|
    ensures s.free[k] in s.free
  {
  }

  lemma CutSized'(z: seq<int>, s: Arena, a: int, u: int, w: seq<int>)
    requires Fits(s, |z|) && a in s.blocks && 0 <= u && u + 2 <= s.blocks[a]
    ensures |CutSizes(z, s, a, u)| == |z|
  {
  }

  lemma CutSizesFrame(z: seq<int>, s: Arena, a: int, u: int, b: int)
    requires Fits(s, |z|) && a in s.blocks && 0 <= u && u + 2 <= s.blocks[a] && b in s.blocks && b != a
    ensures SameCells(z, CutSizes(z, s, a, u), s, b)
  {
    Bracketed(s, |z|, a);
    Bracketed(s, |z|, b);
  }

  lemma CutFenced(w: seq<int>, s: Arena, k: nat, u: int)
    requires Fits(s, |w|) && Fenced(w, s) && k < |s.free| && s.free[k] in s.blocks
    requires 0 <= u && u + 2 <= s.blocks[s.free[k]] && 0 <= s.free[k] + 1 + u < |w|
    requires Fits(Cut(s, s.free[k], u), |w|)
    ensures Fenced(w[s.free[k] + 1 + u := PrevOf(s.free, k)], Cut(s, s.free[k], u))
  {
    Bracketed(s, |w|, s.free[k]);
  }

  // ----- Linking a block in or out keeps sentinels and live blocks

  lemma InsertDone(w: seq<int>, z: seq<int>, s: Arena, loose: set<int>, k: nat, x: int)
    requires Represents(w, z, s, loose) && Fits(s, |w|) && |z| == |w| && Fenced(w, s)
    requires k <= |s.free| && x in s.blocks && x !in s.free
    ensures Represents(LinkIn(w, s, k, x), z, s.(free := Inserted(s.free, k, x)), loose - {x})
    ensures Fits(s.(free := Inserted(s.free, k, x)), |w|)
    ensures Fenced(LinkIn(w, s, k, x), s.(free := Inserted(s.free, k, x)))
    ensures LiveKept(w, z, s.(free := Inserted(s.free, k, x)), LinkIn(w, s, k, x), z)
  {
    hide *;
    var t := s.(free := Inserted(s.free, k, x));
    var w' := LinkIn(w, s, k, x);
    InsertRepresents(w, z, s, loose, k, x);
    RepresentsFits(w', z, t, loose - {x});
    FencedLink(w, s, k, x);
    InsertedLive(s, k, x);
    forall b | t.IsLive(b) ensures b in t.blocks && SameCells(w, w', t, b) && SameCells(z, z, t, b) {
      LinkInFrame(w, s, k, x, b);
      SameCellsFree(w, w', s, t, b);
      SameCellsSelf(z, t, b);
    }
    LiveKeptOf(w, z, t, w', z);
  }

  lemma SameCellsSelf(z: seq<int>, t: Arena, b: int)
    requires Fits(t, |z|) && b in t.blocks
    ensures SameCells(z, z, t, b)
  {
    Bracketed(t, |z|, b);
  }

  lemma SameCellsFree(w: seq<int>, w': seq<int>, s: Arena, t: Arena, b: int)
    requires |w| == |w'| && Fits(s, |w|) && Fits(t, |w|) && s.blocks == t.blocks && b in s.blocks
    requires SameCells(w, w', s, b)
    ensures SameCells(w, w', t, b)
  {
    Bracketed(s, |w|, b);
  }

  lemma InsertedLive(s: Arena, k: nat, x: int)
    requires s.Listed() && k <= |s.free| && x in s.blocks && x !in s.free
    ensures forall b {:trigger s.(free := Inserted(s.free, k, x)).IsLive(b)} ::
            s.(free := Inserted(s.free, k, x)).IsLive(b) <==> b in s.blocks && b !in s.free && b != x
  {
    InsertedListed(s, k, x);
  }

  lemma FencedLink(w: seq<int>, s: Arena, k: nat, x: int)
    requires Fits(s, |w|) && Fenced(w, s) && k <= |s.free| && x in s.blocks && x !in s.free
    requires Fits(s.(free := Inserted(s.free, k, x)), |w|)
    ensures s.Listed()
    ensures |LinkIn(w, s, k, x)| == |w| && Fenced(LinkIn(w, s, k, x), s.(free := Inserted(s.free, k, x)))
  {
    hide LinkIn;
    LinkInFence(w, s, k, x);
  }

  lemma RemoveDone(w: seq<int>, z: seq<int>, s: Arena, loose: set<int>, k: nat)
    requires Represents(w, z, s, loose) && Fits(s, |w|) && |z| == |w| && Fenced(w, s) && k < |s.free|
    ensures Represents(LinkOut(w, s, k), z, s.(free := Removed(s.free, k)), loose + {s.free[k]})
    ensures Fits(s.(free := Removed(s.free, k)), |w|)
    ensures Fenced(LinkOut(w, s, k), s.(free := Removed(s.free, k)))
    ensures LiveKept(w, z, s, LinkOut(w, s, k), z)
  {
    hide *;
    var t := s.(free := Removed(s.free, k));
    var w' := LinkOut(w, s, k);
    RemoveRepresents(w, z, s, loose, k);
    RepresentsFits(w', z, t, loose + {s.free[k]});
    FencedUnlink(w, s, k);
    forall b | s.IsLive(b) ensures b in s.blocks && SameCells(w, w', s, b) && SameCells(z, z, s, b) {
      IsLiveIn(s, b);
      LinkOutFrame(w, s, k, b);
      SameCellsSelf(z, s, b);
    }
    LiveKeptOf(w, z, s, w', z);
  }

  lemma FencedUnlink(w: seq<int>, s: Arena, k: nat)
    requires Fits(s, |w|) && Fenced(w, s) && k < |s.free|
    requires Fits(s.(free := Removed(s.free, k)), |w|)
    ensures |LinkOut(w, s, k)| == |w| && Fenced(LinkOut(w, s, k), s.(free := Removed(s.free, k)))
  {
    hide LinkOut;
    LinkOutFence(w, s, k);
  }

  lemma MarkDone(w: seq<int>, z: seq<int>, s: Arena, a: int, w': seq<int>)
    requires Represents(w, z, s, {a}) && Fits(s, |w|) && |z| == |w| && Fenced(w, s)
    requires a in s.blocks && a !in s.free && 0 <= a < |w| && 0 <= Foot(s.blocks, a) < |w|
    requires w' == w[a := USED][Foot(s.blocks, a) := USED]
    ensures Represents(w', z, s, {}) && Fenced(w', s)
    ensures forall b :: b in s.blocks && b != a ==> SameCells(w, w', s, b)
  {
    MarkRepresents(w, z, s, a);
    Bracketed(s, |w|, a);
  }

  // ----- malloc: handing out the k-th free block

  lemma TakeIsSplit(s: Arena, k: nat, u: int)
    requires k < |s.free| && s.free[k] in s.blocks && Splits(s.blocks[s.free[k]], u)
    ensures Take(s, k, u) == Cut(s, s.free[k], u).(free := Removed(Inserted(s.free, k + 1, s.free[k] + 2 + u), k))
    ensures Inserted(s.free, k + 1, s.free[k] + 2 + u)[k] == s.free[k]
    ensures |Inserted(s.free, k + 1, s.free[k] + 2 + u)| == |s.free| + 1
  {
  }

  lemma TakeIsWhole(s: Arena, k: nat, u: int)
    requires k < |s.free| && s.free[k] in s.blocks && !Splits(s.blocks[s.free[k]], u)
    ensures Take(s, k, u) == s.(free := Removed(s.free, k))
  {
  }

  lemma CutFields(s: Arena, a: int, u: int)
    requires a in s.blocks && u >= 0 && a + 2 + u !in s.blocks
    ensures Cut(s, a, u).free == s.free && Cut(s, a, u).hi == s.hi && Cut(s, a, u).lo == s.lo
    ensures a in Cut(s, a, u).blocks && a + 2 + u in Cut(s, a, u).blocks && Cut(s, a, u).blocks[a] == u
    ensures forall b {:trigger b in s.blocks} :: b in s.blocks && b != a ==>
              b in Cut(s, a, u).blocks && Cut(s, a, u).blocks[b] == s.blocks[b]
  {
  }

  /** Unlinking the k-th free block and marking it used. */
  lemma TakeOutDone(w: seq<int>, z: seq<int>, s: Arena, k: nat, w1: seq<int>, w2: seq<int>)
    requires Represents(w, z, s, {}) && Fits(s, |w|) && |z| == |w| && Fenced(w, s) && k < |s.free|
             && s.free[k] in s.blocks
    requires w1 == LinkOut(w, s, k)
    requires 0 <= s.free[k] < |w1| && 0 <= Foot(s.blocks, s.free[k]) < |w1|
    requires w2 == w1[s.free[k] := USED][Foot(s.blocks, s.free[k]) := USED]
    ensures Represents(w2, z, s.(free := Removed(s.free, k)), {})
    ensures Fits(s.(free := Removed(s.free, k)), |w2|) && Fenced(w2, s.(free := Removed(s.free, k)))
    ensures LiveKept(w, z, s, w2, z)
  {
    hide *;
    var a := s.free[k];
    var t := s.(free := Removed(s.free, k));
    RemoveDone(w, z, s, {}, k);
    FitsListed(s, |w|);
    RemovedListed(s, k);
    assert {} + {a} == {a};
    MarkDone(w1, z, t, a, w2);
    RepresentsFits(w2, z, t, {});
    RemovedLive(s, k);
    forall b | t.IsLive(b) && b != a ensures b in t.blocks && SameCells(w1, w2, t, b) && SameCells(z, z, t, b) {
      IsLiveIn(t, b);
      SameCellsSelf(z, t, b);
    }
    forall b | s.IsLive(b) ensures b in s.blocks && SameCells(w, w2, s, b) && SameCells(z, z, s, b) {
      IsLiveIn(s, b);
      LinkOutFrame(w, s, k, b);
      SameCellsTrans(w, w1, w2, s, t, b);
      SameCellsSelf(z, s, b);
    }
    LiveKeptOf(w, z, s, w2, z);
  }

  lemma RemovedLive(s: Arena, k: nat)
    requires s.Listed() && k < |s.free|
    ensures forall b {:trigger s.IsLive(b)} :: s.IsLive(b) ==>
            s.(free := Removed(s.free, k)).IsLive(b) && b != s.free[k]
    ensures forall b {:trigger s.(free := Removed(s.free, k)).IsLive(b)} ::
              s.(free := Removed(s.free, k)).IsLive(b) && b != s.free[k] ==> s.IsLive(b)
  {
    RemovedListed(s, k);
    assert s.free[k] in s.free;
  }

  /** Listing the rest of a cut block leaves the live blocks as they were. */
  lemma CutLive(s: Arena, k: nat, u: int)
    requires s.Listed() && k < |s.free| && s.free[k] in s.blocks && u >= 0
    requires s.free[k] + 2 + u !in s.blocks && s.free[k] + 2 + u !in s.free
    ensures var t := Cut(s, s.free[k], u).(free := Inserted(s.free, k + 1, s.free[k] + 2 + u));
            forall b {:trigger s.IsLive(b)} {:trigger t.IsLive(b)} ::
              (s.IsLive(b) <==> t.IsLive(b)) && (s.IsLive(b) ==> t.blocks[b] == s.blocks[b])
  {
    var l := Inserted(s.free, k + 1, s.free[k] + 2 + u);
    assert s.free == s.free[..k + 1] + s.free[k + 1..];
    assert forall y :: y in l <==> y == s.free[k] + 2 + u || y in s.free;
    assert s.free[k] in s.free;
  }

  lemma HeadInserted(l: seq<int>, k: nat, x: int)
    requires 0 < k <= |l|
    ensures HeadOf(Inserted(l, k, x)) == HeadOf(l)
  {
  }

  lemma HeadRemoved(l: seq<int>, k: nat)
    requires k < |l|
    ensures HeadOf(Removed(l, k)) == if k == 0 then NextOf(l, 0) else HeadOf(l)
    ensures 0 < k ==> PrevOf(l, k) == l[k - 1]
    ensures k == 0 ==> PrevOf(l, k) == NULL
  {
  }

  // ----- free: coalescing

  /** Like LiveKept, for the blocks off the list other than `x`. */
  ghost predicate KeptExcept(w: seq<int>, z: seq<int>, s: Arena, x: int, w': seq<int>, z': seq<int>) {
    && |w| == |z| == |w'| == |z'| && Fits(s, |w|)
    && forall b {:trigger b in s.blocks} :: b in s.blocks && b !in s.free && b != x ==>
         SameCells(w, w', s, b) && SameCells(z, z', s, b)
  }

  lemma KeptExceptOf(w: seq<int>, z: seq<int>, s: Arena, x: int, w': seq<int>, z': seq<int>)
    requires |w| == |z| == |w'| == |z'| && Fits(s, |w|)
    requires forall b {:trigger b in s.blocks} :: b in s.blocks && b !in s.free && b != x ==>
               SameCells(w, w', s, b) && SameCells(z, z', s, b)
    ensures KeptExcept(w, z, s, x, w', z')
  {
    hide Fits, SameCells;
  }

  /** Blocks kept by an unlinking of the k-th member and then by writes around it stay as they were. */
  lemma KeptTrans(w: seq<int>, z: seq<int>, s: Arena, k: nat, w1: seq<int>, w2: seq<int>, z2: seq<int>)
    requires LiveKept(w, z, s, w1, z) && k < |s.free| && s.Listed()
    requires KeptExcept(w1, z, s.(free := Removed(s.free, k)), s.free[k], w2, z2)
    ensures LiveKept(w, z, s, w2, z2)
  {
    var t := s.(free := Removed(s.free, k));
    RemovedListed(s, k);
    forall b | s.IsLive(b) ensures b in s.blocks && SameCells(w, w2, s, b) && SameCells(z, z2, s, b) {
      assert s.free[k] in s.free;
      assert b in t.blocks && b !in t.free && b != s.free[k];
      Bracketed(s, |w|, b);
      SameCellsTrans(w, w1, w2, s, t, b);
      SameCellsTrans(z, z, z2, s, t, b);
    }
    LiveKeptOf(w, z, s, w2, z2);
  }

  /** The writes that let block `p` below the list's head take its place. */
  function BelowRaw(w: seq<int>, p: int, foot: int, next: int, nextFoot: int): (w': seq<int>)
    requires 0 <= p < |w| && 0 <= foot < |w| && 0 <= nextFoot < |w|
    ensures |w'| == |w|
  {
    var w1 := w[foot := NULL][p := next];
    if next != NULL then w1[nextFoot := p] else w1
  }

  lemma BelowRawIs(w: seq<int>, z: seq<int>, s: Arena, p: int)
    requires Represents(w, z, s, {p}) && s.free != [] && p in s.blocks && p !in s.free
    ensures s.free[0] in s.blocks && 0 < s.free[0] < Foot(s.blocks, s.free[0]) < |w| && 0 < p < |w|
    ensures z[s.free[0]] == s.blocks[s.free[0]] && z[p] == s.blocks[p]
    ensures w[s.free[0]] == NextOf(s.free, 0)
    ensures NextOf(s.free, 0) != NULL ==>
              && 0 < NextOf(s.free, 0) < |w| && NextOf(s.free, 0) != p && NextOf(s.free, 0) != Foot(s.blocks, s.free[0])
              && 0 < NextOf(s.free, 0) + 1 + z[NextOf(s.free, 0)] == NextFoot(s, 0) < |w|
    ensures NextOf(s.free, 0) == NULL ==> NextFoot(s, 0) == 0
    ensures 0 <= NextFoot(s, 0) < |w|
    ensures BelowRaw(w, p, Foot(s.blocks, s.free[0]), NextOf(s.free, 0), NextFoot(s, 0)) == BelowWords(w, s, p)
  {
    Bracketed(s, |w|, p);
    assert s.free[0] in s.blocks;
    Bracketed(s, |w|, s.free[0]);
    if |s.free| > 1 {
      assert s.free[1] in s.blocks && s.free[1] in s.free;
      Bracketed(s, |w|, s.free[1]);
    }
  }

  lemma BelowDone(w: seq<int>, z: seq<int>, s: Arena, p: int, w': seq<int>, z': seq<int>)
    requires Represents(w, z, s, {p}) && Fits(s, |w|) && |z| == |w| && Fenced(w, s)
    requires s.free != [] && s.free[0] in s.blocks && p in s.blocks && p !in s.free && End(s.blocks, p) == s.free[0]
    requires w' == BelowWords(w, s, p) && z' == AbsorbSizes(z, s, p, s.free[0])
    ensures Represents(w', z', Absorbed(s, p, s.free[0], [p] + s.free[1..]), {})
    ensures Fits(Absorbed(s, p, s.free[0], [p] + s.free[1..]), |w'|)
    ensures Fenced(w', Absorbed(s, p, s.free[0], [p] + s.free[1..]))
    ensures KeptExcept(w, z, s, p, w', z')
  {
    hide *;
    var a := s.free[0];
    var t := Absorbed(s, p, a, [p] + s.free[1..]);
    BelowRepresents(w, z, s, p);
    SizesLength(z, s, p, a);
    RepresentsFits(w', z', t, {});
    BelowFenced(w, s, p);
    forall b | b in s.blocks && b !in s.free && b != p ensures SameCells(w, w', s, b) && SameCells(z, z', s, b) {
      BelowFrame(w, s, p, b);
      AbsorbFrame(z, s, p, a, b);
    }
    KeptExceptOf(w, z, s, p, w', z');
  }

  lemma SizesLength(z: seq<int>, s: Arena, h: int, n: int)
    requires Fits(s, |z|) && h in s.blocks && n in s.blocks
    ensures |AbsorbSizes(z, s, h, n)| == |z|
  {
  }

  lemma BelowFenced(w: seq<int>, s: Arena, p: int)
    requires Fits(s, |w|) && Fenced(w, s) && s.free != [] && s.free[0] in s.blocks && p in s.blocks && p !in s.free
    requires Fits(Absorbed(s, p, s.free[0], [p] + s.free[1..]), |w|)
    ensures |BelowWords(w, s, p)| == |w| && Fenced(BelowWords(w, s, p), Absorbed(s, p, s.free[0], [p] + s.free[1..]))
  {
    hide BelowWords;
    BelowCells(w, s, p);
    Bracketed(s, |w|, p);
    Bracketed(s, |w|, s.free[0]);
    if |s.free| > 1 {
      Bracketed(s, |w|, s.free[1]);
    }
  }

  lemma AboveDone(w: seq<int>, z: seq<int>, s: Arena, n: int, w': seq<int>, z': seq<int>)
    requires Represents(w, z, s, {n}) && Fits(s, |w|) && |z| == |w| && Fenced(w, s)
    requires s.free != [] && s.free[0] in s.blocks && n in s.blocks && n !in s.free && End(s.blocks, s.free[0]) == n
    requires 0 <= Foot(s.blocks, n) < |w|
    requires w' == w[Foot(s.blocks, n) := NULL] && z' == AbsorbSizes(z, s, s.free[0], n)
    ensures Represents(w', z', Absorbed(s, s.free[0], n, s.free), {})
    ensures Fits(Absorbed(s, s.free[0], n, s.free), |w'|) && Fenced(w', Absorbed(s, s.free[0], n, s.free))
    ensures KeptExcept(w, z, s, n, w', z')
  {
    hide *;
    var h := s.free[0];
    var t := Absorbed(s, h, n, s.free);
    AboveRepresents(w, z, s, n);
    SizesLength(z, s, h, n);
    RepresentsFits(w', z', t, {});
    AboveFenced(w, s, n);
    forall b | b in s.blocks && b !in s.free && b != n ensures SameCells(w, w', s, b) && SameCells(z, z', s, b) {
      InFree(s, 0);
      AboveFrame(w, s, n, b);
      AbsorbFrame(z, s, h, n, b);
    }
    KeptExceptOf(w, z, s, n, w', z');
  }

  lemma AboveFenced(w: seq<int>, s: Arena, n: int)
    requires Fits(s, |w|) && Fenced(w, s) && s.free != [] && s.free[0] in s.blocks && n in s.blocks
    requires 0 <= Foot(s.blocks, n) < |w|
    requires Fits(Absorbed(s, s.free[0], n, s.free), |w|)
    ensures Fenced(w[Foot(s.blocks, n) := NULL], Absorbed(s, s.free[0], n, s.free))
  {
    Bracketed(s, |w|, n);
  }

  // ----- free: which neighbours are free

  lemma HeaderTag(w: seq<int>, z: seq<int>, s: Arena, n: int)
    requires Represents(w, z, s, {}) && n in s.blocks
    ensures 0 <= n < |w| && (w[n] != USED <==> n in s.free)
  {
    Bracketed(s, |w|, n);
    if n in s.free {
      FreeLinksSmall(w, s, n);
    }
  }

  lemma NextDoor(s: Arena, h: int)
    requires s.Tiled() && h in s.blocks
    ensures End(s.blocks, h) in s.blocks || End(s.blocks, h) == s.hi - 1
    ensures End(s.blocks, h) > h
  {
  }

  lemma TopUnlisted(w: seq<int>, s: Arena)
    requires Fits(s, |w|) && Fenced(w, s)
    ensures 0 <= s.lo < s.hi - 1 < |w| && w[s.hi - 1] == USED && w[s.lo] == USED && s.hi - 1 !in s.blocks
  {
    InBounds(s, s.hi - 1);
  }

  /** The word just above block `h` is unmarked exactly when a free block starts there. */
  lemma NeighbourAbove(w: seq<int>, z: seq<int>, s: Arena, h: int)
    requires Represents(w, z, s, {}) && Fits(s, |w|) && Fenced(w, s) && h in s.blocks
    ensures 0 <= End(s.blocks, h) < |w| && End(s.blocks, h) != h
    ensures w[End(s.blocks, h)] != USED <==> End(s.blocks, h) in s.blocks && End(s.blocks, h) in s.free
  {
    hide *;
    FitsListed(s, |w|);
    NextDoor(s, h);
    TopUnlisted(w, s);
    if End(s.blocks, h) in s.blocks {
      HeaderTag(w, z, s, End(s.blocks, h));
    }
  }

  lemma LowestAlone(s: Arena)
    requires s.Tiled() && s.Listed()
    ensures forall x :: x in s.free ==> x in s.blocks && x != 0
    ensures FreeEnding(s, s.free, s.lo + 1) == 0
    ensures s.lo + 1 in s.blocks && forall x :: x in s.blocks ==> s.lo + 1 <= x
  {
    forall x | x in s.free ensures x in s.blocks && x != 0 {
      ListedIn(s, x);
    }
  }

  /** The word below block `a` is unmarked exactly when a free block ends at `a`; the sentinel is marked. */
  lemma NeighbourBelow(w: seq<int>, z: seq<int>, s: Arena, a: int) returns (p: int)
    requires Represents(w, z, s, {}) && Fits(s, |w|) && Fenced(w, s) && a in s.blocks
    ensures 0 <= a - 1 < |w| && forall x :: x in s.free ==> x in s.blocks && x != 0
    ensures w[a - 1] != USED <==> FreeEnding(s, s.free, a) != 0
    ensures FreeEnding(s, s.free, a) != 0 ==> p == FreeEnding(s, s.free, a)
    ensures FreeEnding(s, s.free, a) != 0 ==> p in s.free && p in s.blocks && p + 2 + s.blocks[p] == a
    ensures FreeEnding(s, s.free, a) != 0 ==> p < a && |z| == |w| && z[a - 1] == s.blocks[p]
  {
    hide *;
    FitsListed(s, |w|);
    LowestAlone(s);
    TopUnlisted(w, s);
    p := 0;
    if a != s.lo + 1 {
      p := LowerNeighbour(s, a, s.lo + 1);
      EndFoot(s, p);
      FooterBelow(w, z, s, p);
      EndingIs(s, p);
      RepresentsFits(w, z, s, {});
    }
  }

  /** A list without a member behind its head. */
  lemma RemovedTail(l: seq<int>, j: nat)
    requires Distinct(l) && 0 < j < |l|
    ensures var r := Removed(l, j);
            && r != [] && r[0] == l[0] && r[1..] == Without(l[1..], l[j]) && r == [l[0]] + Without(l[1..], l[j])
  {
    assert l[1..][j - 1] == l[j];
    WithoutAt(l[1..], j - 1);
    assert Removed(l, j)[1..] == l[1..][..j - 1] + l[1..][j..];
  }

  /** The position of the neighbour in the list, and the list without it. */
  lemma JoinBelowIs(s: Arena, p: int) returns (j: nat)
    requires s.Listed() && s.free != [] && p in s.free && p != s.free[0] && p in s.blocks && s.free[0] in s.blocks
    requires forall x :: x in s.free ==> x in s.blocks && x != 0
    requires FreeEnding(s, s.free, s.free[0]) == p != 0
    ensures 0 < j < |s.free| && s.free[j] == p
    ensures var l := Removed(s.free, j);
            && l != [] && l[0] == s.free[0] && p !in l
            && JoinBelow(s) == Absorbed(s.(free := l), p, s.free[0], [p] + l[1..])
  {
    hide FreeEnding, Without, Removed, End;
    j :| 0 <= j < |s.free| && s.free[j] == p;
    RemovedTail(s.free, j);
    RemovedListed(s, j);
  }

  lemma JoinAboveIs(s: Arena, n: int) returns (j: nat)
    requires s.Listed() && s.free != [] && s.free[0] in s.blocks && n in s.free && n in s.blocks && n != s.free[0]
    requires forall x :: x in s.free ==> x in s.blocks && x != 0
    requires End(s.blocks, s.free[0]) == n
    ensures 0 < j < |s.free| && s.free[j] == n
    ensures var l := Removed(s.free, j);
            && l != [] && l[0] == s.free[0] && n !in l
            && JoinAbove(s) == Absorbed(s.(free := l), s.free[0], n, l)
  {
    hide FreeEnding, Without, Removed, End;
    j :| 0 <= j < |s.free| && s.free[j] == n;
    RemovedTail(s.free, j);
    RemovedListed(s, j);
  }

  lemma JoinNothing(s: Arena)
    requires s.free != [] && s.free[0] in s.blocks && forall x :: x in s.free ==> x in s.blocks && x != 0
    ensures FreeEnding(s, s.free, s.free[0]) == 0 ==> JoinBelow(s) == s
    ensures !(End(s.blocks, s.free[0]) in s.blocks && End(s.blocks, s.free[0]) in s.free) ==> JoinAbove(s) == s
  {
  }

  lemma AbsorbedFields(s: Arena, h: int, n: int, l: seq<int>)
    requires h in s.blocks && n in s.blocks
    ensures Absorbed(s, h, n, l).hi == s.hi && Absorbed(s, h, n, l).free == l
    ensures h in Absorbed(s, h, n, l).blocks && Absorbed(s, h, n, l).blocks[h] == s.blocks[h] + s.blocks[n] + 2
  {
  }

  lemma AbsorbSizesAre(z: seq<int>, s: Arena, h: int, n: int)
    requires Fits(s, |z|) && h in s.blocks && n in s.blocks
    ensures 0 < h < |z| && 0 < n < Foot(s.blocks, n) < |z| && Foot(s.blocks, n) == n + 1 + s.blocks[n]
    ensures AbsorbSizes(z, s, h, n) ==
              z[h := s.blocks[h] + s.blocks[n] + 2][n + 1 + s.blocks[n] := s.blocks[h] + s.blocks[n] + 2]
  {
    Bracketed(s, |z|, h);
    Bracketed(s, |z|, n);
  }

  lemma HeadIs(l: seq<int>)
    ensures l != [] ==> HeadOf(l) == l[0]
  {
  }

  lemma TagSizes(w: seq<int>, z: seq<int>, s: Arena, loose: set<int>, a: int)
    requires Represents(w, z, s, loose) && a in s.blocks
    ensures 0 < a < Foot(s.blocks, a) < |z| && z[a] == s.blocks[a] == z[Foot(s.blocks, a)]
  {
    Bracketed(s, |w|, a);
  }

  lemma KeptExceptSelf(w: seq<int>, z: seq<int>, s: Arena, x: int)
    requires |w| == |z| && Fits(s, |w|)
    ensures KeptExcept(w, z, s, x, w, z)
  {
  }

  lemma PrevIsNull(l: seq<int>)
    ensures PrevOf(l, 0) == NULL == 0
    ensures AtOf(l, 0) == HeadOf(l)
  {
  }

  lemma InsertedAtHead(l: seq<int>, x: int)
    ensures Inserted(l, 0, x) == [x] + l
  {
  }

  /** The stages of a release: pushed, joined below, joined above. */
  lemma ReleaseSteps(s: Arena, a: int)
    requires s.Valid() && s.IsLive(a)
    ensures var s1 := s.(free := [a] + s.free);
            && s1.free[0] == a && a in s1.blocks
            && (forall x :: x in s1.free ==> x in s1.blocks && x != 0)
            && JoinBelow(s1).free != [] && JoinBelow(s1).free[0] in JoinBelow(s1).blocks
            && (forall x :: x in JoinBelow(s1).free ==> x in JoinBelow(s1).blocks && x != 0)
            && Release(s, a) == JoinAbove(JoinBelow(s1))
            && End(JoinBelow(s1).blocks, JoinBelow(s1).free[0]) == End(s.blocks, a)
  {
    PushListed(s, a);
    JoinBelowListed(s.(free := [a] + s.free));
    JoinBelowLive(s, a);
  }

  lemma JoinBelowLive(s: Arena, a: int)
    requires s.Valid() && s.IsLive(a)
    requires forall x :: x in s.(free := [a] + s.free).free ==> x in s.blocks && x != 0
    ensures var t := JoinBelow(s.(free := [a] + s.free));
            && t.free != [] && t.free[0] in t.blocks
            && End(t.blocks, t.free[0]) == End(s.blocks, a)
            && forall b {:trigger b in s.blocks} {:trigger t.IsLive(b)} ::
                 (b in s.blocks && b !in s.free && b != a <==> t.IsLive(b))
                     && (t.IsLive(b) ==> t.blocks[b] == s.blocks[b])
  {
    PushListed(s, a);
    var s1 := s.(free := [a] + s.free);
    var p := FreeEnding(s1, s1.free, a);
    if p != 0 {
      AbsorbTiled(s1, p, a);
      AbsorbListed(s1, p, a, p);
    }
  }

  lemma EmptyMinus(x: int)
    ensures {} - {x} == {}
  {
  }

  /** The live blocks other than the freed one stay as they were through all stages of a release. */
  lemma FreeKept(s: Arena, a: int, w: seq<int>, z: seq<int>, w1: seq<int>, w2: seq<int>, z2: seq<int>, w3: seq<int>,
      z3: seq<int>)
    requires s.Valid() && s.IsLive(a) && |w| == |z| && Fits(s, |w|)
    requires forall x :: x in s.(free := [a] + s.free).free ==> x in s.blocks && x != 0
    requires LiveKept(w, z, s.(free := [a] + s.free), w1, z)
    requires LiveKept(w1, z, s.(free := [a] + s.free), w2, z2)
    requires LiveKept(w2, z2, JoinBelow(s.(free := [a] + s.free)), w3, z3)
    ensures KeptExcept(w, z, s, a, w3, z3)
  {
    hide *;
    var s1 := s.(free := [a] + s.free);
    JoinBelowLive(s, a);
    PushedLive(s, a);
    LiveKeptTrans(w, z, s1, w1, z, s1, w2, z2);
    LiveKeptTrans(w, z, s1, w2, z2, JoinBelow(s1), w3, z3);
    LiveKeptParts(w, z, s1, w3, z3);
    forall b {:trigger b in s.blocks} | b in s.blocks && b !in s.free && b != a
        ensures SameCells(w, w3, s, b) && SameCells(z, z3, s, b) {
      SameCellsFree(w, w3, s1, s, b);
      SameCellsFree(z, z3, s1, s, b);
    }
    KeptExceptOf(w, z, s, a, w3, z3);
  }

  lemma LiveKeptParts(w: seq<int>, z: seq<int>, s: Arena, w': seq<int>, z': seq<int>)
    requires LiveKept(w, z, s, w', z')
    ensures |w| == |z| == |w'| == |z'| && Fits(s, |w|)
    ensures forall b {:trigger b in s.blocks} :: b in s.blocks && s.IsLive(b) ==>
            SameCells(w, w', s, b) && SameCells(z, z', s, b)
  {
  }

  lemma PushedLive(s: Arena, a: int)
    requires s.IsLive(a)
    ensures forall b {:trigger s.(free := [a] + s.free).IsLive(b)} {:trigger s.IsLive(b)} {:trigger b in s.blocks} ::
              s.(free := [a] + s.free).IsLive(b) <==> b in s.blocks && b !in s.free && b != a
    ensures forall b {:trigger s.IsLive(b)} :: s.IsLive(b) <==> b in s.blocks && b !in s.free
  {
  }

  // ----- Start-up and the client's own writes

  /** The first 16-byte boundary at or above the initial break, in cells. */
  function InitialBottom(brk: nat): int {
    (brk + 15) / 16
  }

  /** The first page boundary that leaves room for 1 KB, in cells. */
  function InitialTop(brk: nat): int {
    (16 * InitialBottom(brk) + 1024 + 4095) / 4096 * 256
  }

  lemma InitialRoom(brk: nat)
    ensures var bottom, top := 16 * InitialBottom(brk), 16 * InitialTop(brk);
            brk <= bottom < brk + 16 && bottom + 1024 <= top < bottom + 1024 + 4096
    ensures InitialTop(brk) % 256 == 0
  {
  }

  lemma InitialHolds(w: seq<int>, z: seq<int>, lo: int, hi: int)
    requires |w| == |z| <= USED && 0 <= lo && lo + 4 < hi <= |w|
    requires w[lo] == USED && w[hi - 1] == USED && w[lo + 1] == NULL && w[hi - 2] == NULL
    requires z[lo + 1] == hi - lo - 4 == z[hi - 2]
    ensures Holds(w, z, Initial(lo, hi))
  {
    var s := Initial(lo, hi);
    InitialValid(lo, hi);
    FitsTiled(s, |w|);
    assert s.free[0] == lo + 1 && Foot(s.blocks, lo + 1) == hi - 2;
  }

  lemma PayloadCell(w: seq<int>, s: Arena, a: int, c: int, v: int, b: int)
    requires Fits(s, |w|) && a in s.blocks && b in s.blocks && a < c < Foot(s.blocks, a)
    ensures 0 <= c < |w| && s.lo < c < s.hi - 1
    ensures w[c := v][b] == w[b] && w[c := v][Foot(s.blocks, b)] == w[Foot(s.blocks, b)]
    ensures b != a ==> SameCells(w, w[c := v], s, b)
  {
    Bracketed(s, |w|, a);
    Bracketed(s, |w|, b);
  }

  /** Payload cells carry no tag: a client may write anything there. */
  lemma PayloadHolds(w: seq<int>, z: seq<int>, s: Arena, a: int, c: int, v0: int, v1: int)
    requires Holds(w, z, s) && s.IsLive(a) && a in s.blocks && a < c <= a + s.blocks[a]
    ensures 0 <= c < |w| && |w| == |z|
    ensures Holds(w[c := v0], z[c := v1], s)
    ensures KeptExcept(w, z, s, a, w[c := v0], z[c := v1])
  {
    hide *;
    HoldsParts(w, z, s);
    EndFoot(s, a);
    PayloadCell(w, s, a, c, v0, a);
    forall b {:trigger b in s.blocks} | b in s.blocks
      ensures w[c := v0][b] == w[b] && w[c := v0][Foot(s.blocks, b)] == w[Foot(s.blocks, b)]
      ensures z[c := v1][b] == z[b] && z[c := v1][Foot(s.blocks, b)] == z[Foot(s.blocks, b)]
      ensures b != a ==> SameCells(w, w[c := v0], s, b) && SameCells(z, z[c := v1], s, b)
    {
      PayloadCell(w, s, a, c, v0, b);
      PayloadCell(z, s, a, c, v1, b);
    }
    SameTagsRepresents(w, z, s, w[c := v0], z[c := v1]);
    HoldsOf(w[c := v0], z[c := v1], s);
    KeptExceptOf(w, z, s, a, w[c := v0], z[c := v1]);
  }

  /** Only tags and sentinels matter to the representation. */
  lemma SameTagsRepresents(w: seq<int>, z: seq<int>, s: Arena, w': seq<int>, z': seq<int>)
    requires Represents(w, z, s, {}) && Fits(s, |w|) && Fenced(w, s) && |w'| == |w| == |z'|
    requires w'[s.lo] == w[s.lo] && w'[s.hi - 1] == w[s.hi - 1]
    requires forall b {:trigger b in s.blocks} :: b in s.blocks ==>
               0 <= b < |w| && 0 <= Foot(s.blocks, b) < |w| && w'[b] == w[b]
                   && w'[Foot(s.blocks, b)] == w[Foot(s.blocks, b)]
    requires forall b {:trigger b in s.blocks} :: b in s.blocks ==>
               |z| == |w| && z'[b] == z[b] && z'[Foot(s.blocks, b)] == z[Foot(s.blocks, b)]
    ensures Represents(w', z', s, {}) && Fenced(w', s)
  {
    forall k | 0 <= k < |s.free|
      ensures w'[s.free[k]] == NextOf(s.free, k) && w'[Foot(s.blocks, s.free[k])] == PrevOf(s.free, k)
    {
      assert s.free[k] in s.blocks;
    }
  }

  lemma NoneAdjacent(s: Arena, a: int)
    requires s.Valid() && a in s.blocks
    ensures Foot(s.blocks, a) + 1 in s.blocks && a in s.free ==> Foot(s.blocks, a) + 1 !in s.free
  {
    assert End(s.blocks, a) == Foot(s.blocks, a) + 1;
  }

  lemma ListWords(w: seq<int>, z: seq<int>, s: Arena)
    requires Holds(w, z, s)
    ensures |w| > s.hi - 1 > s.lo >= 0 && w[s.lo] == USED == w[s.hi - 1]
    ensures Distinct(s.free) && forall k {:trigger s.free[k]} :: 0 <= k < |s.free| ==>
              && s.free[k] in s.blocks && 0 <= s.free[k] < |w| && 0 <= Foot(s.blocks, s.free[k]) < |w|
              && w[s.free[k]] == NextOf(s.free, k) && w[Foot(s.blocks, s.free[k])] == PrevOf(s.free, k)
  {
    hide Sized, Marked, Arena.Tiled, Arena.Coalesced, NextOf, PrevOf;
  }
}
