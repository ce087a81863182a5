/** malloc and free working in place on memory. */
module Heaps {
  import opened Arenas
  import opened ArenaRuns
  import opened HeapWords
  import opened HeapSteps

  class Heap {
    const info: array<int>
    const size: array<int>
    var head_: int
    var p_brk_: int

    /** Whether the kernel will grant the k-th request to move the break, and how many there have been. */
    const kernel: nat -> bool
    var calls: nat

    /** The arena that memory represents. */
    ghost var arena: Arena

    ghost predicate Valid()
      reads this, info, size
    {
      && info != size
      && Holds(info[..], size[..], arena)
      && p_brk_ == arena.hi
      && head_ == HeadOf(arena.free)
    }

    /** Heap start-up: the arena begins at the first 16-byte boundary at or above the initial break
        and ends at the first page boundary that leaves it at least 1 KB.  The kernel must grant the
        initial break, or the program exits. */
    constructor (brk: nat, memory: nat, kernel: nat -> bool)
      requires InitialTop(brk) <= memory <= USED
      ensures Valid() && this.kernel == kernel && calls == 0
      ensures arena == Initial(InitialBottom(brk), InitialTop(brk))
      ensures brk <= 16 * arena.lo < brk + 16 && arena.hi % 256 == 0
      ensures 16 * arena.lo + 1024 <= 16 * arena.hi < 16 * arena.lo + 1024 + 4096
      ensures info.Length == memory
    {
      var bottom := (brk + 15) / 16;
      var top := (16 * bottom + 1024 + 4095) / 4096 * 256;
      this.kernel := kernel;
      calls := 0;
      info := new int[memory];
      size := new int[memory];
      head_ := bottom + 1;
      p_brk_ := top;
      arena := Initial(bottom, top);
      new;
      InitialRoom(brk);
      info[bottom] := USED;
      info[top - 1] := USED;
      info[bottom + 1] := NULL;
      size[bottom + 1] := top - bottom - 4;
      size[top - 2] := size[bottom + 1];
      info[top - 2] := NULL;
      InitialHolds(info[..], size[..], bottom, top);
    }

    /** Memory represents `s`, which need not be coalesced yet. */
    ghost predicate Mid(s: Arena)
      reads this, info, size
    {
      && info != size && info.Length == size.Length
      && Represents(info[..], size[..], s, {})
      && Fits(s, info.Length)
      && Fenced(info[..], s)
      && p_brk_ == s.hi
      && head_ == HeadOf(s.free)
    }

    function FooterOf(header: int): int
      reads size
      requires 0 <= header < size.Length
    {
      header + 1 + size[header]
    }

    function HeaderOf(footer: int): int
      reads size
      requires 0 <= footer < size.Length
    {
      footer - 1 - size[footer]
    }

    /** Insert the block with header `x` and footer `foot` after `prev_head`, or at the head of the
        list when that is NULL.  The caller names the block by its header, its footer or both. */
    method InsertIntoList(prev_head: int, curr_head: int, curr_foot: int, ghost x: int, ghost foot: int)
      requires info != size && info.Length == size.Length
      requires 0 < x < foot < info.Length && size[x] == foot - x - 1 == size[foot]
      requires curr_head == x || (curr_head == NULL && curr_foot != NULL)
      requires curr_foot == foot || (curr_foot == NULL && curr_head != NULL)
      requires 0 <= prev_head < info.Length && prev_head != x
      requires var next := if prev_head != NULL then info[prev_head] else head_;
               next != NULL ==> 0 <= next < info.Length && 0 <= FooterOf(next) < info.Length
      modifies this`head_, info
      ensures var next := old(if prev_head != NULL then info[prev_head] else head_);
              info[..] == LinkWrites(old(info[..]), x, foot, prev_head, next,
                                     if next != NULL then FooterOf(next) else 0)
      ensures head_ == if prev_head == NULL then x else old(head_)
    {
      var head := if curr_head == NULL then HeaderOf(curr_foot) else curr_head;
      var foot' := if curr_foot == NULL then FooterOf(curr_head) else curr_foot;
      var next := if prev_head != NULL then info[prev_head] else head_;
      info[head] := next;
      info[foot'] := prev_head;
      if prev_head != NULL {
        info[prev_head] := head;
      } else {
        head_ := head;
      }
      if info[head] != NULL {
        info[FooterOf(info[head])] := head;
      }
    }

    /** Take the block with header `x` and footer `foot` out of the list its links put it in. */
    method RemoveFromList(curr_head: int, curr_foot: int, ghost x: int, ghost foot: int)
      requires info != size && info.Length == size.Length
      requires 0 < x < foot < info.Length && size[x] == foot - x - 1 == size[foot]
      requires curr_head == x || (curr_head == NULL && curr_foot != NULL)
      requires curr_foot == foot || (curr_foot == NULL && curr_head != NULL)
      requires 0 <= info[foot] < info.Length
      requires info[x] != NULL ==> 0 <= info[x] < info.Length && 0 <= FooterOf(info[x]) < info.Length
      modifies this`head_, info
      ensures info[..] == old(UnlinkWrites(info[..], info[foot], info[x],
              if info[x] != NULL then FooterOf(info[x]) else 0))
      ensures head_ == old(if info[foot] == NULL then info[x] else head_)
    {
      var header := if curr_head == NULL then HeaderOf(curr_foot) else curr_head;
      var footer := if curr_foot == NULL then FooterOf(curr_head) else curr_foot;
      var prev := info[footer];
      var next := info[header];
      if prev == NULL && next == NULL {
        head_ := NULL;
      } else if prev == NULL {
        head_ := next;
        info[FooterOf(next)] := NULL;
      } else if next == NULL {
        info[prev] := NULL;
      } else {
        info[prev] := next;
        info[FooterOf(next)] := prev;
      }
    }

    /** The kernel's answer to the next request for a break: it must be willing, and have the memory. */
    predicate Granted(request: int)
      reads this`calls
    {
      kernel(calls) && request <= info.Length
    }

    /** The kernel moves the break as asked, or leaves it where it was. */
    method Brk(request: int) returns (brk: int)
      modifies this`calls
      ensures brk == if old(Granted(request)) then request else p_brk_
      ensures (brk == p_brk_ || brk <= info.Length) && calls == old(calls) + 1
    {
      brk := if kernel(calls) && request <= info.Length then request else p_brk_;
      calls := calls + 1;
    }

    /** The last block is free: move its footer and the sentinel up by delta, and stretch it. */
    method StretchLast(bottom: int, delta: int, ghost last: int)
      requires info != size && info.Length == size.Length
      requires 0 < last < bottom && 4 <= delta && bottom + delta + 1 < info.Length
      requires size[bottom] == size[last] == bottom - last - 1
      modifies info, size
      ensures info[..] == old(CopyTwo(info[..], bottom, bottom + delta))
      ensures size[..] == old(CopyTwo(size[..], bottom, bottom + delta)
                                [last := size[last] + delta][bottom + delta := size[last] + delta])
    {
      var header := HeaderOf(bottom);
      info[bottom + delta], info[bottom + delta + 1] := info[bottom], info[bottom + 1];
      size[bottom + delta], size[bottom + delta + 1] := size[bottom], size[bottom + 1];
      size[header] := size[header] + delta;
      size[FooterOf(header)] := size[header];
    }

    /** The last block is used: the old sentinel becomes the header of a new free block. */
    method AppendBlock(bottom: int, delta: int)
      requires info != size && info.Length == size.Length
      requires 0 < bottom && 4 <= delta && bottom + delta + 1 < info.Length
      requires head_ != NULL ==> 0 < head_ < bottom && 0 < FooterOf(head_) <= bottom
      modifies this`head_, info, size
      ensures size[..] == old(size[..])[bottom + 1 := delta - 2][bottom + delta := delta - 2]
      ensures info[..] == old(LinkWrites(info[..], bottom + 1, bottom + delta, NULL, head_,
                                         if head_ != NULL then FooterOf(head_) else 0)[bottom + delta + 1 := USED])
      ensures head_ == bottom + 1
    {
      var new_header := bottom + 1;
      size[new_header] := delta - 2;
      var new_footer := FooterOf(new_header);
      size[new_footer] := size[new_header];
      InsertIntoList(NULL, new_header, new_footer, new_header, new_footer);
      var new_dummy_header := new_footer + 1;
      info[new_dummy_header] := USED;
    }

    /** Grow the arena by at least n cells. */
    method Extend(n: int) returns (ok: bool)
      requires Valid() && 4 <= n
      modifies this, info, size
      ensures Valid()
      ensures arena == if ok then Grow(old(arena), PageUp(old(arena.hi) + n)) else old(arena)
      ensures ok == old(Granted(PageUp(p_brk_ + n))) && calls == old(calls) + 1
      ensures !ok ==> info[..] == old(info[..]) && size[..] == old(size[..])
      ensures LiveKept(old(info[..]), old(size[..]), old(arena), info[..], size[..])
    {
      hide *;
      ghost var s, w, z := arena, info[..], size[..];
      ValidParts();
      ghost var last := TopFacts();
      LiveKeptSelf(w, z, s);
      var old_end := p_brk_;
      var new_end := PageUp(old_end + n);
      var bottom := p_brk_ - 2;
      new_end := Brk(new_end);
      if old_end == new_end {
        assert info[..] == w && size[..] == z;
        ValidOf();
        return false;
      }
      p_brk_ := new_end;
      var delta := new_end - old_end;
      if info[bottom] != USED {
        StretchLast(bottom, delta, last);
        arena := Grow(s, new_end);
        StretchDone(w, z, s, last, new_end, info[..], size[..]);
        GrowHead(s, new_end);
      } else {
        AppendBlock(bottom, delta);
        arena := Grow(s, new_end);
        AppendDone(w, z, s, new_end, if s.free != [] then Foot(s.blocks, s.free[0]) else 0, info[..], size[..]);
        GrowHead(s, new_end);
      }
      ValidOf();
      return true;
    }

    /** Shorten free block `current` to u cells and tag the rest as a block, not yet listed. */
    method Carve(current: int, u: int) returns (next_header: int, next_footer: int)
      requires info != size && info.Length == size.Length
      requires 0 < current < size.Length && 0 <= u && u + 3 <= size[current] && FooterOf(current) < info.Length
      modifies info, size
      ensures next_header == current + 2 + u && next_footer == old(FooterOf(current))
      ensures info[..] == old(info[..])[current + 1 + u := old(info[FooterOf(current)])]
      ensures size[..] == old(size[..])[current := u][current + 1 + u := u][next_header := old(size[current]) - u - 2]
                          [next_footer := old(size[current]) - u - 2]
    {
      next_header := current + 2 + u;
      var total_block_size := size[current];
      var prev := info[FooterOf(current)];
      size[current] := u;
      size[FooterOf(current)] := u;
      info[FooterOf(current)] := prev;
      size[next_header] := total_block_size - u - 2;
      next_footer := FooterOf(next_header);
      size[next_footer] := size[next_header];
    }

    /** Shorten free block `current` to u cells and list the rest right after it. */
    method SplitOff(current: int, u: int, ghost s: Arena, ghost k: nat) returns (ghost t: Arena)
      requires Mid(s) && k < |s.free| && s.free[k] == current && current in s.blocks
      requires 0 <= u && Splits(s.blocks[current], u)
      modifies this`head_, info, size
      ensures Mid(t) && t == Cut(s, current, u).(free := Inserted(s.free, k + 1, current + 2 + u))
      ensures LiveKept(old(info[..]), old(size[..]), s, info[..], size[..])
    {
      hide *;
      ghost var w, z := info[..], size[..];
      MidParts(s);
      CanRemove(w, z, s, {}, k);
      SplitIs(s.blocks[current], u);
      EndFoot(s, current);
      FooterOfIs(current);
      var next_header, next_footer := Carve(current, u);
      CutSizesAre(z, s, current, u);
      CutDone(w, z, s, k, u, info[..], size[..]);
      CutFits(s, |w|, current, u);
      CutFields(s, current, u);
      ghost var w1, z1, t1 := info[..], size[..], Cut(s, current, u);
      NotListed(s, next_header);
      CanInsert(w1, z1, t1, {next_header}, k + 1, next_header);
      PrevIs(t1.free, k + 1);
      FooterOfIs(AtOf(t1.free, k + 1));
      InsertIntoList(current, next_header, next_footer, next_header, next_footer);
      InsertDone(w1, z1, t1, {next_header}, k + 1, next_header);
      assert {next_header} - {next_header} == {};
      t := t1.(free := Inserted(t1.free, k + 1, next_header));
      CutLive(s, k, u);
      LiveKeptTrans(w, z, s, w1, z1, t, info[..], size[..]);
      HeadInserted(s.free, k + 1, next_header);
      MidOf(t);
    }

    /** Unlink the list's k-th block, `current`, and mark it used. */
    method TakeOut(current: int, ghost s: Arena, ghost k: nat)
      requires Mid(s) && k < |s.free| && s.free[k] == current && current in s.blocks
      modifies this`head_, info
      ensures Mid(s.(free := Removed(s.free, k)))
      ensures LiveKept(old(info[..]), size[..], s, info[..], size[..])
    {
      hide *;
      ghost var w, z := info[..], size[..];
      MidParts(s);
      CanRemove(w, z, s, {}, k);
      EndFoot(s, current);
      FooterOfIs(current);
      FooterOfIs(NextOf(s.free, k));
      var footer := FooterOf(current);
      RemoveFromList(current, footer, current, footer);
      ghost var w1 := info[..];
      info[current] := USED;
      info[footer] := USED;
      TakeOutDone(w, z, s, k, w1, info[..]);
      HeadRemoved(s.free, k);
      MidOf(s.(free := Removed(s.free, k)));
    }

    /** Take the list's k-th block, `current`, for u cells: split it when worthwhile, unlink and mark it. */
    method Place(current: int, u: int, ghost k: nat) returns (ptr: int)
      requires Valid() && k < |arena.free| && arena.free[k] == current && current in arena.blocks
      requires 0 <= u <= arena.blocks[current]
      modifies this, info, size
      ensures Valid()
      ensures arena == Take(old(arena), k, u) && ptr == current + 1 && calls == old(calls)
      ensures LiveKept(old(info[..]), old(size[..]), old(arena), info[..], size[..])
    {
      hide *;
      ghost var s, w, z := arena, info[..], size[..];
      ValidParts();
      MidOf(s);
      TakeValid(s, k, u);
      CanRemove(w, z, s, {}, k);
      SplitIs(s.blocks[current], u);
      EndFoot(s, current);
      LiveKeptSelf(w, z, s);
      ghost var t := s;
      if 16 * (size[current] - u) > 16 + 16 + 8 {
        t := SplitOff(current, u, s, k);
        TakeIsSplit(s, k, u);
        CutFits(s, |w|, current, u);
        CutFields(s, current, u);
        NotListed(s, current + 2 + u);
        CutLive(s, k, u);
      } else {
        TakeIsWhole(s, k, u);
      }
      ghost var w1, z1 := info[..], size[..];
      TakeOut(current, t, k);
      MidParts(Take(s, k, u));
      arena := Take(s, k, u);
      LiveKeptTrans(w, z, s, w1, z1, t, info[..], size[..]);
      HoldsOf(info[..], size[..], arena);
      ValidOf();
      return current + 1;
    }

    /** Walk the list to the first block that fits, or to its end. */
    method Search(u: int) returns (current: int, ghost k: nat)
      requires Valid() && u >= 0
      ensures arena.Listed() && arena.Valid() && k == FirstFit(arena, u, 0) <= |arena.free|
      ensures current == NULL <==> k == |arena.free|
      ensures k < |arena.free| ==> current == arena.free[k] && current in arena.blocks && u <= arena.blocks[current]
    {
      hide *;
      current, k := head_, 0;
      ValidParts();
      ListAt(u, 0);
      while current != NULL
        invariant 0 <= k <= |arena.free| && current == AtOf(arena.free, k)
        invariant FirstFit(arena, u, 0) == FirstFit(arena, u, k)
        decreases |arena.free| - k
      {
        ListAt(u, k);
        if size[current] >= u {
          break;
        }
        current := info[current];
        k := k + 1;
      }
      ListAt(u, k);
    }

    /** malloc below the mmap threshold of 128 KB, which n reaches when it is rounded up to 16. */
    method Malloc(n: nat) returns (ptr: int)
      requires Valid() && n <= 0x1_fff0
      modifies this, info, size
      ensures Valid()
      ensures (arena, ptr) == ArenaRuns.Malloc(old(arena), n, old(Granted(Wanted(arena, n))))
      ensures ptr == NULL <==> NoneFits(old(arena), Cells(n)) && !old(Granted(Wanted(arena, n)))
      ensures calls == old(calls) + if NoneFits(old(arena), Cells(n)) then 1 else 0
      ensures LiveKept(old(info[..]), old(size[..]), old(arena), info[..], size[..])
    {
      hide *;
      ghost var s0, w0, z0 := arena, info[..], size[..];
      ValidParts();
      LiveKeptSelf(w0, z0, s0);
      MallocCases(s0, n);
      NoneFitsIs(s0, Cells(n));
      WantedIs(s0, n);
      ghost var granted := Granted(Wanted(s0, n));
      var bytes: nat := n;
      ghost var extended := false;
      while true  // malloc_after_lock
        invariant Valid() && s0.Valid() && calls == old(calls) + if extended then 1 else 0
        invariant LiveKept(w0, z0, s0, info[..], size[..])
        invariant !extended ==> bytes == n && arena == s0
        invariant extended ==> arena == Extended(s0, Cells(n)) && bytes == 16 * Retried(Cells(n))
        invariant extended ==> granted && FirstFit(s0, Cells(n), 0) == |s0.free|
        decreases !extended
      {
        AlignUnits(n, bytes);
        bytes := bytes + 15;
        bytes := bytes / 16 * 16;
        var u := bytes / 16;
        ghost var s, w, z := arena, info[..], size[..];
        var current;
        ghost var k;
        current, k := Search(u);
        ListAt(u, k);
        if current != NULL {
          ptr := Place(current, u, k);
          MallocPlaced(s0, n, granted, extended, s, u, k);
          LiveKeptTrans(w0, z0, s0, w, z, s, info[..], size[..]);
          return;
        }
        MallocRetried(s0, n);
        if extended {
          assert false;
        }
        if bytes < 32 {
          bytes := 32;
        }
        ValidParts();
        var ok := Extend(bytes / 16 + 2);
        if !ok {
          return NULL;
        }
        SameLive(s0);
        LiveKeptTrans(w0, z0, s0, w, z, s, info[..], size[..]);
        extended := true;
      }
    }

    /** Block `new_head`, off the list, takes the place of the list's head, its upper neighbour. */
    method FuseBelow(new_head: int)
      requires info != size && info.Length == size.Length
      requires 0 < new_head < head_ < size.Length && 0 <= size[new_head] && 0 <= size[head_]
      requires new_head + 2 + size[new_head] == head_ && FooterOf(head_) < info.Length
      requires info[head_] != NULL ==> 0 < info[head_] < info.Length && info[head_] !in {new_head, FooterOf(head_)}
      requires info[head_] != NULL ==> 0 < FooterOf(info[head_]) < info.Length
      modifies this`head_, info, size
      ensures info[..] == old(BelowRaw(info[..], new_head, FooterOf(head_), info[head_],
                                       if info[head_] != NULL then FooterOf(info[head_]) else 0))
      ensures size[..] == old(size[..][new_head := size[new_head] + size[head_] + 2]
                                      [FooterOf(head_) := size[new_head] + size[head_] + 2])
      ensures head_ == new_head
    {
      size[new_head] := size[new_head] + size[head_] + 2;
      var new_footer := FooterOf(new_head);
      size[new_footer] := size[new_head];
      info[new_footer] := NULL;
      info[new_head] := info[head_];
      head_ := new_head;
      if info[head_] != NULL {
        info[FooterOf(info[head_])] := head_;
      }
    }

    /** Coalesce the head of the list with the free block `p` that ends where it starts. */
    method CoalesceBelow(prev_footer: int, ghost s: Arena, ghost p: int)
      requires Mid(s) && s.free != [] && s.free[0] in s.blocks && prev_footer == s.free[0] - 1
      requires forall x :: x in s.free ==> x in s.blocks && x != 0
      requires p != 0 && FreeEnding(s, s.free, s.free[0]) == p && p in s.free && p in s.blocks
      requires p + 2 + s.blocks[p] == s.free[0] && 0 < p < prev_footer && prev_footer < size.Length
      modifies this`head_, info, size
      ensures Mid(JoinBelow(s))
      ensures LiveKept(old(info[..]), old(size[..]), s, info[..], size[..])
    {
      hide *;
      ghost var w, z := info[..], size[..];
      MidParts(s);
      ghost var j := JoinBelowIs(s, p);
      CanRemove(w, z, s, {}, j);
      EndFoot(s, p);
      HeaderOfIs(prev_footer);
      var new_head := HeaderOf(prev_footer);
      FooterOfIs(NextOf(s.free, j));
      RemoveFromList(new_head, prev_footer, new_head, prev_footer);
      ghost var w1, t := info[..], s.(free := Removed(s.free, j));
      RemoveDone(w, z, s, {}, j);
      assert {} + {p} == {p};
      BelowRawIs(w1, z, t, p);
      EndFoot(t, t.free[0]);
      AbsorbSizesAre(z, t, p, t.free[0]);
      FooterOfIs(head_);
      FooterOfIs(NextOf(t.free, 0));
      HeadRemoved(s.free, j);
      HeadIs(t.free);
      FuseBelow(new_head);
      BelowDone(w1, z, t, p, info[..], size[..]);
      KeptTrans(w, z, s, j, w1, info[..], size[..]);
      AbsorbedFields(t, p, t.free[0], [p] + t.free[1..]);
      HeadIs([p] + t.free[1..]);
      MidOf(JoinBelow(s));
    }

    /** Coalesce the head of the list with the free block that starts where it ends. */
    method CoalesceAbove(next_header: int, ghost s: Arena)
      requires Mid(s) && s.free != [] && s.free[0] in s.blocks && next_header == End(s.blocks, s.free[0])
      requires forall x :: x in s.free ==> x in s.blocks && x != 0
      requires next_header in s.blocks && next_header in s.free && next_header != s.free[0]
      modifies this`head_, info, size
      ensures Mid(JoinAbove(s))
      ensures LiveKept(old(info[..]), old(size[..]), s, info[..], size[..])
    {
      hide *;
      ghost var w, z, n := info[..], size[..], next_header;
      MidParts(s);
      ghost var j := JoinAboveIs(s, n);
      CanRemove(w, z, s, {}, j);
      EndFoot(s, n);
      EndFoot(s, s.free[0]);
      FooterOfIs(NextOf(s.free, j));
      FooterOfIs(n);
      RemoveFromList(next_header, NULL, next_header, FooterOf(next_header));
      ghost var w1, t := info[..], s.(free := Removed(s.free, j));
      RemoveDone(w, z, s, {}, j);
      assert {} + {n} == {n};
      HeadRemoved(s.free, j);
      HeadIs(t.free);
      TagSizes(w1, z, t, {n}, t.free[0]);
      TagSizes(w1, z, t, {n}, n);
      AbsorbSizesAre(z, t, t.free[0], n);
      size[head_] := size[head_] + size[next_header] + 2;
      FooterOfIs(head_);
      var new_footer := FooterOf(head_);
      size[new_footer] := size[head_];
      info[new_footer] := NULL;
      AboveDone(w1, z, t, n, info[..], size[..]);
      KeptTrans(w, z, s, j, w1, info[..], size[..]);
      AbsorbedFields(t, t.free[0], n, t.free);
      MidOf(JoinAbove(s));
    }

    /** Coalesce the head of the list with its lower neighbour, if that is free. */
    method MergeBelow(prev_footer: int, ghost s: Arena)
      requires Mid(s) && s.free != [] && s.free[0] in s.blocks && prev_footer == s.free[0] - 1
      requires forall x :: x in s.free ==> x in s.blocks && x != 0
      modifies this`head_, info, size
      ensures Mid(JoinBelow(s))
      ensures LiveKept(old(info[..]), old(size[..]), s, info[..], size[..])
    {
      hide *;
      ghost var w, z := info[..], size[..];
      MidParts(s);
      ghost var p := NeighbourBelow(w, z, s, s.free[0]);
      JoinNothing(s);
      LiveKeptSelf(w, z, s);
      TagSizes(w, z, s, {}, s.free[0]);
      if info[prev_footer] != USED {
        TagSizes(w, z, s, {}, p);
        CoalesceBelow(prev_footer, s, p);
      }
    }

    /** Coalesce the head of the list with its upper neighbour, if that is free. */
    method MergeAbove(next_header: int, ghost s: Arena)
      requires Mid(s) && s.free != [] && s.free[0] in s.blocks && next_header == End(s.blocks, s.free[0])
      requires forall x :: x in s.free ==> x in s.blocks && x != 0
      modifies this`head_, info, size
      ensures Mid(JoinAbove(s))
      ensures LiveKept(old(info[..]), old(size[..]), s, info[..], size[..])
    {
      hide *;
      ghost var w, z := info[..], size[..];
      MidParts(s);
      NeighbourAbove(w, z, s, s.free[0]);
      JoinNothing(s);
      LiveKeptSelf(w, z, s);
      if info[next_header] != USED {
        CoalesceAbove(next_header, s);
      }
    }

    /** List block `head` at the head of the list. */
    method Push(head: int, ghost s: Arena)
      requires Mid(s) && s.IsLive(head)
      modifies this`head_, info
      ensures Mid(s.(free := [head] + s.free))
      ensures LiveKept(old(info[..]), size[..], s.(free := [head] + s.free), info[..], size[..])
    {
      hide *;
      ghost var w, z := info[..], size[..];
      MidParts(s);
      IsLiveIn(s, head);
      CanInsert(w, z, s, {}, 0, head);
      FooterOfIs(head);
      FooterOfIs(AtOf(s.free, 0));
      EndFoot(s, head);
      PrevIsNull(s.free);
      InsertIntoList(NULL, head, NULL, head, FooterOf(head));
      InsertDone(w, z, s, {}, 0, head);
      InsertedAtHead(s.free, head);
      EmptyMinus(head);
      HeadIs([head] + s.free);
      MidOf(s.(free := [head] + s.free));
    }

    /** free on the heap: list the block at the head, then coalesce it with both neighbours. */
    method Free(ptr: int)
      requires Valid() && (ptr != NULL ==> arena.IsLive(ptr - 1))
      modifies this, info, size
      ensures Valid()
      ensures arena == if ptr == NULL then old(arena) else Release(old(arena), ptr - 1)
      ensures KeptExcept(old(info[..]), old(size[..]), old(arena), ptr - 1, info[..], size[..])
    {
      hide *;
      ghost var s, w, z := arena, info[..], size[..];
      ValidParts();
      if ptr == NULL {
        KeptExceptSelf(w, z, s, ptr - 1);
        return;
      }
      var head := ptr - 1;
      MidOf(s);
      IsLiveIn(s, head);
      ReleaseValid(s, head);
      ReleaseSteps(s, head);
      EndFoot(s, head);
      TagSizes(w, z, s, {}, head);
      FooterOfIs(head);
      ghost var s1 := s.(free := [head] + s.free);
      var prev_footer := head - 1;
      var next_header := FooterOf(head) + 1;
      Push(head, s);
      ghost var w1 := info[..];
      MergeBelow(prev_footer, s1);
      ghost var w2, z2 := info[..], size[..];
      MergeAbove(next_header, JoinBelow(s1));
      FreeKept(s, head, w, z, w1, w2, z2, info[..], size[..]);
      MidParts(Release(s, head));
      arena := Release(s, head);
      HoldsOf(info[..], size[..], arena);
      ValidOf();
    }

    /** The client writes a payload cell of a live block: no business of the heap's. */
    method Store(ptr: int, i: nat, word0: int, word1: int)
      requires Valid() && arena.IsLive(ptr - 1) && i < arena.blocks[ptr - 1]
      modifies info, size
      ensures Valid() && arena == old(arena) && 0 <= ptr + i < info.Length
      ensures info[..] == old(info[..])[ptr + i := word0] && size[..] == old(size[..])[ptr + i := word1]
      ensures KeptExcept(old(info[..]), old(size[..]), arena, ptr - 1, info[..], size[..])
    {
      hide *;
      ghost var s, w, z := arena, info[..], size[..];
      ValidParts();
      IsLiveIn(s, ptr - 1);
      PayloadHolds(w, z, s, ptr - 1, ptr + i, word0, word1);
      info[ptr + i] := word0;
      size[ptr + i] := word1;
      ValidOf();
    }

    /** The heap as its own consistency check sees it: fences at both ends, equal sizes and the same state
        in header and footer of every block, no two free neighbours, and a list from head_ that passes
        each free block once, prev links against next links. */
    lemma Consistent()
      requires Valid()
      ensures info.Length == size.Length && 0 <= arena.lo < arena.hi - 1 < info.Length
      ensures info[arena.lo] == USED == info[arena.hi - 1]
      ensures forall a {:trigger Foot(arena.blocks, a)} :: a in arena.blocks ==>
                var f := Foot(arena.blocks, a);
                && 0 < a < f < info.Length && size[a] == size[f] == arena.blocks[a]
                && (info[a] == USED <==> a !in arena.free) && (info[f] == USED <==> a !in arena.free)
                && (f + 1 in arena.blocks && a in arena.free ==> f + 1 !in arena.free)
      ensures head_ == HeadOf(arena.free)
      ensures Distinct(arena.free) && forall k {:trigger arena.free[k]} :: 0 <= k < |arena.free| ==>
                && arena.free[k] in arena.blocks
                && info[arena.free[k]] == NextOf(arena.free, k)
                && info[Foot(arena.blocks, arena.free[k])] == PrevOf(arena.free, k)
    {
      hide *;
      ghost var s, w, z := arena, info[..], size[..];
      ValidParts();
      forall a {:trigger Foot(s.blocks, a)} | a in s.blocks
        ensures 0 < a < Foot(s.blocks, a) < info.Length && size[a] == size[Foot(s.blocks, a)] == s.blocks[a]
        ensures (info[a] == USED <==> a !in s.free) && (info[Foot(s.blocks, a)] == USED <==> a !in s.free)
        ensures Foot(s.blocks, a) + 1 in s.blocks && a in s.free ==> Foot(s.blocks, a) + 1 !in s.free
      {
        FooterBelow(w, z, s, a);
        HeaderTag(w, z, s, a);
        NoneAdjacent(s, a);
      }
      ListWords(w, z, s);
    }

    /** What the walk along the free list sees at position k. */
    lemma ListAt(u: int, k: nat)
      requires Valid() && k <= |arena.free|
      ensures NULL == 0 && head_ == AtOf(arena.free, 0) && arena.Listed() && arena.Valid()
      ensures AtOf(arena.free, k) == NULL <==> k == |arena.free|
      ensures k == |arena.free| ==> FirstFit(arena, u, k) == k
      ensures k < |arena.free| ==>
                var x := arena.free[k];
                && AtOf(arena.free, k) == x && x in arena.blocks && 0 < x < size.Length
                && size[x] == arena.blocks[x] && info[x] == AtOf(arena.free, k + 1)
                && FirstFit(arena, u, k) == if arena.blocks[x] >= u then k else FirstFit(arena, u, k + 1)
    {
      HoldsParts(info[..], size[..], arena);
      if k < |arena.free| {
        CanRemove(info[..], size[..], arena, {}, k);
      }
    }

    lemma MidParts(s: Arena)
      requires Mid(s)
      ensures info != size && info.Length == size.Length && Represents(info[..], size[..], s, {})
      ensures Fits(s, info.Length) && Fenced(info[..], s) && p_brk_ == s.hi && head_ == HeadOf(s.free)
      ensures s.Tiled() && s.Listed()
    {
    }

    lemma MidOf(s: Arena)
      requires info != size && info.Length == size.Length && Represents(info[..], size[..], s, {})
      requires Fits(s, info.Length) && Fenced(info[..], s) && p_brk_ == s.hi && head_ == HeadOf(s.free)
      ensures Mid(s)
    {
    }

    lemma HeaderOfIs(footer: int)
      ensures 0 <= footer < size.Length ==> HeaderOf(footer) == footer - 1 - size[footer]
    {
    }

    lemma FooterOfIs(header: int)
      ensures NULL == 0
      ensures 0 <= header < size.Length ==> FooterOf(header) == header + 1 + size[header]
    {
    }

    lemma ValidParts()
      requires Valid()
      ensures info != size && info.Length == size.Length && Holds(info[..], size[..], arena)
      ensures p_brk_ == arena.hi && head_ == HeadOf(arena.free)
      ensures arena.Valid() && arena.Tiled() && arena.Listed() && Represents(info[..], size[..], arena, {})
      ensures Fits(arena, info.Length) && 0 <= arena.lo < arena.hi - 1 < info.Length && arena.lo + 1 in arena.blocks
      ensures forall x :: x in arena.free ==> x in arena.blocks && x != 0
    {
      HoldsParts(info[..], size[..], arena);
    }

    /** The block below the end sentinel, and the first free block, by their cells. */
    lemma TopFacts() returns (last: int)
      requires Valid()
      ensures last in arena.blocks && End(arena.blocks, last) == arena.hi - 1 && NULL == 0
      ensures info != size && info.Length == size.Length && p_brk_ == arena.hi < info.Length + 1
      ensures 0 < last < p_brk_ - 2 && size[p_brk_ - 2] == size[last] == arena.blocks[last] == p_brk_ - 3 - last
      ensures info[p_brk_ - 2] != USED <==> last in arena.free
      ensures FreeEnding(arena, arena.free, arena.hi - 1) == if last in arena.free then last else 0
      ensures head_ != NULL <==> arena.free != []
      ensures head_ != NULL ==> head_ == arena.free[0] && head_ in arena.blocks && 0 < head_ < p_brk_ - 2
      ensures head_ != NULL ==> 0 < FooterOf(head_) == Foot(arena.blocks, head_) <= p_brk_ - 2
    {
      hide *;
      ValidParts();
      last := TopBlock(arena, arena.lo + 1);
      EndFoot(arena, last);
      FooterBelow(info[..], size[..], arena, last);
      EndingIs(arena, last);
      HeadCells(info[..], size[..], arena);
      HeadFooter(arena);
    }

    lemma HeadFooter(s: Arena)
      requires head_ == HeadOf(s.free) && s.free != [] ==> 0 < s.free[0] < size.Length
      ensures head_ == HeadOf(s.free) ==>
                if s.free == [] then head_ == NULL else head_ == s.free[0] && FooterOf(head_) == head_ + 1 + size[head_]
    {
    }

    lemma ValidOf()
      requires info != size && Holds(info[..], size[..], arena) && p_brk_ == arena.hi && head_ == HeadOf(arena.free)
      ensures Valid()
    {
    }
  }
}
