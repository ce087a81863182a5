/** Output streams: a 1 KB buffer in front of a file descriptor, or none. */
module Streams {
  import opened Numerals
  import opened Resumable
  import opened RawDecimals
  import opened Conversions
  import opened Traces

  const NO_BUFFER := 0xffff_ffff

  class File {
    const fd_: int
    var buffer_index_: nat
    const buffer_: array<char>

    /** How the kernel answers the writes on this descriptor, and how many there have been. */
    const kernel: Kernel
    var calls: nat

    /** The bytes of each write request, in order. */
    ghost var writes: seq<seq<char>>

    ghost function Held(): seq<char>
      reads this, buffer_
    {
      if buffer_index_ <= buffer_.Length then buffer_[..buffer_index_] else []
    }

    ghost predicate Valid()
      reads this, buffer_
    {
      && buffer_.Length == BUFFER_SIZE
      && (buffer_index_ <= BUFFER_SIZE || buffer_index_ == NO_BUFFER)
      && calls == |writes|
    }

    /** The stream as a value. */
    ghost function Trace(): Stream
      reads this, buffer_
    {
      Stream(buffer_index_ != NO_BUFFER, Held(), writes)
    }

    constructor (fd: int, buffered: bool, kernel: Kernel)
      ensures Valid() && Trace() == Stream(buffered, [], []) && this.kernel == kernel
      ensures fresh(buffer_)
    {
      fd_ := fd;
      this.kernel := kernel;
      calls := 0;
      buffer_index_ := if buffered then 0 else NO_BUFFER;
      buffer_ := new char[BUFFER_SIZE];
      writes := [];
    }

    /** The parts of Valid and of the state. */
    lemma Parts()
      requires Valid()
      ensures buffer_.Length == BUFFER_SIZE < NO_BUFFER && calls == |writes|
      ensures buffer_index_ == NO_BUFFER || buffer_index_ <= BUFFER_SIZE
      ensures Trace() == Stream(buffer_index_ != NO_BUFFER,
              if buffer_index_ == NO_BUFFER then [] else buffer_[..buffer_index_], writes)
      ensures Fits(Trace())
    {
    }

    lemma Whole()
      requires buffer_.Length == BUFFER_SIZE && calls == |writes|
      requires buffer_index_ == NO_BUFFER || buffer_index_ <= BUFFER_SIZE
      ensures Valid()
      ensures Trace() == Stream(buffer_index_ != NO_BUFFER,
              if buffer_index_ == NO_BUFFER then [] else buffer_[..buffer_index_], writes)
    {
    }

    /** One request to the kernel. */
    method Write(bytes: seq<char>) returns (written: int)
      requires calls == |writes|
      modifies this`calls, this`writes
      ensures written == Taken(kernel, old(calls), |bytes|)
      ensures writes == old(writes) + [bytes] && calls == |writes|
    {
      var answer := kernel(calls);
      written :=
        if answer < 0 then -1 else if answer >= |bytes| then |bytes| else if answer == 0 then 1 else answer;
      calls := calls + 1;
      writes := writes + [bytes];
    }

    /** Empty the buffer into one write. */
    method Flush() returns (ok: bool)
      requires Valid()
      modifies this`buffer_index_, this`calls, this`writes
      ensures Valid() && (Trace(), ok) == Flushed(kernel, old(Trace()))
      ensures if old(buffer_index_) == NO_BUFFER then !ok && Trace() == old(Trace())
              else
                && buffer_index_ == 0 && writes == old(writes + [Trace().held])
                && (ok <==> Answer(kernel, old(calls)) >= 0)
    {
      hide *;
      Parts();
      FlushedIs(kernel, Trace());
      if buffer_index_ == NO_BUFFER {
        return false;
      }
      var bytes_to_write := buffer_index_;
      buffer_index_ := 0;
      var written := Write(buffer_[..bytes_to_write]);
      Whole();
      assert buffer_[..0] == [];
      return written >= 0;
    }

    /** Hand n bytes to the stream. */
    method PutBytes(str: seq<char>) returns (ok: bool)
      requires Valid()
      modifies this, buffer_
      ensures Valid() && (Trace(), ok) == Put(kernel, old(Trace()), str)
      ensures old(buffer_index_) + |str| <= BUFFER_SIZE ==>
              ok && Trace() == old(Trace()).(held := old(Trace()).held + str)
    {
      hide *;
      Parts();
      PutIs(kernel, Trace(), str);
      ghost var s := Trace();
      if buffer_index_ == NO_BUFFER {
        ok := WriteAll(str);
        Parts();
      } else {
        ok := PutBuffered(str);
        if |s.held| + |str| <= BUFFER_SIZE {
          FilledFits(kernel, s, str);
        }
      }
    }

    /** The buffered half: the buffer is flushed only when it is full and there is more. */
    method PutBuffered(str: seq<char>) returns (ok: bool)
      requires Valid() && buffer_index_ != NO_BUFFER
      modifies this, buffer_
      ensures Valid() && (Trace(), ok) == Filled(kernel, old(Trace()), str)
    {
      hide *;
      SizeIs();
      ghost var end := Filled(kernel, Trace(), str);
      var off := 0;
      assert str[0..] == str;
      Parts();
      while off < |str|
        invariant 0 <= off <= |str| && Valid() && buffer_index_ != NO_BUFFER
        invariant end == Filled(kernel, Trace(), str[off..])
        decreases |str| - off
      {
        Parts();
        if buffer_index_ == BUFFER_SIZE {
          FilledFull(kernel, Trace(), str[off..]);
          FlushedIs(kernel, Trace());
          var flushed := Flush();
          if !flushed {
            return false;
          }
          Parts();
        }
        var chunk := BUFFER_SIZE - buffer_index_;
        if chunk > |str| - off {
          chunk := |str| - off;
        }
        FilledChunk(kernel, Trace(), str[off..off + chunk], str[off + chunk..]);
        assert str[off..] == str[off..off + chunk] + str[off + chunk..];
        Append(str[off..off + chunk]);
        off := off + chunk;
      }
      FilledNothing(kernel, Trace(), str[off..]);
      return true;
    }

    /** The unbuffered half: write on until the kernel has taken everything. */
    method WriteAll(str: seq<char>) returns (ok: bool)
      requires Valid() && buffer_index_ == NO_BUFFER
      modifies this`calls, this`writes
      ensures Valid() && (writes, ok) == Written(kernel, old(writes), str)
      ensures ok ==> Delivered(kernel, writes) == Delivered(kernel, old(writes)) + str
    {
      hide *;
      Parts();
      ghost var w := writes;
      ghost var end := Written(kernel, writes, str);
      var off := 0;
      assert str[0..] == str;
      while off < |str|
        invariant 0 <= off <= |str| && calls == |writes|
        invariant end == Written(kernel, writes, str[off..])
      {
        WrittenIs(kernel, writes, str[off..]);
        var written := Write(str[off..]);
        if written < 0 {
          Whole();
          return false;
        }
        assert str[off..][written..] == str[off + written..];
        off := off + written;
      }
      WrittenIs(kernel, writes, str[off..]);
      Whole();
      WrittenMeans(kernel, w, str);
      return true;
    }

    /** Copy a chunk that fits behind the bytes in the buffer. */
    method Append(chunk: seq<char>)
      requires Valid() && buffer_index_ + |chunk| <= BUFFER_SIZE
      modifies this`buffer_index_, buffer_
      ensures Valid() && buffer_index_ == old(buffer_index_) + |chunk|
      ensures Trace() == old(Trace()).(held := old(Trace()).held + chunk)
    {
      hide *;
      Parts();
      ghost var index, s, before := buffer_index_, Trace(), buffer_[..];
      var i := 0;
      while i < |chunk|
        invariant 0 <= i <= |chunk| && buffer_index_ == index
        invariant forall q :: 0 <= q < index ==> buffer_[q] == before[q]
        invariant forall q :: 0 <= q < i ==> buffer_[index + q] == chunk[q]
      {
        buffer_[buffer_index_ + i] := chunk[i];
        i := i + 1;
      }
      assert buffer_[..index + |chunk|] == s.held + chunk;
      buffer_index_ := buffer_index_ + |chunk|;
      Whole();
    }

    /** Print an int in decimal, through itoa straight into the buffer. */
    method Puti(i: int32) returns (ok: bool)
      requires Valid()
      modifies this, buffer_
      ensures Valid() && (Trace(), ok) == PutNumber(kernel, old(Trace()), i)
    {
      hide *;
      Parts();
      if buffer_index_ == NO_BUFFER {
        ok := PutiUnbuffered(i);
      } else {
        ok := PutiBuffered(i);
      }
    }

    /** Thirty-two bytes hold every int, so the first pass is also the last. A short write goes unnoticed:
        the number is delivered exactly if the only write was answered in full. */
    method PutiUnbuffered(i: int32) returns (ok: bool)
      requires Valid() && buffer_index_ == NO_BUFFER
      modifies this`calls, this`writes
      ensures Valid() && (Trace(), ok) == PutNumber(kernel, old(Trace()), i)
      ensures var text := SignedNumeral(i, 10, false);
              ok ==> (Delivered(kernel, writes) == Delivered(kernel, old(writes)) + text <==>
                      Accepted(kernel, old(calls), |text|) == |text|)
    {
      hide *;
      Parts();
      ghost var s := Trace();
      var tmp := new char[32];
      FitsTmp(i);
      NumberIs(kernel, s, i);
      NumberMeans(kernel, s, i);
      var n, v := Itoa(i, tmp, 0, 32);
      var written := Write(tmp[0..n]);
      Whole();
      PlainOutput(kernel, s);
      PlainOutput(kernel, Trace());
      if written < 0 {
        return false;
      }
      return true;
    }

    /** One itoa call on what is free of the buffer. */
    method ItoaHere(v: int64) returns (n: nat, v': int64)
      requires Valid() && buffer_index_ < BUFFER_SIZE
      modifies this`buffer_index_, buffer_
      ensures Valid() && buffer_index_ == old(buffer_index_) + n <= BUFFER_SIZE
      ensures var o := DecimalStep(v, BUFFER_SIZE - old(buffer_index_));
              Trace() == old(Trace()).(held := old(Trace()).held + o.out) && v' == o.i && n == |o.out|
    {
      hide *;
      Parts();
      ghost var s := Trace();
      var at := buffer_index_;
      n, v' := Itoa(v, buffer_, at, BUFFER_SIZE - at);
      assert buffer_[..at + n] == buffer_[..at] + buffer_[at..at + n];
      buffer_index_ := at + n;
      Whole();
    }

    method PutiBuffered(i: int32) returns (ok: bool)
      requires Valid() && buffer_index_ != NO_BUFFER
      modifies this, buffer_
      ensures Valid() && (Trace(), ok) == PutNumber(kernel, old(Trace()), i)
    {
      hide *;
      Radices();
      SizeIs();
      var v: int64 := i;
      ghost var rest, end := SignedNumeral(i, 10, false), PutNumber(kernel, Trace(), i);
      UnderwayStart(kernel, Trace(), i);
      while true
        invariant Valid() && buffer_index_ != NO_BUFFER && Underway(i, v, rest)
        invariant end == Ahead(kernel, Trace(), i, v, rest)
        decreases |rest|, buffer_index_
      {
        Parts();
        if buffer_index_ == BUFFER_SIZE {
          AheadFull(kernel, Trace(), i, v, rest);
          FlushedIs(kernel, Trace());
          var flushed := Flush();
          if !flushed {
            return false;
          }
          Parts();
        }
        var remaining := BUFFER_SIZE - buffer_index_;
        UnderwayStep(i, v, rest, remaining);
        AheadStep(kernel, Trace(), i, v, rest);
        ghost var o := DecimalStep(v, remaining);
        var n;
        n, v := ItoaHere(v);
        if v == 0 {
          return true;
        }
        if n == 0 {
          AheadFlush(kernel, Trace(), i, v, rest);
          FlushedIs(kernel, Trace());
          Parts();
          var flushed := Flush();
          if !flushed {
            return false;
          }
          Parts();
        } else {
          rest := rest[n..];
        }
      }
    }
  }

  // ----- The functions by their cases

  lemma FlushedIs(kernel: Kernel, s: Stream)
    ensures Flushed(kernel, s) ==
              if s.buffered then (s.(held := [], writes := s.writes + [s.held]), Answer(kernel, |s.writes|) >= 0)
                  else (s, false)
    ensures Taken(kernel, |s.writes|, |s.held|) >= 0 <==> Answer(kernel, |s.writes|) >= 0
  {
  }

  lemma PutIs(kernel: Kernel, s: Stream, text: seq<char>)
    ensures Put(kernel, s, text) ==
              if s.buffered then Filled(kernel, s, text)
              else (s.(writes := Written(kernel, s.writes, text).0), Written(kernel, s.writes, text).1)
  {
    hide Filled, Written;
  }

  lemma FilledNothing(kernel: Kernel, s: Stream, text: seq<char>)
    ensures text == [] ==> Filled(kernel, s, text) == (s, true)
  {
  }

  lemma WrittenIs(kernel: Kernel, writes: seq<seq<char>>, text: seq<char>)
    ensures text == [] ==> Written(kernel, writes, text) == (writes, true)
    ensures var w := Taken(kernel, |writes|, |text|);
            text != [] ==> Written(kernel, writes, text) ==
                             if w < 0 then (writes + [text], false) else Written(kernel, writes + [text], text[w..])
  {
  }

  lemma WrittenMeans(kernel: Kernel, writes: seq<seq<char>>, text: seq<char>)
    ensures var (w, ok) := Written(kernel, writes, text);
            ok ==> Delivered(kernel, w) == Delivered(kernel, writes) + text
  {
    hide Delivered, Written;
    WrittenServed(kernel, writes, text);
    var (w, ok) := Written(kernel, writes, text);
    ServedMeans(kernel, writes, text, w[|writes|..], ok);
    assert writes + w[|writes|..] == w;
  }

  lemma NumberIs(kernel: Kernel, s: Stream, i: int)
    ensures !s.buffered ==>
              PutNumber(kernel, s, i) ==
                  (s.(writes := s.writes + [SignedNumeral(i, 10, false)]), Answer(kernel, |s.writes|) >= 0)
    ensures Taken(kernel, |s.writes|, |SignedNumeral(i, 10, false)|) >= 0 <==> Answer(kernel, |s.writes|) >= 0
  {
    hide SignedNumeral;
  }

  lemma PlainOutput(kernel: Kernel, s: Stream)
    ensures s.held == [] ==> Output(kernel, s) == Delivered(kernel, s.writes)
  {
    assert Delivered(kernel, s.writes) + [] == Delivered(kernel, s.writes);
  }

  // ----- A number under way

  /** v still stands for `rest`: it is the number itself, or a remainder of it. */
  ghost predicate Underway(i: int32, v: int64, rest: seq<char>) {
    if v == i then rest == SignedNumeral(i, 10, false)
    else v != 0 && Remainder(true, v, 10, false) && rest == Pending(true, v, 10, false)
  }

  /** Where fputi is heading from here. */
  function Ahead(kernel: Kernel, s: Stream, i: int32, v: int64, rest: seq<char>): (Stream, bool) {
    if v == i then PutNumber(kernel, s, i) else Filled(kernel, s, rest)
  }

  lemma UnderwayStart(kernel: Kernel, s: Stream, i: int32)
    ensures IsRadix(10) && Underway(i, i, SignedNumeral(i, 10, false))
    ensures Ahead(kernel, s, i, i, SignedNumeral(i, 10, false)) == PutNumber(kernel, s, i)
  {
  }

  lemma UnderwayIs(i: int32, v: int64, rest: seq<char>)
    ensures IsRadix(10)
    ensures Underway(i, v, rest) <==>
              if v == i then rest == SignedNumeral(i, 10, false)
              else v != 0 && Remainder(true, v, 10, false) && rest == Pending(true, v, 10, false)
  {
  }

  lemma AheadFull(kernel: Kernel, s: Stream, i: int32, v: int64, rest: seq<char>)
    requires Underway(i, v, rest) && s.buffered && |s.held| == BUFFER_SIZE
    ensures var (f, ok) := Flushed(kernel, s);
            Ahead(kernel, s, i, v, rest) == if ok then Ahead(kernel, f, i, v, rest) else (f, false)
  {
    hide Filled, SignedNumeral, Pending, Remainder;
    RestSome(i, v, rest);
    FilledFull(kernel, s, rest);
  }

  /** A sign alone in the last byte has to wait for a flush. */
  ghost predicate Waits(s: Stream, i: int32, v: int64) {
    v == i && i < 0 && |s.held| + 1 == BUFFER_SIZE
  }

  lemma AheadFlush(kernel: Kernel, s: Stream, i: int32, v: int64, rest: seq<char>)
    requires Underway(i, v, rest) && s.buffered && Waits(s, i, v)
    ensures var (f, ok) := Flushed(kernel, s);
            Ahead(kernel, s, i, v, rest) == if ok then Ahead(kernel, f, i, v, rest) else (f, false)
  {
    hide Filled, SignedNumeral;
  }

  lemma RestSome(i: int32, v: int64, rest: seq<char>)
    requires Underway(i, v, rest)
    ensures rest != []
  {
    hide Packed, SignedNumeral, Unpacked;
    if v != i {
      var s :| IsRest(true, v, s, 10, false);
      PendingRest(v, s);
    }
  }

  lemma PendingRest(v: int64, s: seq<char>)
    requires IsRest(true, v, s, 10, false) && Remainder(true, v, 10, false)
    ensures Pending(true, v, 10, false) == s
  {
    hide Packed, Unpacked, AreDigits;
    UnpackPacked(s, 10, false);
    RankBand(v);
    PendingPacked(true, s, 10, false);
  }

  lemma RankBand(v: int64)
    requires Encoded(true, v)
    ensures 0 < Rank(true, v) <= BAND
  {
  }

  /** Elsewhere a call of itoa moves text into the buffer. */
  lemma AheadStep(kernel: Kernel, s: Stream, i: int32, v: int64, rest: seq<char>)
    requires Underway(i, v, rest) && s.buffered && |s.held| < BUFFER_SIZE
    ensures var o := DecimalStep(v, BUFFER_SIZE - |s.held|);
            var m := s.(held := s.held + o.out);
            if Waits(s, i, v) then o == Outcome([], v) && m == s
            else
              && o.out != [] && o.out <= rest
              && (o.i == 0 ==> Ahead(kernel, s, i, v, rest) == (m, true))
              && (o.i != 0 ==>
                    && o.i != i
                    && -0x8000_0000_0000_0000 <= o.i <= 0x7fff_ffff_ffff_ffff
                    && Underway(i, o.i, rest[|o.out|..])
                    && Ahead(kernel, s, i, v, rest) == Ahead(kernel, m, i, o.i, rest[|o.out|..]))
  {
    hide *;
    var size := BUFFER_SIZE - |s.held|;
    SizeIs();
    UnderwayStep(i, v, rest, size);
    MinIs(size, |rest|);
    AheadIs(kernel, s, i, v, rest);
    var o := DecimalStep(v, size);
    assert s.held + [] == s.held;
    if !Waits(s, i, v) {
      var tail := rest[|o.out|..];
      assert rest == o.out + tail;
      var m := s.(held := s.held + o.out);
      FilledChunk(kernel, s, o.out, tail);
      if o.i != 0 {
        AheadIs(kernel, m, i, o.i, tail);
      } else {
        FilledNothing(kernel, m, tail);
      }
    }
  }

  lemma SizeIs()
    ensures BUFFER_SIZE == 1024
  {
  }

  lemma AheadIs(kernel: Kernel, s: Stream, i: int32, v: int64, rest: seq<char>)
    ensures Waits(s, i, v) <==> v == i && i < 0 && |s.held| + 1 == BUFFER_SIZE
    ensures v != i ==> Ahead(kernel, s, i, v, rest) == Filled(kernel, s, rest)
    ensures Underway(i, v, rest) && s.buffered && !Waits(s, i, v) ==>
            Ahead(kernel, s, i, v, rest) == Filled(kernel, s, rest)
  {
    hide Filled, SignedNumeral, Remainder, Pending;
  }

  lemma Int32Fresh(i: int32)
    ensures Sound(i) && !Encoded(true, i) && InRange(true, i)
  {
  }

  /** A 32-byte buffer holds any int. */
  lemma FitsTmp(i: int32)
    ensures IsRadix(10) && DecimalStep(i, 32) == Outcome(SignedNumeral(i, 10, false), 0)
  {
    hide Length, SignedNumeral, DecimalStep, Encoded;
    Int32Fresh(i);
    if i == 0 {
      ZeroText();
    } else {
      FreshText(i, 10, false);
      FreshStart(i, 32);
    }
    DecimalExactly(i, 32);
  }

  lemma ZeroText()
    ensures SignedNumeral(0, 10, false) == "0"
  {
  }

  /** One call of itoa for fputi: a negative number with one byte free stays where it is; else as much of
      the text goes out as fits, and the value reaches 0 with its end. */
  lemma UnderwayStep(i: int32, v: int64, rest: seq<char>, size: nat)
    requires Underway(i, v, rest) && 0 < size <= BUFFER_SIZE
    ensures var o := DecimalStep(v, size);
            if v == i && i < 0 && size == 1 then o == Outcome([], v)
            else
              && rest != [] && o.out == rest[..Min(size, |rest|)] && o.out != []
              && (o.i == 0 <==> |rest| <= size)
              && (o.i != 0 ==>
                    && o.i != i
                    && -0x8000_0000_0000_0000 <= o.i <= 0x7fff_ffff_ffff_ffff
                    && Underway(i, o.i, rest[|o.out|..]))
  {
    hide *;
    UnderwayIs(i, v, rest);
    RestSome(i, v, rest);
    Int32Fresh(i);
    LeftInRange(v);
    SoundIs(v);
    SoundStep(v, size);
    RawEarly(v, size);
    MinIs(size, |rest|);
    if v == i && i == 0 {
      ZeroText();
    } else if !(v == i && i < 0 && size == 1) {
      Ranges(v);
      FreshStart(v, size);
      CallableNow(true, v, size, 10, false, 18);
      RadixBands();
      StepEmits(true, v, size, 10, false, 18);
      var o := DecimalStep(v, size);
      LeftInRange(o.i);
      Ranges(o.i);
      if o.i != 0 {
        UnderwayIs(i, o.i, rest[|o.out|..]);
      }
    }
  }
}
