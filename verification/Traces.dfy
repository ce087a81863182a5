/** Output streams as values: the bytes in the buffer and the write requests made so far.

    The kernel is an oracle that answers the k-th write on a descriptor with a number: a negative one is
    a failure, any other a bound on the bytes it takes. Requests and answers together determine which
    bytes have been delivered. */
module Traces {
  import opened Numerals

  const BUFFER_SIZE := 1024

  type Kernel = nat -> int

  datatype Stream = Stream(buffered: bool, held: seq<char>, writes: seq<seq<char>>)

  /** The answer to the k-th write. */
  function Answer(kernel: Kernel, k: nat): int {
    kernel(k)
  }

  /** What write returns for a request of n bytes: never 0 unless nothing was asked. */
  function Taken(kernel: Kernel, k: nat, n: nat): (w: int)
    ensures -1 <= w <= n && (w == 0 ==> n == 0)
    ensures w < 0 <==> Answer(kernel, k) < 0
    ensures w == n <==> Answer(kernel, k) >= n || (Answer(kernel, k) == 0 && n == 1)
  {
    var answer := Answer(kernel, k);
    if answer < 0 then -1 else if answer >= n then n else if answer == 0 then 1 else answer
  }

  function Accepted(kernel: Kernel, k: nat, n: nat): (w: nat)
    ensures w <= n
  {
    if Taken(kernel, k, n) < 0 then 0 else Taken(kernel, k, n)
  }

  /** The bytes that have reached the descriptor. */
  function Delivered(kernel: Kernel, writes: seq<seq<char>>): seq<char> {
    if writes == [] then [] else
      var k := |writes| - 1;
      Delivered(kernel, writes[..k]) + writes[k][..Accepted(kernel, k, |writes[k]|)]
  }

  /** How many bytes of the requests the kernel has left behind. */
  function Lost(kernel: Kernel, writes: seq<seq<char>>): nat {
    if writes == [] then 0 else
      var k := |writes| - 1;
      Lost(kernel, writes[..k]) + |writes[k]| - Accepted(kernel, k, |writes[k]|)
  }

  /** Everything that has left the program or still will, in order. */
  function Output(kernel: Kernel, s: Stream): seq<char> {
    Delivered(kernel, s.writes) + s.held
  }

  /** Bytes put out and bytes lost together. */
  function Total(kernel: Kernel, s: Stream): nat {
    |Output(kernel, s)| + Lost(kernel, s.writes)
  }

  ghost predicate Fits(s: Stream) {
    |s.held| <= BUFFER_SIZE && (!s.buffered ==> s.held == [])
  }

  // ----- What the operations do

  /** fflush: one write of the whole buffer, which is empty afterwards whatever the answer. */
  function Flushed(kernel: Kernel, s: Stream): (Stream, bool) {
    if s.buffered then (s.(held := [], writes := s.writes + [s.held]), Answer(kernel, |s.writes|) >= 0) else (s, false)
  }

  /** Buffered output, byte by byte: a full buffer is flushed first, and a flush that fails ends it. */
  function Filled(kernel: Kernel, s: Stream, text: seq<char>): (Stream, bool)
    decreases |text|
  {
    if text == [] then (s, true)
    else if |s.held| < BUFFER_SIZE then Filled(kernel, s.(held := s.held + [text[0]]), text[1..])
    else
      var (f, ok) := Flushed(kernel, s);
      if ok then Filled(kernel, f.(held := [text[0]]), text[1..]) else (f, false)
  }

  /** Unbuffered output: what the kernel has not taken is written again, until a write fails. */
  function Written(kernel: Kernel, writes: seq<seq<char>>, text: seq<char>): (seq<seq<char>>, bool)
    decreases |text|
  {
    if text == [] then (writes, true)
    else
      var w := Taken(kernel, |writes|, |text|);
      if w < 0 then (writes + [text], false) else Written(kernel, writes + [text], text[w..])
  }

  /** fput_bytes */
  function Put(kernel: Kernel, s: Stream, text: seq<char>): (Stream, bool) {
    if s.buffered then Filled(kernel, s, text)
    else
      var (writes, ok) := Written(kernel, s.writes, text);
      (s.(writes := writes), ok)
  }

  /** fputi: a negative number that finds one free byte flushes early, since its sign wants a digit beside
      it; an unbuffered stream gets a single write, of which only failure is noticed. */
  function PutNumber(kernel: Kernel, s: Stream, i: int): (Stream, bool) {
    var text := SignedNumeral(i, 10, false);
    if !s.buffered then (s.(writes := s.writes + [text]), Answer(kernel, |s.writes|) >= 0)
    else if i < 0 && |s.held| + 1 == BUFFER_SIZE then
      var (f, ok) := Flushed(kernel, s);
      if ok then Filled(kernel, f, text) else (f, false)
    else Filled(kernel, s, text)
  }

  // ----- Text handed over in pieces

  /** The requests of unbuffered output from the k-th on: each a front part of what is left of the text,
      until all of it has been taken or one has failed. */
  ghost predicate Served(kernel: Kernel, k: nat, text: seq<char>, requests: seq<seq<char>>, ok: bool)
    decreases |requests|
  {
    if requests == [] then ok && text == []
    else
      var r := requests[0];
      && r != [] && r <= text
      && if Taken(kernel, k, |r|) < 0 then !ok && |requests| == 1
         else Served(kernel, k + 1, text[Taken(kernel, k, |r|)..], requests[1..], ok)
  }

  /** Handing over `text`, in whatever pieces, has taken a stream from s to t; it stopped early, behind a
      write that failed, unless ok. */
  ghost predicate Sent(kernel: Kernel, s: Stream, t: Stream, text: seq<char>, ok: bool) {
    if s.buffered then (t, ok) == Filled(kernel, s, text)
    else
      && t == s.(writes := t.writes) && s.writes <= t.writes
      && Served(kernel, |s.writes|, text, t.writes[|s.writes|..], ok)
  }

  lemma SentNothing(kernel: Kernel, s: Stream)
    ensures Sent(kernel, s, s, [], true)
  {
  }

  lemma {:induction false} FilledThen(kernel: Kernel, s: Stream, t1: seq<char>, t2: seq<char>)
    ensures var (m, ok) := Filled(kernel, s, t1);
            Filled(kernel, s, t1 + t2) == if ok then Filled(kernel, m, t2) else (m, false)
    decreases |t1|
  {
    if t1 == [] {
      assert t1 + t2 == t2;
    } else {
      assert (t1 + t2)[1..] == t1[1..] + t2 && (t1 + t2)[0] == t1[0];
      if |s.held| < BUFFER_SIZE {
        FilledThen(kernel, s.(held := s.held + [t1[0]]), t1[1..], t2);
      } else {
        FilledThen(kernel, Flushed(kernel, s).0.(held := [t1[0]]), t1[1..], t2);
      }
    }
  }

  lemma {:induction false} ServedThen(kernel: Kernel, k: nat, t1: seq<char>, t2: seq<char>, r1: seq<seq<char>>,
      r2: seq<seq<char>>, ok: bool)
    requires Served(kernel, k, t1, r1, true) && Served(kernel, k + |r1|, t2, r2, ok)
    ensures Served(kernel, k, t1 + t2, r1 + r2, ok)
    decreases |r1|
  {
    if r1 == [] {
      assert t1 + t2 == t2 && r1 + r2 == r2;
    } else {
      var w := Taken(kernel, k, |r1[0]|);
      assert (r1 + r2)[1..] == r1[1..] + r2 && (r1 + r2)[0] == r1[0];
      assert (t1 + t2)[w..] == t1[w..] + t2;
      ServedThen(kernel, k + 1, t1[w..], t2, r1[1..], r2, ok);
    }
  }

  lemma {:induction false} ServedStopped(kernel: Kernel, k: nat, t1: seq<char>, t2: seq<char>, r: seq<seq<char>>)
    requires Served(kernel, k, t1, r, false)
    ensures Served(kernel, k, t1 + t2, r, false)
    decreases |r|
  {
    if r != [] {
      var w := Taken(kernel, k, |r[0]|);
      if w >= 0 {
        assert (t1 + t2)[w..] == t1[w..] + t2;
        ServedStopped(kernel, k + 1, t1[w..], t2, r[1..]);
      }
    }
  }

  /** Two texts one after the other. */
  lemma SentThen(kernel: Kernel, a: Stream, b: Stream, c: Stream, t1: seq<char>, t2: seq<char>, ok: bool)
    requires Sent(kernel, a, b, t1, true) && Sent(kernel, b, c, t2, ok)
    ensures Sent(kernel, a, c, t1 + t2, ok)
  {
    if a.buffered {
      FilledThen(kernel, a, t1, t2);
      FilledBuffered(kernel, a, t1);
    } else {
      var n, m := |a.writes|, |b.writes|;
      ServedThen(kernel, n, t1, t2, b.writes[n..], c.writes[m..], ok);
      assert c.writes[n..] == b.writes[n..] + c.writes[m..];
    }
  }

  /** Text behind a failure changes nothing more. */
  lemma SentStopped(kernel: Kernel, a: Stream, b: Stream, t1: seq<char>, t2: seq<char>)
    requires Sent(kernel, a, b, t1, false)
    ensures Sent(kernel, a, b, t1 + t2, false)
  {
    if a.buffered {
      FilledThen(kernel, a, t1, t2);
    } else {
      ServedStopped(kernel, |a.writes|, t1, t2, b.writes[|a.writes|..]);
    }
  }

  lemma {:induction false} FilledBuffered(kernel: Kernel, s: Stream, text: seq<char>)
    requires s.buffered
    ensures Filled(kernel, s, text).0.buffered
    decreases |text|
  {
    if text != [] {
      if |s.held| < BUFFER_SIZE {
        FilledBuffered(kernel, s.(held := s.held + [text[0]]), text[1..]);
      } else {
        FilledBuffered(kernel, Flushed(kernel, s).0.(held := [text[0]]), text[1..]);
      }
    }
  }

  lemma {:induction false} WrittenServed(kernel: Kernel, writes: seq<seq<char>>, text: seq<char>)
    ensures var (w, ok) := Written(kernel, writes, text);
            writes <= w && Served(kernel, |writes|, text, w[|writes|..], ok)
    decreases |text|
  {
    if text != [] {
      var n := Taken(kernel, |writes|, |text|);
      var next := writes + [text];
      if n < 0 {
        assert next[|writes|..] == [text];
      } else {
        WrittenServed(kernel, next, text[n..]);
        var w := Written(kernel, next, text[n..]).0;
        assert w[|writes|..][0] == w[|writes|] == next[|writes|] == text;
        assert w[|writes|..][1..] == w[|next|..];
      }
    }
  }

  lemma PutSent(kernel: Kernel, s: Stream, text: seq<char>)
    ensures var (t, ok) := Put(kernel, s, text);
            Sent(kernel, s, t, text, ok)
  {
    if !s.buffered {
      WrittenServed(kernel, s.writes, text);
    }
  }

  // ----- Text that fits, and a buffer that is full

  /** Text that fits the buffer goes there, and nothing is written. */
  lemma {:induction false} FilledFits(kernel: Kernel, s: Stream, text: seq<char>)
    requires |s.held| + |text| <= BUFFER_SIZE
    ensures Filled(kernel, s, text) == (s.(held := s.held + text), true)
    decreases |text|
  {
    if text == [] {
      assert s.held + text == s.held;
    } else {
      FilledFits(kernel, s.(held := s.held + [text[0]]), text[1..]);
      assert s.held + [text[0]] + text[1..] == s.held + text;
    }
  }

  /** A chunk that fits, with more behind it. */
  lemma FilledChunk(kernel: Kernel, s: Stream, chunk: seq<char>, rest: seq<char>)
    requires |s.held| + |chunk| <= BUFFER_SIZE
    ensures Filled(kernel, s, chunk + rest) == Filled(kernel, s.(held := s.held + chunk), rest)
  {
    FilledThen(kernel, s, chunk, rest);
    FilledFits(kernel, s, chunk);
  }

  /** A full buffer with more to come is flushed. */
  lemma FilledFull(kernel: Kernel, s: Stream, text: seq<char>)
    requires s.buffered && |s.held| == BUFFER_SIZE && text != []
    ensures var (f, ok) := Flushed(kernel, s);
            Filled(kernel, s, text) == if ok then Filled(kernel, f, text) else (f, false)
  {
    assert [] + [text[0]] == [text[0]];
  }

  // ----- What has been delivered, what is held and what is lost

  lemma OneMore(kernel: Kernel, writes: seq<seq<char>>, r: seq<char>)
    ensures var w := writes + [r];
            && Delivered(kernel, w) == Delivered(kernel, writes) + r[..Accepted(kernel, |writes|, |r|)]
            && Lost(kernel, w) == Lost(kernel, writes) + |r| - Accepted(kernel, |writes|, |r|)
  {
    assert (writes + [r])[..|writes|] == writes;
  }

  /** A flush keeps the output unless the kernel leaves some of it behind. */
  lemma FlushMeans(kernel: Kernel, s: Stream)
    requires s.buffered
    ensures var (t, ok) := Flushed(kernel, s);
            && Total(kernel, t) == Total(kernel, s)
            && Lost(kernel, t.writes) >= Lost(kernel, s.writes)
            && (Lost(kernel, t.writes) == Lost(kernel, s.writes) ==> Output(kernel, t) == Output(kernel, s))
            && (!ok ==> Lost(kernel, t.writes) == Lost(kernel, s.writes) + |s.held|)
  {
    OneMore(kernel, s.writes, s.held);
  }

  /** No write from s to t has failed. */
  ghost predicate NoneFailed(kernel: Kernel, s: Stream, t: Stream) {
    forall k :: |s.writes| <= k < |t.writes| ==> Answer(kernel, k) >= 0
  }

  /** Buffered output: bytes put out and bytes lost add up; the output is complete exactly when none is lost. */
  lemma {:induction false} FilledMeans(kernel: Kernel, s: Stream, text: seq<char>)
    requires s.buffered && |s.held| <= BUFFER_SIZE
    ensures var (t, ok) := Filled(kernel, s, text);
            && t.buffered && |t.held| <= BUFFER_SIZE && s.writes <= t.writes
            && Lost(kernel, t.writes) >= Lost(kernel, s.writes)
            && (if ok then
                  && Total(kernel, t) == Total(kernel, s) + |text|
                  && (Lost(kernel, t.writes) == Lost(kernel, s.writes) ==>
                      Output(kernel, t) == Output(kernel, s) + text)
                  && NoneFailed(kernel, s, t)
                else
                  && Total(kernel, t) <= Total(kernel, s) + |text|
                  && Lost(kernel, t.writes) > Lost(kernel, s.writes)
                  && |t.writes| > |s.writes| && Answer(kernel, |t.writes| - 1) < 0)
    decreases |text|
  {
    hide Delivered, Lost, Output;
    if text == [] {
      assert Output(kernel, s) + text == Output(kernel, s);
    } else if |s.held| < BUFFER_SIZE {
      var m := s.(held := s.held + [text[0]]);
      OneHeld(kernel, s, text[0]);
      FilledMeans(kernel, m, text[1..]);
      assert Output(kernel, s) + [text[0]] + text[1..] == Output(kernel, s) + text;
    } else {
      var (f, ok) := Flushed(kernel, s);
      FlushMeans(kernel, s);
      if ok {
        OneHeld(kernel, f, text[0]);
        assert [] + [text[0]] == [text[0]];
        FilledMeans(kernel, f.(held := [text[0]]), text[1..]);
        assert Output(kernel, s) + [text[0]] + text[1..] == Output(kernel, s) + text;
      }
    }
  }

  lemma OneHeld(kernel: Kernel, s: Stream, c: char)
    ensures Output(kernel, s.(held := s.held + [c])) == Output(kernel, s) + [c]
  {
  }

  /** Unbuffered output: all of the text is delivered, or a proper front part of it behind a failed write. */
  lemma {:induction false} ServedMeans(kernel: Kernel, writes: seq<seq<char>>, text: seq<char>,
      requests: seq<seq<char>>, ok: bool)
    requires Served(kernel, |writes|, text, requests, ok)
    ensures var before, after := Delivered(kernel, writes), Delivered(kernel, writes + requests);
            if ok then after == before + text
            else before <= after < before + text && requests != [] && Answer(kernel, |writes| + |requests| - 1) < 0
    decreases |requests|
  {
    hide Delivered;
    if requests == [] {
      assert writes + requests == writes && Delivered(kernel, writes) + text == Delivered(kernel, writes);
    } else {
      var r := requests[0];
      var w := Taken(kernel, |writes|, |r|);
      var next := writes + [r];
      OneMore(kernel, writes, r);
      assert next + requests[1..] == writes + requests;
      if w < 0 {
        assert requests[1..] == [] && next + [] == next && r[..0] == [];
        ProperPrefix(Delivered(kernel, writes), text);
      } else {
        assert r[..w] == text[..w] && text[..w] + text[w..] == text;
        ServedMeans(kernel, next, text[w..], requests[1..], ok);
        var d := Delivered(kernel, writes);
        assert d + text[..w] + text[w..] == d + text;
      }
    }
  }

  lemma {:induction false} ServedAnswers(kernel: Kernel, first: nat, text: seq<char>, requests: seq<seq<char>>)
    requires Served(kernel, first, text, requests, true)
    ensures forall k :: first <= k < first + |requests| ==> Answer(kernel, k) >= 0
    decreases |requests|
  {
    if requests != [] {
      var w := Taken(kernel, first, |requests[0]|);
      ServedAnswers(kernel, first + 1, text[w..], requests[1..]);
    }
  }

  lemma ProperPrefix(a: seq<char>, t: seq<char>)
    requires t != []
    ensures a + [] == a && a < a + t
  {
  }

  /** What handing over a text has made of a stream. Only a new failed write stops it; buffered, the output
      has grown by the text if and only if no byte of a new write was lost; unbuffered, it has if nothing failed. */
  lemma SentMeans(kernel: Kernel, s: Stream, t: Stream, text: seq<char>, ok: bool)
    requires Fits(s) && Sent(kernel, s, t, text, ok)
    ensures Fits(t) && t.buffered == s.buffered && s.writes <= t.writes
    ensures if ok then NoneFailed(kernel, s, t) else |t.writes| > |s.writes| && Answer(kernel, |t.writes| - 1) < 0
    ensures s.buffered ==>
              (Output(kernel, t) == Output(kernel, s) + text <==> Lost(kernel, t.writes) == Lost(kernel, s.writes))
    ensures !s.buffered ==>
              if ok then Output(kernel, t) == Output(kernel, s) + text
              else Output(kernel, s) <= Output(kernel, t) < Output(kernel, s) + text
  {
    hide Delivered, Lost;
    if s.buffered {
      FilledMeans(kernel, s, text);
      if Output(kernel, t) == Output(kernel, s) + text {
        assert |Output(kernel, t)| == |Output(kernel, s)| + |text|;
      }
    } else {
      var requests := t.writes[|s.writes|..];
      ServedMeans(kernel, s.writes, text, requests, ok);
      assert s.writes + requests == t.writes;
      if ok {
        ServedAnswers(kernel, |s.writes|, text, requests);
      }
      assert Delivered(kernel, s.writes) + [] == Delivered(kernel, s.writes);
      assert Delivered(kernel, t.writes) + [] == Delivered(kernel, t.writes);
    }
  }

  /** Every write between two states was answered in full; unbuffered, it is enough that none failed. */
  ghost predicate Untroubled(kernel: Kernel, s: Stream, t: Stream) {
    s.writes <= t.writes &&
    forall k :: |s.writes| <= k < |t.writes| ==>
      Answer(kernel, k) >= if s.buffered then |t.writes[k]| else 0
  }

  lemma {:induction false} NothingLost(kernel: Kernel, v: seq<seq<char>>, w: seq<seq<char>>)
    requires v <= w && forall k :: |v| <= k < |w| ==> Answer(kernel, k) >= |w[k]|
    ensures Lost(kernel, v) == Lost(kernel, w)
    decreases |w|
  {
    if v != w {
      var u := w[..|w| - 1];
      assert forall k :: 0 <= k < |u| ==> u[k] == w[k];
      assert v <= u;
      NothingLost(kernel, v, u);
    }
  }

  /** With no trouble in its writes, the text is output in full. */
  lemma SentWhole(kernel: Kernel, s: Stream, t: Stream, text: seq<char>, ok: bool)
    requires Fits(s) && Sent(kernel, s, t, text, ok) && Untroubled(kernel, s, t)
    ensures ok && Fits(t) && Output(kernel, t) == Output(kernel, s) + text
  {
    hide Sent, Output, Lost;
    SentMeans(kernel, s, t, text, ok);
    if s.buffered {
      NothingLost(kernel, s.writes, t.writes);
    }
    if |t.writes| > |s.writes| {
      var k := |t.writes| - 1;
      assert Answer(kernel, k) >= if s.buffered then |t.writes[k]| else 0;
    }
  }

  // ----- Numbers

  /** fputi outputs the numeral if and only if no byte is lost. Buffered, it fails only behind a new failed
      write; unbuffered, the only write may take less than the numeral and the call succeeds all the same. */
  lemma NumberMeans(kernel: Kernel, s: Stream, i: int)
    requires Fits(s)
    ensures var (t, ok) := PutNumber(kernel, s, i);
            var text := SignedNumeral(i, 10, false);
            && Fits(t) && t.buffered == s.buffered && s.writes <= t.writes
            && (if ok then NoneFailed(kernel, s, t) else |t.writes| > |s.writes| && Answer(kernel, |t.writes| - 1) < 0)
            && Lost(kernel, t.writes) >= Lost(kernel, s.writes)
            && Total(kernel, t) <= Total(kernel, s) + |text|
            && (Output(kernel, t) == Output(kernel, s) + text <==> Lost(kernel, t.writes) == Lost(kernel, s.writes))
            && (!s.buffered ==>
                  && t.writes == s.writes + [text] && (ok <==> Answer(kernel, |s.writes|) >= 0)
                  && (Output(kernel, t) == Output(kernel, s) + text <==>
                      Accepted(kernel, |s.writes|, |text|) == |text|))
  {
    hide Delivered, Lost, SignedNumeral, Filled;
    var text := SignedNumeral(i, 10, false);
    if !s.buffered {
      SingleWrite(kernel, s, text);
    } else if i < 0 && |s.held| + 1 == BUFFER_SIZE {
      FlushMeans(kernel, s);
      var f := Flushed(kernel, s).0;
      FilledMeans(kernel, f, text);
      Complete(kernel, s, PutNumber(kernel, s, i).0, text);
    } else {
      FilledMeans(kernel, s, text);
      Complete(kernel, s, PutNumber(kernel, s, i).0, text);
    }
  }

  lemma SingleWrite(kernel: Kernel, s: Stream, text: seq<char>)
    requires Fits(s) && !s.buffered
    ensures var t := s.(writes := s.writes + [text]);
            var w := Accepted(kernel, |s.writes|, |text|);
            && Output(kernel, t) == Output(kernel, s) + text[..w]
            && Lost(kernel, t.writes) == Lost(kernel, s.writes) + |text| - w
            && (Output(kernel, t) == Output(kernel, s) + text <==> w == |text|)
  {
    OneMore(kernel, s.writes, text);
    var w := Accepted(kernel, |s.writes|, |text|);
    var before := Output(kernel, s);
    assert text[..|text|] == text;
    assert |before + text[..w]| == |before| + w;
  }

  /** If bytes put out and bytes lost add up to no more than there was, losing one means being short. */
  lemma Complete(kernel: Kernel, s: Stream, t: Stream, text: seq<char>)
    requires Total(kernel, t) <= Total(kernel, s) + |text|
    requires Lost(kernel, t.writes) >= Lost(kernel, s.writes)
    ensures Output(kernel, t) == Output(kernel, s) + text ==> Lost(kernel, t.writes) == Lost(kernel, s.writes)
  {
    hide Output, Lost;
    if Output(kernel, t) == Output(kernel, s) + text {
      assert |Output(kernel, t)| == |Output(kernel, s)| + |text|;
    }
  }

  /** On an unbuffered stream whose kernel takes one byte at a time, fputi of 12 prints 1 and succeeds. */
  lemma ShortNumber()
    ensures var kernel := (k: nat) => 1;
            var (t, ok) := PutNumber(kernel, Stream(false, [], []), 12);
            ok && Delivered(kernel, t.writes) == "1"
  {
    var kernel := (k: nat) => 1;
    var text := SignedNumeral(12, 10, false);
    Twelve();
    SingleWrite(kernel, Stream(false, [], []), text);
    var t := PutNumber(kernel, Stream(false, [], []), 12).0;
    assert Delivered(kernel, []) + [] == [];
    assert Delivered(kernel, t.writes) + [] == Delivered(kernel, t.writes);
    assert [] + text[..1] == "1";
  }

  lemma Twelve()
    ensures SignedNumeral(12, 10, false) == "12"
  {
    NumeralStep(12, 10, false);
    NumeralStep(1, 10, false);
  }

  // ----- Runs

  datatype Call = PutCall(text: seq<char>) | NumberCall(i: int) | FlushCall

  function After(kernel: Kernel, s: Stream, call: Call): (Stream, bool) {
    match call
    case PutCall(text) => Put(kernel, s, text)
    case NumberCall(i) => PutNumber(kernel, s, i)
    case FlushCall => Flushed(kernel, s)
  }

  function TextOf(call: Call): seq<char> {
    match call
    case PutCall(text) => text
    case NumberCall(i) => SignedNumeral(i, 10, false)
    case FlushCall => []
  }

  /** A sequence of calls, each made whether or not an earlier one has failed; true if none has. */
  function AfterAll(kernel: Kernel, s: Stream, calls: seq<Call>): (Stream, bool)
    decreases |calls|
  {
    if calls == [] then (s, true)
    else
      var (m, ok) := After(kernel, s, calls[0]);
      var (t, rest) := AfterAll(kernel, m, calls[1..]);
      (t, ok && rest)
  }

  function Texts(calls: seq<Call>): seq<char> {
    if calls == [] then [] else TextOf(calls[0]) + Texts(calls[1..])
  }

  lemma CallMeans(kernel: Kernel, s: Stream, call: Call)
    requires s.buffered && Fits(s)
    ensures var (t, ok) := After(kernel, s, call);
            && t.buffered && Fits(t) && s.writes <= t.writes
            && (!ok ==> |t.writes| > |s.writes| && Answer(kernel, |t.writes| - 1) < 0)
            && Lost(kernel, t.writes) >= Lost(kernel, s.writes)
            && Total(kernel, t) <= Total(kernel, s) + |TextOf(call)|
            && (Lost(kernel, t.writes) == Lost(kernel, s.writes) ==>
                Output(kernel, t) == Output(kernel, s) + TextOf(call))
  {
    hide Delivered, Lost, Output, SignedNumeral, Filled, PutNumber;
    match call
    case PutCall(text) => FilledMeans(kernel, s, text);
    case NumberCall(i) => NumberMeans(kernel, s, i);
    case FlushCall =>
      FlushMeans(kernel, s);
      assert Output(kernel, s) + [] == Output(kernel, s);
  }

  lemma RunStep(kernel: Kernel, s: Stream, calls: seq<Call>)
    ensures calls == [] ==> AfterAll(kernel, s, calls) == (s, true) && Texts(calls) == []
    ensures calls != [] ==>
              var (m, ok) := After(kernel, s, calls[0]);
              var (t, rest) := AfterAll(kernel, m, calls[1..]);
              AfterAll(kernel, s, calls) == (t, ok && rest) && Texts(calls) == TextOf(calls[0]) + Texts(calls[1..])
  {
    hide After, TextOf;
  }

  /** Whatever the kernel answers, a run keeps the buffer within its 1024 bytes, and its output is all the
      texts in order if and only if no byte of a write was lost. */
  lemma {:induction false} RunMeans(kernel: Kernel, s: Stream, calls: seq<Call>)
    requires s.buffered && Fits(s)
    ensures var t := AfterAll(kernel, s, calls).0;
            && t.buffered && Fits(t) && s.writes <= t.writes
            && Lost(kernel, t.writes) >= Lost(kernel, s.writes)
            && Total(kernel, t) <= Total(kernel, s) + |Texts(calls)|
            && (Output(kernel, t) == Output(kernel, s) + Texts(calls) <==>
                Lost(kernel, t.writes) == Lost(kernel, s.writes))
    decreases |calls|
  {
    hide *;
    RunStep(kernel, s, calls);
    if calls == [] {
      assert Output(kernel, s) + [] == Output(kernel, s);
    } else {
      var m := After(kernel, s, calls[0]).0;
      CallMeans(kernel, s, calls[0]);
      RunMeans(kernel, m, calls[1..]);
      assert Output(kernel, s) + TextOf(calls[0]) + Texts(calls[1..]) == Output(kernel, s) + Texts(calls);
      Complete(kernel, s, AfterAll(kernel, s, calls).0, Texts(calls));
    }
  }

  /** If every write is answered in full, all calls succeed and the output grows by all the texts in order. */
  lemma {:induction false} RunWhole(kernel: Kernel, s: Stream, calls: seq<Call>)
    requires s.buffered && Fits(s)
    requires var writes := AfterAll(kernel, s, calls).0.writes;
             forall k :: |s.writes| <= k < |writes| ==> Answer(kernel, k) >= |writes[k]|
    ensures var (t, ok) := AfterAll(kernel, s, calls);
            ok && Fits(t) && Output(kernel, t) == Output(kernel, s) + Texts(calls)
    decreases |calls|
  {
    hide *;
    RunStep(kernel, s, calls);
    RunMeans(kernel, s, calls);
    UntroubledIs(kernel, s, AfterAll(kernel, s, calls).0);
    NothingLost(kernel, s.writes, AfterAll(kernel, s, calls).0.writes);
    if calls != [] {
      var (m, ok) := After(kernel, s, calls[0]);
      var t := AfterAll(kernel, s, calls).0;
      CallMeans(kernel, s, calls[0]);
      RunMeans(kernel, m, calls[1..]);
      Between(kernel, s, m, t);
      UntroubledIs(kernel, m, t);
      RunWhole(kernel, m, calls[1..]);
    }
  }

  lemma UntroubledIs(kernel: Kernel, s: Stream, t: Stream)
    requires s.buffered
    ensures Untroubled(kernel, s, t) <==>
              s.writes <= t.writes && forall k :: |s.writes| <= k < |t.writes| ==> Answer(kernel, k) >= |t.writes[k]|
  {
  }

  lemma Between(kernel: Kernel, s: Stream, m: Stream, t: Stream)
    requires Untroubled(kernel, s, t) && s.writes <= m.writes <= t.writes && m.buffered == s.buffered
    ensures Untroubled(kernel, m, t)
    ensures |m.writes| > |s.writes| ==> Answer(kernel, |m.writes| - 1) >= 0
  {
  }
}
