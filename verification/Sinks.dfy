/** Where formatted output goes, and how a conversion is padded to its field. */
module Sinks {
  import opened Traces
  import opened Streams

  const SIZE_MODULUS := 0x1_0000_0000_0000_0000

  /** The flag characters of a conversion. */
  datatype Flags = Flags(leftAlign: bool, showSign: bool, spaceIfNoSign: bool, leadingZeros: bool, alternate: bool)

  datatype LengthModifier =
    | DefaultLength | CharLength | ShortLength | LongLength | LongLongLength
    | SizeLength | PtrdiffLength | IntmaxLength | LongDoubleLength

  datatype Specifier =
    | SignedDecimal | UnsignedDecimal | Octal | Hex | Pointer
    | Float | Scientific | Smart | HexFloat
    | Char | String | Count

  /** A parsed conversion; precision -1 means that none was given. */
  datatype State = State(flags: Flags, width: nat, precision: int, length: LengthModifier, specifier: Specifier,
                         upper: bool)

  const NOT_SPECIFIED := -1

  function Repeated(ch: char, n: nat): (s: seq<char>)
    ensures |s| == n && forall i :: 0 <= i < n ==> s[i] == ch
  {
    seq(n, _ => ch)
  }

  class Sink {
    const out: File
    var count: nat

    constructor (out: File)
      ensures this.out == out && count == 0
      ensures out.Valid() ==> Valid()
    {
      this.out := out;
      count := 0;
    }

    ghost predicate Valid()
      reads this, out, out.buffer_
    {
      out.Valid() && count < SIZE_MODULUS
    }

    /** Since the stream was `before` and the sink had counted c, `text` has been handed on and counted, or,
        unless ok, handing it on has stopped behind a write that failed. */
    ghost predicate Emitted(before: Stream, c: nat, text: seq<char>, ok: bool)
      reads this, out, out.buffer_
    {
      Sent(out.kernel, before, out.Trace(), text, ok) && (ok ==> count == (c + |text|) % SIZE_MODULUS)
    }

    lemma CountBound()
      requires Valid()
      ensures count < SIZE_MODULUS && out.Valid()
    {
    }

    lemma EmittedNothing()
      requires count < SIZE_MODULUS
      ensures Emitted(out.Trace(), count, [], true)
    {
      SentNothing(out.kernel, out.Trace());
    }

    lemma EmittedParts(before: Stream, c: nat, text: seq<char>, ok: bool)
      ensures Emitted(before, c, text, ok) <==>
                && Sent(out.kernel, before, out.Trace(), text, ok)
                && (ok ==> count == (c + |text|) % SIZE_MODULUS)
    {
    }

    /** Emission goes on behind text that has gone out in full. */
    lemma EmittedThen(before: Stream, c: nat, t1: seq<char>, mid: Stream, c1: nat, t2: seq<char>, ok: bool)
      requires Sent(out.kernel, before, mid, t1, true) && c1 == (c + |t1|) % SIZE_MODULUS
      requires Emitted(mid, c1, t2, ok)
      ensures Emitted(before, c, t1 + t2, ok)
    {
      hide Sent;
      SentThen(out.kernel, before, mid, out.Trace(), t1, t2, ok);
    }

    lemma EmittedStopped(before: Stream, c: nat, t1: seq<char>, t2: seq<char>)
      requires Emitted(before, c, t1, false)
      ensures Emitted(before, c, t1 + t2, false)
    {
      hide Sent;
      SentStopped(out.kernel, before, out.Trace(), t1, t2);
    }

    method Bytes(str: seq<char>) returns (ok: bool)
      requires Valid()
      modifies this, out, out.buffer_
      ensures Valid() && Emitted(old(out.Trace()), old(count), str, ok)
    {
      hide Sent, Put, File.Valid, File.Trace;
      PutSent(out.kernel, out.Trace(), str);
      count := (count + |str|) % SIZE_MODULUS;
      ok := out.PutBytes(str);
    }

    /** A field that stopped short, in front of its body or behind the front of it. */
    lemma FieldCut(before: Stream, c: nat, state: State, prefix: seq<char>, body: seq<char>, zeroPad: bool)
      requires var front := FieldFront(state, |prefix| + |body|, prefix, zeroPad);
               Emitted(before, c, front, false) || Emitted(before, c, front + body, false)
      ensures Emitted(before, c, Field(state, prefix, body, zeroPad), false)
    {
      hide *;
      var len := |prefix| + |body|;
      var front, back := FieldFront(state, len, prefix, zeroPad), FieldBack(state, len);
      FieldSplit(state, prefix, body, zeroPad);
      if Emitted(before, c, front, false) {
        EmittedStopped(before, c, front, body);
      }
      EmittedStopped(before, c, front + body, back);
    }

    /** Bytes behind text that has gone out already. */
    method More(str: seq<char>, ghost before: Stream, ghost c: nat, ghost done: seq<char>) returns (ok: bool)
      requires Valid() && Emitted(before, c, done, true)
      modifies this, out, out.buffer_
      ensures Valid() && Emitted(before, c, done + str, ok)
    {
      hide *;
      EmittedParts(before, c, done, true);
      ghost var mid, k := out.Trace(), count;
      ok := Bytes(str);
      EmittedThen(before, c, done, mid, k, str, ok);
    }

    method PutChar(ch: char) returns (ok: bool)
      requires Valid()
      modifies this, out, out.buffer_
      ensures Valid() && Emitted(old(out.Trace()), old(count), [ch], ok)
    {
      ok := Bytes([ch]);
    }

    /** n copies of a character, by chunks of at most 64. */
    method Repeat(ch: char, n: nat) returns (ok: bool)
      requires Valid()
      modifies this, out, out.buffer_
      ensures Valid() && Emitted(old(out.Trace()), old(count), Repeated(ch, n), ok)
    {
      hide File.Valid, File.Trace, Sent;
      ghost var before, c := out.Trace(), count;
      var left := n;
      EmittedNothing();
      while left > 0
        invariant Valid() && 0 <= left <= n && Emitted(before, c, Repeated(ch, n - left), true)
      {
        var len := if left < 64 then left else 64;
        ghost var mid, c1 := out.Trace(), count;
        var sent := Bytes(Repeated(ch, len));
        ghost var done, more := Repeated(ch, n - left), Repeated(ch, len);
        assert done + more == Repeated(ch, n - left + len);
        EmittedThen(before, c, done, mid, c1, more, sent);
        if !sent {
          assert Repeated(ch, n - left + len) + Repeated(ch, left - len) == Repeated(ch, n);
          EmittedStopped(before, c, Repeated(ch, n - left + len), Repeated(ch, left - len));
          return false;
        }
        left := left - len;
      }
      return true;
    }

    /** Padding in front of a field of len bytes, then its prefix. */
    method FieldBegin(state: State, len: nat, prefix: seq<char>, zero_pad: bool) returns (ok: bool)
      requires Valid()
      modifies this, out, out.buffer_
      ensures Valid() && Emitted(old(out.Trace()), old(count), FieldFront(state, len, prefix, zero_pad), ok)
    {
      hide File.Valid, File.Trace, Sent;
      var pad := if state.width > len then state.width - len else 0;
      if state.flags.leftAlign {
        ok := Bytes(prefix);
        return;
      }
      if zero_pad {
        ok := BytesThenRepeat(prefix, '0', pad);
        return;
      }
      ghost var before, c := out.Trace(), count;
      ok := Repeat(' ', pad);
      if !ok {
        EmittedStopped(before, c, Repeated(' ', pad), prefix);
        return;
      }
      ghost var mid, c1 := out.Trace(), count;
      ok := Bytes(prefix);
      EmittedThen(before, c, Repeated(' ', pad), mid, c1, prefix, ok);
    }

    method BytesThenRepeat(prefix: seq<char>, ch: char, pad: nat) returns (ok: bool)
      requires Valid()
      modifies this, out, out.buffer_
      ensures Valid() && Emitted(old(out.Trace()), old(count), prefix + Repeated(ch, pad), ok)
    {
      hide File.Valid, File.Trace, Sent;
      ghost var before, c := out.Trace(), count;
      ok := Bytes(prefix);
      if !ok {
        EmittedStopped(before, c, prefix, Repeated(ch, pad));
        return;
      }
      ghost var mid, c1 := out.Trace(), count;
      ok := Repeat(ch, pad);
      EmittedThen(before, c, prefix, mid, c1, Repeated(ch, pad), ok);
    }

    /** Padding behind a left-aligned field of len bytes. */
    method FieldEnd(state: State, len: nat) returns (ok: bool)
      requires Valid()
      modifies this, out, out.buffer_
      ensures Valid() && Emitted(old(out.Trace()), old(count), FieldBack(state, len), ok)
    {
      hide File.Valid, File.Trace, Sent;
      if !state.flags.leftAlign || state.width <= len {
        EmittedNothing();
        return true;
      }
      ok := Repeat(' ', state.width - len);
    }

    /** A text in its field, padded with spaces. */
    method TextField(state: State, prefix: seq<char>, body: seq<char>) returns (ok: bool)
      requires Valid()
      modifies this, out, out.buffer_
      ensures Valid() && Emitted(old(out.Trace()), old(count), Field(state, prefix, body, false), ok)
    {
      hide *;
      ghost var before, c := out.Trace(), count;
      var len := |prefix| + |body|;
      ghost var front := FieldFront(state, len, prefix, false);
      FieldSplit(state, prefix, body, false);
      ok := FieldBegin(state, len, prefix, false);
      if !ok {
        FieldCut(before, c, state, prefix, body, false);
        return;
      }
      ok := More(body, before, c, front);
      if !ok {
        FieldCut(before, c, state, prefix, body, false);
        return;
      }
      EmittedParts(before, c, front + body, true);
      ghost var mid, k := out.Trace(), count;
      ok := FieldEnd(state, len);
      EmittedThen(before, c, front + body, mid, k, FieldBack(state, len), ok);
    }
  }

  // ----- Fields as text

  function Pad(state: State, len: nat): nat {
    if state.width > len then state.width - len else 0
  }

  function FieldFront(state: State, len: nat, prefix: seq<char>, zeroPad: bool): seq<char> {
    if state.flags.leftAlign then prefix
    else if zeroPad then prefix + Repeated('0', Pad(state, len))
    else Repeated(' ', Pad(state, len)) + prefix
  }

  function FieldBack(state: State, len: nat): seq<char> {
    if state.flags.leftAlign then Repeated(' ', Pad(state, len)) else []
  }

  /** A prefix (sign or 0x) and a body in their field. */
  function Field(state: State, prefix: seq<char>, body: seq<char>, zeroPad: bool): seq<char> {
    var len := |prefix| + |body|;
    FieldFront(state, len, prefix, zeroPad) + body + FieldBack(state, len)
  }

  lemma FieldSplit(state: State, prefix: seq<char>, body: seq<char>, zeroPad: bool)
    ensures var len := |prefix| + |body|;
            Field(state, prefix, body, zeroPad) ==
                FieldFront(state, len, prefix, zeroPad) + body + FieldBack(state, len)
  {
  }

  /** A field is as wide as asked, or as long as its text; its text stands at one end of it, and what
      fills it up is spaces, or zeros between prefix and body. */
  lemma FieldShape(state: State, prefix: seq<char>, body: seq<char>, zeroPad: bool)
    ensures var f := Field(state, prefix, body, zeroPad);
            var len := |prefix| + |body|;
            && |f| == (if state.width > len then state.width else len)
            && (state.flags.leftAlign ==> prefix + body <= f && forall i :: len <= i < |f| ==> f[i] == ' ')
            && (!state.flags.leftAlign && !zeroPad ==>
                  f[|f| - len..] == prefix + body && forall i :: 0 <= i < |f| - len ==> f[i] == ' ')
            && (!state.flags.leftAlign && zeroPad ==>
                  && prefix <= f && f[|f| - |body|..] == body
                  && forall i :: |prefix| <= i < |f| - |body| ==> f[i] == '0')
  {
    var pad := Pad(state, |prefix| + |body|);
    if state.flags.leftAlign {
      PaddedBehind(prefix, body, pad);
    } else if zeroPad {
      PaddedInside(prefix, body, pad);
    } else {
      PaddedInFront(prefix, body, pad);
    }
    hide Repeated, Pad;
  }

  lemma PaddedBehind(prefix: seq<char>, body: seq<char>, n: nat)
    ensures var f := prefix + body + Repeated(' ', n);
            && |f| == |prefix| + |body| + n && prefix + body <= f
            && forall i :: |prefix| + |body| <= i < |f| ==> f[i] == ' '
  {
  }

  lemma PaddedInside(prefix: seq<char>, body: seq<char>, n: nat)
    ensures var f := prefix + Repeated('0', n) + body + [];
            && |f| == |prefix| + |body| + n && prefix <= f && f[|f| - |body|..] == body
            && forall i :: |prefix| <= i < |f| - |body| ==> f[i] == '0'
  {
  }

  lemma PaddedInFront(prefix: seq<char>, body: seq<char>, n: nat)
    ensures var f := Repeated(' ', n) + prefix + body + [];
            && |f| == |prefix| + |body| + n && f[n..] == prefix + body
            && forall i :: 0 <= i < n ==> f[i] == ' '
  {
  }
}
