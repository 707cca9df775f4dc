/** The framing state machine of the echo server: the two processing states,
    the transition taken on one received byte, and its fold over a byte string,
    with an independent span-based description of what gets echoed. */
module Framing {

  /** An unsigned 8-bit byte (C's uint8_t). */
  newtype uint8 = x: int | 0 <= x < 256

  /** '^' opens a message. */
  const Caret: uint8 := 0x5E
  /** '$' closes a message. */
  const Dollar: uint8 := 0x24
  /** '*' is the acknowledgment byte sent when a client connects. */
  const Ack: uint8 := 0x2A

  datatype Option<T> = None | Some(value: T)

  /** The processing state of one connection. */
  datatype ProcessingState = WaitForMsg | InMsg

  /** `b += 1` on a uint8_t: the sum is computed as an int and truncated back to 8 bits. */
  function Increment(b: uint8): (r: uint8)
    ensures b < 255 ==> r as int == b as int + 1
    ensures b == 255 ==> r == 0
  {
    ((b as int + 1) % 256) as uint8
  }

  /** One iteration of the per-byte switch: the next state and the byte sent, if any. */
  function Step(s: ProcessingState, b: uint8): (r: (ProcessingState, Option<uint8>))
    // a byte is echoed exactly when it is payload inside a message, and then it is incremented
    ensures r.1.Some? <==> s == InMsg && b != Dollar
    ensures r.1.Some? ==> r.1.value == Increment(b)
    // only the two delimiters change the state, each one only from its own state
    ensures r.0 != s <==> (s == WaitForMsg && b == Caret) || (s == InMsg && b == Dollar)
  {
    match s
    case WaitForMsg => if b == Caret then (InMsg, None) else (WaitForMsg, None)
    case InMsg => if b == Dollar then (WaitForMsg, None) else (InMsg, Some(Increment(b)))
  }

  function Emitted(o: Option<uint8>): seq<uint8>
  {
    if o.Some? then [o.value] else []
  }

  /** Processing bs from state s, byte by byte and left to right: the final state and
      every byte sent, in order. The last byte is peeled off, so that a prefix of the
      input is exactly what a loop has processed so far. */
  function Process(s: ProcessingState, bs: seq<uint8>): (r: (ProcessingState, seq<uint8>))
    ensures |r.1| <= |bs|
  {
    if bs == [] then (s, [])
    else
      var prev := Process(s, bs[..|bs| - 1]);
      var next := Step(prev.0, bs[|bs| - 1]);
      (next.0, prev.1 + Emitted(next.1))
  }

  /** The buffer after the in-place loop has processed bs from state s: each payload
      byte inside a message incremented, every other byte as it was. */
  function Rewrite(s: ProcessingState, bs: seq<uint8>): (r: seq<uint8>)
    ensures |r| == |bs|
  {
    if bs == [] then []
    else
      var init, last := bs[..|bs| - 1], bs[|bs| - 1];
      Rewrite(s, init) + [if Process(s, init).0 == InMsg && last != Dollar then Increment(last) else last]
  }

  function IncrementAll(bs: seq<uint8>): (r: seq<uint8>)
    ensures |r| == |bs|
    ensures forall i :: 0 <= i < |bs| ==> r[i] == Increment(bs[i])
  {
    seq(|bs|, i requires 0 <= i < |bs| => Increment(bs[i]))
  }

  /** The position of the first x in bs. */
  function FirstIndex(bs: seq<uint8>, x: uint8): (k: nat)
    requires x in bs
    ensures k < |bs| && bs[k] == x && x !in bs[..k]
  {
    if bs[0] == x then 0 else 1 + FirstIndex(bs[1..], x)
  }

  /** Reference description of the echo, by spans rather than by states: while waiting,
      everything up to and including the next '^' is dropped; inside a message, every
      byte up to the next '$' is echoed incremented, and the '$' itself is dropped. A span
      that is never closed is echoed to the end. */
  function Echo(s: ProcessingState, bs: seq<uint8>): seq<uint8>
    decreases |bs|
  {
    match s
    case WaitForMsg =>
      if Caret in bs then Echo(InMsg, bs[FirstIndex(bs, Caret) + 1..]) else []
    case InMsg =>
      if Dollar in bs then
        var k := FirstIndex(bs, Dollar);
        IncrementAll(bs[..k]) + Echo(WaitForMsg, bs[k + 1..])
      else IncrementAll(bs)
  }

  /** The state is carried across reads: processing a then b is processing a + b. */
  lemma {:induction false} ProcessConcat(s: ProcessingState, a: seq<uint8>, b: seq<uint8>)
    ensures Process(s, a + b).0 == Process(Process(s, a).0, b).0
    ensures Process(s, a + b).1 == Process(s, a).1 + Process(Process(s, a).0, b).1
    decreases |b|
  {
    if b == [] {
      assert a + b == a;
    } else {
      var b' := b[..|b| - 1];
      assert (a + b)[..|a + b| - 1] == a + b';
      assert (a + b)[|a + b| - 1] == b[|b| - 1];
      ProcessConcat(s, a, b');
    }
  }

  /** Processing the byte at position i of bs, after the bytes before it. */
  lemma ProcessNext(s: ProcessingState, bs: seq<uint8>, i: nat)
    requires i < |bs|
    ensures var prev := Process(s, bs[..i]);
      && Process(s, bs[..i + 1]).0 == Step(prev.0, bs[i]).0
      && Process(s, bs[..i + 1]).1 == prev.1 + Emitted(Step(prev.0, bs[i]).1)
  {
    assert bs[..i + 1] == bs[..i] + [bs[i]];
    ProcessSnoc(s, bs[..i], bs[i]);
  }

  /** Output is produced as the input arrives: what a prefix of the input echoes is a
      prefix of what the whole input echoes. */
  lemma ProcessPrefix(s: ProcessingState, bs: seq<uint8>, i: nat)
    requires i <= |bs|
    ensures Process(s, bs[..i]).1 <= Process(s, bs).1
  {
    ProcessConcat(s, bs[..i], bs[i..]);
    assert bs[..i] + bs[i..] == bs;
  }

  /** When the byte at position i is echoed, stopping right before its echo keeps
      exactly the echo of the bytes before position i. */
  lemma EchoCutAt(s: ProcessingState, bs: seq<uint8>, i: nat)
    requires i < |bs|
    requires Step(Process(s, bs[..i]).0, bs[i]).1.Some?
    ensures |Process(s, bs[..i]).1| < |Process(s, bs).1|
    ensures Process(s, bs).1[..|Process(s, bs[..i]).1|] == Process(s, bs[..i]).1
  {
    ProcessNext(s, bs, i);
    ProcessPrefix(s, bs, i + 1);
  }

  /** Processing one more byte is one more Step after the bytes before it. */
  lemma ProcessSnoc(s: ProcessingState, a: seq<uint8>, x: uint8)
    ensures Process(s, a + [x]).0 == Step(Process(s, a).0, x).0
    ensures Process(s, a + [x]).1 == Process(s, a).1 + Emitted(Step(Process(s, a).0, x).1)
  {
    assert (a + [x])[..|a|] == a;
  }

  /** Processing a, then one byte x, then c, carrying the state throughout. */
  lemma ProcessAround(s: ProcessingState, a: seq<uint8>, x: uint8, c: seq<uint8>)
    ensures var mid := Step(Process(s, a).0, x);
      Process(s, a + [x] + c)
        == (Process(mid.0, c).0, Process(s, a).1 + Emitted(mid.1) + Process(mid.0, c).1)
  {
    ProcessSnoc(s, a, x);
    ProcessConcat(s, a + [x], c);
  }

  /** Buffer position j is changed exactly when it is a payload byte processed inside a
      message, and then to its increment; every other position keeps its byte. */
  lemma {:induction false} RewriteAt(s: ProcessingState, bs: seq<uint8>, j: nat)
    requires j < |bs|
    ensures Rewrite(s, bs)[j]
         == if Process(s, bs[..j]).0 == InMsg && bs[j] != Dollar then Increment(bs[j]) else bs[j]
    decreases |bs|
  {
    var init := bs[..|bs| - 1];
    if j < |bs| - 1 {
      RewriteAt(s, init, j);
      assert init[..j] == bs[..j];
    }
  }

  /** While waiting, bytes without a '^' are all dropped. */
  lemma {:induction false} WaitDropsNoise(bs: seq<uint8>)
    requires Caret !in bs
    ensures Process(WaitForMsg, bs) == (WaitForMsg, [])
    decreases |bs|
  {
    if bs != [] {
      var init := bs[..|bs| - 1];
      assert init + [bs[|bs| - 1]] == bs;
      WaitDropsNoise(init);
      ProcessSnoc(WaitForMsg, init, bs[|bs| - 1]);
    }
  }

  /** Inside a message, bytes without a '$' are all echoed, each incremented. */
  lemma {:induction false} MessageEchoesPayload(bs: seq<uint8>)
    requires Dollar !in bs
    ensures Process(InMsg, bs) == (InMsg, IncrementAll(bs))
    decreases |bs|
  {
    if bs != [] {
      var init := bs[..|bs| - 1];
      assert init + [bs[|bs| - 1]] == bs;
      MessageEchoesPayload(init);
      ProcessSnoc(InMsg, init, bs[|bs| - 1]);
      assert IncrementAll(bs) == IncrementAll(init) + [Increment(bs[|bs| - 1])];
    }
  }

  /** The state machine echoes exactly what the span-based reference describes. */
  lemma {:induction false} ProcessMatchesEcho(s: ProcessingState, bs: seq<uint8>)
    ensures Process(s, bs).1 == Echo(s, bs)
    decreases |bs|, 1
  {
    match s
    case WaitForMsg => WaitMatchesEcho(bs);
    case InMsg => MessageMatchesEcho(bs);
  }

  lemma {:induction false} WaitMatchesEcho(bs: seq<uint8>)
    ensures Process(WaitForMsg, bs).1 == Echo(WaitForMsg, bs)
    decreases |bs|, 0
  {
    if Caret in bs {
      var k := FirstIndex(bs, Caret);
      var head, rest := bs[..k], bs[k + 1..];
      assert bs == head + [Caret] + rest;
      WaitDropsNoise(head);
      ProcessAround(WaitForMsg, head, Caret, rest);
      assert Step(WaitForMsg, Caret) == (InMsg, None);
      ProcessMatchesEcho(InMsg, rest);
      assert Echo(WaitForMsg, bs) == Echo(InMsg, rest);
    } else {
      WaitDropsNoise(bs);
    }
  }

  lemma {:induction false} MessageMatchesEcho(bs: seq<uint8>)
    ensures Process(InMsg, bs).1 == Echo(InMsg, bs)
    decreases |bs|, 0
  {
    if Dollar in bs {
      var k := FirstIndex(bs, Dollar);
      var payload, rest := bs[..k], bs[k + 1..];
      assert bs == payload + [Dollar] + rest;
      MessageEchoesPayload(payload);
      ProcessAround(InMsg, payload, Dollar, rest);
      assert Step(InMsg, Dollar) == (WaitForMsg, None);
      ProcessMatchesEcho(WaitForMsg, rest);
      var echoed := IncrementAll(payload);
      calc {
        Process(InMsg, bs).1;
        echoed + [] + Process(WaitForMsg, rest).1;
        { assert echoed + [] == echoed; }
        echoed + Echo(WaitForMsg, rest);
        Echo(InMsg, bs);
      }
    } else {
      MessageEchoesPayload(bs);
    }
  }

  /** A '^' that is never closed: everything after it is echoed, incremented, and no
      extra byte follows. */
  lemma {:induction false} UnclosedSpanEchoed(pre: seq<uint8>, tail: seq<uint8>)
    requires Process(WaitForMsg, pre).0 == WaitForMsg
    requires Dollar !in tail
    ensures Process(WaitForMsg, pre + [Caret] + tail).1
         == Process(WaitForMsg, pre).1 + IncrementAll(tail)
    ensures Process(WaitForMsg, pre + [Caret] + tail).0 == InMsg
  {
    ProcessAround(WaitForMsg, pre, Caret, tail);
    MessageEchoesPayload(tail);
  }

  /** "^$" is an empty message: nothing is echoed and the connection waits again. */
  lemma EmptyMessage()
    ensures Process(WaitForMsg, [Caret, Dollar]) == (WaitForMsg, [])
  {
    var bs := [Caret, Dollar];
    ProcessNext(WaitForMsg, bs, 0);
    ProcessNext(WaitForMsg, bs, 1);
    assert bs[..2] == bs;
  }

  /** "^", 0xFF, "$": the payload byte wraps around to 0x00. */
  lemma WrapAround()
    ensures Process(WaitForMsg, [Caret, 0xFF, Dollar]).1 == [0x00]
  {
    var bs := [Caret, 0xFF, Dollar];
    ProcessNext(WaitForMsg, bs, 0);
    ProcessNext(WaitForMsg, bs, 1);
    assert Step(InMsg, bs[1]) == (InMsg, Some(0x00));
    ProcessNext(WaitForMsg, bs, 2);
    assert bs[..3] == bs;
  }

  /** "a^bc$d^e" echoes "cd" and then "f": 'a' and 'd' lie outside every span. */
  lemma StateConfinement()
    ensures Process(WaitForMsg, [0x61, Caret, 0x62, 0x63, Dollar, 0x64, Caret, 0x65]).1
         == [0x63, 0x64, 0x66]
  {
    var bs: seq<uint8> := [0x61, Caret, 0x62, 0x63, Dollar, 0x64, Caret, 0x65];
    assert Step(WaitForMsg, bs[0]) == (WaitForMsg, None);
    ProcessNext(WaitForMsg, bs, 0);
    assert Step(WaitForMsg, bs[1]) == (InMsg, None);
    ProcessNext(WaitForMsg, bs, 1);
    assert Step(InMsg, bs[2]) == (InMsg, Some(0x63));
    ProcessNext(WaitForMsg, bs, 2);
    assert Step(InMsg, bs[3]) == (InMsg, Some(0x64));
    ProcessNext(WaitForMsg, bs, 3);
    assert Step(InMsg, bs[4]) == (WaitForMsg, None);
    ProcessNext(WaitForMsg, bs, 4);
    assert Step(WaitForMsg, bs[5]) == (WaitForMsg, None);
    ProcessNext(WaitForMsg, bs, 5);
    assert Step(WaitForMsg, bs[6]) == (InMsg, None);
    ProcessNext(WaitForMsg, bs, 6);
    assert Step(InMsg, bs[7]) == (InMsg, Some(0x66));
    ProcessNext(WaitForMsg, bs, 7);
    assert bs[..8] == bs;
  }
}
