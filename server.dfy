/** serve_connection: the handshake, the read loop, and the per-byte framing over
    each received buffer, incremented in place and echoed one byte at a time. */
module Server {
  import opened Framing
  import opened Sockets

  /** What one served connection amounts to on the wire: whether serving succeeded,
      and every byte sent, in order. */
  datatype Outcome = Outcome(ok: bool, sent: seq<uint8>)

  /** The byte stream the client sent, however it was split into reads. */
  function Flatten(chunks: seq<seq<uint8>>): seq<uint8>
  {
    if chunks == [] then [] else chunks[0] + Flatten(chunks[1..])
  }

  /** The read loop, one buffer per iteration, carrying the state from one buffer to
      the next, until the stream ends or a send fails. */
  function ServeLoop(s: ProcessingState, chunks: seq<seq<uint8>>, finish: EndOfStream, lim: SendLimit): Outcome
    decreases |chunks|
  {
    if chunks == [] then Outcome(finish == OrderlyClose, [])
    else
      var p := Process(s, chunks[0]);
      if Allows(lim, |p.1|) then
        var rest := ServeLoop(p.0, chunks[1..], finish, Spend(lim, |p.1|));
        Outcome(rest.ok, p.1 + rest.sent)
      else
        Outcome(false, p.1[..lim.n])
  }

  /** The read loop succeeds only when every echo went out and the stream closed in
      order; what it sends is the echo of the whole stream, cut where a send failed. */
  lemma {:induction false} ServeLoopMatchesStream(s: ProcessingState, chunks: seq<seq<uint8>>, finish: EndOfStream, lim: SendLimit)
    ensures var r := ServeLoop(s, chunks, finish, lim);
      var out := Process(s, Flatten(chunks)).1;
      && (r.ok <==> finish == OrderlyClose && Allows(lim, |out|))
      && r.sent == if Allows(lim, |out|) then out else out[..lim.n]
    decreases |chunks|
  {
    if chunks != [] {
      var p := Process(s, chunks[0]);
      assert Flatten(chunks) == chunks[0] + Flatten(chunks[1..]);
      ProcessConcat(s, chunks[0], Flatten(chunks[1..]));
      var later := Process(p.0, Flatten(chunks[1..])).1;
      assert Process(s, Flatten(chunks)).1 == p.1 + later;
      if Allows(lim, |p.1|) {
        ServeLoopMatchesStream(p.0, chunks[1..], finish, Spend(lim, |p.1|));
        SpendTwice(lim, |p.1|, |later|);
        if !Allows(lim, |p.1| + |later|) {
          PrefixPastConcat(p.1, later, lim.n);
        }
      } else {
        PrefixOfConcat(p.1, later, lim.n);
      }
    }
  }

  /** A cut inside the first part of a concatenation. */
  lemma PrefixOfConcat(a: seq<uint8>, b: seq<uint8>, k: nat)
    requires k <= |a|
    ensures (a + b)[..k] == a[..k]
  {
  }

  /** A cut inside the second part of a concatenation. */
  lemma PrefixPastConcat(a: seq<uint8>, b: seq<uint8>, k: nat)
    requires |a| <= k <= |a| + |b|
    ensures (a + b)[..k] == a + b[..k - |a|]
  {
  }

  /** serve_connection as a whole: the handshake byte, then the read loop from the
      waiting state. */
  function Serve(chunks: seq<seq<uint8>>, finish: EndOfStream, lim: SendLimit): Outcome
  {
    if !Allows(lim, 1) then Outcome(false, [])
    else
      var loop := ServeLoop(WaitForMsg, chunks, finish, Spend(lim, 1));
      Outcome(loop.ok, [Ack] + loop.sent)
  }

  /** What goes out on a connection is '*' followed by the echo of the whole stream,
      cut where a send failed, and serving succeeds only when everything went out and
      the client closed the stream in order. */
  lemma ServeMatchesStream(chunks: seq<seq<uint8>>, finish: EndOfStream, lim: SendLimit)
    ensures var r := Serve(chunks, finish, lim);
      var all := [Ack] + Process(WaitForMsg, Flatten(chunks)).1;
      && (r.ok <==> finish == OrderlyClose && Allows(lim, |all|))
      && r.sent == if Allows(lim, |all|) then all else all[..lim.n]
    // the first byte sent on every connection is the handshake
    ensures Serve(chunks, finish, lim).sent != [] ==> Serve(chunks, finish, lim).sent[0] == Ack
    // a failed handshake sends nothing and fails
    ensures !Allows(lim, 1) ==> Serve(chunks, finish, lim) == Outcome(false, [])
  {
    if Allows(lim, 1) {
      var out := Process(WaitForMsg, Flatten(chunks)).1;
      ServeLoopMatchesStream(WaitForMsg, chunks, finish, Spend(lim, 1));
      assert !Allows(lim, 1 + |out|) ==> ([Ack] + out)[..lim.n] == [Ack] + out[..lim.n - 1];
    }
  }

  /** Fragmentation invariance: how the stream is split into reads does not matter. */
  lemma SameStreamSameOutcome(c1: seq<seq<uint8>>, c2: seq<seq<uint8>>, finish: EndOfStream, lim: SendLimit)
    requires Flatten(c1) == Flatten(c2)
    ensures Serve(c1, finish, lim) == Serve(c2, finish, lim)
  {
    ServeMatchesStream(c1, finish, lim);
    ServeMatchesStream(c2, finish, lim);
  }

  /** A stream the client closes at once: the handshake and nothing more, and success. */
  lemma ClosedAtOnce(lim: SendLimit)
    requires Allows(lim, 1)
    ensures Serve([], OrderlyClose, lim) == Outcome(true, [Ack])
  {
  }

  /** The for loop over one received buffer (its first len bytes), from state s. Each
      payload byte is incremented in place and sent on its own; a failed send stops the
      loop at once. `stop` is the number of positions the loop got through. */
  method ProcessChunk(conn: Connection, buf: array<uint8>, len: nat, s: ProcessingState)
    returns (next: ProcessingState, ok: bool, ghost stop: nat)
    requires len <= buf.Length
    modifies conn`limit, conn`sent, buf
    ensures var p := Process(s, old(buf[..len]));
      && (ok <==> Allows(old(conn.limit), |p.1|))
      && (ok ==> next == p.0 && conn.limit == Spend(old(conn.limit), |p.1|))
      && conn.sent == old(conn.sent) + (if ok then p.1 else p.1[..old(conn.limit).n])
    ensures stop <= len && (ok ==> stop == len)
    // a refused send leaves no sends to spare
    ensures !ok ==> conn.limit == FailsAfter(0)
    // the byte at which the loop stopped is the payload byte whose send failed
    ensures var orig := old(buf[..len]);
      !ok ==> (0 < stop && Step(Process(s, orig[..stop - 1]).0, orig[stop - 1]).1.Some?
               && |Process(s, orig[..stop - 1]).1| == old(conn.limit).n)
    // the positions the loop got through hold their rewritten value; the rest are untouched
    ensures forall j :: 0 <= j < stop ==> buf[j] == Rewrite(s, old(buf[..len]))[j]
    ensures forall j :: stop <= j < buf.Length ==> buf[j] == old(buf[j])
  {
    ghost var orig := buf[..len];
    ghost var sent0 := conn.sent;
    ghost var lim0 := conn.limit;
    ghost var out: seq<uint8> := [];
    ghost var target := Rewrite(s, orig);
    var state := s;
    for i := 0 to len
      invariant state == Process(s, orig[..i]).0 && out == Process(s, orig[..i]).1
      invariant conn.sent == sent0 + out
      invariant Allows(lim0, |out|) && conn.limit == Spend(lim0, |out|)
      invariant forall j :: 0 <= j < buf.Length ==> buf[j] == if j < i then target[j] else old(buf[j])
    {
      ProcessNext(s, orig, i);
      RewriteAt(s, orig, i);
      ghost var step := Step(state, buf[i]);
      var sentOk;
      state, sentOk := HandleByte(conn, buf, i, state);
      if !sentOk {
        FailedSendCut(s, orig, i, lim0);
        assert old(buf[..len]) == orig;
        assert conn.sent == sent0 + out;
        assert forall j :: 0 <= j < i + 1 ==> buf[j] == target[j];
        return state, false, i + 1;
      }
      if step.1.Some? {
        SpendTwice(lim0, |out|, 1);
        AppendAssoc(sent0, out, [step.1.value]);
        out := out + [step.1.value];
      } else {
        assert out + Emitted(step.1) == out;
      }
    }
    assert orig[..len] == orig;
    assert old(buf[..len]) == orig;
    return state, true, len;
  }

  /** A send refused at position i: the limit was exactly the echo so far, so what went
      out is the echo of the whole buffer cut there. */
  lemma FailedSendCut(s: ProcessingState, bs: seq<uint8>, i: nat, lim: SendLimit)
    requires i < |bs|
    requires Step(Process(s, bs[..i]).0, bs[i]).1.Some?
    requires Allows(lim, |Process(s, bs[..i]).1|)
    requires !Allows(Spend(lim, |Process(s, bs[..i]).1|), 1)
    ensures !Allows(lim, |Process(s, bs).1|)
    ensures Process(s, bs).1[..lim.n] == Process(s, bs[..i]).1
    ensures lim.n == |Process(s, bs[..i]).1|
    ensures Spend(lim, |Process(s, bs[..i]).1|) == FailsAfter(0)
  {
    EchoCutAt(s, bs, i);
  }

  /** Concatenation regrouped, as the ghost send trace grows. */
  lemma AppendAssoc(a: seq<uint8>, b: seq<uint8>, c: seq<uint8>)
    ensures (a + b) + c == a + (b + c)
  {
  }

  /** Spending a sends and then b is spending a + b. */
  lemma SpendTwice(lim: SendLimit, a: nat, b: nat)
    requires Allows(lim, a)
    ensures Allows(Spend(lim, a), b) <==> Allows(lim, a + b)
    ensures Allows(lim, a + b) ==> Spend(Spend(lim, a), b) == Spend(lim, a + b)
  {
  }

  /** One pass of the switch on the state, for the byte at position i: a '^' while
      waiting opens a message, a '$' inside one closes it, any other byte inside a
      message is incremented in place and sent on its own. sentOk is false only when
      that send failed. */
  method HandleByte(conn: Connection, buf: array<uint8>, i: nat, state: ProcessingState)
    returns (next: ProcessingState, sentOk: bool)
    requires i < buf.Length
    modifies conn`limit, conn`sent, buf
    ensures var st := Step(state, old(buf[i]));
      && next == st.0
      && buf[i] == (if st.1.Some? then st.1.value else old(buf[i]))
      && (forall j :: 0 <= j < buf.Length && j != i ==> buf[j] == old(buf[j]))
      && (sentOk <==> st.1.None? || Allows(old(conn.limit), 1))
      && conn.sent == old(conn.sent) + (if sentOk then Emitted(st.1) else [])
      && conn.limit == if sentOk && st.1.Some? then Spend(old(conn.limit), 1) else old(conn.limit)
  {
    next, sentOk := state, true;
    match state
    case WaitForMsg =>
      if buf[i] == Caret {
        next := InMsg;
      }
    case InMsg =>
      if buf[i] == Dollar {
        next := WaitForMsg;
      } else {
        buf[i] := Increment(buf[i]);
        var n := conn.Send(buf[i]);
        if n < 1 {
          sentOk := false;
        }
      }
  }

  /** serve_connection(client_socket): the handshake, then the read loop from the
      waiting state. */
  method ServeConnection(conn: Connection) returns (rc: int)
    requires conn.Valid()
    modifies conn
    ensures conn.Valid()
    ensures var r := Serve(old(conn.chunks), conn.finish, old(conn.limit));
      && conn.sent == old(conn.sent) + r.sent
      && rc == (if r.ok then conn.fd else -1)
    // every byte sent used up one send of the limit
    ensures var r := Serve(old(conn.chunks), conn.finish, old(conn.limit));
      Allows(old(conn.limit), |r.sent|) && conn.limit == Spend(old(conn.limit), |r.sent|)
    // a refused handshake returns before anything is read
    ensures !Allows(old(conn.limit), 1) ==> conn.chunks == old(conn.chunks)
    // success comes only after the whole stream has been read
    ensures rc >= 0 ==> conn.chunks == []
    // what stops the connection early is the limit running out; otherwise every chunk was read
    ensures conn.chunks == [] || conn.limit == FailsAfter(0)
  {
    var n := conn.Send(Ack);
    if n < 1 {
      return -1;
    }
    ghost var sent1 := conn.sent;
    ghost var loop := ServeLoop(WaitForMsg, conn.chunks, conn.finish, conn.limit);
    rc := ReadLoop(conn, WaitForMsg);
    AppendAssoc(old(conn.sent), [Ack], loop.sent);
    SpendTwice(old(conn.limit), 1, |loop.sent|);
  }

  /** The `while` loop of serve_connection, entered in `state`: one receive buffer per
      iteration until the client closes the stream (the socket is returned) or a
      receive or send fails (-1 is returned). */
  method ReadLoop(conn: Connection, state: ProcessingState) returns (rc: int)
    requires conn.Valid()
    modifies conn
    ensures conn.Valid()
    ensures var r := ServeLoop(state, old(conn.chunks), conn.finish, old(conn.limit));
      && conn.sent == old(conn.sent) + r.sent
      && rc == (if r.ok then conn.fd else -1)
      && Allows(old(conn.limit), |r.sent|) && conn.limit == Spend(old(conn.limit), |r.sent|)
    ensures rc >= 0 ==> conn.chunks == []
    ensures conn.chunks == [] || conn.limit == FailsAfter(0)
  {
    ghost var sent0 := conn.sent;
    ghost var lim0 := conn.limit;
    ghost var total := ServeLoop(state, conn.chunks, conn.finish, conn.limit);
    ghost var done: seq<uint8> := [];
    var st := state;
    while true
      invariant conn.Valid()
      invariant conn.sent == sent0 + done
      invariant Allows(lim0, |done|) && conn.limit == Spend(lim0, |done|)
      invariant total.ok == ServeLoop(st, conn.chunks, conn.finish, conn.limit).ok
      invariant total.sent == done + ServeLoop(st, conn.chunks, conn.finish, conn.limit).sent
      decreases |conn.chunks|
    {
      ghost var chunks := conn.chunks;
      ghost var lim := conn.limit;
      ghost var before := ServeLoop(st, chunks, conn.finish, lim);
      var buf := new uint8[ChunkSize];
      var len := conn.Recv(buf);
      if len < 0 {
        assert !before.ok && before.sent == [];
        assert total.sent == done;
        return -1;
      } else if len == 0 {
        assert before.ok && before.sent == [];
        assert total.sent == done;
        return conn.fd;
      }
      assert buf[..len] == chunks[0];
      ghost var p := Process(st, chunks[0]);
      var ok;
      ghost var stop;
      st, ok, stop := ProcessChunk(conn, buf, len, st);
      if !ok {
        assert before == Outcome(false, p.1[..lim.n]);
        AppendAssoc(sent0, done, p.1[..lim.n]);
        SpendTwice(lim0, |done|, lim.n);
        return -1;
      }
      ghost var after := ServeLoop(st, conn.chunks, conn.finish, conn.limit);
      assert before == Outcome(after.ok, p.1 + after.sent);
      AppendAssoc(done, p.1, after.sent);
      AppendAssoc(sent0, done, p.1);
      SpendTwice(lim0, |done|, |p.1|);
      done := done + p.1;
    }
  }
}
