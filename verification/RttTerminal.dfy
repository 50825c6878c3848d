/** Terminal multiplexing on RTT channel 0: an escape byte and a terminal id in the
    byte stream switch the terminal that the following bytes belong to. */
module RttTerminal {
  import opened Words
  import opened RttRing

  const ESCAPE: Byte := 0xFF
  const NUM_TERMINALS: nat := 16

  type Terminal = t: int | 0 <= t < NUM_TERMINALS

  /** `_aTerminalId` */
  function IdChar(t: Terminal): Byte {
    if t < 10 then 0x30 + t else 0x41 + (t - 10)
  }

  /** What one completed call put into the stream. */
  datatype Op =
    | Switch(to: Terminal)
    | Out(to: Terminal, text: seq<Byte>)
    | Plain(text: seq<Byte>)

  predicate Clean(text: seq<Byte>) {
    ESCAPE !in text
  }

  predicate CleanOp(op: Op) {
    op.Switch? || Clean(op.text)
  }

  function ActiveAfter(op: Op, active: Terminal): Terminal {
    if op.Switch? then op.to else active
  }

  function Bytes(op: Op, active: Terminal): seq<Byte> {
    match op
    case Switch(t) => [ESCAPE, IdChar(t)]
    case Out(t, text) => [ESCAPE, IdChar(t)] + text + [ESCAPE, IdChar(active)]
    case Plain(text) => text
  }

  function Tag(t: Terminal, text: seq<Byte>): (r: seq<(Terminal, Byte)>)
    ensures |r| == |text| && forall i :: 0 <= i < |r| ==> r[i] == (t, text[i])
  {
    seq(|text|, i requires 0 <= i < |text| => (t, text[i]))
  }

  /** The terminal each payload byte is meant for. */
  function Meant(op: Op, active: Terminal): seq<(Terminal, Byte)> {
    match op
    case Switch(_) => []
    case Out(t, text) => Tag(t, text)
    case Plain(text) => Tag(active, text)
  }

  function Active(ops: seq<Op>): Terminal {
    if ops == [] then 0 else ActiveAfter(ops[|ops| - 1], Active(ops[..|ops| - 1]))
  }

  function Stream(ops: seq<Op>): seq<Byte> {
    if ops == [] then []
    else Stream(ops[..|ops| - 1]) + Bytes(ops[|ops| - 1], Active(ops[..|ops| - 1]))
  }

  function MeantAll(ops: seq<Op>): seq<(Terminal, Byte)> {
    if ops == [] then []
    else MeantAll(ops[..|ops| - 1]) + Meant(ops[|ops| - 1], Active(ops[..|ops| - 1]))
  }

  // ----- The host side, which sees nothing but bytes

  datatype Demux = Demux(terminal: Terminal, escaped: bool, log: seq<(Terminal, Byte)>)

  /** The terminal a character selects; other characters select nothing. */
  function SelectedBy(c: Byte, otherwise: Terminal): Terminal {
    if 0x30 <= c <= 0x39 then c - 0x30 else if 0x41 <= c <= 0x46 then c - 0x41 + 10 else otherwise
  }

  function FeedByte(d: Demux, c: Byte): Demux {
    if d.escaped then d.(terminal := SelectedBy(c, d.terminal), escaped := false)
    else if c == ESCAPE then d.(escaped := true)
    else d.(log := d.log + [(d.terminal, c)])
  }

  function Feed(d: Demux, bytes: seq<Byte>): Demux
    decreases |bytes|
  {
    if bytes == [] then d
    else FeedByte(Feed(d, bytes[..|bytes| - 1]), bytes[|bytes| - 1])
  }

  lemma {:induction false} FeedConcat(d: Demux, a: seq<Byte>, b: seq<Byte>)
    ensures Feed(d, a + b) == Feed(Feed(d, a), b)
    decreases |b|
  {
    if b == [] {
      assert a + b == a;
    } else {
      assert (a + b)[..|a + b| - 1] == a + b[..|b| - 1];
      FeedConcat(d, a, b[..|b| - 1]);
    }
  }

  lemma {:induction false} FeedText(t: Terminal, log: seq<(Terminal, Byte)>, text: seq<Byte>)
    requires Clean(text)
    ensures Feed(Demux(t, false, log), text) == Demux(t, false, log + Tag(t, text))
    decreases |text|
  {
    if text == [] {
      assert log + Tag(t, text) == log;
    } else {
      var init, c := text[..|text| - 1], text[|text| - 1];
      assert c in text;
      FeedText(t, log, init);
      assert log + Tag(t, text) == (log + Tag(t, init)) + [(t, c)];
    }
  }

  lemma FeedSwitch(d: Demux, t: Terminal)
    requires !d.escaped
    ensures Feed(d, [ESCAPE, IdChar(t)]) == d.(terminal := t)
  {
    var s := [ESCAPE, IdChar(t)];
    assert s[..1] == [ESCAPE] && s[..1][..0] == [];
    assert Feed(d, s[..1]) == FeedByte(Feed(d, []), ESCAPE);
    assert SelectedBy(IdChar(t), d.terminal) == t;
  }

  lemma FeedOp(op: Op, active: Terminal, log: seq<(Terminal, Byte)>)
    requires CleanOp(op)
    ensures Feed(Demux(active, false, log), Bytes(op, active))
         == Demux(ActiveAfter(op, active), false, log + Meant(op, active))
  {
    var d := Demux(active, false, log);
    match op
    case Switch(t) =>
      FeedSwitch(d, t);
      assert log + [] == log;
    case Out(t, text) =>
      FeedConcat(d, [ESCAPE, IdChar(t)] + text, [ESCAPE, IdChar(active)]);
      FeedConcat(d, [ESCAPE, IdChar(t)], text);
      FeedSwitch(d, t);
      FeedText(t, log, text);
      FeedSwitch(Demux(t, false, log + Tag(t, text)), active);
    case Plain(text) =>
      FeedText(active, log, text);
  }

  /** After any run of calls with clean payloads the host has attributed every byte to
      the terminal it was meant for and is left on the active terminal. */
  lemma {:induction false} DemuxRun(ops: seq<Op>)
    requires forall op :: op in ops ==> CleanOp(op)
    ensures Feed(Demux(0, false, []), Stream(ops)) == Demux(Active(ops), false, MeantAll(ops))
    decreases |ops|
  {
    if ops != [] {
      var init, op := ops[..|ops| - 1], ops[|ops| - 1];
      assert op in ops;
      DemuxRun(init);
      FeedConcat(Demux(0, false, []), Stream(init), Bytes(op, Active(init)));
      FeedOp(op, Active(init), MeantAll(init));
    }
  }

  /** Channel 0: its up ring, `_ActiveTerminal`, and the record of completed calls. */
  class Channel {
    const ring: Ring
    var activeTerminal: Terminal
    ghost var received: seq<Byte>  // taken by the probe so far
    ghost var ops: seq<Op>

    ghost predicate Valid()
      reads this, ring, ring.buf
    {
      && ring.Valid()
      && received + ring.Content() == Stream(ops)
      && activeTerminal == Active(ops)
      && forall op :: op in ops ==> CleanOp(op)
    }

    constructor (r: Ring)
      requires r.Valid() && r.Content() == []
      ensures Valid() && ring == r && ops == []
    {
      ring := r;
      activeTerminal, received, ops := 0, [], [];
    }

    /** What the probe can tell from the bytes it has taken and those still waiting. */
    lemma Attribution()
      requires Valid()
      ensures Feed(Demux(0, false, []), received + ring.Content())
           == Demux(activeTerminal, false, MeantAll(ops))
    {
      DemuxRun(ops);
    }

    ghost method Complete(op: Op, got: seq<Byte>, before: seq<Byte>)
      requires ring.Valid() && CleanOp(op)
      requires received + before == Stream(ops) && activeTerminal == ActiveAfter(op, Active(ops))
      requires forall o :: o in ops ==> CleanOp(o)
      requires got + ring.Content() == before + Bytes(op, Active(ops))
      modifies this`received, this`ops
      ensures Valid() && ops == old(ops) + [op]
    {
      var log := ops + [op];
      assert log[..|log| - 1] == ops;
      Assoc(received, before, Bytes(op, Active(ops)));
      Assoc(received, got, ring.Content());
      received, ops := received + got, log;
    }

    /** `SEGGER_RTT_Write` on channel 0 */
    method Write(data: seq<Byte>, host: seq<nat>) returns (status: U32, blocked: bool)
      requires Valid() && |data| < TWO32 && Clean(data)
      modifies this, ring, ring.buf
      ensures status <= |data|
      ensures !blocked ==> Valid() && ops == old(ops) + [Plain(data[..status])]
      ensures activeTerminal == old(activeTerminal) && ring.flags == old(ring.flags)
      ensures blocked ==> ring.flags == 2 && old(ring.Free()) < |data| && Takes(host) < |data|
    {
      ghost var before := ring.Content();
      var got;
      status, got, blocked := ring.WriteNoLock(data, host);
      if !blocked {
        Complete(Plain(data[..status]), got, before);
      }
    }

    /** `SEGGER_RTT_SetTerminal` */
    method SetTerminal(id: Byte, host: seq<nat>) returns (r: int, blocked: bool)
      requires Valid()
      modifies this, ring, ring.buf
      ensures !blocked ==> Valid()
      ensures !blocked && r == 0 ==> id < 16 && ops == old(ops) + [Switch(id)]
      ensures !blocked && r != 0 ==> r == -1 && ops == old(ops)
      ensures !blocked ==>
        (r == 0 <==> id < 16 && (old(ring.flags) % 4 == 2 || old(ring.Free()) >= 2))
      ensures blocked ==> old(ring.flags) % 4 == 2 && old(ring.Free()) < 2 && Takes(host) < 2
    {
      r, blocked := 0, false;
      if id < NUM_TERMINALS {
        var ac := [ESCAPE, IdChar(id)];
        ghost var before := ring.Content();
        if ring.flags % 4 == MODE_BLOCK {
          activeTerminal := id;
          var written, got;
          written, got, blocked := ring.WriteBlocking(ac, host);
          if !blocked {
            assert ac[..written] == ac;
            Complete(Switch(id), got, before);
          }
        } else {
          var avail := AvailWriteSpace(ring.buf.Length, ring.rdOff, ring.wrOff);
          if avail >= 2 {
            activeTerminal := id;
            ring.WriteNoCheck(ac);
            assert [] + ring.Content() == ring.Content();
            Complete(Switch(id), [], before);
          } else {
            r := -1;
          }
        }
      } else {
        r := -1;
      }
    }

    /** The three blocking writes of `SEGGER_RTT_TerminalOut`. They cannot block when
        the ring has room for all of them, even with a silent probe. */
    method Sandwich(id: Terminal, text: seq<Byte>, h0: seq<nat>, h1: seq<nat>, h2: seq<nat>)
      returns (blocked: bool)
      requires Valid() && Clean(text) && |text| + 4 < TWO32
      modifies this, ring, ring.buf
      ensures !blocked ==> Valid() && ops == old(ops) + [Out(id, text)]
      ensures |text| + 4 <= old(ring.Free()) ==> !blocked
      ensures blocked ==> Takes(h0) < 2 || Takes(h1) < |text| || Takes(h2) < 2
      ensures activeTerminal == old(activeTerminal)
    {
      ghost var c0 := ring.Content();
      ghost var room := ring.Free() >= |text| + 4;
      var head, tail := [ESCAPE, IdChar(id)], [ESCAPE, IdChar(activeTerminal)];
      var w, g0, g1, g2;
      w, g0, blocked := ring.WriteBlocking(head, h0);
      if blocked { return; }
      assert head[..w] == head;
      ghost var c1 := ring.Content();
      assert |g0| + |c1| == |c0| + 2;
      w, g1, blocked := ring.WriteBlocking(text, h1);
      if blocked { return; }
      assert text[..w] == text;
      ghost var c2 := ring.Content();
      assert |g1| + |c2| == |c1| + |text|;
      w, g2, blocked := ring.WriteBlocking(tail, h2);
      if blocked { return; }
      assert tail[..w] == tail;
      Chain(c0, g0, c1, g1, c2, g2, ring.Content(), head, text, tail);
      Complete(Out(id, text), g0 + g1 + g2, c0);
    }

    /** Whether `SEGGER_RTT_TerminalOut` switches terminals at all: it needs room for the
        text in skip mode, and for the two switches in trim mode. */
    ghost predicate Accepts(id: Byte, len: nat)
      requires ring.Valid()
      reads this, ring, ring.buf
    {
      var mode := ring.flags % 4;
      && id < 16
      && (|| (mode == 0 && len + 4 <= ring.Free())
          || (mode == 1 && 4 <= ring.Free())
          || mode == 2)
    }

    /** `SEGGER_RTT_TerminalOut` */
    method TerminalOut(id: Byte, text: seq<Byte>, h0: seq<nat>, h1: seq<nat>, h2: seq<nat>)
      returns (status: int, blocked: bool)
      requires Valid() && Clean(text) && |text| + 4 < TWO32
      modifies this, ring, ring.buf
      ensures !blocked ==> Valid()
      ensures !blocked && old(Accepts(id, |text|)) ==>
        0 <= status <= |text| && ops == old(ops) + [Out(id, text[..status])]
      ensures !blocked && !old(Accepts(id, |text|)) ==> status <= 0 && ops == old(ops)
      ensures blocked ==> old(ring.flags) % 4 == 2 && old(ring.Free()) < |text| + 4
      ensures blocked ==> Takes(h0) < 2 || Takes(h1) < |text| || Takes(h2) < 2
      ensures id < 16 && old(ring.flags) % 4 == 0 ==>
        status == if |text| + 4 <= old(ring.Free()) then |text| else 0
      ensures id < 16 && old(ring.flags) % 4 == 1 ==>
        status == if old(ring.Free()) < 4 then -1 else Min(|text|, old(ring.Free()) - 4)
      ensures id < 16 && old(ring.flags) % 4 == 2 && !blocked ==> status == |text|
      ensures activeTerminal == old(activeTerminal)
    {
      status, blocked := -1, false;
      if id < NUM_TERMINALS {
        var avail := AvailWriteSpace(ring.buf.Length, ring.rdOff, ring.wrOff);
        if ring.flags % 4 == MODE_SKIP {
          if avail < |text| + 4 {
            status := 0;
          } else {
            blocked := Sandwich(id, text, h0, h1, h2);
            status := |text|;
          }
        } else if ring.flags % 4 == MODE_TRIM {
          if avail >= 4 {
            status := Min(|text|, avail - 4);
            blocked := Sandwich(id, text[..status], h0, h1, h2);
          }
        } else if ring.flags % 4 == MODE_BLOCK {
          blocked := Sandwich(id, text, h0, h1, h2);
          status := |text|;
        }
      }
      assert text[..|text|] == text;
    }
  }

  lemma Chain(c0: seq<Byte>, g0: seq<Byte>, c1: seq<Byte>, g1: seq<Byte>, c2: seq<Byte>, g2: seq<Byte>,
              c3: seq<Byte>, a: seq<Byte>, b: seq<Byte>, c: seq<Byte>)
    requires g0 + c1 == c0 + a && g1 + c2 == c1 + b && g2 + c3 == c2 + c
    ensures (g0 + g1 + g2) + c3 == c0 + (a + b + c)
  {
    Assoc(g0 + g1, g2, c3);
    Assoc(g0 + g1, c2, c);
    Assoc(g0, g1, c2);
    Assoc(g0, c1, b);
    Assoc(c0, a, b);
    Assoc(c0, a + b, c);
  }
}
