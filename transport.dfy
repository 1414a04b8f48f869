/** The socket as the frame engine sees it, and the terminator scan of `Frame._getline`. */
module Transport {
  import opened Common
  import opened Strings

  /** What one `sock.recv(1)` yields: a byte, or a socket error with errno `EAGAIN`. */
  datatype Event = Byte(c: char) | WouldBlock

  /** The bytes of a run of events, would-blocks dropped. */
  function Bytes(evs: seq<Event>): string
  {
    if evs == [] then ""
    else match evs[0]
      case Byte(c) => [c] + Bytes(evs[1..])
      case WouldBlock => Bytes(evs[1..])
  }

  lemma {:induction false} BytesAppend(a: seq<Event>, b: seq<Event>)
    ensures Bytes(a + b) == Bytes(a) + Bytes(b)
  {
    if a != [] {
      var ab := a + b;
      assert ab[0] == a[0];
      assert ab[1..] == a[1..] + b;
      BytesAppend(a[1..], b);
      match a[0]
      case Byte(c) =>
        assert [c] + (Bytes(a[1..]) + Bytes(b)) == ([c] + Bytes(a[1..])) + Bytes(b);
      case WouldBlock =>
    } else {
      assert a + b == b;
    }
  }

  /** The frame terminator `"\x00\n"` stands at the end of `buf`. */
  predicate EndsWithTerminator(buf: string)
  {
    |buf| >= 2 && buf[|buf| - 2] == '\0' && buf[|buf| - 1] == '\n'
  }

  /** The terminator occurs somewhere in `s`. */
  predicate HasTerminator(s: string)
  {
    HasPair(s, '\0', '\n')
  }

  /** How a read of one frame ends: with the text before the terminator, with `None` because
      the socket would block before any byte came, or not at all because the events ran out
      (the source would then wait, or spin, for ever). `rest` is what the socket still holds. */
  datatype ReadOutcome = Line(text: string, rest: seq<Event>) | NoData(rest: seq<Event>) | Exhausted

  /** The `while not buffer.endswith('\x00\n')` loop of `_getline`, from buffer `buf`. */
  function Scan(evs: seq<Event>, buf: string): (o: ReadOutcome)
    ensures !o.Exhausted? ==> |o.rest| <= |evs|
    ensures o.NoData? ==> |o.rest| < |evs|
    ensures o.Line? && !EndsWithTerminator(buf) ==> |o.rest| < |evs|
    decreases |evs|
  {
    if EndsWithTerminator(buf) then Line(buf[..|buf| - 2], evs)
    else if evs == [] then Exhausted
    else match evs[0]
      case WouldBlock => if buf == "" then NoData(evs[1..]) else Scan(evs[1..], buf)
      case Byte(c) => Scan(evs[1..], buf + [c])
  }

  /** `_getline` on a socket holding `evs`. */
  function ReadLine(evs: seq<Event>): (o: ReadOutcome)
    ensures !o.Exhausted? ==> |o.rest| < |evs|
  {
    Scan(evs, "")
  }

  /** No terminator in `buf` except possibly as its last two characters. */
  predicate TerminatorOnlyAtEnd(buf: string)
  {
    forall i :: 0 <= i < |buf| - 2 ==> !PairAt(buf, i, '\0', '\n')
  }

  /** One step of the scan: a buffer without the terminator takes in the next event. */
  lemma ScanStep(evs: seq<Event>, buf: string)
    requires !EndsWithTerminator(buf) && evs != [] && (buf != "" || evs[0].Byte?)
    ensures Scan(evs, buf) == Scan(evs[1..], Take(buf, evs[0]))
  {
  }

  /** The buffer after reading event `e`. */
  function Take(buf: string, e: Event): string
  {
    match e
    case Byte(c) => buf + [c]
    case WouldBlock => buf
  }

  /** Taking in one more event keeps the terminator, if any, at the end of the buffer. */
  lemma TakeKeepsTerminatorAtEnd(buf: string, e: Event)
    requires !EndsWithTerminator(buf) && TerminatorOnlyAtEnd(buf)
    ensures TerminatorOnlyAtEnd(Take(buf, e))
  {
    var next := Take(buf, e);
    forall i | 0 <= i < |next| - 2 ensures !PairAt(next, i, '\0', '\n') {
      if i < |buf| - 2 { assert !PairAt(buf, i, '\0', '\n'); }
    }
  }

  lemma TakeBytes(buf: string, evs: seq<Event>)
    requires evs != []
    ensures Take(buf, evs[0]) + Bytes(evs[1..]) == buf + Bytes(evs)
  {
    if evs[0].Byte? {
      assert (buf + [evs[0].c]) + Bytes(evs[1..]) == buf + ([evs[0].c] + Bytes(evs[1..]));
    }
  }

  /** A scan from a started buffer never reports "no data". */
  lemma {:induction false} ScanStartedHasData(evs: seq<Event>, buf: string)
    requires buf != ""
    ensures !Scan(evs, buf).NoData?
    decreases |evs|
  {
    if !EndsWithTerminator(buf) && evs != [] {
      ScanStep(evs, buf);
      ScanStartedHasData(evs[1..], Take(buf, evs[0]));
    }
  }

  /** A scan from a started buffer runs out of events exactly when the bytes hold no terminator. */
  lemma {:induction false} ScanExhaustedIff(evs: seq<Event>, buf: string)
    requires buf != "" && TerminatorOnlyAtEnd(buf)
    ensures Scan(evs, buf).Exhausted? <==> !HasTerminator(buf + Bytes(evs))
    decreases |evs|
  {
    if EndsWithTerminator(buf) {
      assert PairAt(buf + Bytes(evs), |buf| - 2, '\0', '\n');
    } else if evs == [] {
      assert buf + Bytes(evs) == buf;
      assert forall i :: 0 <= i < |buf| ==> !PairAt(buf, i, '\0', '\n');
    } else {
      ScanStep(evs, buf);
      TakeKeepsTerminatorAtEnd(buf, evs[0]);
      TakeBytes(buf, evs);
      ScanExhaustedIff(evs[1..], Take(buf, evs[0]));
    }
  }

  /** A scan from a started buffer that ends with a line has consumed exactly the events whose
      bytes complete the buffer up to its first terminator. */
  lemma {:induction false} ScanLineShape(evs: seq<Event>, buf: string)
    requires buf != "" && TerminatorOnlyAtEnd(buf)
    requires Scan(evs, buf).Line?
    ensures var o := Scan(evs, buf);
            var n := |evs| - |o.rest|;
            evs == evs[..n] + o.rest && buf + Bytes(evs[..n]) == o.text + "\0\n" && !HasTerminator(o.text)
    decreases |evs|
  {
    var o := Scan(evs, buf);
    if EndsWithTerminator(buf) {
      assert evs[..0] == [];
      EndedBuffer(buf);
    } else {
      var next := Take(buf, evs[0]);
      ScanStep(evs, buf);
      TakeKeepsTerminatorAtEnd(buf, evs[0]);
      ScanLineShape(evs[1..], next);
      var n := |evs| - |o.rest|;
      PrefixAfterFirst(evs, o.rest, n);
      TakeBytes(buf, evs[..n]);
    }
  }

  /** A buffer whose only terminator is its end is the text before it, then the terminator. */
  lemma EndedBuffer(buf: string)
    requires EndsWithTerminator(buf) && TerminatorOnlyAtEnd(buf)
    ensures var t := buf[..|buf| - 2]; buf == t + "\0\n" && !HasTerminator(t)
  {
    var t := buf[..|buf| - 2];
    assert buf == t + "\0\n";
    forall i | 0 <= i < |t| ensures !PairAt(t, i, '\0', '\n') {
      assert !PairAt(buf, i, '\0', '\n');
    }
  }

  /** `_getline` returns `None` exactly when the socket would block before the first byte,
      and runs out of events exactly when the bytes hold no terminator. */
  lemma ReadLineNoneIff(evs: seq<Event>)
    ensures ReadLine(evs).NoData? <==> evs != [] && evs[0].WouldBlock?
    ensures ReadLine(evs).NoData? ==> ReadLine(evs).rest == evs[1..]
    ensures ReadLine(evs).Exhausted? <==> evs == [] || (evs[0].Byte? && !HasTerminator(Bytes(evs)))
  {
    if evs != [] && evs[0].Byte? {
      var buf := Take("", evs[0]);
      ScanStep(evs, "");
      TakeBytes("", evs);
      assert "" + Bytes(evs) == Bytes(evs);
      ScanExhaustedIff(evs[1..], buf);
      ScanStartedHasData(evs[1..], buf);
    }
  }

  /** When `_getline` returns a text, that text followed by the terminator is the shortest
      prefix of the bytes read that ends with the terminator, and the events after it stay
      unread. */
  lemma ReadLineShortest(evs: seq<Event>)
    requires ReadLine(evs).Line?
    ensures var o := ReadLine(evs);
            var n := |evs| - |o.rest|;
            && evs[0].Byte?
            && evs == evs[..n] + o.rest
            && Bytes(evs[..n]) == o.text + "\0\n"
            && forall j :: 2 <= j < |o.text| + 2 ==> !EndsWithTerminator((o.text + "\0\n")[..j])
  {
    ReadLineNoneIff(evs);
    var buf := Take("", evs[0]);
    ScanStep(evs, "");
    ScanLineShape(evs[1..], buf);
    var o := ReadLine(evs);
    var n := |evs| - |o.rest|;
    var m := |evs[1..]| - |o.rest|;
    assert evs[1..] == evs[1..][..m] + o.rest;
    assert evs[..n] == [evs[0]] + evs[1..][..m];
    assert evs[..n][1..] == evs[1..][..m];
    TakeBytes("", evs[..n]);
    assert "" + Bytes(evs[..n]) == Bytes(evs[..n]);
    NoEarlierTerminator(o.text);
  }

  /** A text without the terminator, followed by it, ends with it at no shorter prefix. */
  lemma NoEarlierTerminator(t: string)
    requires !HasTerminator(t)
    ensures forall j :: 2 <= j < |t| + 2 ==> !EndsWithTerminator((t + "\0\n")[..j])
  {
    var u := t + "\0\n";
    forall j | 2 <= j < |t| + 2 ensures !EndsWithTerminator(u[..j]) {
      if j - 1 < |t| {
        assert !PairAt(t, j - 2, '\0', '\n');
      }
    }
  }

  /** Scanning the bytes of `s` from buffer `buf` stops at the end of `s` when that is where
      `buf + s` first ends with the terminator. */
  lemma {:induction false} ScanEvents(s: string, buf: string, more: seq<Event>)
    requires EndsWithTerminator(buf + s) && TerminatorOnlyAtEnd(buf + s)
    ensures Scan(Events(s) + more, buf) == Line((buf + s)[..|buf + s| - 2], more)
    decreases |s|
  {
    if s == [] {
      assert buf + s == buf;
      assert Events(s) + more == more;
    } else {
      var evs := Events(s) + more;
      var next := buf + [s[0]];
      EventsFirst(s, more);
      NotEndedBefore(buf, s);
      ShiftFirst(buf, s);
      ScanEvents(s[1..], next, more);
      ScanStep(evs, buf);
    }
  }

  lemma EventsFirst(s: string, more: seq<Event>)
    requires s != []
    ensures var evs := Events(s) + more;
            evs != [] && evs[0] == Byte(s[0]) && evs[1..] == Events(s[1..]) + more
  {
    var e := Events(s);
    assert e == [Byte(s[0])] + Events(s[1..]);
    assert e[1..] == Events(s[1..]);
    DropFirst(e, more);
  }

  lemma NotEndedBefore(buf: string, s: string)
    requires s != [] && TerminatorOnlyAtEnd(buf + s)
    ensures !EndsWithTerminator(buf)
  {
    if EndsWithTerminator(buf) {
      assert PairAt(buf + s, |buf| - 2, '\0', '\n');
    }
  }

  /** A socket that delivers the text `t` and then the terminator is read as `t`, and the
      events after the terminator stay unread. */
  lemma ReadLineOfText(t: string, more: seq<Event>)
    requires !HasTerminator(t)
    ensures ReadLine(Events(t + "\0\n") + more) == Line(t, more)
  {
    var u := t + "\0\n";
    assert "" + u == u;
    assert TerminatorOnlyAtEnd(u) by {
      forall i | 0 <= i < |u| - 2 ensures !PairAt(u, i, '\0', '\n') {
        if i + 1 < |t| {
          assert !PairAt(t, i, '\0', '\n');
        }
      }
    }
    ScanEvents(u, "", more);
    assert u[..|u| - 2] == t;
  }

  /** The events that deliver `s` byte by byte. */
  function Events(s: string): (evs: seq<Event>)
    ensures |evs| == |s| && Bytes(evs) == s
  {
    if s == [] then [] else [Byte(s[0])] + Events(s[1..])
  }

  /** `n` reads in the same blocking mode `b`. */
  function Repeat(b: bool, n: nat): (r: seq<bool>)
    ensures |r| == n
  {
    seq(n, _ => b)
  }

  /** Two runs of reads in the same mode are one run. */
  lemma RepeatAppend(b: bool, m: nat, n: nat)
    ensures Repeat(b, m) + Repeat(b, n) == Repeat(b, m + n)
  {
    assert forall i :: 0 <= i < m + n ==> (Repeat(b, m) + Repeat(b, n))[i] == Repeat(b, m + n)[i];
  }

  /** A socket went from events `evs0`, flag `b0` and read log `m0` to `evs`, `b` and `m` by
      `_getline(nb)` calls: either no event was consumed and the flag is as it was, or events
      were consumed, each read in mode `not nb`, and the flag is left at `nb`. (Reads consume
      events from the front, so the number left says how many were read.) */
  predicate ReadsFrom(evs0: seq<Event>, b0: bool, m0: seq<bool>, evs: seq<Event>, b: bool, m: seq<bool>, nb: bool)
  {
    && |evs| <= |evs0|
    && b == (if |evs| == |evs0| then b0 else nb)
    && m == m0 + Repeat(!nb, |evs0| - |evs|)
  }

  /** Two stretches of reads in the same mode make one. */
  lemma ReadsFromThen(evs0: seq<Event>, b0: bool, m0: seq<bool>, evs1: seq<Event>, b1: bool, m1: seq<bool>,
                      evs: seq<Event>, b: bool, m: seq<bool>, nb: bool)
    requires ReadsFrom(evs0, b0, m0, evs1, b1, m1, nb) && ReadsFrom(evs1, b1, m1, evs, b, m, nb)
    ensures ReadsFrom(evs0, b0, m0, evs, b, m, nb)
  {
    RepeatAppend(!nb, |evs0| - |evs1|, |evs1| - |evs|);
    Assoc(m0, Repeat(!nb, |evs0| - |evs1|), Repeat(!nb, |evs1| - |evs|));
  }

  /** The connection to the broker: the events its reads will yield, its blocking flag, and
      everything sent on it. `readModes` records the blocking flag at each read. */
  class Socket {
    var incoming: seq<Event>
    var blocking: bool
    var sent: seq<string>
    ghost var readModes: seq<bool>

    constructor (incoming: seq<Event>)
      ensures this.incoming == incoming && blocking && sent == [] && readModes == []
    {
      this.incoming := incoming;
      blocking := true;
      sent := [];
      readModes := [];
    }

    /** `sock.setblocking(flag)`. */
    method SetBlocking(flag: bool)
      modifies this
      ensures blocking == flag
      ensures incoming == old(incoming) && sent == old(sent) && readModes == old(readModes)
    {
      blocking := flag;
    }

    /** `sock.recv(1)`: the next event, consumed. */
    method Recv() returns (e: Event)
      requires incoming != []
      modifies this
      ensures e == old(incoming[0]) && incoming == old(incoming[1..])
      ensures readModes == old(readModes) + [blocking]
      ensures blocking == old(blocking) && sent == old(sent)
    {
      e := incoming[0];
      incoming := incoming[1..];
      readModes := readModes + [blocking];
    }

    /** `sock.sendall(data)`. */
    method SendAll(data: string)
      modifies this
      ensures sent == old(sent) + [data]
      ensures incoming == old(incoming) && blocking == old(blocking) && readModes == old(readModes)
    {
      sent := sent + [data];
    }
  }

  /** `Frame._getline(nb)`: reads one byte at a time until the buffer ends with the terminator,
      with the socket in blocking mode `not nb`; on every exit the flag is then set to `nb`. */
  method GetLine(sock: Socket, nb: bool) returns (line: Option<string>)
    requires !ReadLine(sock.incoming).Exhausted?
    modifies sock
    ensures var o := ReadLine(old(sock.incoming));
            && line == (if o.Line? then Some(o.text) else None)
            && sock.incoming == o.rest
            && sock.readModes == old(sock.readModes) + Repeat(!nb, |old(sock.incoming)| - |o.rest|)
    ensures sock.blocking == nb && sock.sent == old(sock.sent)
  {
    ghost var o := ReadLine(sock.incoming);
    sock.SetBlocking(!nb);
    var buffer := "";
    while !EndsWithTerminator(buffer)
      invariant Scan(sock.incoming, buffer) == o
      invariant |sock.incoming| <= |old(sock.incoming)|
      invariant sock.blocking == !nb && sock.sent == old(sock.sent)
      invariant sock.readModes == old(sock.readModes) + Repeat(!nb, |old(sock.incoming)| - |sock.incoming|)
      decreases |sock.incoming|
    {
      var e := sock.Recv();
      RepeatAppend(!nb, |old(sock.incoming)| - |sock.incoming| - 1, 1);
      assert Repeat(!nb, 1) == [!nb];
      match e
      case WouldBlock =>
        if buffer == "" {
          sock.SetBlocking(nb);
          return None;
        }
      case Byte(c) =>
        buffer := buffer + [c];
    }
    sock.SetBlocking(nb);
    line := Some(buffer[..|buffer| - 2]);
  }
}
