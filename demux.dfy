/** What `get_message` and `get_reply` do, as functions of the socket's events and the two
    queues, and the routing the two queues keep between them: application messages wait in
    the intermediate queue, command replies in the reply queue, each in arrival order. */
module Demux {
  import opened Common
  import opened Headers
  import opened Parser
  import opened Transport

  /** What `parse_frame` gives: a frame, `None` (nothing to read, or an empty line), or an
      exception. */
  datatype Parsed = Got(frame: FrameData) | NoFrame | Failed(error: Error)

  /** `parse_frame` on a stream of events: what it gives and the events it leaves unread, or
      `Starved` when the stream runs out before a line is complete and the call never returns. */
  datatype Pull = Pulled(parsed: Parsed, rest: seq<Event>) | Starved

  function PullFrame(evs: seq<Event>): (p: Pull)
    ensures p.Pulled? ==> |p.rest| < |evs|
  {
    match ReadLine(evs)
    case Exhausted => Starved
    case NoData(rest) => Pulled(NoFrame, rest)
    case Line(text, rest) =>
      if text == "" then Pulled(NoFrame, rest)
      else match ParseText(text)
        case Ok(f) => Pulled(Got(f), rest)
        case Err(e) => Pulled(Failed(e), rest)
  }

  /** What `parse_frame` makes of what `_getline` returned: no line or an empty one is no
      frame, any other line is parsed. */
  function Interpret(line: Option<string>): (p: Parsed)
    ensures line.None? || line.value == "" ==> p == NoFrame
    ensures line.Some? && line.value != "" ==> (p.Got? <==> ParseText(line.value).Ok?)
    ensures p.Got? ==> line.Some? && p.frame == ParseText(line.value).value
    ensures p.Failed? ==> line.Some? && ParseText(line.value) == Err(p.error)
  {
    if line.None? || line.value == "" then NoFrame
    else match ParseText(line.value)
      case Ok(f) => Got(f)
      case Err(e) => Failed(e)
  }

  /** `parse_frame` is `_getline` followed by `Interpret`. */
  lemma PullIsReadThenInterpret(evs: seq<Event>)
    requires !ReadLine(evs).Exhausted?
    ensures var o := ReadLine(evs);
            PullFrame(evs) == Pulled(Interpret(if o.Line? then Some(o.text) else None), o.rest)
  {
  }

  /** A line that is empty before its terminator is no frame: `parse_frame` returns `None` and
      the events after the terminator stay unread. */
  lemma EmptyLineIsNoFrame(more: seq<Event>)
    ensures PullFrame(Events("\0\n") + more) == Pulled(NoFrame, more)
  {
    assert "" + "\0\n" == "\0\n";
    ReadLineOfText("", more);
  }

  /** A socket that delivers a non-empty text and the terminator yields that text parsed,
      and leaves the events after the terminator unread. */
  lemma PullText(t: string, more: seq<Event>)
    requires t != "" && !HasTerminator(t)
    ensures PullFrame(Events(t + "\0\n") + more)
            == Pulled(if ParseText(t).Ok? then Got(ParseText(t).value) else Failed(ParseText(t).error), more)
  {
    ReadLineOfText(t, more);
  }

  /** `IntermediateMessageQueue.put`: a frame without a `destination` header is dropped. */
  function Enqueue(iq: seq<FrameData>, f: FrameData): (r: seq<FrameData>)
    ensures "destination" in Keys(f.headers) ==> r == iq + [f]
    ensures "destination" !in Keys(f.headers) ==> r == iq
  {
    if "destination" in Keys(f.headers) then iq + [f] else iq
  }

  /** How an accessor call ends: it returns a frame or `None`, raises, or never returns. */
  datatype Reply = Returned(frame: Option<FrameData>) | Raised(error: Error) | Stalled

  /** One accessor call: how it ends, the unread events, the two queues afterwards, and the
      frames it read from the socket, in order. */
  datatype CallResult = CallResult(reply: Reply, rest: seq<Event>, iq: seq<FrameData>, rq: seq<FrameData>,
                         got: seq<FrameData>)

  /** The frame handed to the caller, as a sequence of zero or one frames. */
  function Out(r: Reply): (s: seq<FrameData>)
    ensures |s| <= 1
    ensures s != [] <==> r.Returned? && r.frame.Some?
  {
    if r.Returned? && r.frame.Some? then [r.frame.value] else []
  }

  /** The call `e`, with the frames `got` read before it. */
  function After(got: seq<FrameData>, e: CallResult): CallResult
  {
    e.(got := got + e.got)
  }

  /** `e` is what is left of the call `d` once the frames `got` have been read. */
  predicate Resumes(d: CallResult, got: seq<FrameData>, e: CallResult)
  {
    d == After(got, e)
  }

  /** Resuming after `got` and then after `step` is resuming after `got + step`. */
  lemma ResumesThen(d: CallResult, got: seq<FrameData>, e: CallResult, step: seq<FrameData>, e': CallResult)
    requires Resumes(d, got, e) && Resumes(e, step, e')
    ensures Resumes(d, got + step, e')
  {
    Assoc(got, step, e'.got);
  }

  /** One pass of an accessor's loop. When `done`, `next` is how the call ends; otherwise `next`
      holds the state the loop goes on from, `Stalled`, and the frames this pass read from the
      socket as `got`. */
  datatype Pass = Pass(done: bool, next: CallResult)

  /** A pass that reads the socket, given what `parse_frame` gave: no frame ends the call with
      `None` (an error in blocking mode), an exception ends it too, and a frame that is not a
      `MESSAGE` goes on the reply queue. A `MESSAGE` ends a `get_message` call and is offered
      to the intermediate queue by a `get_reply` call. */
  function AfterPull(pl: Pull, evs: seq<Event>, iq: seq<FrameData>, rq: seq<FrameData>, nb: bool,
                     forReply: bool): (o: Pass)
    ensures pl.Pulled? ==> o.next.rest == pl.rest
    ensures !o.done ==> o.next.reply.Stalled? && pl.Pulled? && pl.parsed.Got? && o.next.got == [pl.parsed.frame]
  {
    match pl
    case Starved => Pass(true, CallResult(Stalled, evs, iq, rq, []))
    case Pulled(NoFrame, rest) =>
      Pass(true, CallResult(if nb then Returned(None) else Raised(ReplyMissing), rest, iq, rq, []))
    case Pulled(Failed(e), rest) => Pass(true, CallResult(Raised(e), rest, iq, rq, []))
    case Pulled(Got(f), rest) =>
      if f.command != "MESSAGE" then Pass(false, CallResult(Stalled, rest, iq, rq + [f], [f]))
      else if forReply then Pass(false, CallResult(Stalled, rest, Enqueue(iq, f), rq, [f]))
      else Pass(true, CallResult(Returned(Some(f)), rest, iq, rq, [f]))
  }

  /** One pass of `get_message`'s loop: the intermediate queue's first frame, or else one frame
      from the socket; a `MESSAGE` ends the call, any other frame goes on the reply queue. */
  function MessagePass(evs: seq<Event>, iq: seq<FrameData>, rq: seq<FrameData>, nb: bool): (o: Pass)
    ensures !o.done ==> o.next.reply.Stalled?
    ensures !o.done ==> |o.next.rest| < |evs| || (o.next.rest == evs && |o.next.iq| < |iq|)
  {
    if iq != [] then
      var f := iq[0];
      if f.command == "MESSAGE" then Pass(true, CallResult(Returned(Some(f)), evs, iq[1..], rq, []))
      else Pass(false, CallResult(Stalled, evs, iq[1..], rq + [f], []))
    else AfterPull(PullFrame(evs), evs, iq, rq, nb, false)
  }

  /** One pass of `get_reply`'s loop: the reply queue's first frame ends the call; otherwise
      one frame is read from the socket. */
  function ReplyPass(evs: seq<Event>, iq: seq<FrameData>, rq: seq<FrameData>, nb: bool): (o: Pass)
    ensures !o.done ==> o.next.reply.Stalled? && |o.next.rest| < |evs| && rq == []
  {
    if rq != [] then Pass(true, CallResult(Returned(Some(rq[0])), evs, iq, rq[1..], []))
    else AfterPull(PullFrame(evs), evs, iq, rq, nb, true)
  }

  /** `get_message(nb)`: passes until one ends the call. */
  function NextMessage(evs: seq<Event>, iq: seq<FrameData>, rq: seq<FrameData>, nb: bool): CallResult
    decreases |evs|, |iq|
  {
    var o := MessagePass(evs, iq, rq, nb);
    if o.done then o.next
    else After(o.next.got, NextMessage(o.next.rest, o.next.iq, o.next.rq, nb))
  }

  /** `get_reply(nb)`: passes until one ends the call. */
  function NextReply(evs: seq<Event>, iq: seq<FrameData>, rq: seq<FrameData>, nb: bool): CallResult
    decreases |evs|
  {
    var o := ReplyPass(evs, iq, rq, nb);
    if o.done then o.next
    else After(o.next.got, NextReply(o.next.rest, o.next.iq, o.next.rq, nb))
  }

  /** A `get_message` call that returns is its first pass, which can run, and then, unless
      that pass ends it, the call from the state the pass leaves. */
  lemma MessageUnfolds(evs: seq<Event>, iq: seq<FrameData>, rq: seq<FrameData>, nb: bool)
    requires !NextMessage(evs, iq, rq, nb).reply.Stalled?
    ensures iq == [] ==> !PullFrame(evs).Starved?
    ensures var o := MessagePass(evs, iq, rq, nb);
            if o.done then NextMessage(evs, iq, rq, nb) == o.next
            else Resumes(NextMessage(evs, iq, rq, nb), o.next.got, NextMessage(o.next.rest, o.next.iq, o.next.rq, nb))
  {
  }

  /** A `get_reply` call that returns is its first pass, which can run, and then, unless that
      pass ends it, the call from the state the pass leaves. */
  lemma ReplyUnfolds(evs: seq<Event>, iq: seq<FrameData>, rq: seq<FrameData>, nb: bool)
    requires !NextReply(evs, iq, rq, nb).reply.Stalled?
    ensures rq == [] ==> !PullFrame(evs).Starved?
    ensures var o := ReplyPass(evs, iq, rq, nb);
            if o.done then NextReply(evs, iq, rq, nb) == o.next
            else Resumes(NextReply(evs, iq, rq, nb), o.next.got, NextReply(o.next.rest, o.next.iq, o.next.rq, nb))
  {
  }

  // Routing -----------------------------------------------------------------------------------

  /** Which frames a queue or a caller receives. */
  datatype Kind = Message | Deliverable | Response

  predicate Matches(f: FrameData, k: Kind)
  {
    match k
    case Message => f.command == "MESSAGE"
    case Deliverable => f.command == "MESSAGE" && "destination" in Keys(f.headers)
    case Response => f.command != "MESSAGE"
  }

  function Filter(fs: seq<FrameData>, k: Kind): (r: seq<FrameData>)
    ensures |r| <= |fs|
  {
    if fs == [] then []
    else (if Matches(fs[0], k) then [fs[0]] else []) + Filter(fs[1..], k)
  }

  /** What `IntermediateMessageQueue.put` and the two accessors guarantee about the queues:
      the intermediate queue holds only messages with a destination, the reply queue no
      message. */
  predicate Routed(iq: seq<FrameData>, rq: seq<FrameData>)
  {
    (forall f :: f in iq ==> Matches(f, Deliverable)) && (forall f :: f in rq ==> Matches(f, Response))
  }

  /** `a` is `b` with some elements left out. */
  predicate Subseq<T(==)>(a: seq<T>, b: seq<T>)
  {
    if a == [] then true
    else if b == [] then false
    else if a[0] == b[0] then Subseq(a[1..], b[1..])
    else Subseq(a, b[1..])
  }

  lemma {:induction false} FilterAppend(a: seq<FrameData>, b: seq<FrameData>, k: Kind)
    ensures Filter(a + b, k) == Filter(a, k) + Filter(b, k)
  {
    if a != [] {
      var x := if Matches(a[0], k) then [a[0]] else [];
      DropFirst(a, b);
      assert (a + b)[0] == a[0];
      FilterAppend(a[1..], b, k);
      Assoc(x, Filter(a[1..], k), Filter(b, k));
    } else {
      assert a + b == b;
    }
  }

  /** Regrouping an equation between concatenations under a common prefix. */
  lemma Regroup<T>(m: seq<T>, o: seq<T>, q: seq<T>, i: seq<T>, g: seq<T>)
    requires o + q == i + g
    ensures (m + o) + q == (m + i) + g
  {
    Assoc(m, o, q);
    Assoc(m, i, g);
  }

  lemma {:induction false} SubseqRefl<T>(a: seq<T>)
    ensures Subseq(a, a)
  {
    if a != [] {
      SubseqRefl(a[1..]);
    }
  }

  /** One more element in front of the longer side keeps a subsequence. */
  lemma {:induction false} SubseqCons<T>(c: seq<T>, x: T, d: seq<T>)
    requires Subseq(c, d)
    ensures Subseq(c, [x] + d)
    decreases |c| + |d| + 1
  {
    assert ([x] + d)[0] == x && ([x] + d)[1..] == d;
    if c != [] && c[0] == x {
      SubseqDrop(c, d);
    }
  }

  /** Dropping the first element of the shorter side keeps a subsequence. */
  lemma {:induction false} SubseqDrop<T>(c: seq<T>, e: seq<T>)
    requires c != [] && Subseq(c, e)
    ensures Subseq(c[1..], e)
    decreases |c| + |e|
  {
    if c[1..] != [] {
      assert e != [];
      if c[0] == e[0] {
        SubseqCons(c[1..], e[0], e[1..]);
      } else {
        SubseqDrop(c, e[1..]);
        SubseqCons(c[1..], e[0], e[1..]);
      }
      assert [e[0]] + e[1..] == e;
    }
  }

  lemma {:induction false} SubseqSkip<T>(c: seq<T>, b: seq<T>, d: seq<T>)
    requires Subseq(c, d)
    ensures Subseq(c, b + d)
  {
    if b == [] {
      assert b + d == d;
    } else {
      SubseqSkip(c, b[1..], d);
      SubseqCons(c, b[0], b[1..] + d);
      assert [b[0]] + (b[1..] + d) == b + d;
    }
  }

  lemma {:induction false} SubseqConcat<T>(a: seq<T>, b: seq<T>, c: seq<T>, d: seq<T>)
    requires Subseq(a, b) && Subseq(c, d)
    ensures Subseq(a + c, b + d)
    decreases |b|
  {
    if a == [] {
      assert a + c == c;
      SubseqSkip(c, b, d);
    } else {
      assert (a + c)[0] == a[0] && (a + c)[1..] == a[1..] + c;
      assert (b + d)[0] == b[0] && (b + d)[1..] == b[1..] + d;
      if a[0] == b[0] {
        SubseqConcat(a[1..], b[1..], c, d);
      } else {
        SubseqConcat(a, b[1..], c, d);
      }
    }
  }

  /** The messages with a destination are among the messages, in the same order. */
  lemma {:induction false} DeliverableAmongMessages(fs: seq<FrameData>)
    ensures Subseq(Filter(fs, Deliverable), Filter(fs, Message))
  {
    if fs != [] {
      DeliverableAmongMessages(fs[1..]);
      var f := fs[0];
      if Matches(f, Deliverable) {
        assert Filter(fs, Deliverable) == [f] + Filter(fs[1..], Deliverable);
        assert Filter(fs, Message) == [f] + Filter(fs[1..], Message);
      } else if Matches(f, Message) {
        assert Filter(fs, Deliverable) == Filter(fs[1..], Deliverable);
        assert Filter(fs, Message) == [f] + Filter(fs[1..], Message);
        SubseqCons(Filter(fs[1..], Deliverable), f, Filter(fs[1..], Message));
      } else {
        assert Filter(fs, Deliverable) == Filter(fs[1..], Deliverable);
        assert Filter(fs, Message) == Filter(fs[1..], Message);
      }
    }
  }

  // One call ----------------------------------------------------------------------------------

  /** What `get_message` keeps of the routing, for a call `d` made with queues `iq` and `rq`:
      every frame it read that is not a message ends up at the back of the reply queue, and
      the message it returns followed by the intermediate queue is the old intermediate queue
      followed by the messages it read. Its frame is a `MESSAGE`; `None` comes only in
      non-blocking mode. */
  predicate MessageRouting(d: CallResult, iq: seq<FrameData>, rq: seq<FrameData>, nb: bool)
  {
    && Routed(d.iq, d.rq)
    && d.rq == rq + Filter(d.got, Response)
    && Out(d.reply) + d.iq == iq + Filter(d.got, Message)
    && (d.reply.Returned? && d.reply.frame.Some? ==> d.reply.frame.value.command == "MESSAGE")
    && (d.reply == Returned(None) ==> nb)
  }

  /** `get_message` keeps the routing; with a message waiting, it returns that one without
      reading the socket. */
  lemma {:induction false} NextMessageRoutes(evs: seq<Event>, iq: seq<FrameData>, rq: seq<FrameData>, nb: bool)
    requires Routed(iq, rq)
    ensures MessageRouting(NextMessage(evs, iq, rq, nb), iq, rq, nb)
    ensures iq != [] ==> NextMessage(evs, iq, rq, nb).reply == Returned(Some(iq[0]))
                         && NextMessage(evs, iq, rq, nb).rest == evs
    decreases |evs|
  {
    var o := MessagePass(evs, iq, rq, nb);
    if iq != [] {
      QueuedMessageFirst(evs, iq, rq, nb);
    } else if o.done {
      MessagePassEnds(evs, rq, nb);
    } else {
      var f := o.next.got[0];
      assert o.next == CallResult(Stalled, o.next.rest, iq, rq + [f], [f]);
      NextMessageRoutes(o.next.rest, iq, rq + [f], nb);
      MessageRoutingStep(f, NextMessage(o.next.rest, iq, rq + [f], nb), iq, rq, nb);
    }
  }

  /** With a message waiting in a routed intermediate queue, `get_message` returns it. */
  lemma QueuedMessageFirst(evs: seq<Event>, iq: seq<FrameData>, rq: seq<FrameData>, nb: bool)
    requires Routed(iq, rq) && iq != []
    ensures var d := NextMessage(evs, iq, rq, nb);
            d == CallResult(Returned(Some(iq[0])), evs, iq[1..], rq, []) && MessageRouting(d, iq, rq, nb)
  {
    assert iq[0] in iq;
    assert [iq[0]] + iq[1..] == iq;
    assert rq + [] == rq && iq + [] == iq;
  }

  /** A `get_message` pass on the socket that ends the call keeps the routing. */
  lemma MessagePassEnds(evs: seq<Event>, rq: seq<FrameData>, nb: bool)
    requires Routed([], rq) && MessagePass(evs, [], rq, nb).done
    ensures MessageRouting(MessagePass(evs, [], rq, nb).next, [], rq, nb)
  {
    var d := MessagePass(evs, [], rq, nb).next;
    if d.got != [] {
      var f := d.got[0];
      assert d.got == [f];
      assert Filter([f], Message) == [f] && Filter([f], Response) == [];
      assert rq + [] == rq;
    } else {
      assert rq + [] == rq;
    }
  }

  /** A frame that is not a message, read before the rest of a call, keeps the routing. */
  lemma MessageRoutingStep(f: FrameData, e: CallResult, iq: seq<FrameData>, rq: seq<FrameData>, nb: bool)
    requires f.command != "MESSAGE" && MessageRouting(e, iq, rq + [f], nb)
    ensures MessageRouting(After([f], e), iq, rq, nb)
  {
    var d := After([f], e);
    FilterAppend([f], e.got, Response);
    FilterAppend([f], e.got, Message);
    assert Filter([f], Response) == [f] && Filter([f], Message) == [];
    Assoc(rq, [f], Filter(e.got, Response));
  }

  /** A blocking `get_reply` that returns, returns a frame. */
  lemma BlockingReplyHasFrame(evs: seq<Event>, iq: seq<FrameData>, rq: seq<FrameData>)
    requires Routed(iq, rq)
    ensures NextReply(evs, iq, rq, false).reply.Returned? ==> NextReply(evs, iq, rq, false).reply.frame.Some?
  {
    NextReplyRoutes(evs, iq, rq, false);
  }

  /** What `get_reply` keeps of the routing, for a call `d` made with queues `iq` and `rq`: the
      reply it returns followed by the reply queue is the old reply queue followed by the
      non-messages it read, and the intermediate queue gains exactly the messages with a
      destination it read, in order. Its frame is never a `MESSAGE`; `None` comes only in
      non-blocking mode. */
  predicate ReplyRouting(d: CallResult, iq: seq<FrameData>, rq: seq<FrameData>, nb: bool)
  {
    && Routed(d.iq, d.rq)
    && Out(d.reply) + d.rq == rq + Filter(d.got, Response)
    && d.iq == iq + Filter(d.got, Deliverable)
    && (d.reply.Returned? && d.reply.frame.Some? ==> d.reply.frame.value.command != "MESSAGE")
    && (d.reply == Returned(None) ==> nb)
  }

  /** `get_reply` keeps the routing; with a reply waiting, it returns that one without reading
      the socket. */
  lemma {:induction false} NextReplyRoutes(evs: seq<Event>, iq: seq<FrameData>, rq: seq<FrameData>, nb: bool)
    requires Routed(iq, rq)
    ensures ReplyRouting(NextReply(evs, iq, rq, nb), iq, rq, nb)
    ensures rq != [] ==> NextReply(evs, iq, rq, nb).reply == Returned(Some(rq[0]))
                         && NextReply(evs, iq, rq, nb).rest == evs
    decreases |evs|
  {
    var o := ReplyPass(evs, iq, rq, nb);
    if rq != [] {
      QueuedReplyFirst(evs, iq, rq, nb);
    } else if o.done {
      ReplyPassEnds(evs, iq, nb);
    } else {
      var f := o.next.got[0];
      ReplyPassGoesOn(evs, iq, nb);
      NextReplyRoutes(o.next.rest, o.next.iq, o.next.rq, nb);
      ReplyRoutingStep(f, NextReply(o.next.rest, o.next.iq, o.next.rq, nb), iq, o.next.iq, o.next.rq, nb);
    }
  }

  /** With a reply waiting in a routed reply queue, `get_reply` returns it. */
  lemma QueuedReplyFirst(evs: seq<Event>, iq: seq<FrameData>, rq: seq<FrameData>, nb: bool)
    requires Routed(iq, rq) && rq != []
    ensures var d := NextReply(evs, iq, rq, nb);
            d == CallResult(Returned(Some(rq[0])), evs, iq, rq[1..], []) && ReplyRouting(d, iq, rq, nb)
  {
    assert rq[0] in rq;
    assert [rq[0]] + rq[1..] == rq;
    assert rq + [] == rq && iq + [] == iq;
  }

  /** A `get_reply` pass on the socket that ends the call keeps the routing. */
  lemma ReplyPassEnds(evs: seq<Event>, iq: seq<FrameData>, nb: bool)
    requires Routed(iq, []) && ReplyPass(evs, iq, [], nb).done
    ensures ReplyRouting(ReplyPass(evs, iq, [], nb).next, iq, [], nb)
  {
    assert iq + [] == iq;
  }

  /** A `get_reply` pass on the socket that does not end the call read one frame, and routed it:
      a message to the intermediate queue, any other frame to the reply queue. */
  lemma ReplyPassGoesOn(evs: seq<Event>, iq: seq<FrameData>, nb: bool)
    requires Routed(iq, []) && !ReplyPass(evs, iq, [], nb).done
    ensures var o := ReplyPass(evs, iq, [], nb).next;
            && |o.got| == 1 && Routed(o.iq, o.rq)
            && (o.got[0].command == "MESSAGE" ==> o.iq == Enqueue(iq, o.got[0]) && o.rq == [])
            && (o.got[0].command != "MESSAGE" ==> o.iq == iq && o.rq == o.got)
  {
  }

  /** A frame read before the rest of a `get_reply` call and routed as `ReplyPass` does keeps
      the routing. */
  lemma ReplyRoutingStep(f: FrameData, e: CallResult, iq: seq<FrameData>, iq': seq<FrameData>,
                         rq': seq<FrameData>, nb: bool)
    requires f.command == "MESSAGE" ==> iq' == Enqueue(iq, f) && rq' == []
    requires f.command != "MESSAGE" ==> iq' == iq && rq' == [f]
    requires ReplyRouting(e, iq', rq', nb)
    ensures ReplyRouting(After([f], e), iq, [], nb)
  {
    var d := After([f], e);
    FilterAppend([f], e.got, Response);
    if f.command == "MESSAGE" {
      assert Filter([f], Response) == [];
      QueuedMessage(f, iq, e);
    } else {
      FilterAppend([f], e.got, Deliverable);
      assert Filter([f], Response) == [f] && Filter([f], Deliverable) == [];
      assert [] + Filter(d.got, Response) == Filter(d.got, Response);
    }
  }

  /** A message `get_reply` reads is offered to the intermediate queue before what it reads
      next. */
  lemma QueuedMessage(f: FrameData, iq: seq<FrameData>, e: CallResult)
    requires f.command == "MESSAGE" && e.iq == Enqueue(iq, f) + Filter(e.got, Deliverable)
    ensures After([f], e).iq == iq + Filter([f] + e.got, Deliverable)
  {
    FilterAppend([f], e.got, Deliverable);
    var fd, x := Filter([f], Deliverable), Filter(e.got, Deliverable);
    assert Enqueue(iq, f) == iq + fd;
    Assoc(iq, fd, x);
  }

  /** In non-blocking mode, with nothing queued for the caller and no data waiting on the
      socket, both accessors return `None` after one read and leave both queues as they were. */
  lemma NothingWaiting(evs: seq<Event>, iq: seq<FrameData>, rq: seq<FrameData>)
    requires evs != [] && evs[0].WouldBlock?
    ensures iq == [] ==> NextMessage(evs, iq, rq, true) == CallResult(Returned(None), evs[1..], iq, rq, [])
    ensures rq == [] ==> NextReply(evs, iq, rq, true) == CallResult(Returned(None), evs[1..], iq, rq, [])
  {
    ReadLineNoneIff(evs);
  }

  // A session -----------------------------------------------------------------------------------

  /** Between calls, over a whole session: `arrived` are the frames read from the socket,
      `replies` and `messages` those handed out by `get_reply` and `get_message`. Every reply
      that arrived is handed out or waiting, in arrival order; the messages handed out or waiting
      are, in order, among those that arrived, and include every one with a destination. */
  predicate SessionInv(arrived: seq<FrameData>, replies: seq<FrameData>, messages: seq<FrameData>,
                       iq: seq<FrameData>, rq: seq<FrameData>)
  {
    && Routed(iq, rq)
    && replies + rq == Filter(arrived, Response)
    && Subseq(messages + iq, Filter(arrived, Message))
    && Subseq(Filter(arrived, Deliverable), messages + iq)
  }

  lemma SessionStart()
    ensures SessionInv([], [], [], [], [])
  {
  }

  /** The session invariant after a `get_message` call that read `got`, handed out `out` and
      left the queues `iq'` and `rq'`. */
  lemma SessionAfterMessage(arrived: seq<FrameData>, replies: seq<FrameData>, messages: seq<FrameData>,
                            iq: seq<FrameData>, rq: seq<FrameData>,
                            got: seq<FrameData>, out: seq<FrameData>, iq': seq<FrameData>, rq': seq<FrameData>)
    requires SessionInv(arrived, replies, messages, iq, rq)
    requires Routed(iq', rq') && rq' == rq + Filter(got, Response) && out + iq' == iq + Filter(got, Message)
    ensures SessionInv(arrived + got, replies, messages + out, iq', rq')
  {
    FilterAppend(arrived, got, Response);
    FilterAppend(arrived, got, Message);
    FilterAppend(arrived, got, Deliverable);
    var gm, gd := Filter(got, Message), Filter(got, Deliverable);
    Regroup(messages, out, iq', iq, gm);
    Assoc(replies, rq, Filter(got, Response));
    SubseqRefl(gm);
    SubseqConcat(messages + iq, Filter(arrived, Message), gm, gm);
    DeliverableAmongMessages(got);
    SubseqConcat(Filter(arrived, Deliverable), messages + iq, gd, gm);
  }

  /** The session invariant after a `get_reply` call. */
  lemma SessionAfterReply(arrived: seq<FrameData>, replies: seq<FrameData>, messages: seq<FrameData>,
                          iq: seq<FrameData>, rq: seq<FrameData>,
                          got: seq<FrameData>, out: seq<FrameData>, iq': seq<FrameData>, rq': seq<FrameData>)
    requires SessionInv(arrived, replies, messages, iq, rq)
    requires Routed(iq', rq') && out + rq' == rq + Filter(got, Response) && iq' == iq + Filter(got, Deliverable)
    ensures SessionInv(arrived + got, replies + out, messages, iq', rq')
  {
    FilterAppend(arrived, got, Response);
    FilterAppend(arrived, got, Message);
    FilterAppend(arrived, got, Deliverable);
    var gm, gd := Filter(got, Message), Filter(got, Deliverable);
    Regroup(replies, out, rq', rq, Filter(got, Response));
    Regroup(messages, [], iq', iq, gd);
    assert messages + [] == messages;
    DeliverableAmongMessages(got);
    SubseqConcat(messages + iq, Filter(arrived, Message), gd, gm);
    SubseqRefl(gd);
    SubseqConcat(Filter(arrived, Deliverable), messages + iq, gd, gd);
  }

  /** `get_message` keeps the session invariant, whatever it reads. */
  lemma MessageKeepsSession(evs: seq<Event>, iq: seq<FrameData>, rq: seq<FrameData>, nb: bool,
                            arrived: seq<FrameData>, replies: seq<FrameData>, messages: seq<FrameData>)
    requires SessionInv(arrived, replies, messages, iq, rq)
    ensures var d := NextMessage(evs, iq, rq, nb);
            SessionInv(arrived + d.got, replies, messages + Out(d.reply), d.iq, d.rq)
  {
    var d := NextMessage(evs, iq, rq, nb);
    NextMessageRoutes(evs, iq, rq, nb);
    SessionAfterMessage(arrived, replies, messages, iq, rq, d.got, Out(d.reply), d.iq, d.rq);
  }

  /** `get_reply` keeps the session invariant, whatever it reads. */
  lemma ReplyKeepsSession(evs: seq<Event>, iq: seq<FrameData>, rq: seq<FrameData>, nb: bool,
                          arrived: seq<FrameData>, replies: seq<FrameData>, messages: seq<FrameData>)
    requires SessionInv(arrived, replies, messages, iq, rq)
    ensures var d := NextReply(evs, iq, rq, nb);
            SessionInv(arrived + d.got, replies + Out(d.reply), messages, d.iq, d.rq)
  {
    var d := NextReply(evs, iq, rq, nb);
    NextReplyRoutes(evs, iq, rq, nb);
    SessionAfterReply(arrived, replies, messages, iq, rq, d.got, Out(d.reply), d.iq, d.rq);
  }
}
