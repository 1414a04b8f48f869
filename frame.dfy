/** The engine's objects: `IntermediateMessageQueue` and `Frame`, whose methods change their
    fields, the socket and the two queues in place. Each method is tied to the function of the
    other modules that states what it computes. */
module Stomp {
  import opened Common
  import opened Headers
  import opened Parser
  import opened Serializer
  import opened Transport
  import opened Demux

  /** The dictionary `build_frame` receives: its `command`, `headers` and `body` entries
      (`args.get` yields `None` for an absent command or body). */
  datatype Args = Args(command: Option<string>, headers: Headers, body: Option<string>)

  /** `IntermediateMessageQueue`: messages read while a command reply was awaited. */
  class MessageQueue {
    var items: seq<FrameData>

    constructor ()
      ensures items == []
    {
      items := [];
    }

    /** `put`: only a frame with a `destination` header is queued. */
    method Put(f: FrameData)
      modifies this
      ensures items == Enqueue(old(items), f)
    {
      if "destination" !in Keys(f.headers) {
        return;
      }
      items := items + [f];
    }

    /** `get(frame, nb)`: the oldest queued frame, else whatever `frame.parse_frame(nb)` reads. */
    method Get(owner: Frame, nb: bool) returns (p: Parsed)
      requires owner.sock != null
      requires items == [] ==> !PullFrame(owner.sock.incoming).Starved?
      modifies this, owner.sock
      ensures old(items) != [] ==>
                p == Got(old(items)[0]) && items == old(items)[1..] && unchanged(owner.sock)
      ensures old(items) == [] ==>
                && items == []
                && Pulled(p, owner.sock.incoming) == PullFrame(old(owner.sock.incoming))
                && owner.sock.blocking == nb && owner.sock.sent == old(owner.sock.sent)
                && owner.sock.readModes
                   == old(owner.sock.readModes) + Repeat(!nb, |old(owner.sock.incoming)| - |owner.sock.incoming|)
    {
      if items != [] {
        p := Got(items[0]);
        items := items[1..];
        return;
      }
      p := owner.ParseFrame(nb);
    }
  }

  /** `Frame`: the frame being built or sent, the session, the socket and the two queues.
      The ghost fields record, over the object's life, the frames read from the socket and the
      frames handed out by `GetReply` and `GetMessage`. */
  class Frame {
    var command: Option<string>
    var headers: Headers
    var body: Option<string>
    var session: Option<Headers>
    const myName: string
    var sock: Socket?
    const iqueue: MessageQueue
    var rqueue: seq<FrameData>
    ghost var arrived: seq<FrameData>
    ghost var replies: seq<FrameData>
    ghost var messages: seq<FrameData>

    ghost predicate Valid()
      reads this, iqueue
    {
      SessionInv(arrived, replies, messages, iqueue.items, rqueue)
    }

    /** `Frame(sock)`; the host's address, which the source looks up, is a parameter. */
    constructor (sock: Socket?, myName: string)
      ensures this.sock == sock && this.myName == myName
      ensures command == None && headers == [] && body == None && session == None
      ensures fresh(iqueue) && iqueue.items == [] && rqueue == []
      ensures arrived == [] && replies == [] && messages == []
      ensures Valid()
    {
      command := None;
      headers := [];
      body := None;
      session := None;
      this.myName := myName;
      this.sock := sock;
      iqueue := new MessageQueue();
      rqueue := [];
      arrived := [];
      replies := [];
      messages := [];
      SessionStart();
    }

    /** `build_frame(args, want_receipt)`; `stamp` is the number `random.randint(0, 10000000)`
        draws. The receipt is `<session id>-<stamp>`; asking for one before a session exists
        raises, with the command, headers and body already replaced. */
    method BuildFrame(args: Args, wantReceipt: bool, stamp: nat) returns (err: Option<Error>)
      requires stamp <= 10000000
      modifies this
      ensures command == args.command && body == args.body
      ensures err.Some? <==> wantReceipt && session.None?
      ensures err.Some? ==> err.value == NoSession && headers == args.headers
      ensures !wantReceipt ==> headers == args.headers
      ensures wantReceipt && session.Some? ==>
                headers == Put(args.headers, "receipt", Text(ReceiptToken(session.value, stamp)))
      ensures session == old(session) && sock == old(sock) && rqueue == old(rqueue)
      ensures arrived == old(arrived) && replies == old(replies) && messages == old(messages)
    {
      command := args.command;
      headers := args.headers;
      body := args.body;
      err := None;
      if wantReceipt {
        if session.None? {
          return Some(NoSession);
        }
        headers := Put(headers, "receipt", Text(ReceiptToken(session.value, stamp)));
      }
    }

    /** `as_string()`: rewrites the header dictionary as `Serialize` says and returns the wire
        text, or raises when `bytes_message` is set on a frame without a body. */
    method AsString() returns (r: Result<string>)
      modifies this
      ensures var s := Serialize(command, old(headers), body, myName);
              headers == s.headers && r == s.out
      ensures command == old(command) && body == old(body) && session == old(session)
      ensures sock == old(sock) && rqueue == old(rqueue)
      ensures arrived == old(arrived) && replies == old(replies) && messages == old(messages)
    {
      if "bytes_message" in Keys(headers) {
        headers := Remove(headers, "bytes_message");
        if body.None? {
          return Err(BodyMissing);
        }
        headers := Put(headers, "content-length", Number(|body.value|));
      }
      headers := Put(headers, "x-client", Text(myName));
      r := Ok(Show(command) + "\n" + HeaderLines(headers) + "\n" + Show(body) + "\0");
    }

    /** `parse_frame(nb)`: one line from the socket, parsed. */
    method ParseFrame(nb: bool) returns (p: Parsed)
      requires sock != null && !PullFrame(sock.incoming).Starved?
      modifies sock
      ensures Pulled(p, sock.incoming) == PullFrame(old(sock.incoming))
      ensures sock.blocking == nb && sock.sent == old(sock.sent)
      ensures sock.readModes == old(sock.readModes) + Repeat(!nb, |old(sock.incoming)| - |sock.incoming|)
    {
      PullIsReadThenInterpret(sock.incoming);
      var line := GetLine(sock, nb);
      p := Interpret(line);
    }

    /** One pass of `get_message`'s loop, as `MessagePass` says; `step` is the frame read from
        the socket, if one was. */
    method MessageRound(nb: bool) returns (done: bool, r: Reply, ghost step: seq<FrameData>)
      requires sock != null
      requires iqueue.items == [] ==> !PullFrame(sock.incoming).Starved?
      modifies this, sock, iqueue
      ensures sock == old(sock) && sock.sent == old(sock.sent)
      ensures ReadsFrom(old(sock.incoming), old(sock.blocking), old(sock.readModes),
                        sock.incoming, sock.blocking, sock.readModes, nb)
      ensures MessagePass(old(sock.incoming), old(iqueue.items), old(rqueue), nb)
              == Pass(done, CallResult(r, sock.incoming, iqueue.items, rqueue, step))
      ensures command == old(command) && headers == old(headers) && body == old(body)
      ensures session == old(session) && replies == old(replies)
      ensures arrived == old(arrived) + step
      ensures messages == old(messages) + (if done then Out(r) else [])
    {
      ghost var evs, iq := sock.incoming, iqueue.items;
      var p := iqueue.Get(this, nb);
      assert iq == [] ==>
        MessagePass(evs, iq, rqueue, nb) == AfterPull(Pulled(p, sock.incoming), evs, iq, rqueue, nb, false);
      match p
      case NoFrame =>
        done, r, step := true, if nb then Returned(None) else Raised(ReplyMissing), [];
      case Failed(e) =>
        done, r, step := true, Raised(e), [];
      case Got(f) =>
        step := if iq == [] then [f] else [];
        arrived := arrived + step;
        if f.command == "MESSAGE" {
          messages := messages + [f];
          done, r := true, Returned(Some(f));
        } else {
          rqueue := rqueue + [f];
          done, r := false, Stalled;
        }
    }

    /** `get_message(nb)`: the next application message, with the command replies read on
        the way left on the reply queue. `got` lists the frames read from the socket. */
    method GetMessage(nb: bool) returns (r: Reply, ghost got: seq<FrameData>)
      requires Valid() && sock != null
      requires !NextMessage(sock.incoming, iqueue.items, rqueue, nb).reply.Stalled?
      modifies this, sock, iqueue
      ensures sock == old(sock)
      ensures ReadsFrom(old(sock.incoming), old(sock.blocking), old(sock.readModes),
                        sock.incoming, sock.blocking, sock.readModes, nb)
      ensures NextMessage(old(sock.incoming), old(iqueue.items), old(rqueue), nb)
              == CallResult(r, sock.incoming, iqueue.items, rqueue, got)
      ensures arrived == old(arrived) + got && messages == old(messages) + Out(r) && replies == old(replies)
      ensures Valid()
      ensures sock.sent == old(sock.sent)
      ensures command == old(command) && headers == old(headers) && body == old(body)
      ensures session == old(session)
    {
      ghost var d := NextMessage(sock.incoming, iqueue.items, rqueue, nb);
      MessageKeepsSession(sock.incoming, iqueue.items, rqueue, nb, arrived, replies, messages);
      got := [];
      var done := false;
      r := Stalled;
      while !done
        invariant sock == old(sock) && sock.sent == old(sock.sent)
        invariant ReadsFrom(old(sock.incoming), old(sock.blocking), old(sock.readModes),
                            sock.incoming, sock.blocking, sock.readModes, nb)
        invariant command == old(command) && headers == old(headers) && body == old(body)
        invariant session == old(session) && replies == old(replies)
        invariant arrived == old(arrived) + got
        invariant !done ==> Resumes(d, got, NextMessage(sock.incoming, iqueue.items, rqueue, nb))
        invariant !done ==> messages == old(messages)
        invariant done ==> d == CallResult(r, sock.incoming, iqueue.items, rqueue, got)
        invariant done ==> messages == old(messages) + Out(r)
        decreases !done, |sock.incoming|, |iqueue.items|
      {
        ghost var e := NextMessage(sock.incoming, iqueue.items, rqueue, nb);
        MessageUnfolds(sock.incoming, iqueue.items, rqueue, nb);
        ghost var got0 := got;
        ghost var step: seq<FrameData>;
        ghost var in0, b0, m0 := sock.incoming, sock.blocking, sock.readModes;
        done, r, step := MessageRound(nb);
        got := got + step;
        ReadsFromThen(old(sock.incoming), old(sock.blocking), old(sock.readModes), in0, b0, m0,
                      sock.incoming, sock.blocking, sock.readModes, nb);
        Assoc(old(arrived), got0, step);
        if !done {
          ResumesThen(d, got0, e, step, NextMessage(sock.incoming, iqueue.items, rqueue, nb));
        }
      }
    }

    /** One pass of `get_reply`'s loop, as `ReplyPass` says; `step` is the frame read from the
        socket, if one was. */
    method ReplyRound(nb: bool) returns (done: bool, r: Reply, ghost step: seq<FrameData>)
      requires sock != null
      requires rqueue == [] ==> !PullFrame(sock.incoming).Starved?
      modifies this, sock, iqueue
      ensures sock == old(sock) && sock.sent == old(sock.sent)
      ensures ReadsFrom(old(sock.incoming), old(sock.blocking), old(sock.readModes),
                        sock.incoming, sock.blocking, sock.readModes, nb)
      ensures ReplyPass(old(sock.incoming), old(iqueue.items), old(rqueue), nb)
              == Pass(done, CallResult(r, sock.incoming, iqueue.items, rqueue, step))
      ensures command == old(command) && headers == old(headers) && body == old(body)
      ensures session == old(session) && messages == old(messages)
      ensures arrived == old(arrived) + step
      ensures replies == old(replies) + (if done then Out(r) else [])
    {
      if rqueue != [] {
        var f := rqueue[0];
        rqueue := rqueue[1..];
        replies := replies + [f];
        return true, Returned(Some(f)), [];
      }
      ghost var evs := sock.incoming;
      var p := ParseFrame(nb);
      done, r, step := RouteReply(p, evs, sock.incoming, nb);
    }

    /** What a `get_reply` pass does with what `parse_frame` gave, when the reply queue is
        empty: a frame is routed, anything else ends the call. */
    method RouteReply(p: Parsed, ghost evs: seq<Event>, ghost rest: seq<Event>, nb: bool)
      returns (done: bool, r: Reply, ghost step: seq<FrameData>)
      requires rqueue == []
      modifies this, iqueue
      ensures AfterPull(Pulled(p, rest), evs, old(iqueue.items), [], nb, true)
              == Pass(done, CallResult(r, rest, iqueue.items, rqueue, step))
      ensures sock == old(sock)
      ensures command == old(command) && headers == old(headers) && body == old(body)
      ensures session == old(session) && messages == old(messages) && replies == old(replies)
      ensures arrived == old(arrived) + step
      ensures done ==> Out(r) == []
    {
      match p
      case NoFrame =>
        done, r, step := true, if nb then Returned(None) else Raised(ReplyMissing), [];
      case Failed(e) =>
        done, r, step := true, Raised(e), [];
      case Got(f) =>
        done, r, step := false, Stalled, [f];
        arrived := arrived + [f];
        if f.command == "MESSAGE" {
          iqueue.Put(f);
        } else {
          rqueue := rqueue + [f];
        }
    }

    /** `get_reply(nb)`: the next command reply, with the messages read on the way put on the
        intermediate queue. `got` lists the frames read from the socket. */
    method GetReply(nb: bool) returns (r: Reply, ghost got: seq<FrameData>)
      requires Valid() && sock != null
      requires !NextReply(sock.incoming, iqueue.items, rqueue, nb).reply.Stalled?
      modifies this, sock, iqueue
      ensures sock == old(sock)
      ensures ReadsFrom(old(sock.incoming), old(sock.blocking), old(sock.readModes),
                        sock.incoming, sock.blocking, sock.readModes, nb)
      ensures NextReply(old(sock.incoming), old(iqueue.items), old(rqueue), nb)
              == CallResult(r, sock.incoming, iqueue.items, rqueue, got)
      ensures arrived == old(arrived) + got && replies == old(replies) + Out(r) && messages == old(messages)
      ensures Valid()
      ensures sock.sent == old(sock.sent)
      ensures command == old(command) && headers == old(headers) && body == old(body)
      ensures session == old(session)
    {
      ghost var d := NextReply(sock.incoming, iqueue.items, rqueue, nb);
      ReplyKeepsSession(sock.incoming, iqueue.items, rqueue, nb, arrived, replies, messages);
      got := [];
      var done := false;
      r := Stalled;
      while !done
        invariant sock == old(sock) && sock.sent == old(sock.sent)
        invariant ReadsFrom(old(sock.incoming), old(sock.blocking), old(sock.readModes),
                            sock.incoming, sock.blocking, sock.readModes, nb)
        invariant command == old(command) && headers == old(headers) && body == old(body)
        invariant session == old(session) && messages == old(messages)
        invariant arrived == old(arrived) + got
        invariant !done ==> Resumes(d, got, NextReply(sock.incoming, iqueue.items, rqueue, nb))
        invariant !done ==> replies == old(replies)
        invariant done ==> d == CallResult(r, sock.incoming, iqueue.items, rqueue, got)
        invariant done ==> replies == old(replies) + Out(r)
        decreases !done, |sock.incoming|
      {
        ghost var e := NextReply(sock.incoming, iqueue.items, rqueue, nb);
        ReplyUnfolds(sock.incoming, iqueue.items, rqueue, nb);
        ghost var got0 := got;
        ghost var step: seq<FrameData>;
        ghost var in0, b0, m0 := sock.incoming, sock.blocking, sock.readModes;
        done, r, step := ReplyRound(nb);
        got := got + step;
        ReadsFromThen(old(sock.incoming), old(sock.blocking), old(sock.readModes), in0, b0, m0,
                      sock.incoming, sock.blocking, sock.readModes, nb);
        Assoc(old(arrived), got0, step);
        if !done {
          ResumesThen(d, got0, e, step, NextReply(sock.incoming, iqueue.items, rqueue, nb));
        }
      }
    }

    /** `send_frame(data)`: sends, then waits for the reply when the current frame asked for a
        receipt. */
    method SendFrame(data: string) returns (r: Option<Reply>)
      requires Valid() && sock != null
      requires "receipt" in Keys(headers) ==>
                 !NextReply(sock.incoming, iqueue.items, rqueue, false).reply.Stalled?
      modifies this, sock, iqueue
      ensures sock == old(sock) && sock.sent == old(sock.sent) + [data]
      ensures ReadsFrom(old(sock.incoming), old(sock.blocking), old(sock.readModes),
                        sock.incoming, sock.blocking, sock.readModes, false)
      ensures "receipt" !in Keys(headers) ==>
                && r == None && sock.incoming == old(sock.incoming)
                && iqueue.items == old(iqueue.items) && rqueue == old(rqueue)
                && arrived == old(arrived) && replies == old(replies)
      ensures "receipt" in Keys(headers) ==>
                var d := NextReply(old(sock.incoming), old(iqueue.items), old(rqueue), false);
                && r == Some(d.reply) && sock.incoming == d.rest
                && iqueue.items == d.iq && rqueue == d.rq
                && arrived == old(arrived) + d.got && replies == old(replies) + Out(d.reply)
      ensures messages == old(messages) && Valid()
      ensures command == old(command) && headers == old(headers) && body == old(body)
      ensures session == old(session)
    {
      sock.SendAll(data);
      if "receipt" in Keys(headers) {
        var reply, _ := GetReply(false);
        return Some(reply);
      }
      return None;
    }

    /** The first half of `connect(sock)`: the socket is adopted, and the `CONNECT` frame is
        built with no headers, rewritten by `as_string` and sent; it asks for no receipt, so
        nothing is read. */
    method SendConnect(s: Socket)
      requires Valid()
      modifies this, s, iqueue
      ensures sock == s && command == Some("CONNECT") && body == None
      ensures headers == Put([], "x-client", Text(myName))
      ensures s.sent == old(s.sent) + [Wire(Some("CONNECT"), Put([], "x-client", Text(myName)), None)]
      ensures s.incoming == old(s.incoming) && s.blocking == old(s.blocking) && s.readModes == old(s.readModes)
      ensures iqueue.items == old(iqueue.items) && rqueue == old(rqueue) && session == old(session)
      ensures arrived == old(arrived) && replies == old(replies) && messages == old(messages)
    {
      sock := s;
      var built := BuildFrame(Args(Some("CONNECT"), [], None), false, 0);
      var text := AsString();
      var sentReply := SendFrame(text.value);
    }

    /** `connect(sock)`: sends `CONNECT` and keeps the headers of the broker's reply as the
        session. */
    method Connect(s: Socket) returns (err: Option<Error>)
      requires Valid()
      requires !NextReply(s.incoming, iqueue.items, rqueue, false).reply.Stalled?
      modifies this, s, iqueue
      ensures sock == s && command == Some("CONNECT") && body == None
      ensures headers == Put([], "x-client", Text(myName))
      ensures ReadsFrom(old(s.incoming), old(s.blocking), old(s.readModes), s.incoming, s.blocking, s.readModes, false)
      ensures s.sent == old(s.sent) + [Wire(Some("CONNECT"), Put([], "x-client", Text(myName)), None)]
      ensures var d := NextReply(old(s.incoming), old(iqueue.items), old(rqueue), false);
              && s.incoming == d.rest && iqueue.items == d.iq && rqueue == d.rq
              && arrived == old(arrived) + d.got && replies == old(replies) + Out(d.reply)
              && messages == old(messages)
              && (d.reply.Raised? ==> err == Some(d.reply.error) && session == old(session))
              && (d.reply.Returned? ==> d.reply.frame.Some?)
              && (d.reply.Returned? ==> err == None && session == Some(d.reply.frame.value.headers))
      ensures Valid()
    {
      BlockingReplyHasFrame(s.incoming, iqueue.items, rqueue);
      SendConnect(s);
      ghost var got;
      var reply;
      reply, got := GetReply(false);
      err := None;
      if reply.Returned? {
        session := Some(reply.frame.value.headers);
      } else if reply.Raised? {
        err := Some(reply.error);
      }
    }
  }
}
