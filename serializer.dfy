/** `Frame.as_string` and the receipt header of `Frame.build_frame`, as functions. */
module Serializer {
  import opened Common
  import opened Strings
  import opened Headers

  /** `"%s" % x` for a command or body that may be `None`. */
  function Show(o: Option<string>): string
  {
    match o
    case None => "None"
    case Some(s) => s
  }

  /** One `key:value` line, ended by a newline, per entry, in dictionary order. */
  function HeaderLines(h: seq<Entry>): string
  {
    if h == [] then "" else h[0].0 + ":" + Render(h[0].1) + "\n" + HeaderLines(h[1..])
  }

  /** The text `as_string` returns for a frame whose header dictionary is already prepared:
      command, newline, header lines, blank line, body, and a single NUL. */
  function Wire(command: Option<string>, h: Headers, body: Option<string>): string
  {
    Show(command) + "\n" + HeaderLines(h) + "\n" + Show(body) + "\0"
  }

  /** What `as_string` leaves in the frame's header dictionary, and what it returns or raises. */
  datatype Serialized = Serialized(headers: Headers, out: Result<string>)

  /** `as_string` on a frame with the given fields: `bytes_message` is replaced by
      `content-length = len(body)`, and `x-client` is set to the host name. */
  function Serialize(command: Option<string>, h: Headers, body: Option<string>, name: string): (s: Serialized)
    ensures s.out.Err? <==> "bytes_message" in Keys(h) && body.None?
    ensures s.out.Err? ==> s.out.error == BodyMissing && s.headers == Remove(h, "bytes_message")
    ensures s.out.Ok? ==>
              && "bytes_message" !in Keys(s.headers)
              && Lookup(s.headers, "x-client") == Some(Text(name))
              && ("bytes_message" in Keys(h) ==>
                    Lookup(s.headers, "content-length") == Some(Number(|body.value|)))
              && ("bytes_message" !in Keys(h) ==>
                    forall k :: k != "x-client" ==> Lookup(s.headers, k) == Lookup(h, k))
              && (forall k :: k != "bytes_message" && k != "content-length" && k != "x-client" ==>
                    Lookup(s.headers, k) == Lookup(h, k))
              && Keys(s.headers) == Keys(h) - {"bytes_message"} + {"x-client"} +
                   (if "bytes_message" in Keys(h) then {"content-length"} else {})
              && s.out.value == Wire(command, s.headers, body)
  {
    if "bytes_message" in Keys(h) then
      var stripped := Remove(h, "bytes_message");
      if body.None? then Serialized(stripped, Err(BodyMissing))
      else
        var sized := Put(stripped, "content-length", Number(|body.value|));
        var named := Put(sized, "x-client", Text(name));
        Serialized(named, Ok(Wire(command, named, body)))
    else
      var named := Put(h, "x-client", Text(name));
      Serialized(named, Ok(Wire(command, named, body)))
  }

  /** Calling `as_string` a second time on the same frame changes nothing and returns the
      same text: the dictionary it leaves behind is a fixed point. */
  lemma SerializeIdempotent(command: Option<string>, h: Headers, body: Option<string>, name: string)
    requires Serialize(command, h, body, name).out.Ok?
    ensures Serialize(command, Serialize(command, h, body, name).headers, body, name)
            == Serialize(command, h, body, name)
  {
    var s := Serialize(command, h, body, name);
    PutSame(s.headers, "x-client", Text(name));
  }

  /** The `session` entry of the session dictionary as `%s` renders it (`None` when absent). */
  function SessionId(session: Headers): string
  {
    match Lookup(session, "session")
    case None => "None"
    case Some(v) => Render(v)
  }

  /** The `receipt` header value `"%s-%s" % (session.get("session"), stamp)`: it starts with the
      session id and a dash, and the rest reads back as the stamp. */
  function ReceiptToken(session: Headers, stamp: nat): (r: string)
    ensures var id := SessionId(session);
            |r| > |id| + 1 && r[..|id|] == id && r[|id|] == '-' && ParseNat(r[|id| + 1..]) == Some(stamp)
  {
    var id := SessionId(session);
    var digits := NatToString(stamp);
    ParseNatToString(stamp);
    var r := id + "-" + digits;
    assert r[..|id|] == id && r[|id| + 1..] == digits;
    r
  }
}
