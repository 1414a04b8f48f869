/** Parsing what `as_string` produced gives back the frame: the command, the header dictionary
    (values as text, `x-client` added, `bytes_message` restored next to `content-length`) and
    the body. */
module RoundTrip {
  import opened Common
  import opened Strings
  import opened Headers
  import opened Parser
  import opened Serializer
  import opened Transport
  import opened Demux

  /** A header entry that survives a trip through a header line: the key has no colon and no
      newline, the rendered value no newline. */
  predicate PlainEntry(e: Entry)
  {
    ':' !in e.0 && '\n' !in e.0 && '\n' !in Render(e.1)
  }

  predicate Transmittable(h: seq<Entry>)
  {
    forall e :: e in h ==> PlainEntry(e)
  }

  /** The wire text without the NUL that `as_string` puts last. */
  function Unterminated(w: string): string
  {
    if w == [] then [] else w[..|w| - 1]
  }

  function LineOf(e: Entry): string
  {
    e.0 + ":" + Render(e.1)
  }

  function LinesOf(h: seq<Entry>): (ls: seq<string>)
    ensures |ls| == |h|
  {
    if h == [] then [] else [LineOf(h[0])] + LinesOf(h[1..])
  }

  /** The header lines are the `key:value` texts joined by newlines, plus a last newline. */
  lemma {:induction false} HeaderLinesJoin(h: seq<Entry>)
    requires h != []
    ensures HeaderLines(h) == Join(LinesOf(h), '\n') + "\n"
  {
    var l := LineOf(h[0]);
    assert HeaderLines(h) == l + "\n" + HeaderLines(h[1..]);
    if |h| == 1 {
      assert HeaderLines(h[1..]) == "";
    } else {
      HeaderLinesJoin(h[1..]);
      var j := Join(LinesOf(h[1..]), '\n');
      assert LinesOf(h)[1..] == LinesOf(h[1..]);
      assert Join(LinesOf(h), '\n') == l + ['\n'] + j;
      assert l + "\n" + (j + "\n") == (l + ['\n'] + j) + "\n";
    }
  }

  /** Every line of a transmittable dictionary is non-empty (it holds a colon) and has no newline. */
  lemma LinesPlain(h: seq<Entry>)
    requires Transmittable(h)
    ensures forall i :: 0 <= i < |h| ==> LinesOf(h)[i] != "" && '\n' !in LinesOf(h)[i]
  {
    forall i | 0 <= i < |h| ensures LinesOf(h)[i] == LineOf(h[i]) {
      LinesOfAt(h, i);
    }
    forall i | 0 <= i < |h| ensures LinesOf(h)[i] != "" && '\n' !in LinesOf(h)[i] {
      assert h[i] in h;
      var k, r := h[i].0, Render(h[i].1);
      assert LineOf(h[i]) == k + ":" + r;
      assert (k + ":" + r)[|k|] == ':';
    }
  }

  lemma {:induction false} LinesOfAt(h: seq<Entry>, i: nat)
    requires i < |h|
    ensures LinesOf(h)[i] == LineOf(h[i])
  {
    if i > 0 {
      LinesOfAt(h[1..], i - 1);
    }
  }

  lemma {:induction false} JoinStartsWithFirst(ls: seq<string>, c: char)
    requires |ls| >= 1
    ensures |Join(ls, c)| >= |ls[0]| && Join(ls, c)[..|ls[0]|] == ls[0]
  {
  }

  /** Newline-free, non-empty lines joined by newlines, with a last newline, hold no blank line. */
  lemma {:induction false} NoBlankLine(ls: seq<string>)
    requires |ls| >= 1
    requires forall i :: 0 <= i < |ls| ==> ls[i] != "" && '\n' !in ls[i]
    ensures !HasPair(Join(ls, '\n') + "\n", '\n', '\n')
  {
    var l := ls[0];
    var s := Join(ls, '\n') + "\n";
    if |ls| == 1 {
      assert s == l + "\n";
      forall i | 0 <= i < |s| ensures !PairAt(s, i, '\n', '\n') {
        if i < |l| { assert s[i] == l[i]; }
      }
    } else {
      var rest := Join(ls[1..], '\n') + "\n";
      assert s == l + "\n" + rest;
      NoBlankLine(ls[1..]);
      JoinStartsWithFirst(ls[1..], '\n');
      assert ls[1..][0] == ls[1] && ls[1] != "" && ls[1][0] != '\n';
      assert rest[0] == ls[1][0];
      forall i | 0 <= i < |s| ensures !PairAt(s, i, '\n', '\n') {
        if i < |l| {
          assert s[i] == l[i];
        } else if i == |l| {
          assert s[i + 1] == rest[0];
        } else {
          assert !PairAt(rest, i - |l| - 1, '\n', '\n');
        }
      }
    }
  }

  /** `partition("\n\n")` cuts at the first blank line, which is right after `j` when `j`
      followed by a newline holds no blank line. */
  lemma PartitionAt(j: string, b: string)
    requires !HasPair(j + "\n", '\n', '\n')
    ensures Partition(j + "\n\n" + b) == (j, b)
  {
    var s := j + "\n\n" + b;
    assert PairAt(s, |j|, '\n', '\n');
    var r := Partition(s);
    if |r.0| < |j| {
      assert PairAt(j + "\n", |r.0|, '\n', '\n') by {
        assert s[|r.0|] == '\n' && s[|r.0| + 1] == '\n';
        assert (j + "\n")[|r.0|] == s[|r.0|] && (j + "\n")[|r.0| + 1] == s[|r.0| + 1];
      }
    }
    assert r.0 == s[..|j|] == j;
    assert r.1 == s[|j| + 2..] == b;
  }

  /** Reading back the lines of a transmittable dictionary, continuing a dictionary that shares
      no key with it, appends its entries with their values as text. */
  lemma {:induction false} HeadersFromLines(h: Headers, acc: Headers)
    requires Transmittable(h) && Keys(acc) !! Keys(h)
    ensures HeadersFrom(LinesOf(h), acc).Ok?
    ensures HeadersFrom(LinesOf(h), acc).value == acc + TextValues(h)
  {
    if h == [] {
      assert acc + TextValues(h) == acc;
    } else {
      var e := (h[0].0, Text(Render(h[0].1)));
      var acc' := Put(acc, e.0, e.1);
      FirstEntryAppended(h, acc, e.1);
      calc {
        HeadersFrom(LinesOf(h), acc);
        { HeadersFromFirst(h, acc); }
        HeadersFrom(LinesOf(h[1..]), acc');
        { TransmittableTail(h); HeadersFromLines(h[1..], acc'); }
        Ok(acc' + TextValues(h[1..]));
        { assert TextValues(h) == [e] + TextValues(h[1..]);
          Assoc(acc, [e], TextValues(h[1..])); }
        Ok(acc + TextValues(h));
      }
    }
  }

  /** Putting the first entry's key into a dictionary that shares no key with `h` appends it,
      and the result shares no key with the rest of `h`. */
  lemma FirstEntryAppended(h: Headers, acc: Headers, v: Value)
    requires h != [] && Keys(acc) !! Keys(h)
    ensures Put(acc, h[0].0, v) == acc + [(h[0].0, v)]
    ensures Keys(Put(acc, h[0].0, v)) !! Keys(h[1..])
  {
  }

  lemma TransmittableTail(h: Headers)
    requires h != [] && Transmittable(h)
    ensures Transmittable(h[1..])
  {
    forall x | x in h[1..] ensures PlainEntry(x) { assert x in h; }
  }

  lemma PutTransmittable(h: Headers, k: string, v: Value)
    requires Transmittable(h) && PlainEntry((k, v))
    ensures Transmittable(Put(h, k, v))
  {
  }

  lemma RemoveTransmittable(h: Headers, k: string)
    requires Transmittable(h)
    ensures Transmittable(Remove(h, k))
  {
  }

  lemma ClientEntryPlain(name: string)
    requires '\n' !in name
    ensures PlainEntry(("x-client", Text(name)))
  {
    assert "x-client" == ['x', '-', 'c', 'l', 'i', 'e', 'n', 't'];
  }

  lemma SizeEntryPlain(n: nat)
    ensures PlainEntry(("content-length", Number(n)))
  {
    assert "content-length" == ['c', 'o', 'n', 't', 'e', 'n', 't', '-', 'l', 'e', 'n', 'g', 't', 'h'];
    NatToStringPlain(n);
  }

  /** What `as_string` leaves in the dictionary is transmittable when the caller's was and the
      host name has no newline. */
  lemma SerializedTransmittable(command: Option<string>, h: Headers, body: Option<string>, name: string)
    requires '\n' !in name && Transmittable(h)
    requires Serialize(command, h, body, name).out.Ok?
    ensures Transmittable(Serialize(command, h, body, name).headers)
  {
    var x := ("x-client", Text(name));
    ClientEntryPlain(name);
    if "bytes_message" in Keys(h) {
      var stripped := Remove(h, "bytes_message");
      RemoveTransmittable(h, "bytes_message");
      var sized := Put(stripped, "content-length", Number(|body.value|));
      SizeEntryPlain(|body.value|);
      PutTransmittable(stripped, "content-length", Number(|body.value|));
      PutTransmittable(sized, x.0, x.1);
    } else {
      PutTransmittable(h, x.0, x.1);
    }
  }

  /** One step of `HeadersFromLines`: the first line splits back into its entry. */
  lemma HeadersFromFirst(h: Headers, acc: Headers)
    requires h != [] && PlainEntry(h[0])
    ensures HeadersFrom(LinesOf(h), acc)
            == HeadersFrom(LinesOf(h[1..]), Put(acc, h[0].0, Text(Render(h[0].1))))
  {
    var k, r := h[0].0, Render(h[0].1);
    assert k + ":" + r == k + [':'] + r;
    SplitOnceAfter(k, ':', r);
    assert LinesOf(h)[0] == k + ":" + r;
    assert LinesOf(h)[1..] == LinesOf(h[1..]);
  }

  /** The header block of a transmittable dictionary parses back to the dictionary, its
      values as text, in the same order. */
  lemma ParseHeaderBlock(h: Headers)
    requires h != [] && Transmittable(h)
    ensures var j := Join(LinesOf(h), '\n');
            j != "" && !HasPair(j + "\n", '\n', '\n') && ParseHeaders(j) == Ok(TextValues(h))
  {
    var ls := LinesOf(h);
    LinesPlain(h);
    SplitJoin(ls, '\n');
    NoBlankLine(ls);
    JoinStartsWithFirst(ls, '\n');
    HeadersFromLines(h, []);
    assert [] + TextValues(h) == TextValues(h);
  }

  /** The round trip on the text before the terminator: a command without a newline and a
      non-empty transmittable dictionary come back unchanged, the dictionary's values as text
      and `bytes_message` added when `content-length` is present; the body comes back whatever
      it holds. */
  lemma WireRoundTrip(command: Option<string>, h: Headers, body: Option<string>)
    requires '\n' !in Show(command)
    requires h != [] && Transmittable(h)
    ensures ParseText(Unterminated(Wire(command, h, body)))
            == Ok(FrameData(Show(command), MarkBinary(TextValues(h)), Show(body)))
  {
    var c, b := Show(command), Show(body);
    var j := Join(LinesOf(h), '\n');
    ParseHeaderBlock(h);
    WireText(command, h, body);
    CommandLine(c, j + "\n\n" + b);
    PartitionAt(j, b);
  }

  /** The wire text before its NUL: the command line, the header lines, a blank line, the body. */
  lemma WireText(command: Option<string>, h: Headers, body: Option<string>)
    requires h != []
    ensures Unterminated(Wire(command, h, body))
            == Show(command) + "\n" + (Join(LinesOf(h), '\n') + "\n\n" + Show(body))
  {
    var c, b := Show(command), Show(body);
    var j := Join(LinesOf(h), '\n');
    HeaderLinesJoin(h);
    var w := Wire(command, h, body);
    var t := c + "\n" + (j + "\n\n" + b);
    assert w == t + "\0" by {
      assert w == c + "\n" + (j + "\n") + "\n" + b + "\0";
    }
  }

  /** `as_string` followed by the parser: the frame comes back with `x-client` naming the host,
      with `bytes_message` restored and `content-length` equal to the body's length when
      `bytes_message` was set, and with every other header the caller gave as its text. */
  lemma AsStringRoundTrip(command: Option<string>, h: Headers, body: Option<string>, name: string)
    requires '\n' !in Show(command) && '\n' !in name && Transmittable(h)
    requires Serialize(command, h, body, name).out.Ok?
    ensures var s := Serialize(command, h, body, name);
            var f := ParseText(Unterminated(s.out.value));
            && f == Ok(FrameData(Show(command), MarkBinary(TextValues(s.headers)), Show(body)))
            && Lookup(f.value.headers, "x-client") == Some(Text(name))
            && ("bytes_message" in Keys(h) ==>
                  && Lookup(f.value.headers, "bytes_message") == Some(Flag(true))
                  && Lookup(f.value.headers, "content-length") == Some(Text(NatToString(|body.value|)))
                  && ParseNat(NatToString(|body.value|)) == Some(|body.value|))
            && (forall k :: k in Keys(h) && k != "bytes_message" && k != "content-length" && k != "x-client" ==>
                  Lookup(f.value.headers, k) == Some(Text(Render(Lookup(h, k).value))))
  {
    var s := Serialize(command, h, body, name);
    SerializedTransmittable(command, h, body, name);
    assert "x-client" in Keys(s.headers);
    WireRoundTrip(command, s.headers, body);
    ReadBackLookups(h, s.headers, body, name);
    if "bytes_message" in Keys(h) {
      ParseNatToString(|body.value|);
    }
  }

  /** What the parser's dictionary says about each key, given what `as_string` left in the
      frame's dictionary `sh` for the caller's dictionary `h`. */
  lemma ReadBackLookups(h: Headers, sh: Headers, body: Option<string>, name: string)
    requires Lookup(sh, "x-client") == Some(Text(name))
    requires "bytes_message" in Keys(h) ==>
               body.Some? && Lookup(sh, "content-length") == Some(Number(|body.value|))
    requires forall k :: k != "bytes_message" && k != "content-length" && k != "x-client" ==>
               Lookup(sh, k) == Lookup(h, k)
    ensures var m := MarkBinary(TextValues(sh));
            && Lookup(m, "x-client") == Some(Text(name))
            && ("bytes_message" in Keys(h) ==>
                  && Lookup(m, "bytes_message") == Some(Flag(true))
                  && Lookup(m, "content-length") == Some(Text(NatToString(|body.value|))))
            && (forall k :: k in Keys(h) && k != "bytes_message" && k != "content-length" && k != "x-client" ==>
                  Lookup(m, k) == Some(Text(Render(Lookup(h, k).value))))
  {
    var t := TextValues(sh);
    assert "x-client" in Keys(sh);
    TextValuesLookup(sh, "x-client");
    forall k | k in Keys(h) && k != "bytes_message" && k != "content-length" && k != "x-client"
      ensures Lookup(MarkBinary(t), k) == Some(Text(Render(Lookup(h, k).value)))
    {
      assert Lookup(sh, k) == Lookup(h, k);
      assert k in Keys(sh);
      TextValuesLookup(sh, k);
    }
    if "bytes_message" in Keys(h) {
      assert "content-length" in Keys(sh);
      TextValuesLookup(sh, "content-length");
    }
  }

  /** A frame `as_string` produced, sent with the newline the broker puts after the NUL, is read
      back by `parse_frame` as the same frame, and nothing after it is consumed. */
  lemma DeliveredFrame(command: Option<string>, h: Headers, body: Option<string>, more: seq<Event>)
    requires '\n' !in Show(command)
    requires h != [] && Transmittable(h)
    requires !HasTerminator(Unterminated(Wire(command, h, body)))
    ensures PullFrame(Events(Wire(command, h, body) + "\n") + more)
            == Pulled(Got(FrameData(Show(command), MarkBinary(TextValues(h)), Show(body))), more)
  {
    WireEnds(command, h, body);
    PullText(Unterminated(Wire(command, h, body)), more);
    WireRoundTrip(command, h, body);
  }

  /** The wire text is its text before the NUL, then the NUL; that text is never empty. */
  lemma WireEnds(command: Option<string>, h: Headers, body: Option<string>)
    ensures var w := Wire(command, h, body);
            w + "\n" == Unterminated(w) + "\0\n" && Unterminated(w) != ""
  {
    var w := Wire(command, h, body);
    var t := Unterminated(w);
    assert w == t + "\0" by {
      assert w[|w| - 1] == '\0';
    }
    Assoc(t, "\0", "\n");
    assert t != "" by {
      assert t == Show(command) + "\n" + (HeaderLines(h) + "\n" + Show(body));
    }
  }
}
