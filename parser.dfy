/** The text part of `Frame.parse_frame`, with `parse_command` and `parse_headers`. */
module Parser {
  import opened Common
  import opened Strings
  import opened Headers

  /** A frame read from the broker: what `parse_frame` passes to `build_frame`. */
  datatype FrameData = FrameData(command: string, headers: Headers, body: string)

  /** `parse_command`: `s.split('\n', 1)[0]`, the text before the first newline. */
  function ParseCommand(s: string): (c: string)
    ensures c <= s && '\n' !in c
    ensures |c| < |s| ==> s[|c|] == '\n'
  {
    s[..IndexOf(s, '\n')]
  }

  /** What is left of a frame's text once its command and the newline after it are cut off
      (`line[len(command)+1:]`). */
  function AfterCommand(s: string): (r: string)
    ensures '\n' in s ==> s == ParseCommand(s) + "\n" + r
    ensures '\n' !in s ==> r == ""
  {
    Drop(s, |ParseCommand(s)| + 1)
  }

  /** `dict(line.split(":", 1) for line in lines)`, continuing the dictionary `acc`. */
  function HeadersFrom(lines: seq<string>, acc: Headers): Result<Headers>
  {
    if lines == [] then Ok(acc)
    else match SplitOnce(lines[0], ':')
      case None => Err(MalformedHeaderLine(lines[0]))
      case Some((k, v)) => HeadersFrom(lines[1..], Put(acc, k, Text(v)))
  }

  /** `parse_headers`: one entry per line, split at the line's first colon. */
  function ParseHeaders(hs: string): Result<Headers>
  {
    HeadersFrom(SplitAll(hs, '\n'), [])
  }

  /** A header block carrying `content-length` gets the marker `bytes_message = True`. */
  function MarkBinary(h: Headers): (r: Headers)
    ensures "content-length" in Keys(h) ==> Lookup(r, "bytes_message") == Some(Flag(true))
    ensures "content-length" !in Keys(h) ==> r == h
    ensures forall k :: k != "bytes_message" ==> Lookup(r, k) == Lookup(h, k)
  {
    if "content-length" in Keys(h) then Put(h, "bytes_message", Flag(true)) else h
  }

  /** `parse_frame` once the reader has produced the non-empty text `line`. */
  function ParseText(line: string): Result<FrameData>
  {
    var command := ParseCommand(line);
    var rest := AfterCommand(line);
    var (hs, body) := Partition(rest);
    if hs == "" then Err(UnknownBrokerResponse("Received: (" + rest + ")"))
    else match ParseHeaders(hs)
      case Err(e) => Err(e)
      case Ok(h) => Ok(FrameData(command, MarkBinary(h), body))
  }

  /** The only `UnknownBrokerResponseError` is an empty header part, and its message quotes
      the text after the command line, not the whole frame. */
  lemma UnknownResponseExactly(line: string)
    ensures ParseText(line).Err? && ParseText(line).error.UnknownBrokerResponse?
            <==> Partition(AfterCommand(line)).0 == ""
    ensures ParseText(line).Err? && ParseText(line).error.UnknownBrokerResponse? ==>
              ParseText(line).error.message == "Received: (" + AfterCommand(line) + ")"
  {
    var (hs, _) := Partition(AfterCommand(line));
    if hs != "" {
      HeadersFromErrors(SplitAll(hs, '\n'), []);
    }
  }

  /** `dict(...)` fails exactly on a line without a colon, and reports the first such line. */
  lemma {:induction false} HeadersFromErrors(lines: seq<string>, acc: Headers)
    ensures HeadersFrom(lines, acc).Err? <==> exists i :: 0 <= i < |lines| && ':' !in lines[i]
    ensures HeadersFrom(lines, acc).Err? ==>
              exists i :: 0 <= i < |lines| && ':' !in lines[i] &&
                HeadersFrom(lines, acc).error == MalformedHeaderLine(lines[i]) &&
                forall j :: 0 <= j < i ==> ':' in lines[j]
  {
    if lines != [] {
      match SplitOnce(lines[0], ':')
      case None =>
      case Some((k, v)) =>
        HeadersFromErrors(lines[1..], Put(acc, k, Text(v)));
        if HeadersFrom(lines, acc).Err? {
          var i :| 0 <= i < |lines[1..]| && ':' !in lines[1..][i] &&
                   HeadersFrom(lines[1..], Put(acc, k, Text(v))).error == MalformedHeaderLine(lines[1..][i]) &&
                   forall j :: 0 <= j < i ==> ':' in lines[1..][j];
          assert forall j :: 0 <= j < i + 1 ==> ':' in lines[j] by {
            forall j | 0 <= j < i + 1 ensures ':' in lines[j] {
              if j > 0 { assert lines[j] == lines[1..][j - 1]; }
            }
          }
        }
        assert (exists i :: 0 <= i < |lines| && ':' !in lines[i]) <==>
               (exists i :: 0 <= i < |lines[1..]| && ':' !in lines[1..][i]) by {
          if exists i :: 0 <= i < |lines| && ':' !in lines[i] {
            var i :| 0 <= i < |lines| && ':' !in lines[i];
            assert i > 0 && lines[1..][i - 1] == lines[i];
          }
        }
    }
  }

  /** A later line for a key already seen overwrites its value, and keeps its place. */
  lemma {:induction false} HeadersFromLaterWins(lines: seq<string>, acc: Headers, k: string, v: string)
    requires ':' !in k
    requires HeadersFrom(lines, acc).Ok?
    ensures HeadersFrom(lines + [k + ":" + v], acc) == Ok(Put(HeadersFrom(lines, acc).value, k, Text(v)))
  {
    var line := k + ":" + v;
    SplitOnceAfter(k, ':', v);
    assert line == k + [':'] + v;
    if lines == [] {
      assert [line][1..] == [];
      assert HeadersFrom([line], acc) == HeadersFrom([], Put(acc, k, Text(v)));
    } else {
      var all := lines + [line];
      assert all[0] == lines[0];
      assert all[1..] == lines[1..] + [line];
      var p := SplitOnce(lines[0], ':');
      assert p.Some?;
      var acc' := Put(acc, p.value.0, Text(p.value.1));
      assert HeadersFrom(lines, acc) == HeadersFrom(lines[1..], acc');
      assert HeadersFrom(all, acc) == HeadersFrom(all[1..], acc');
      HeadersFromLaterWins(lines[1..], acc', k, v);
    }
  }

  /** `parse_headers` of a block followed by one more line `k:v` maps `k` to `v`, whatever
      the block said about `k` before. */
  lemma LaterDuplicateWins(hs: string, k: string, v: string)
    requires ':' !in k && '\n' !in k && '\n' !in v
    requires ParseHeaders(hs).Ok?
    ensures ParseHeaders(hs + "\n" + (k + ":" + v)) == Ok(Put(ParseHeaders(hs).value, k, Text(v)))
    ensures Lookup(ParseHeaders(hs + "\n" + (k + ":" + v)).value, k) == Some(Text(v))
  {
    var lines := SplitAll(hs, '\n');
    var line := k + ":" + v;
    assert '\n' !in line;
    var all := lines + [line];
    assert forall i :: 0 <= i < |all| ==> '\n' !in all[i];
    JoinAppend(lines, line, '\n');
    assert Join(all, '\n') == hs + "\n" + line;
    SplitJoin(all, '\n');
    HeadersFromLaterWins(lines, [], k, v);
  }

  lemma {:induction false} JoinAppend(ls: seq<string>, x: string, c: char)
    requires |ls| >= 1
    ensures Join(ls + [x], c) == Join(ls, c) + [c] + x
  {
    if |ls| > 1 {
      assert (ls + [x])[1..] == ls[1..] + [x];
      JoinAppend(ls[1..], x, c);
    }
  }

  /** Two header lines with different keys parse to two entries, in the order of the lines. */
  lemma TwoHeaderLines(k1: string, v1: string, k2: string, v2: string)
    requires ':' !in k1 && ':' !in k2 && k1 != k2
    requires '\n' !in k1 && '\n' !in v1 && '\n' !in k2 && '\n' !in v2
    ensures ParseHeaders((k1 + ":" + v1) + "\n" + (k2 + ":" + v2)) == Ok([(k1, Text(v1)), (k2, Text(v2))])
  {
    var l1 := k1 + ":" + v1;
    var l2 := k2 + ":" + v2;
    TwoLines(l1, l2);
    HeaderLineStep(k1, v1, [l2], []);
    HeaderLineStep(k2, v2, [], [(k1, Text(v1))]);
    TwoEntries(k1, v1, k2, v2);
  }

  lemma TwoLines(l1: string, l2: string)
    requires '\n' !in l1 && '\n' !in l2
    ensures SplitAll(l1 + "\n" + l2, '\n') == [l1] + [l2] && [l2] == [l2] + []
  {
    assert l1 + "\n" + l2 == Join([l1, l2], '\n');
    SplitJoin([l1, l2], '\n');
  }

  lemma FirstEntry(k: string, v: string)
    ensures Put([], k, Text(v)) == [(k, Text(v))]
  {
  }

  lemma TwoEntries(k1: string, v1: string, k2: string, v2: string)
    requires k1 != k2
    ensures Put([], k1, Text(v1)) == [(k1, Text(v1))]
    ensures Put([(k1, Text(v1))], k2, Text(v2)) == [(k1, Text(v1)), (k2, Text(v2))]
  {
    assert k2 !in Keys([(k1, Text(v1))]);
  }

  /** The example of `parse_headers`'s own comment: `george:constanza`, newline,
      `elaine:benes` gives two entries in that order. */
  lemma ParseHeadersExample()
    ensures ParseHeaders(("george" + ":" + "constanza") + "\n" + ("elaine" + ":" + "benes"))
            == Ok([("george", Text("constanza")), ("elaine", Text("benes"))])
  {
    assert ':' !in "george" && ':' !in "elaine" && "elaine" != "george";
    assert '\n' !in "george" && '\n' !in "constanza" && '\n' !in "elaine" && '\n' !in "benes";
    TwoHeaderLines("george", "constanza", "elaine", "benes");
  }

  /** A first line `k:v`, `k` without a colon, adds the entry `k = v` to the dictionary. */
  lemma HeaderLineStep(k: string, v: string, rest: seq<string>, acc: Headers)
    requires ':' !in k
    ensures HeadersFrom([k + ":" + v] + rest, acc) == HeadersFrom(rest, Put(acc, k, Text(v)))
  {
    SplitOnceAfter(k, ':', v);
    assert k + ":" + v == k + [':'] + v;
    var ls := [k + ":" + v] + rest;
    assert ls[0] == k + ":" + v && ls[1..] == rest;
  }

  /** Text after the command line with no blank line in it is not an error: all of it is the
      header block and the body is empty. */
  lemma NoBlankLineMeansNoBody(line: string)
    requires !HasPair(AfterCommand(line), '\n', '\n') && AfterCommand(line) != ""
    ensures ParseText(line).Ok? ==> ParseText(line).value.body == ""
    ensures ParseText(line) == match ParseHeaders(AfterCommand(line))
      case Err(e) => Err(e)
      case Ok(h) => Ok(FrameData(ParseCommand(line), MarkBinary(h), ""))
  {
  }

  /** A command line followed by a single header line `k:v` and no blank line parses to a
      frame with that one header and an empty body. */
  lemma OneHeaderLineNoBody(command: string, k: string, v: string)
    requires '\n' !in command && '\n' !in k && '\n' !in v
    requires ':' !in k && k != "content-length"
    ensures ParseText(command + "\n" + (k + ":" + v)) == Ok(FrameData(command, Put([], k, Text(v)), ""))
  {
    var hl := k + ":" + v;
    CommandLine(command, hl);
    WholeHeaderPart(hl);
    OneHeaderBlock(k, v);
  }

  /** A header part made of one line `k:v` parses to the single entry `k = v`; the marker is
      not added unless `k` is `content-length`. */
  lemma OneHeaderBlock(k: string, v: string)
    requires '\n' !in k && '\n' !in v && ':' !in k
    ensures ParseHeaders(k + ":" + v) == Ok(Put([], k, Text(v)))
    ensures k != "content-length" ==> MarkBinary(Put([], k, Text(v))) == Put([], k, Text(v))
  {
    OneLine(k + ":" + v);
    HeaderLineStep(k, v, [], []);
    assert Keys(Put([], k, Text(v))) == {k};
  }

  /** The command line is cut off at the first newline. */
  lemma CommandLine(command: string, rest: string)
    requires '\n' !in command
    ensures ParseCommand(command + "\n" + rest) == command
    ensures AfterCommand(command + "\n" + rest) == rest
  {
    IndexOfAfter(command, '\n', rest);
    assert command + "\n" + rest == command + ['\n'] + rest;
  }

  lemma WholeHeaderPart(s: string)
    requires '\n' !in s
    ensures Partition(s) == (s, "")
  {
    assert !HasPair(s, '\n', '\n');
  }

  lemma OneLine(s: string)
    requires '\n' !in s
    ensures SplitAll(s, '\n') == [s] + []
  {
    assert Join([s], '\n') == s;
    SplitJoin([s], '\n');
  }

  /** `MESSAGE`, newline, `foo:bar`, which has no blank line, parses to a frame with one
      header and an empty body. */
  lemma NoSeparatorExample()
    ensures ParseText("MESSAGE" + "\n" + ("foo" + ":" + "bar"))
            == Ok(FrameData("MESSAGE", [("foo", Text("bar"))], ""))
  {
    assert ':' !in "foo" && "content-length" != "foo";
    assert '\n' !in "MESSAGE" && '\n' !in "foo" && '\n' !in "bar";
    OneHeaderLineNoBody("MESSAGE", "foo", "bar");
    FirstEntry("foo", "bar");
  }

  /** A frame that is only a command line has an empty header part and is refused. */
  lemma CommandOnlyIsUnknown(line: string)
    requires line != "" && '\n' !in line
    ensures ParseText(line) == Err(UnknownBrokerResponse("Received: ()"))
  {
    assert AfterCommand(line) == "";
    assert !HasPair("", '\n', '\n');
    assert "Received: (" + "" + ")" == "Received: ()";
  }
}
