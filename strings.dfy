/** The Python string operations the frame engine relies on, on `seq<char>`. */
module Strings {
  import opened Common

  /** Index of the first `c` in `s`, or `|s|` when `c` does not occur. */
  function IndexOf(s: string, c: char): (i: nat)
    ensures i <= |s|
    ensures i < |s| ==> s[i] == c
    ensures forall j :: 0 <= j < i ==> s[j] != c
  {
    if s == [] then 0
    else if s[0] == c then 0
    else 1 + IndexOf(s[1..], c)
  }

  lemma IndexOfAfter(a: string, c: char, b: string)
    requires c !in a
    ensures IndexOf(a + [c] + b, c) == |a|
  {
    var s := a + [c] + b;
    assert s[|a|] == c;
  }

  /** `"<c>".join(ls)`. */
  function Join(ls: seq<string>, c: char): string
  {
    if |ls| == 0 then ""
    else if |ls| == 1 then ls[0]
    else ls[0] + [c] + Join(ls[1..], c)
  }

  /** `s.split(c)`: the pieces of `s` between the occurrences of `c`; always at least one. */
  function SplitAll(s: string, c: char): (r: seq<string>)
    ensures |r| >= 1
    ensures forall i :: 0 <= i < |r| ==> c !in r[i]
    ensures Join(r, c) == s
    decreases |s|
  {
    var i := IndexOf(s, c);
    if i == |s| then [s]
    else
      var rest := SplitAll(s[i + 1..], c);
      assert s == s[..i] + [c] + s[i + 1..];
      [s[..i]] + rest
  }

  /** Splitting undoes joining: a list of `c`-free pieces is recovered from its join. */
  lemma {:induction false} SplitJoin(ls: seq<string>, c: char)
    requires |ls| >= 1
    requires forall i :: 0 <= i < |ls| ==> c !in ls[i]
    ensures SplitAll(Join(ls, c), c) == ls
  {
    if |ls| > 1 {
      var tail := Join(ls[1..], c);
      var s := ls[0] + [c] + tail;
      IndexOfAfter(ls[0], c, tail);
      assert s[..|ls[0]|] == ls[0];
      assert s[|ls[0]| + 1..] == tail;
      SplitJoin(ls[1..], c);
    }
  }

  /** `s.split(c, 1)` when it has two parts: the text before the first `c` and the text after it. */
  function SplitOnce(s: string, c: char): (r: Option<(string, string)>)
    ensures r.None? <==> c !in s
    ensures r.Some? ==> s == r.value.0 + [c] + r.value.1 && c !in r.value.0
  {
    var i := IndexOf(s, c);
    if i == |s| then None
    else
      assert s == s[..i] + [c] + s[i + 1..];
      Some((s[..i], s[i + 1..]))
  }

  lemma SplitOnceAfter(a: string, c: char, b: string)
    requires c !in a
    ensures SplitOnce(a + [c] + b, c) == Some((a, b))
  {
    var s := a + [c] + b;
    IndexOfAfter(a, c, b);
    assert s[..|a|] == a;
    assert s[|a| + 1..] == b;
  }

  /** `s[i]`, `s[i+1]` are `a`, `b`. */
  predicate PairAt(s: string, i: int, a: char, b: char)
  {
    0 <= i && i + 1 < |s| && s[i] == a && s[i + 1] == b
  }

  /** The two-character string `[a, b]` occurs somewhere in `s`. */
  predicate HasPair(s: string, a: char, b: char)
  {
    exists i :: 0 <= i < |s| && PairAt(s, i, a, b)
  }

  /** Index of the first occurrence of `[a, b]` in `s`, or `|s|` when there is none. */
  function FindPair(s: string, a: char, b: char): (i: nat)
    ensures i <= |s|
    ensures i < |s| ==> PairAt(s, i, a, b)
    ensures forall j :: 0 <= j < i ==> !PairAt(s, j, a, b)
  {
    if |s| < 2 then |s|
    else if s[0] == a && s[1] == b then 0
    else
      var k := FindPair(s[1..], a, b);
      assert forall j :: 1 <= j < 1 + k ==> (PairAt(s, j, a, b) <==> PairAt(s[1..], j - 1, a, b));
      1 + k
  }

  /** `s.partition("\n\n")` without its middle part: the text before the first blank line and
      the text after it, or all of `s` and the empty string when `s` holds no `"\n\n"`. */
  function Partition(s: string): (r: (string, string))
    ensures HasPair(s, '\n', '\n') ==> s == r.0 + "\n\n" + r.1 && !HasPair(r.0 + "\n", '\n', '\n')
    ensures !HasPair(s, '\n', '\n') ==> r == (s, "")
  {
    var i := FindPair(s, '\n', '\n');
    if i == |s| then (s, "")
    else
      var head := s[..i];
      assert s == head + "\n\n" + s[i + 2..];
      assert forall j :: PairAt(head + "\n", j, '\n', '\n') ==> PairAt(s, j, '\n', '\n');
      (head, s[i + 2..])
  }

  /** `s[i:]` with Python's clamping: empty when `i` is past the end. */
  function Drop(s: string, i: nat): (r: string)
    ensures i <= |s| ==> s == s[..i] + r
    ensures i >= |s| ==> r == ""
  {
    if i <= |s| then s[i..] else ""
  }

  predicate IsDigit(c: char)
  {
    '0' <= c <= '9'
  }

  function DigitChar(d: nat): (c: char)
    requires d < 10
    ensures IsDigit(c)
  {
    "0123456789"[d]
  }

  function DigitValue(c: char): (d: nat)
    requires IsDigit(c)
    ensures d < 10 && DigitChar(d) == c
  {
    (c as int - '0' as int) as nat
  }

  /** `str(n)` for a non-negative integer: its decimal digits, most significant first. */
  function NatToString(n: nat): (s: string)
    ensures |s| >= 1
    ensures forall i :: 0 <= i < |s| ==> IsDigit(s[i])
    decreases n
  {
    if n < 10 then [DigitChar(n)] else NatToString(n / 10) + [DigitChar(n % 10)]
  }

  /** The integer a decimal numeral denotes, or `None` for an empty string or a non-digit. */
  function ParseNat(s: string): Option<nat>
    decreases |s|
  {
    if s == [] || !IsDigit(s[|s| - 1]) then None
    else if |s| == 1 then Some(DigitValue(s[0]))
    else match ParseNat(s[..|s| - 1])
      case None => None
      case Some(m) => Some(10 * m + DigitValue(s[|s| - 1]))
  }

  /** Reading a rendered integer back gives the integer. */
  lemma {:induction false} ParseNatToString(n: nat)
    ensures ParseNat(NatToString(n)) == Some(n)
    decreases n
  {
    var s := NatToString(n);
    if n >= 10 {
      var p := NatToString(n / 10);
      assert s == p + [DigitChar(n % 10)];
      assert s[..|s| - 1] == p;
      DigitRoundTrip(n % 10);
      ParseNatToString(n / 10);
    } else {
      DigitRoundTrip(n);
    }
  }

  lemma DigitRoundTrip(d: nat)
    requires d < 10
    ensures DigitValue(DigitChar(d)) == d
  {
    assert "0123456789"[d] as int == '0' as int + d;
  }

  /** A rendered integer holds no letter other than a digit; in particular no newline or colon. */
  lemma NatToStringPlain(n: nat)
    ensures '\n' !in NatToString(n) && ':' !in NatToString(n) && '-' !in NatToString(n)
  {
    var s := NatToString(n);
    assert forall i :: 0 <= i < |s| ==> IsDigit(s[i]);
  }
}
