/** A frame's header dictionary: keys are unique and keep their insertion order. */
module Headers {
  import opened Common
  import opened Strings

  /** What the engine stores as a header value: a string, the integer `len(body)`, or `True`. */
  datatype Value = Text(s: string) | Number(n: nat) | Flag(b: bool)

  /** `"%s" % value`. */
  function Render(v: Value): string
  {
    match v
    case Text(s) => s
    case Number(n) => NatToString(n)
    case Flag(b) => if b then "True" else "False"
  }

  type Entry = (string, Value)

  function Keys(h: seq<Entry>): set<string>
  {
    if h == [] then {} else {h[0].0} + Keys(h[1..])
  }

  predicate Distinct(h: seq<Entry>)
  {
    h == [] || (h[0].0 !in Keys(h[1..]) && Distinct(h[1..]))
  }

  /** A dictionary: a sequence of entries no two of which share a key. */
  type Headers = h: seq<Entry> | Distinct(h) witness []

  /** `h.get(k)`. */
  function Lookup(h: seq<Entry>, k: string): (r: Option<Value>)
    ensures r.Some? <==> k in Keys(h)
  {
    if h == [] then None
    else if h[0].0 == k then Some(h[0].1)
    else Lookup(h[1..], k)
  }

  /** `h[k] = v`: replaces the value of an existing key where it stands, else appends. */
  function Put(h: Headers, k: string, v: Value): (r: Headers)
    ensures Keys(r) == Keys(h) + {k}
    ensures Lookup(r, k) == Some(v)
    ensures forall k' :: k' != k ==> Lookup(r, k') == Lookup(h, k')
    ensures k !in Keys(h) ==> r == h + [(k, v)]
    ensures |r| == if k in Keys(h) then |h| else |h| + 1
    ensures forall e :: e in r ==> e in h || e == (k, v)
    ensures k in Keys(h) ==> forall i :: 0 <= i < |h| ==> r[i] == (if h[i].0 == k then (k, v) else h[i])
  {
    if h == [] then
      SingleDistinct((k, v));
      [(k, v)]
    else if h[0].0 == k then
      KeysOfEntries(h[1..]);
      [(k, v)] + h[1..]
    else
      var rest := Put(h[1..], k, v);
      assert (h + [(k, v)])[1..] == h[1..] + [(k, v)];
      [h[0]] + rest
  }

  /** Every entry's key is among the keys. */
  lemma {:induction false} KeysOfEntries(h: seq<Entry>)
    ensures forall i :: 0 <= i < |h| ==> h[i].0 in Keys(h)
  {
    if h != [] {
      KeysOfEntries(h[1..]);
      assert forall i :: 1 <= i < |h| ==> h[i] == h[1..][i - 1];
    }
  }

  lemma SingleDistinct(e: Entry)
    ensures Distinct([e]) && Keys([e]) == {e.0}
  {
    assert [e][1..] == [];
  }

  /** `del h[k]` (a no-op in the model when `k` is absent; the engine only deletes present keys). */
  function Remove(h: Headers, k: string): (r: Headers)
    ensures Keys(r) == Keys(h) - {k}
    ensures Lookup(r, k) == None
    ensures forall k' :: k' != k ==> Lookup(r, k') == Lookup(h, k')
    ensures forall e :: e in r ==> e in h
  {
    if h == [] then []
    else if h[0].0 == k then h[1..]
    else
      var rest := Remove(h[1..], k);
      [h[0]] + rest
  }

  /** Assigning a key the value it already has changes nothing, not even the order. */
  lemma {:induction false} PutSame(h: Headers, k: string, v: Value)
    requires Lookup(h, k) == Some(v)
    ensures Put(h, k, v) == h
  {
    if h[0].0 != k {
      PutSame(h[1..], k, v);
    }
  }

  /** Every value replaced by its `%s` rendering, as the wire carries it. */
  function TextValues(h: Headers): (r: Headers)
    ensures |r| == |h| && Keys(r) == Keys(h)
  {
    if h == [] then []
    else [(h[0].0, Text(Render(h[0].1)))] + TextValues(h[1..])
  }

  /** Each key keeps its place's value, rendered. */
  lemma {:induction false} TextValuesLookup(h: Headers, k: string)
    requires k in Keys(h)
    ensures Lookup(TextValues(h), k) == Some(Text(Render(Lookup(h, k).value)))
  {
    if h[0].0 != k {
      TextValuesLookup(h[1..], k);
    }
  }
}
