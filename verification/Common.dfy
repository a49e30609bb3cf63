/** What every part uses. */
module Common {
  datatype Option<T> = None | Some(value: T)

  function Concat<T>(parts: seq<seq<T>>): seq<T>
  {
    if parts == [] then [] else parts[0] + Concat(parts[1..])
  }

  lemma Assoc<T>(a: seq<T>, b: seq<T>, c: seq<T>)
    ensures (a + b) + c == a + (b + c)
  {
  }

  /** Two ways to cut the same sequence. */
  lemma PrefixOf<T>(b: seq<T>, y: seq<T>, a: seq<T>, tail: seq<T>)
    requires b + y == a + tail && |b| >= |a|
    ensures b == a + b[|a|..] && b[|a|..] + y == tail
  {
    assert (b + y)[..|a|] == b[..|a|] && (a + tail)[..|a|] == a;
    assert (b + y)[|a|..] == b[|a|..] + y && (a + tail)[|a|..] == tail;
  }
}
