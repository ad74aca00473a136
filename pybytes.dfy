/** Python `bytes` values and `b''.join`, which `generate_audio` uses twice:
    to gather one streamed audio answer and to combine all of them. */
module PyBytes {

  newtype byte = x: int | 0 <= x < 256

  type Bytes = seq<byte>

  /** The sum of the lengths of `parts`. */
  function TotalLength(parts: seq<Bytes>): nat {
    if parts == [] then 0 else TotalLength(parts[..|parts| - 1]) + |parts[|parts| - 1]|
  }

  /** `b''.join(parts)`: the parts one after another, nothing between them. */
  function Join(parts: seq<Bytes>): (r: Bytes)
    ensures |r| == TotalLength(parts)
  {
    if parts == [] then [] else Join(parts[..|parts| - 1]) + parts[|parts| - 1]
  }

  /** Joining two lists of parts one after the other is joining each and
      concatenating the results. */
  lemma {:induction false} JoinConcat(a: seq<Bytes>, b: seq<Bytes>)
    ensures Join(a + b) == Join(a) + Join(b)
    decreases |b|
  {
    if b == [] {
      assert a + b == a;
    } else {
      var n := |b| - 1;
      var ab := a + b;
      assert ab[..|ab| - 1] == a + b[..n];
      assert ab[|ab| - 1] == b[n];
      assert Join(ab) == Join(a + b[..n]) + b[n];
      JoinConcat(a, b[..n]);
      assert Join(b) == Join(b[..n]) + b[n];
    }
  }

  /** Every part lies in the joined value, in order: part `i` starts right
      after the total length of the parts before it. */
  lemma JoinSplitsAt(parts: seq<Bytes>, i: nat)
    requires i < |parts|
    ensures Join(parts) == Join(parts[..i]) + parts[i] + Join(parts[i + 1..])
    ensures |Join(parts[..i])| == TotalLength(parts[..i])
  {
    var before := parts[..i + 1];
    assert parts == before + parts[i + 1..];
    JoinConcat(before, parts[i + 1..]);
    assert before[..|before| - 1] == parts[..i];
    assert Join(before) == Join(parts[..i]) + parts[i];
  }

  /** Joining parts that are all empty gives empty bytes. */
  lemma {:induction false} JoinAllEmpty(parts: seq<Bytes>)
    requires forall i :: 0 <= i < |parts| ==> parts[i] == []
    ensures Join(parts) == []
  {
    if parts != [] {
      JoinAllEmpty(parts[..|parts| - 1]);
    }
  }
}
