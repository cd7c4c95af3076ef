/** What `OutgoingMessage` hands to a socket or keeps in `outputData`. */
module HttpQueue {
  import opened ChunkedBody

  // One write: the octets it stands for, the `length` property of its value,
  // whether it is a string the header can be prepended to, and whether its
  // callback is the one that emits 'finish'.
  datatype Datum = Datum(octets: string, length: nat, inline: bool, finish: bool)

  // A chunk given to `write` or `end`. Its octets are empty exactly if it is.
  datatype Chunk = Chunk(octets: string, length: nat, inline: bool)

  predicate ValidChunk(c: Chunk) { c.length == 0 <==> c.octets == "" }

  // What `writeHead` decides: the header text, how the body is sent, and whether
  // the connection ends after this response, which is decided afresh when the program
  // removed the connection header and else only ever added.
  datatype Header = Header(text: string, chunked: bool, hasBody: bool, last: bool, afresh: bool)

  function Octets(ds: seq<Datum>): string
  {
    if ds == [] then "" else Octets(ds[..|ds| - 1]) + ds[|ds| - 1].octets
  }

  function Lengths(ds: seq<Datum>): nat
  {
    if ds == [] then 0 else Lengths(ds[..|ds| - 1]) + ds[|ds| - 1].length
  }

  predicate HasFinish(ds: seq<Datum>) { exists i :: 0 <= i < |ds| && ds[i].finish }

  lemma Push(ds: seq<Datum>, d: Datum)
    ensures Octets(ds + [d]) == Octets(ds) + d.octets
    ensures Lengths(ds + [d]) == Lengths(ds) + d.length
  {
    assert (ds + [d])[..|ds|] == ds;
  }

  lemma PushFinish(ds: seq<Datum>, d: Datum)
    ensures HasFinish(ds + [d]) <==> HasFinish(ds) || d.finish
    ensures !HasFinish([])
  {
    var all := ds + [d];
    assert all[|ds|] == d;
    assert forall i :: 0 <= i < |ds| ==> all[i] == ds[i];
  }

  lemma {:induction false} Unshift(d: Datum, ds: seq<Datum>)
    ensures Octets([d] + ds) == d.octets + Octets(ds)
    ensures Lengths([d] + ds) == d.length + Lengths(ds)
    decreases |ds|
  {
    var all := [d] + ds;
    if ds == [] {
      assert all[..0] == [];
    } else {
      var front, last := ds[..|ds| - 1], ds[|ds| - 1];
      Unshift(d, front);
      assert all[..|all| - 1] == [d] + front && all[|all| - 1] == last;
      assert d.octets + (Octets(front) + last.octets) == d.octets + Octets(front) + last.octets;
    }
  }

  function Payload(cs: seq<Chunk>): string
  {
    if cs == [] then "" else Payload(cs[..|cs| - 1]) + cs[|cs| - 1].octets
  }

  lemma PushChunk(cs: seq<Chunk>, c: Chunk)
    ensures Payload(cs + [c]) == Payload(cs) + c.octets
  {
    assert (cs + [c])[..|cs|] == cs;
  }

  lemma PushFrame(chunks: seq<string>, c: string)
    ensures Frames(chunks + [c]) == Frames(chunks) + Frame(c)
    ensures Concat(chunks + [c]) == Concat(chunks) + c
  {
    assert (chunks + [c])[..|chunks|] == chunks;
  }

  // ---------------------------------------------------------------- sums over responses

  function Sum(xs: seq<int>): int
  {
    if xs == [] then 0 else Sum(xs[..|xs| - 1]) + xs[|xs| - 1]
  }

  lemma {:induction false} SumUpdate(xs: seq<int>, k: nat, v: int)
    requires k < |xs|
    ensures Sum(xs[k := v]) == Sum(xs) - xs[k] + v
  {
    var n := |xs| - 1;
    if k == n {
      assert xs[k := v][..n] == xs[..n];
    } else {
      SumUpdate(xs[..n], k, v);
      assert xs[k := v][..n] == xs[..n][k := v];
    }
  }

  // Nothing follows the last piece that is not empty.
  lemma {:induction false} ConcatEnd(xs: seq<string>, k: nat)
    requires k < |xs|
    requires forall j :: k < j < |xs| ==> xs[j] == ""
    ensures Concat(xs) == Concat(xs[..k]) + xs[k]
    decreases |xs|
  {
    var n := |xs| - 1;
    if k < n {
      ConcatEnd(xs[..n], k);
      assert xs[..n][..k] == xs[..k];
      assert Concat(xs) == Concat(xs[..n]) + "";
    }
  }
}
