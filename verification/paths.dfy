/** The vertex list of web/Path.js. The object's mutable array is a value
    here: each mutating method returns the updated path. */
module Paths {
  import opened Results

  datatype Path<V> = Path(vertices: seq<V>)

  function NewPath<V>(): (p: Path<V>)
    ensures GetLength(p) == 0
  {
    Path([])
  }

  /** `addVertex` appends: one more vertex, the new one last, the old ones
      untouched. */
  function AddVertex<V>(p: Path<V>, v: V): (r: Path<V>)
    ensures GetLength(r) == GetLength(p) + 1
    ensures GetLastVertex(r) == Some(v)
    ensures r.vertices[..GetLength(p)] == p.vertices
  {
    Path(p.vertices + [v])
  }

  /** `getLastVertex`: null (None) on an empty path, else the final vertex. */
  function GetLastVertex<V>(p: Path<V>): (r: Option<V>)
    ensures r.None? <==> |p.vertices| == 0
    ensures r.Some? ==> r.value == p.vertices[|p.vertices| - 1]
  {
    if |p.vertices| == 0 then None else Some(p.vertices[|p.vertices| - 1])
  }

  function GetLength<V>(p: Path<V>): nat {
    |p.vertices|
  }

  /** Reference definition of reversal, by recursion on the sequence. */
  function Reversed<T>(s: seq<T>): (r: seq<T>)
    ensures |r| == |s|
    ensures forall i :: 0 <= i < |s| ==> r[i] == s[|s| - 1 - i]
  {
    if |s| == 0 then [] else Reversed(s[1..]) + [s[0]]
  }

  /** `reverse`: the in-place swap loop of the source, which runs while
      `i < len/2` (a real comparison), so the middle element of an odd-length
      path is swapped with itself. */
  method Reverse<V>(p: Path<V>) returns (r: Path<V>)
    ensures r.vertices == Reversed(p.vertices)
  {
    var vs := p.vertices;
    var len := |vs|;
    var i := 0;
    while 2 * i < len
      invariant 0 <= i && 2 * i <= len + 1
      invariant |vs| == len
      invariant forall k :: 0 <= k < i ==> vs[k] == p.vertices[len - 1 - k] && vs[len - 1 - k] == p.vertices[k]
      invariant forall k :: i <= k < len - i ==> vs[k] == p.vertices[k]
    {
      var tmp := vs[i];
      vs := vs[i := vs[len - 1 - i]];
      vs := vs[len - 1 - i := tmp];
      i := i + 1;
    }
    r := Path(vs);
  }

  /** Reversing twice is the identity. */
  lemma ReverseTwice<T>(s: seq<T>)
    ensures Reversed(Reversed(s)) == s
  {
  }

  /** Reversal keeps the same vertices with the same multiplicities. */
  lemma {:induction false} ReversedMultiset<T>(s: seq<T>)
    ensures multiset(Reversed(s)) == multiset(s)
  {
    if |s| > 0 {
      ReversedMultiset(s[1..]);
      assert s == [s[0]] + s[1..];
    }
  }

  /** After a reversal the last vertex is the old first one. */
  lemma LastAfterReverse<V>(p: Path<V>)
    requires |p.vertices| > 0
    ensures GetLastVertex(Path(Reversed(p.vertices))) == Some(p.vertices[0])
  {
  }
}
