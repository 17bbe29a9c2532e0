/** Joining strings with a separator character (`sep.join(parts)` in Python,
    `parts.join(sep)` in JavaScript) and splitting them again. The HPGL part
    of a PRN stream is a `;`-separated list of instructions, and the points
    of a pen-down instruction are a `,`-separated list of numbers; splitting
    is how such text is read back. */
module Text {

  /** The parts with sep between consecutive ones. */
  function Join(parts: seq<string>, sep: char): string {
    if |parts| == 0 then ""
    else if |parts| == 1 then parts[0]
    else parts[0] + [sep] + Join(parts[1..], sep)
  }

  /** A join is at least as long as its first part. */
  lemma JoinLength(parts: seq<string>, sep: char)
    requires |parts| >= 1
    ensures |Join(parts, sep)| >= |parts[0]|
  {
  }

  /** The first position at or after i that holds c, or |s| if none does. */
  function IndexOf(s: string, c: char, i: nat): (j: nat)
    requires i <= |s|
    ensures i <= j <= |s|
    ensures forall k :: i <= k < j ==> s[k] != c
    ensures j < |s| ==> s[j] == c
    decreases |s| - i
  {
    if i == |s| || s[i] == c then i else IndexOf(s, c, i + 1)
  }

  /** The pieces of s between occurrences of sep (Python's `s.split(sep)`):
      there is always at least one piece, and no piece holds sep. */
  function Split(s: string, sep: char): (parts: seq<string>)
    ensures |parts| >= 1
    ensures forall k :: 0 <= k < |parts| ==> sep !in parts[k]
    decreases |s|
  {
    var i := IndexOf(s, sep, 0);
    if i == |s| then
      assert forall k :: 0 <= k < |s| ==> s[k] != sep;
      [s]
    else
      assert forall k :: 0 <= k < i ==> s[..i][k] != sep;
      [s[..i]] + Split(s[i + 1..], sep)
  }

  /** No part holds the separator. */
  predicate Free(parts: seq<string>, sep: char) {
    forall k :: 0 <= k < |parts| ==> sep !in parts[k]
  }

  /** Splitting undoes joining, when no part holds the separator. */
  lemma {:induction false} SplitJoin(parts: seq<string>, sep: char)
    requires |parts| >= 1 && Free(parts, sep)
    ensures Split(Join(parts, sep), sep) == parts
    decreases |parts|
  {
    var s := Join(parts, sep);
    var p := parts[0];
    assert forall k :: 0 <= k < |p| ==> p[k] != sep;
    if |parts| == 1 {
      assert IndexOf(s, sep, 0) == |s|;
    } else {
      var rest := Join(parts[1..], sep);
      assert s == p + [sep] + rest;
      assert s[|p|] == sep;
      assert IndexOf(s, sep, 0) == |p|;
      assert s[..|p|] == p;
      assert s[|p| + 1..] == rest;
      SplitJoin(parts[1..], sep);
      assert [p] + parts[1..] == parts;
    }
  }

  /** Joining undoes splitting. */
  lemma {:induction false} JoinSplit(s: string, sep: char)
    ensures Join(Split(s, sep), sep) == s
    decreases |s|
  {
    var i := IndexOf(s, sep, 0);
    if i < |s| {
      JoinSplit(s[i + 1..], sep);
      SplitCons(s, sep, i);
      JoinCons(s[..i], Split(s[i + 1..], sep), sep);
      Around(s, i);
    }
  }

  /** Split at the first separator: the piece before it, then the pieces of
      the rest. */
  lemma SplitCons(s: string, sep: char, i: nat)
    requires i == IndexOf(s, sep, 0) < |s|
    ensures Split(s, sep) == [s[..i]] + Split(s[i + 1..], sep)
  {
  }

  /** A sequence is what comes before position i, the element there, and
      what comes after. */
  lemma Around<T>(s: seq<T>, i: nat)
    requires i < |s|
    ensures s[..i] + [s[i]] + s[i + 1..] == s
  {
    assert s[..i] + [s[i]] == s[..i + 1];
  }

  /** Joining two non-empty lists is joining each and putting sep between. */
  lemma {:induction false} JoinAppend(a: seq<string>, b: seq<string>, sep: char)
    requires |a| >= 1 && |b| >= 1
    ensures Join(a + b, sep) == Join(a, sep) + [sep] + Join(b, sep)
    decreases |a|
  {
    if |a| == 1 {
      assert (a + b)[1..] == b;
    } else {
      JoinAppend(a[1..], b, sep);
      assert (a + b)[1..] == a[1..] + b;
    }
  }

  /** The groups one after another. */
  function Concat(groups: seq<seq<string>>): (r: seq<string>)
    ensures |groups| >= 1 && |groups[0]| >= 1 ==> |r| >= 1
  {
    if |groups| == 0 then [] else groups[0] + Concat(groups[1..])
  }

  /** Every group has at least one member. */
  predicate NonEmptyGroups(groups: seq<seq<string>>) {
    forall k :: 0 <= k < |groups| ==> |groups[k]| >= 1
  }

  /** Each group joined on its own. */
  function JoinEach(groups: seq<seq<string>>, sep: char): (r: seq<string>)
    ensures |r| == |groups|
    ensures forall k :: 0 <= k < |groups| ==> r[k] == Join(groups[k], sep)
  {
    seq(|groups|, k requires 0 <= k < |groups| => Join(groups[k], sep))
  }

  /** Joining the joined groups with the same separator is joining all their
      members: `",".join("%d,%d" % p for p in ps)` is the coordinates of ps
      separated by commas. */
  lemma {:induction false} JoinConcat(groups: seq<seq<string>>, sep: char)
    requires NonEmptyGroups(groups)
    ensures Join(JoinEach(groups, sep), sep) == Join(Concat(groups), sep)
    decreases |groups|
  {
    if |groups| >= 2 {
      var tail := groups[1..];
      JoinConcat(tail, sep);
      assert JoinEach(groups, sep)[1..] == JoinEach(tail, sep);
      assert |Concat(tail)| >= 1;
      JoinAppend(groups[0], Concat(tail), sep);
    } else if |groups| == 1 {
      assert Concat(groups) == groups[0] + Concat(groups[1..]);
      assert groups[1..] == [];
      assert Concat(groups) == groups[0];
      assert JoinEach(groups, sep) == [Join(groups[0], sep)];
    }
  }

  /** The texts of the items one after another. */
  function Emit<T>(items: seq<T>, text: T -> string): string {
    if items == [] then "" else text(items[0]) + Emit(items[1..], text)
  }

  /** Emitting one more item adds its text at the end. */
  lemma {:induction false} EmitAppend<T>(items: seq<T>, x: T, text: T -> string)
    ensures Emit(items + [x], text) == Emit(items, text) + text(x)
    decreases |items|
  {
    if items == [] {
      assert Emit([x], text) == text(x) + Emit([], text);
    } else {
      EmitAppend(items[1..], x, text);
      assert (items + [x])[1..] == items[1..] + [x];
      Assoc(text(items[0]), Emit(items[1..], text), text(x));
    }
  }

  /** Emitting two lists one after the other is emitting their
      concatenation. */
  lemma {:induction false} EmitConcat<T>(a: seq<T>, b: seq<T>, text: T -> string)
    ensures Emit(a + b, text) == Emit(a, text) + Emit(b, text)
    decreases |a|
  {
    if a == [] {
      assert a + b == b;
    } else {
      EmitConcat(a[1..], b, text);
      assert (a + b)[1..] == a[1..] + b;
      Assoc(text(a[0]), Emit(a[1..], text), Emit(b, text));
    }
  }

  lemma Assoc<T>(a: seq<T>, b: seq<T>, c: seq<T>)
    ensures (a + b) + c == a + (b + c)
  {
  }

  lemma AppendSlices<T>(a: seq<T>, b: seq<T>)
    ensures (a + b)[..|a|] == a && (a + b)[|a|..] == b
  {
  }

  lemma PrefixOfAppend<T>(a: seq<T>, b: seq<T>)
    ensures a <= a + b
  {
  }

  lemma PrefixTrans<T>(a: seq<T>, b: seq<T>, c: seq<T>)
    requires a <= b && b <= c
    ensures a <= c
  {
  }

  /** A sequence built as head, middle and tail starts with head and ends
      with tail. */
  lemma Framed<T>(head: seq<T>, middle: seq<T>, tail: seq<T>)
    ensures head <= head + middle + tail
    ensures |head + middle + tail| >= |tail|
    ensures (head + middle + tail)[|head + middle + tail| - |tail|..] == tail
  {
    assert (head + middle + tail)[..|head|] == head;
    assert (head + middle + tail)[|head + middle|..] == tail;
  }

  /** Joining a first part onto a non-empty rest. */
  lemma JoinCons(a: string, rest: seq<string>, sep: char)
    requires |rest| >= 1
    ensures Join([a] + rest, sep) == a + [sep] + Join(rest, sep)
  {
    assert ([a] + rest)[1..] == rest;
  }

  /** n spaces. */
  function Spaces(n: nat): (s: string)
    ensures |s| == n && forall k :: 0 <= k < n ==> s[k] == ' '
  {
    seq(n, _ => ' ')
  }
}
