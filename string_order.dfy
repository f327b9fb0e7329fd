/** Python's ordering of `str` values and the `sorted` built-in, as the log
    handlers use them on directory listings. */
module StringOrder {

  /** `a <= b` on Python strings: code point by code point, and a proper
      prefix sorts before the longer string. */
  predicate LessEq(a: string, b: string)
    decreases |a|
  {
    |a| == 0 || (|b| != 0 && (a[0] < b[0] || (a[0] == b[0] && LessEq(a[1..], b[1..]))))
  }

  /** `a < b` on Python strings. */
  predicate Less(a: string, b: string) {
    LessEq(a, b) && a != b
  }

  lemma {:induction false} LessEqAntisymmetric(a: string, b: string)
    requires LessEq(a, b) && LessEq(b, a)
    ensures a == b
    decreases |a|
  {
    if |a| != 0 {
      LessEqAntisymmetric(a[1..], b[1..]);
      assert a == [a[0]] + a[1..] && b == [b[0]] + b[1..];
    }
  }

  lemma {:induction false} LessEqTransitive(a: string, b: string, c: string)
    requires LessEq(a, b) && LessEq(b, c)
    ensures LessEq(a, c)
    decreases |a|
  {
    if |a| != 0 && a[0] == b[0] && b[0] == c[0] {
      LessEqTransitive(a[1..], b[1..], c[1..]);
    }
  }

  lemma {:induction false} LessEqTotal(a: string, b: string)
    ensures LessEq(a, b) || LessEq(b, a)
    decreases |a|
  {
    if |a| != 0 && |b| != 0 && a[0] == b[0] {
      LessEqTotal(a[1..], b[1..]);
    }
  }

  /** Two different strings are ordered one way, and only one way. */
  lemma LessTrichotomy(a: string, b: string)
    requires a != b
    ensures Less(a, b) != Less(b, a)
  {
    LessEqTotal(a, b);
    if LessEq(a, b) && LessEq(b, a) {
      LessEqAntisymmetric(a, b);
    }
  }

  lemma LessTransitive(a: string, b: string, c: string)
    requires Less(a, b) && Less(b, c)
    ensures Less(a, c)
  {
    LessEqTransitive(a, b, c);
    if a == c {
      LessEqAntisymmetric(a, b);
    }
  }

  /** The elements of a sequence, as a set. */
  function Elems(s: seq<string>): set<string> {
    set x | x in s
  }

  /** No name occurs twice, as in any directory listing. */
  predicate Distinct(s: seq<string>) {
    forall i, j :: 0 <= i < j < |s| ==> s[i] != s[j]
  }

  /** Strictly ascending: what `sorted` gives for a listing without repeats. */
  predicate Ascending(s: seq<string>) {
    forall i, j :: 0 <= i < j < |s| ==> Less(s[i], s[j])
  }

  /** Strictly descending: what `sorted(..., reverse=True)` gives for a listing
      without repeats. */
  predicate Descending(s: seq<string>) {
    forall i, j :: 0 <= i < j < |s| ==> Less(s[j], s[i])
  }

  /** A sequence without repeats has as many elements as its set does. */
  lemma {:induction false} DistinctCard(s: seq<string>)
    requires Distinct(s)
    ensures |Elems(s)| == |s|
  {
    if s != [] {
      DistinctCard(s[1..]);
      assert Elems(s) == {s[0]} + Elems(s[1..]);
      assert s[0] !in Elems(s[1..]);
    }
  }

  /** Dropping the front entry of an ascending sequence drops exactly that
      name. */
  lemma DropFront(s: seq<string>)
    requires Ascending(s) && s != []
    ensures s[0] in Elems(s)
    ensures Elems(s[1..]) == Elems(s) - {s[0]}
  {
    assert s == [s[0]] + s[1..];
    assert s[0] !in s[1..] by {
      forall j | 0 <= j < |s[1..]| ensures s[1..][j] != s[0] {
        assert Less(s[0], s[j + 1]);
      }
    }
  }

  /** A name below the head of an ascending sequence is below all of it. */
  lemma BelowHead(x: string, s: seq<string>)
    requires Ascending(s) && s != [] && Less(x, s[0])
    ensures forall j :: 0 <= j < |s| ==> Less(x, s[j])
  {
    forall j | 0 < j < |s| ensures Less(x, s[j]) {
      LessTransitive(x, s[0], s[j]);
    }
  }

  /** Insertion of a new name into an ascending sequence. */
  function Insert(x: string, s: seq<string>): (r: seq<string>)
    requires Ascending(s) && x !in s
    ensures Ascending(r) && |r| == |s| + 1
    ensures forall y :: y in r <==> y == x || y in s
  {
    if s == [] then [x]
    else if Less(x, s[0]) then
      BelowHead(x, s);
      [x] + s
    else
      LessTrichotomy(x, s[0]);
      var t := Insert(x, s[1..]);
      assert forall k :: 0 <= k < |t| ==> t[k] in t;
      [s[0]] + t
  }

  /** Python's `sorted` on a listing without repeats: the same names, in
      ascending order. */
  function Sort(s: seq<string>): (r: seq<string>)
    requires Distinct(s)
    ensures Ascending(r) && |r| == |s|
    ensures forall y :: y in r <==> y in s
  {
    if s == [] then [] else Insert(s[0], Sort(s[1..]))
  }

  /** `reversed`, element by element. */
  function Reverse(s: seq<string>): (r: seq<string>)
    ensures |r| == |s|
    ensures forall i :: 0 <= i < |s| ==> r[i] == s[|s| - 1 - i]
  {
    seq(|s|, i requires 0 <= i < |s| => s[|s| - 1 - i])
  }

  lemma ReverseAscending(s: seq<string>)
    requires Ascending(s)
    ensures Descending(Reverse(s)) && Elems(Reverse(s)) == Elems(s)
  {
    var r := Reverse(s);
    forall y | y in s ensures y in r {
      var i :| 0 <= i < |s| && s[i] == y;
      assert r[|s| - 1 - i] == y;
    }
  }
}
