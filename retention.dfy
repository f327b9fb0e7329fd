/** Which log names survive retention trimming, and which ones a listing
    shows: the greatest names of the directory. */
module Retention {
  import opened StringOrder

  /** Number of logs the trimming keeps (`MAX_LOG_FILES`). */
  const MaxLogFiles: nat := 10

  /** The names of `files` that sort strictly after `x`. */
  function Above(files: set<string>, x: string): set<string> {
    set y | y in files && Less(x, y)
  }

  /** The `n` greatest names of `files`: those with fewer than `n` names
      above them. */
  function Greatest(files: set<string>, n: nat): set<string> {
    set x | x in files && |Above(files, x)| < n
  }

  /** The last `n` entries of a sequence, all of it when it is shorter. */
  function TakeLast(s: seq<string>, n: nat): (r: seq<string>)
    ensures |r| == if |s| <= n then |s| else n
    ensures r == s[|s| - |r|..]
  {
    if |s| <= n then s else s[|s| - n..]
  }

  lemma SubsetCard(a: set<string>, b: set<string>)
    requires a <= b
    ensures |a| <= |b|
  {
    assert b == a + (b - a);
  }

  /** In an ascending sequence, what sorts after entry `i` is the rest of it. */
  lemma AboveIsSuffix(s: seq<string>, i: nat)
    requires Ascending(s) && i < |s|
    ensures Above(Elems(s), s[i]) == Elems(s[i + 1..])
  {
    forall y | y in Elems(s) && Less(s[i], y) ensures y in s[i + 1..] {
      var j :| 0 <= j < |s| && s[j] == y;
      if j <= i {
        if j < i {
          LessTrichotomy(s[j], s[i]);
        }
        assert false;
      }
      assert s[i + 1..][j - i - 1] == y;
    }
  }

  /** Entry `i` of an ascending sequence has `|s| - 1 - i` names above it. */
  lemma AboveCount(s: seq<string>, i: nat)
    requires Ascending(s) && i < |s|
    ensures |Above(Elems(s), s[i])| == |s| - 1 - i
  {
    AboveIsSuffix(s, i);
    DistinctCard(s[i + 1..]);
  }

  /** Keeping the last `n` of the sorted names keeps exactly the `n`
      greatest names. */
  lemma GreatestIsSortedSuffix(s: seq<string>, n: nat)
    requires Ascending(s)
    ensures Greatest(Elems(s), n) == Elems(TakeLast(s, n))
  {
    var t := TakeLast(s, n);
    var k := |s| - |t|;
    forall y | y in Greatest(Elems(s), n) ensures y in Elems(t) {
      var i :| 0 <= i < |s| && s[i] == y;
      AboveCount(s, i);
      assert t[i - k] == y;
    }
    forall y | y in Elems(t) ensures y in Greatest(Elems(s), n) {
      var j :| 0 <= j < |t| && t[j] == y;
      assert s[k + j] == y;
      AboveCount(s, k + j);
    }
  }

  /** Of `M` distinct names, `min(n, M)` are among the `n` greatest. */
  lemma GreatestSize(listing: seq<string>, n: nat)
    requires Distinct(listing)
    ensures |Greatest(Elems(listing), n)| == if |listing| <= n then |listing| else n
  {
    var s := Sort(listing);
    assert Elems(s) == Elems(listing);
    GreatestIsSortedSuffix(s, n);
    DistinctCard(TakeLast(s, n));
  }

  /** Every kept name sorts after every removed one. */
  lemma GreatestSeparates(files: set<string>, n: nat, kept: string, removed: string)
    requires kept in Greatest(files, n)
    requires removed in files && removed !in Greatest(files, n)
    ensures Less(removed, kept)
  {
    if !Less(removed, kept) {
      LessTrichotomy(removed, kept);
      forall y | y in Above(files, removed) ensures y in Above(files, kept) {
        LessTransitive(kept, removed, y);
      }
      SubsetCard(Above(files, removed), Above(files, kept));
    }
  }

  /** A directory that already holds at most `n` names keeps them all. */
  lemma GreatestOfSmall(files: set<string>, n: nat)
    requires |files| <= n
    ensures Greatest(files, n) == files
  {
    forall x | x in files ensures |Above(files, x)| < n {
      SubsetCard(Above(files, x), files - {x});
    }
  }

  /** Trimming a trimmed directory changes nothing. */
  lemma GreatestIdempotent(files: set<string>, n: nat)
    ensures Greatest(Greatest(files, n), n) == Greatest(files, n)
  {
    var g := Greatest(files, n);
    forall x | x in g ensures |Above(g, x)| < n {
      SubsetCard(Above(g, x), Above(files, x));
    }
  }
}
