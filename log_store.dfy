/** The log directory and the three handlers that work on it: the trimming
    run after every build, the `/clean` command and the `/logs` command. */
module LogStore {
  import opened StringOrder
  import opened Retention

  /** Number of names the `/logs` reply shows. */
  const ShownLogs: nat := 5

  /** The reply of `/clean`. */
  datatype CleanReply =
    | NoCleanupNeeded(stored: nat)  // "stored N logs (at most 10), no cleanup needed"
    | Cleaned(deleted: nat)         // "deleted N old logs, kept the 10 latest"

  /** The reply of `/logs`. */
  datatype ListReply =
    | NoLogs                        // "no logs found"
    | Latest(names: seq<string>)    // one line per shown log

  /** `names` are the `ShownLogs` greatest names of `files`, greatest first. */
  predicate ShowsLatest(names: seq<string>, files: set<string>) {
    Descending(names)
    && Elems(names) == Greatest(files, ShownLogs)
    && |names| == if |files| <= ShownLogs then |files| else ShownLogs
  }

  /** The selection `/logs` makes from a listing of the directory: sort in
      reverse and take the first five, or the empty-list reply. */
  function SelectLatest(listing: seq<string>): (r: ListReply)
    requires Distinct(listing)
    ensures r == NoLogs <==> listing == []
    ensures r.Latest? ==> ShowsLatest(r.names, Elems(listing))
  {
    if listing == [] then NoLogs
    else
      var desc := Reverse(Sort(listing));
      var shown := desc[..if |desc| <= ShownLogs then |desc| else ShownLogs];
      ReverseFront(Sort(listing), ShownLogs);
      ReversedTailShowsLatest(listing);
      Latest(shown)
  }

  /** The front of a reversed sequence is its reversed tail. */
  lemma ReverseFront(s: seq<string>, n: nat)
    ensures Reverse(s)[..|TakeLast(s, n)|] == Reverse(TakeLast(s, n))
  {
    var t := TakeLast(s, n);
    var k := |t|;
    var front := Reverse(s)[..k];
    var back := Reverse(t);
    assert |front| == k == |back|;
    forall i | 0 <= i < k ensures front[i] == back[i] {
      assert back[i] == t[k - 1 - i];
      assert t[k - 1 - i] == s[|s| - k + (k - 1 - i)];
      assert front[i] == Reverse(s)[i] == s[|s| - 1 - i];
    }
  }

  /** The reversed tail of the sorted listing holds the greatest names,
      greatest first. */
  lemma ReversedTailShowsLatest(listing: seq<string>)
    requires Distinct(listing)
    ensures ShowsLatest(Reverse(TakeLast(Sort(listing), ShownLogs)), Elems(listing))
  {
    var s := Sort(listing);
    var t := TakeLast(s, ShownLogs);
    assert Ascending(t);
    ReverseAscending(t);
    assert Elems(t) == Greatest(Elems(listing), ShownLogs) by {
      GreatestIsSortedSuffix(s, ShownLogs);
      assert Elems(s) == Elems(listing);
    }
    DistinctCard(listing);
  }

  /** Keeping the last `n` of the sorted listing keeps the `n` greatest
      names, `min(n, M)` of them. */
  lemma TrimsToGreatest(listing: seq<string>, n: nat)
    requires Distinct(listing)
    ensures Elems(TakeLast(Sort(listing), n)) == Greatest(Elems(listing), n)
    ensures |Greatest(Elems(listing), n)| == if |Elems(listing)| <= n then |Elems(listing)| else n
  {
    var s := Sort(listing);
    GreatestIsSortedSuffix(s, n);
    assert Elems(s) == Elems(listing);
    DistinctCard(listing);
    GreatestSize(listing, n);
  }

  /** The directory `LOG_DIR`, as the set of names it holds. */
  class LogDirectory {
    var files: set<string>

    /** `os.listdir`: every name once, in no particular order. */
    method ListNames() returns (names: seq<string>)
      ensures Distinct(names) && Elems(names) == files
    {
      names := [];
      var rest := files;
      while rest != {}
        invariant rest <= files
        invariant Distinct(names)
        invariant Elems(names) == files - rest
        decreases |rest|
      {
        var x :| x in rest;
        assert Elems(names + [x]) == Elems(names) + {x};
        names := names + [x];
        rest := rest - {x};
      }
    }

    /** `open(path, 'w')` on a log in this directory. */
    method Create(name: string)
      modifies this
      ensures files == old(files) + {name}
    {
      files := files + {name};
    }

    /** `os.remove` on a name the directory holds. */
    method Remove(name: string)
      requires name in files
      modifies this
      ensures files == old(files) - {name}
    {
      files := files - {name};
    }

    /** The `while len(logs) > MAX_LOG_FILES` loop of `cleanup_old_logs`:
        pop the front name of the sorted list and delete it. */
    method PopOldest(sorted: seq<string>) returns (logs: seq<string>)
      requires Ascending(sorted) && files == Elems(sorted)
      modifies this
      ensures logs == TakeLast(sorted, MaxLogFiles) && files == Elems(logs)
    {
      logs := sorted;
      ghost var popped := 0;
      while |logs| > MaxLogFiles
        invariant popped <= |sorted| && logs == sorted[popped..]
        invariant |logs| >= MaxLogFiles || popped == 0
        invariant files == Elems(logs)
        decreases |logs|
      {
        DropFront(logs);
        Remove(logs[0]);
        logs := logs[1..];
        popped := popped + 1;
      }
    }

    /** `cleanup_old_logs`: sort the names and remove the first one while
        more than `MaxLogFiles` remain. */
    method CleanupOldLogs()
      modifies this
      ensures files == Greatest(old(files), MaxLogFiles)
      ensures |files| == if |old(files)| <= MaxLogFiles then |old(files)| else MaxLogFiles
    {
      var listing := ListNames();
      var sorted := Sort(listing);
      assert Elems(sorted) == files;
      var logs := PopOldest(sorted);
      TrimsToGreatest(listing, MaxLogFiles);
    }

    /** `clean_logs`: with at most `MaxLogFiles` logs, change nothing and say
        so; otherwise remove all but the last `MaxLogFiles` of the sorted
        names, counting the removals. */
    method CleanLogs() returns (reply: CleanReply)
      modifies this
      ensures |old(files)| <= MaxLogFiles ==>
                reply == NoCleanupNeeded(|old(files)|) && files == old(files)
      ensures |old(files)| > MaxLogFiles ==>
                reply == Cleaned(|old(files)| - MaxLogFiles)
                && files == Greatest(old(files), MaxLogFiles) && |files| == MaxLogFiles
    {
      var listing := ListNames();
      DistinctCard(listing);
      var logs := Sort(listing);
      if |logs| <= MaxLogFiles {
        reply := NoCleanupNeeded(|logs|);
        return;
      }
      var doomed := logs[..|logs| - MaxLogFiles];
      var deleted := 0;
      for i := 0 to |doomed|
        invariant deleted == i
        invariant files == Elems(logs[i..])
      {
        DropFront(logs[i..]);
        assert logs[i..][1..] == logs[i + 1..];
        Remove(doomed[i]);
        deleted := deleted + 1;
      }
      reply := Cleaned(deleted);
      assert logs[|doomed|..] == TakeLast(logs, MaxLogFiles);
      TrimsToGreatest(listing, MaxLogFiles);
    }

    /** `list_logs`, the choice of names: the empty-list reply when there is
        no log, otherwise the five greatest names, greatest first. */
    method ListLogs() returns (reply: ListReply)
      ensures reply == NoLogs <==> files == {}
      ensures reply.Latest? ==> ShowsLatest(reply.names, files)
    {
      var listing := ListNames();
      reply := SelectLatest(listing);
      assert listing == [] <==> Elems(listing) == {} by {
        if listing != [] {
          assert listing[0] in Elems(listing);
        }
      }
    }
  }
}
