/**
  Retention pruning (`_enforce_retention`): after an upload the agent keeps the
  `n` backups with the greatest names among the entries whose names parse as
  backup archives, and asks the server to delete the others.
*/
module Retention {
  import opened Wrappers
  import opened Text
  import opened BackupFilename
  import opened Remote

  /** An entry `try_parse_filename` accepts. */
  predicate Parseable(e: Entry) {
    ParseFilename(e.name).Some?
  }

  /** The candidates: the parseable entries, in listing order. */
  function ParseableEntries(items: seq<Entry>): (c: seq<Entry>)
    ensures forall e :: e in c <==> e in items && Parseable(e)
    ensures multiset(c) <= multiset(items)
    decreases |items|
  {
    if |items| == 0 then []
    else
      var init := items[..|items| - 1];
      var last := items[|items| - 1];
      assert items == init + [last];
      if Parseable(last) then ParseableEntries(init) + [last] else ParseableEntries(init)
  }

  // ---------------------------------------------------------------------------
  // candidates.sort(key=name): a stable sort by code-point order of names

  predicate SortedByName(s: seq<Entry>) {
    forall i, j :: 0 <= i < j < |s| ==> LexLe(s[i].name, s[j].name)
  }

  /** Puts `e` before the first entry whose name is not smaller, so equal names keep their order. */
  function Insert(e: Entry, s: seq<Entry>): (r: seq<Entry>)
    ensures multiset(r) == multiset(s) + multiset{e}
    ensures |r| == |s| + 1
    decreases |s|
  {
    if |s| == 0 then [e]
    else if LexLe(e.name, s[0].name) then [e] + s
    else
      assert s == [s[0]] + s[1..];
      [s[0]] + Insert(e, s[1..])
  }

  function SortByName(s: seq<Entry>): (r: seq<Entry>)
    ensures multiset(r) == multiset(s)
    ensures |r| == |s|
    decreases |s|
  {
    if |s| == 0 then []
    else
      assert s == [s[0]] + s[1..];
      Insert(s[0], SortByName(s[1..]))
  }

  /** A sorted sequence's tail is sorted, and its head is a lower bound of it. */
  lemma SortedTail(s: seq<Entry>)
    requires |s| > 0 && SortedByName(s)
    ensures SortedByName(s[1..])
    ensures forall x :: x in s[1..] ==> LexLe(s[0].name, x.name)
  {
    var tail := s[1..];
    forall i, j | 0 <= i < j < |tail| ensures LexLe(tail[i].name, tail[j].name) {
      assert tail[i] == s[i + 1] && tail[j] == s[j + 1];
    }
    forall x | x in tail ensures LexLe(s[0].name, x.name) {
      var k :| 0 <= k < |tail| && tail[k] == x;
      assert s[k + 1] == x;
    }
  }

  /** An entry placed in front of a sorted sequence all of whose names it precedes. */
  lemma SortedCons(x: Entry, t: seq<Entry>)
    requires SortedByName(t)
    requires forall y :: y in t ==> LexLe(x.name, y.name)
    ensures SortedByName([x] + t)
  {
    var r := [x] + t;
    forall i, j | 0 <= i < j < |r| ensures LexLe(r[i].name, r[j].name) {
      assert r[j] == t[j - 1];
      if i > 0 {
        assert r[i] == t[i - 1];
      }
    }
  }

  lemma {:induction false} InsertSorted(e: Entry, s: seq<Entry>)
    requires SortedByName(s)
    ensures SortedByName(Insert(e, s))
    decreases |s|
  {
    if |s| > 0 && !LexLe(e.name, s[0].name) {
      SortedTail(s);
      InsertSorted(e, s[1..]);
      LexLeTotal(e.name, s[0].name);
      var t := Insert(e, s[1..]);
      forall x | x in t ensures LexLe(s[0].name, x.name) {
        assert x in multiset(t);
        if x != e {
          assert x in multiset(s[1..]);
        }
      }
      SortedCons(s[0], t);
    } else if |s| > 0 {
      SortedTail(s);
      forall y | y in s ensures LexLe(e.name, y.name) {
        if y != s[0] {
          assert y in s[1..] by {
            var k :| 0 <= k < |s| && s[k] == y;
            assert s[1..][k - 1] == y;
          }
          LexLeTrans(e.name, s[0].name, y.name);
        }
      }
      SortedCons(e, s);
    }
  }

  lemma {:induction false} SortByNameSorted(s: seq<Entry>)
    ensures SortedByName(SortByName(s))
    decreases |s|
  {
    if |s| > 0 {
      SortByNameSorted(s[1..]);
      InsertSorted(s[0], SortByName(s[1..]));
    }
  }

  // ---------------------------------------------------------------------------
  // The plan: candidates[:-n] after sorting

  /** How many sorted candidates `candidates[:-n]` selects, for a list of length `len` with `len > n`. */
  function SurplusCount(len: nat, n: int): (k: nat)
    ensures k <= len
  {
    if n > 0 then (if n < len then len - n else 0)
    else if n == 0 then 0           // `[:-0]` is `[:0]`
    else if -n < len then -n else len
  }

  /** The candidates `candidates[:-n]` selects once `c` is sorted. */
  function SurplusOf(c: seq<Entry>, n: int): (r: seq<Entry>)
    ensures |c| <= n ==> r == []
    ensures multiset(r) <= multiset(c)
  {
    if |c| <= n then []
    else
      var sorted := SortByName(c);
      var k := SurplusCount(|c|, n);
      assert sorted == sorted[..k] + sorted[k..];
      sorted[..k]
  }

  /** The candidates that remain: with the surplus, exactly the candidates. */
  function KeptOf(c: seq<Entry>, n: int): (r: seq<Entry>)
    ensures multiset(SurplusOf(c, n)) + multiset(r) == multiset(c)
  {
    if |c| <= n then c
    else
      var sorted := SortByName(c);
      var k := SurplusCount(|c|, n);
      assert sorted == sorted[..k] + sorted[k..];
      sorted[k..]
  }

  /** The candidates of `_enforce_retention`: the parseable entries of `list_folder_files`, in listing order. */
  function RetentionCandidates(items: seq<Entry>): (c: seq<Entry>)
    ensures forall e :: e in c <==> e in items && e.kind == "file" && Parseable(e)
  {
    ParseableEntries(ListFolderFiles(items))
  }

  /** The entries `_enforce_retention` asks to delete, in the order it asks. */
  function Surplus(items: seq<Entry>, n: int): (s: seq<Entry>)
    ensures multiset(s) <= multiset(RetentionCandidates(items))
  {
    SurplusOf(RetentionCandidates(items), n)
  }

  /** The candidates left alone: with the surplus, exactly the candidates. */
  function Kept(items: seq<Entry>, n: int): (k: seq<Entry>)
    ensures multiset(Surplus(items, n)) + multiset(k) == multiset(RetentionCandidates(items))
  {
    KeptOf(RetentionCandidates(items), n)
  }

  /** The requests retention sends for `s`: one `delete_file` per entry, nothing else. */
  function DeleteCalls(s: seq<Entry>): (log: seq<Request>)
    ensures |log| == |s|
    ensures forall i :: 0 <= i < |s| ==> log[i] == DeleteFile(s[i].id)
    decreases |s|
  {
    if |s| == 0 then [] else DeleteCalls(s[..|s| - 1]) + [DeleteFile(s[|s| - 1].id)]
  }

  /** The ids among `s` whose deletion the server accepts. */
  function Deleted(s: seq<Entry>, refused: set<Request>): (ids: seq<int>)
    ensures forall id :: id in ids <==> exists e :: e in s && e.id == id && DeleteFile(id) !in refused
    decreases |s|
  {
    if |s| == 0 then []
    else
      var last := s[|s| - 1];
      assert s == s[..|s| - 1] + [last];
      Deleted(s[..|s| - 1], refused) + (if DeleteFile(last.id) in refused then [] else [last.id])
  }

  /**
    `_enforce_retention`: list the folder's files, collect the parseable ones, sort by name, and
    ask for the deletion of `candidates[:-n]`; a refused deletion is skipped and
    the loop goes on.
  */
  method EnforceRetention(items: seq<Entry>, n: int, refused: set<Request>)
    returns (log: seq<Request>, deleted: seq<int>)
    ensures log == DeleteCalls(Surplus(items, n))
    ensures deleted == Deleted(Surplus(items, n), refused)
  {
    var files := ListFolderFiles(items);
    var candidates := CollectCandidates(files);
    if |candidates| <= n {
      return [], [];
    }
    var sorted := SortByName(candidates);
    var surplus := sorted[..SurplusCount(|candidates|, n)];
    assert candidates == RetentionCandidates(items);
    assert surplus == SurplusOf(candidates, n);
    log, deleted := DeleteEach(surplus, refused);
  }

  /** The first loop of `_enforce_retention`: append each entry whose name parses. */
  method CollectCandidates(items: seq<Entry>) returns (candidates: seq<Entry>)
    ensures candidates == ParseableEntries(items)
  {
    candidates := [];
    for i := 0 to |items|
      invariant candidates == ParseableEntries(items[..i])
    {
      assert items[..i + 1][..i] == items[..i];
      var meta := TryParseFilename(items[i].name);
      if meta.Some? {
        candidates := candidates + [items[i]];
      }
    }
    assert items[..|items|] == items;
  }

  /** The deletion loop: one `delete_file` per surplus entry; an exception skips to the next. */
  method DeleteEach(surplus: seq<Entry>, refused: set<Request>) returns (log: seq<Request>, deleted: seq<int>)
    ensures log == DeleteCalls(surplus)
    ensures deleted == Deleted(surplus, refused)
  {
    log, deleted := [], [];
    for i := 0 to |surplus|
      invariant log == DeleteCalls(surplus[..i])
      invariant deleted == Deleted(surplus[..i], refused)
    {
      assert surplus[..i + 1][..i] == surplus[..i];
      log := log + [DeleteFile(surplus[i].id)];
      if DeleteFile(surplus[i].id) !in refused {
        deleted := deleted + [surplus[i].id];
      }
    }
    assert surplus[..|surplus|] == surplus;
  }

  // ---------------------------------------------------------------------------
  // Properties

  /** With at most `n` candidates nothing is deleted. */
  lemma NothingToPrune(items: seq<Entry>, n: int)
    requires |RetentionCandidates(items)| <= n
    ensures Surplus(items, n) == [] && DeleteCalls(Surplus(items, n)) == []
    ensures Kept(items, n) == RetentionCandidates(items)
  {
  }

  /**
    With more than `n > 0` candidates, exactly `len - n` are deleted and `n` kept;
    together they are the candidates, and every deleted name sorts before every kept one.
  */
  lemma PruneSmallestNames(items: seq<Entry>, n: int)
    requires n > 0 && |RetentionCandidates(items)| > n
    ensures |Surplus(items, n)| == |RetentionCandidates(items)| - n && |Kept(items, n)| == n
    ensures multiset(Surplus(items, n)) + multiset(Kept(items, n)) == multiset(RetentionCandidates(items))
    ensures forall d, k :: d in Surplus(items, n) && k in Kept(items, n) ==> LexLe(d.name, k.name)
  {
    PlanSplitsSorted(RetentionCandidates(items), n);
  }

  lemma PlanSplitsSorted(c: seq<Entry>, n: int)
    requires n > 0 && |c| > n
    ensures |SurplusOf(c, n)| == |c| - n && |KeptOf(c, n)| == n
    ensures multiset(SurplusOf(c, n)) + multiset(KeptOf(c, n)) == multiset(c)
    ensures forall d, k :: d in SurplusOf(c, n) && k in KeptOf(c, n) ==> LexLe(d.name, k.name)
  {
    var sorted := SortByName(c);
    var m := |c| - n;
    assert SurplusOf(c, n) == sorted[..m] && KeptOf(c, n) == sorted[m..];
    assert sorted == sorted[..m] + sorted[m..];
    SortByNameSorted(c);
    SortedSplit(sorted, m);
  }

  /** In a sorted sequence every name before a cut is at most every name after it. */
  lemma SortedSplit(s: seq<Entry>, m: nat)
    requires SortedByName(s) && m <= |s|
    ensures forall d, k :: d in s[..m] && k in s[m..] ==> LexLe(d.name, k.name)
  {
    forall d, k | d in s[..m] && k in s[m..] ensures LexLe(d.name, k.name) {
      var i :| 0 <= i < m && s[..m][i] == d;
      var j :| 0 <= j < |s| - m && s[m..][j] == k;
      assert s[i] == d && s[m + j] == k;
    }
  }

  /** Only files whose names parse are ever deleted, and each one deleted was listed. */
  lemma PruneOnlyParseable(items: seq<Entry>, n: int)
    ensures forall e :: e in Surplus(items, n) ==> e in items && e.kind == "file" && Parseable(e)
  {
    var c := RetentionCandidates(items);
    if |c| > n {
      var sorted := SortByName(c);
      assert Surplus(items, n) == sorted[..SurplusCount(|c|, n)];
      forall e | e in sorted[..SurplusCount(|c|, n)] ensures e in c {
        assert e in multiset(sorted);
      }
    }
  }

  /** Retention asks only `delete_file`, never the trash purge, and asks for every surplus entry whatever the server answers. */
  lemma RetentionNeverPurges(items: seq<Entry>, n: int, r: Request)
    requires r in DeleteCalls(Surplus(items, n))
    ensures r.DeleteFile?
    ensures exists e :: e in Surplus(items, n) && r == DeleteFile(e.id)
  {
    var s := Surplus(items, n);
    var i :| 0 <= i < |s| && DeleteCalls(s)[i] == r;
    assert s[i] in s;
  }
}
