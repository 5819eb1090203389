/**
  The kDrive backup agent's decisions: where an upload goes, how many backups the
  host wants kept, and which listing entry a backup id designates.
*/
module BackupAgent {
  import opened Wrappers
  import opened Text
  import opened Const
  import opened BackupFilename
  import opened Remote
  import opened Retention

  // ---------------------------------------------------------------------------
  // Upload path

  /** Uploads of this many bytes or more go through the chunked path (900 MiB). */
  const CHUNK_LIMIT: int := 900 * 1024 * 1024

  function UploadPathFor(size: int): (path: UploadPath)
    ensures path == Direct <==> size < 943_718_400
  {
    if size < CHUNK_LIMIT then Direct else Chunked
  }

  /** The direct path takes exactly the sizes below 900 MiB; the limit itself is chunked. */
  lemma UploadThreshold(size: int)
    ensures CHUNK_LIMIT == 943_718_400
    ensures UploadPathFor(size) == Direct <==> size < 943_718_400
    ensures UploadPathFor(size) == Chunked <==> size >= 943_718_400
    ensures UploadPathFor(CHUNK_LIMIT) == Chunked && UploadPathFor(CHUNK_LIMIT - 1) == Direct
  {
  }

  /** A smaller upload never takes a slower path than a larger one. */
  lemma UploadPathMonotone(small: int, large: int)
    requires small <= large && UploadPathFor(large) == Direct
    ensures UploadPathFor(small) == Direct
  {
  }

  // ---------------------------------------------------------------------------
  // _get_ha_retention_count

  /**
    A candidate value of the host's configuration, as `int(v)` treats it: `None`
    (skipped), a value converting to `n`, a value `int()` refuses with `TypeError`
    or `ValueError` (skipped), or one on which it raises anything else (caught by
    the outer handler, which gives up).
  */
  datatype HostValue = Null | Converts(n: int) | Rejects | Raises

  /**
    `config.data` when it is a dict: `retention` is `Some(count)` when
    `data['retention']` is a dict; `automaticRetention` is `Some(count)` when both
    `data['automatic']` and its `retention` are dicts; `retentionCount` is
    `data.get('retention_count')`.
  */
  datatype ConfigData = ConfigData(retention: Option<HostValue>, automaticRetention: Option<HostValue>, retentionCount: HostValue)

  /**
    The manager's `config`: whether it is truthy (its `data` is read only then), its
    `data` (`None` when not a dict) and its `retention_count` attribute, if it has one;
    the attribute is looked up whether or not the config is truthy.
  */
  datatype ManagerConfig = ManagerConfig(truthy: bool, data: Option<ConfigData>, retentionCountAttr: Option<HostValue>)

  /** Whether a truthy backup manager is registered with the host, and its `config` (`None` when missing or `None`). */
  datatype Host = Host(hasManager: bool, config: Option<ManagerConfig>)

  /** The candidate values, in the order the lookup tries them. */
  function Candidates(h: Host): (c: seq<HostValue>)
    ensures |c| <= 4
  {
    if h.config.None? then []
    else
      var cfg := h.config.value;
      (if !cfg.truthy || cfg.data.None? then []
       else
         var d := cfg.data.value;
         (if d.retention.Some? then [d.retention.value] else []) +
         (if d.automaticRetention.Some? then [d.automaticRetention.value] else []) +
         [d.retentionCount]) +
      (if cfg.retentionCountAttr.Some? then [cfg.retentionCountAttr.value] else [])
  }

  /** A candidate the loop passes over: `None`, refused by `int()`, or not positive. */
  predicate Skipped(v: HostValue) {
    v == Null || v == Rejects || (v.Converts? && v.n <= 0)
  }

  /** The value of the first candidate that converts to a positive int; `None` when there is none, or when a conversion raises first. */
  function FirstPositive(c: seq<HostValue>): (r: Option<int>)
    ensures r.Some? ==> r.value > 0 && Converts(r.value) in c
    decreases |c|
  {
    if |c| == 0 then None
    else if c[0].Raises? then None
    else if c[0].Converts? && c[0].n > 0 then Some(c[0].n)
    else FirstPositive(c[1..])
  }

  /** What `_get_ha_retention_count` returns. */
  function RetentionCount(h: Host): (r: Option<int>)
    ensures !h.hasManager ==> r == None
    ensures r.Some? ==> r.value > 0 && Converts(r.value) in Candidates(h)
  {
    if !h.hasManager then None else FirstPositive(Candidates(h))
  }

  /**
    `_get_ha_retention_count`: build the candidate list by appending, then try
    each in turn.
  */
  method GetRetentionCount(h: Host) returns (r: Option<int>)
    ensures r == RetentionCount(h)
    ensures r.Some? ==> r.value > 0
  {
    if !h.hasManager {
      return None;
    }
    var candidates: seq<HostValue> := [];
    if h.config.Some? && h.config.value.truthy && h.config.value.data.Some? {
      var data := h.config.value.data.value;
      if data.retention.Some? {
        candidates := candidates + [data.retention.value];
      }
      if data.automaticRetention.Some? {
        candidates := candidates + [data.automaticRetention.value];
      }
      candidates := candidates + [data.retentionCount];
    }
    if h.config.Some? && h.config.value.retentionCountAttr.Some? {
      candidates := candidates + [h.config.value.retentionCountAttr.value];
    }
    assert candidates == Candidates(h);
    for i := 0 to |candidates|
      invariant FirstPositive(candidates) == FirstPositive(candidates[i..])
    {
      assert candidates[i..][1..] == candidates[i + 1..];
      var v := candidates[i];
      if v.Raises? {
        return None;
      }
      if v.Converts? && v.n > 0 {
        return Some(v.n);
      }
    }
    return None;
  }

  /**
    The first qualifying candidate wins: the result is `n` exactly when some
    candidate converts to `n > 0` and every candidate before it is skipped.
  */
  lemma {:induction false} FirstPositiveIsFirst(c: seq<HostValue>, n: int)
    ensures FirstPositive(c) == Some(n) <==>
      exists k :: 0 <= k < |c| && c[k] == Converts(n) && n > 0 && forall j :: 0 <= j < k ==> Skipped(c[j])
    decreases |c|
  {
    if |c| > 0 {
      FirstPositiveIsFirst(c[1..], n);
      if FirstPositive(c) == Some(n) && !(c[0].Converts? && c[0].n > 0) {
        var k :| 0 <= k < |c[1..]| && c[1..][k] == Converts(n) && n > 0 && forall j :: 0 <= j < k ==> Skipped(c[1..][j]);
        assert c[k + 1] == Converts(n);
        assert forall j :: 0 <= j < k + 1 ==> Skipped(c[j]) by {
          forall j | 0 <= j < k + 1 ensures Skipped(c[j]) {
            if j > 0 { assert c[j] == c[1..][j - 1]; }
          }
        }
      }
      if exists k :: 0 <= k < |c| && c[k] == Converts(n) && n > 0 && forall j :: 0 <= j < k ==> Skipped(c[j]) {
        var k :| 0 <= k < |c| && c[k] == Converts(n) && n > 0 && forall j :: 0 <= j < k ==> Skipped(c[j]);
        if k > 0 {
          assert c[1..][k - 1] == Converts(n);
          assert forall j :: 0 <= j < k - 1 ==> Skipped(c[1..][j]) by {
            forall j | 0 <= j < k - 1 ensures Skipped(c[1..][j]) {
              assert c[1..][j] == c[j + 1];
            }
          }
        }
      }
    }
  }

  /** `retention.count` comes first: a positive value there decides the lookup. */
  lemma RetentionCountFirst(h: Host, n: int)
    requires h.hasManager && h.config.Some? && h.config.value.truthy && h.config.value.data.Some?
    requires h.config.value.data.value.retention == Some(Converts(n)) && n > 0
    ensures RetentionCount(h) == Some(n)
  {
    assert Candidates(h)[0] == Converts(n);
  }

  /**
    The `retention_count` attribute of the config is the last resort; it alone decides
    when the config has no dict `data` or is falsy.
  */
  lemma AttributeIsLastResort(h: Host, n: int)
    requires h.hasManager && h.config.Some? && (h.config.value.data.None? || !h.config.value.truthy)
    requires h.config.value.retentionCountAttr == Some(Converts(n))
    ensures RetentionCount(h) == (if n > 0 then Some(n) else None)
  {
    assert Candidates(h) == [Converts(n)];
  }

  /** A conversion that raises something other than `TypeError`/`ValueError` ends the lookup with `None`, even if a later candidate is good. */
  lemma {:induction false} RaiseAbortsLookup(c: seq<HostValue>, k: nat)
    requires k < |c| && c[k] == Raises
    requires forall j :: 0 <= j < k ==> Skipped(c[j])
    ensures FirstPositive(c) == None
    decreases k
  {
    if k > 0 {
      assert Skipped(c[0]);
      assert forall j :: 0 <= j < k - 1 ==> c[1..][j] == c[j + 1];
      RaiseAbortsLookup(c[1..], k - 1);
    }
  }

  // ---------------------------------------------------------------------------
  // async_upload_backup

  /** The deletions retention sends after an upload, given the host's configuration and the listing taken then. */
  function RetentionAfterUpload(h: Host, after: seq<Entry>): seq<Request> {
    match RetentionCount(h)
    case None => []
    case Some(n) => DeleteCalls(Surplus(after, n))
  }

  /**
    `async_upload_backup`: upload the archive under its generated name through the
    path its size selects; then, when the host gives a retention count, prune the
    listing `after` taken at that point. A refused upload raises before retention.
  */
  method UploadBackup(b: Backup, suggest: (string, string) -> string, h: Host, after: seq<Entry>, refused: set<Request>)
    returns (log: seq<Request>, result: Result<(), AgentError>)
    ensures |log| >= 1 && log[0] == Upload(UploadPathFor(b.size), MakeFilename(b, suggest), b.size)
    ensures log[0] in refused ==> log == [log[0]] && result == Err(RequestFailed(log[0]))
    ensures log[0] !in refused ==> log == [log[0]] + RetentionAfterUpload(h, after) && result == Ok(())
  {
    var filename := MakeFilename(b, suggest);
    var upload := Upload(if b.size < CHUNK_LIMIT then Direct else Chunked, filename, b.size);
    log := [upload];
    if upload in refused {
      return log, Err(RequestFailed(upload));
    }
    var retention := GetRetentionCount(h);
    if retention.Some? && retention.value > 0 {
      var deletes, _ := EnforceRetention(after, retention.value, refused);
      log := log + deletes;
    }
    result := Ok(());
  }

  // ---------------------------------------------------------------------------
  // Finding a backup's archive: download and delete

  /** The agent's failures: `BackupNotFound`, a request the server refused, and the `TypeError` of awaiting a generator. */
  datatype AgentError = BackupNotFound(backupId: string) | RequestFailed(request: Request) | StreamNotAwaitable

  /** The test of download and delete: the name contains `__id-<id>` and ends in `.tar`. */
  predicate NameMatchesId(e: Entry, backupId: string) {
    Contains(e.name, ID_TAG + backupId) && EndsWith(e.name, TAR)
  }

  /** The index of the first entry, from `from` on, that matches the id. */
  function FindArchiveFrom(files: seq<Entry>, backupId: string, from: nat): (r: Option<nat>)
    requires from <= |files|
    ensures r.Some? ==> (from <= r.value < |files| && NameMatchesId(files[r.value], backupId) &&
                         forall j :: from <= j < r.value ==> !NameMatchesId(files[j], backupId))
    ensures r.None? ==> forall j :: from <= j < |files| ==> !NameMatchesId(files[j], backupId)
    decreases |files| - from
  {
    if from == |files| then None
    else if NameMatchesId(files[from], backupId) then Some(from)
    else FindArchiveFrom(files, backupId, from + 1)
  }

  /** `next(it for it in items if ...)`: the first matching entry, or nothing. */
  function FindArchive(files: seq<Entry>, backupId: string): (r: Option<nat>)
    ensures r.Some? ==> (r.value < |files| && NameMatchesId(files[r.value], backupId) &&
                         forall j :: 0 <= j < r.value ==> !NameMatchesId(files[j], backupId))
    ensures r.None? <==> forall j :: 0 <= j < |files| ==> !NameMatchesId(files[j], backupId)
  {
    FindArchiveFrom(files, backupId, 0)
  }

  /**
    `async_download_backup` as intended: the id of the file to stream, which is the
    first file of the listing that matches, or not-found.
  */
  function DownloadBackup(items: seq<Entry>, backupId: string): (r: Result<int, AgentError>)
    ensures var files := ListFolderFiles(items);
            r.Ok? <==> exists j :: 0 <= j < |files| && NameMatchesId(files[j], backupId)
    ensures var files := ListFolderFiles(items);
            r.Ok? ==> exists j :: 0 <= j < |files| && NameMatchesId(files[j], backupId) && files[j].id == r.value &&
                                 forall k :: 0 <= k < j ==> !NameMatchesId(files[k], backupId)
    ensures r.Ok? ==> exists e :: e in items && e.kind == "file" && NameMatchesId(e, backupId) && e.id == r.value
    ensures r.Err? ==> r.error == BackupNotFound(backupId)
  {
    var files := ListFolderFiles(items);
    var m := FindArchive(files, backupId);
    if m.None? then Err(BackupNotFound(backupId))
    else
      assert files[m.value] in files;
      Ok(files[m.value].id)
  }

  /**
    `async_download_backup` as written: it awaits `download_file_stream(...)`, which is
    an async generator, so Python raises `TypeError` as soon as a match is found.
  */
  function DownloadBackupAsWritten(items: seq<Entry>, backupId: string): (r: Result<int, AgentError>)
    ensures r.Err?
    ensures r.error == BackupNotFound(backupId) <==>
      forall j :: 0 <= j < |ListFolderFiles(items)| ==> !NameMatchesId(ListFolderFiles(items)[j], backupId)
  {
    var files := ListFolderFiles(items);
    var m := FindArchive(files, backupId);
    if m.None? then Err(BackupNotFound(backupId)) else Err(StreamNotAwaitable)
  }

  /** For an archive that is present, the code as written raises where the intended download streams it. */
  lemma DownloadAsWrittenNeverStreams()
    ensures var items := [Entry(1, Composed("x", "ab", "1", "false") + TAR, "file")];
            && DownloadBackupAsWritten(items, "ab") == Err(StreamNotAwaitable)
            && DownloadBackup(items, "ab") == Ok(1)
  {
    var items := [Entry(1, Composed("x", "ab", "1", "false") + TAR, "file")];
    AllFilesListed(items);
    IdPrefixMatches("x", "ab", "1", "false", 2);
    assert "ab"[..2] == "ab";
    assert FindArchive(items, "ab") == Some(0);
  }

  /** What a sequence of client calls produced: the requests sent and the outcome. */
  datatype Outcome = Outcome(log: seq<Request>, result: Result<(), AgentError>)

  /**
    `async_delete_backup`: move the matching file to the trash, then purge it from
    the trash; a refused request raises and stops there.
  */
  function DeleteBackup(items: seq<Entry>, backupId: string, refused: set<Request>): (o: Outcome)
    ensures var files := ListFolderFiles(items);
      FindArchive(files, backupId).None? ==> o == Outcome([], Err(BackupNotFound(backupId)))
    ensures var files := ListFolderFiles(items);
      FindArchive(files, backupId).Some? ==>
      var f := files[FindArchive(files, backupId).value].id;
      && 1 <= |o.log| <= 2 && o.log[0] == DeleteFile(f)
      && (|o.log| == 2 <==> DeleteFile(f) !in refused)
      && (|o.log| == 2 ==> o.log[1] == DeleteFromTrash(f))
      && (o.result.Ok? <==> forall q :: q in o.log ==> q !in refused)
  {
    var files := ListFolderFiles(items);
    var m := FindArchive(files, backupId);
    if m.None? then Outcome([], Err(BackupNotFound(backupId)))
    else
      var f := files[m.value].id;
      if DeleteFile(f) in refused then Outcome([DeleteFile(f)], Err(RequestFailed(DeleteFile(f))))
      else if DeleteFromTrash(f) in refused then Outcome([DeleteFile(f), DeleteFromTrash(f)], Err(RequestFailed(DeleteFromTrash(f))))
      else Outcome([DeleteFile(f), DeleteFromTrash(f)], Ok(()))
  }

  /** Deleting a backup purges the trash for the file it deleted; retention never does. */
  lemma DeleteBackupPurgesSameFile(files: seq<Entry>, backupId: string, refused: set<Request>, n: int)
    requires DeleteBackup(files, backupId, refused).result.Ok?
    ensures exists f :: DeleteBackup(files, backupId, refused).log == [DeleteFile(f), DeleteFromTrash(f)]
    ensures forall q :: q in DeleteCalls(Surplus(files, n)) ==> !q.DeleteFromTrash?
  {
    forall q | q in DeleteCalls(Surplus(files, n)) ensures !q.DeleteFromTrash? {
      RetentionNeverPurges(files, n, q);
    }
  }

  // ---------------------------------------------------------------------------
  // Listing and getting a backup

  /** The parse results of the entries `async_list_backups` reports, in listing order. */
  function ListedBackups(files: seq<Entry>): (ms: seq<Meta>)
    ensures forall m :: m in ms ==> exists e :: e in files && ParseFilename(e.name) == Some(m)
    decreases |files|
  {
    if |files| == 0 then []
    else
      var last := files[|files| - 1];
      var init := ListedBackups(files[..|files| - 1]);
      assert forall e :: e in files[..|files| - 1] ==> e in files;
      match ParseFilename(last.name)
      case None => init
      case Some(m) => init + [m]
  }

  /** `async_list_backups`: list the folder's files, parse each name and skip those that do not parse. */
  method ListBackups(items: seq<Entry>) returns (backups: seq<Meta>)
    ensures backups == ListedBackups(ListFolderFiles(items))
  {
    var files := ListFolderFiles(items);
    backups := [];
    for i := 0 to |files|
      invariant backups == ListedBackups(files[..i])
    {
      assert files[..i + 1][..i] == files[..i];
      var meta := TryParseFilename(files[i].name);
      if meta.Some? {
        backups := backups + [meta.value];
      }
    }
    assert files[..|files|] == files;
  }

  /** The first listed backup whose id is exactly `backupId`. */
  function FirstWithId(ms: seq<Meta>, backupId: string): (r: Option<Meta>)
    ensures r.Some? ==> r.value in ms && r.value.backupId == backupId
    ensures r.None? <==> forall m :: m in ms ==> m.backupId != backupId
    ensures r.Some? ==> exists k :: 0 <= k < |ms| && ms[k] == r.value && forall j :: 0 <= j < k ==> ms[j].backupId != backupId
    decreases |ms|
  {
    if |ms| == 0 then None
    else if ms[0].backupId == backupId then
      Some(ms[0])
    else
      assert forall m :: m in ms ==> m == ms[0] || m in ms[1..];
      var r := FirstWithId(ms[1..], backupId);
      assert r.Some? ==> exists k :: 1 <= k < |ms| && ms[k] == r.value && forall j :: 0 <= j < k ==> ms[j].backupId != backupId by {
        if r.Some? {
          var k :| 0 <= k < |ms[1..]| && ms[1..][k] == r.value && forall j :: 0 <= j < k ==> ms[1..][j].backupId != backupId;
          assert ms[k + 1] == r.value;
          assert forall j :: 0 <= j < k + 1 ==> ms[j].backupId != backupId by {
            forall j | 0 <= j < k + 1 ensures ms[j].backupId != backupId {
              if j > 0 { assert ms[j] == ms[1..][j - 1]; }
            }
          }
        }
      }
      r
  }

  /** `async_get_backup`: an exact comparison of ids over the listed backups. */
  function GetBackup(items: seq<Entry>, backupId: string): (r: Result<Meta, AgentError>)
    ensures r.Ok? ==> r.value.backupId == backupId &&
                      exists e :: e in items && e.kind == "file" && ParseFilename(e.name) == Some(r.value)
    ensures r.Err? <==> forall e, m :: e in items && e.kind == "file" && ParseFilename(e.name) == Some(m) ==> m.backupId != backupId
    ensures r.Ok? ==> exists j :: FirstParsedWithId(ListFolderFiles(items), j, backupId, r.value)
  {
    var files := ListFolderFiles(items);
    var found := FirstWithId(ListedBackups(files), backupId);
    ListedCoversParsed(files);
    FirstListedWithId(files, backupId);
    if found.None? then Err(BackupNotFound(backupId)) else Ok(found.value)
  }

  /** `files[j]` is the first listed file whose name parses to a backup with id `backupId`, and it parses to `m`. */
  predicate FirstParsedWithId(files: seq<Entry>, j: int, backupId: string, m: Meta) {
    0 <= j < |files| && ParseFilename(files[j].name) == Some(m) && m.backupId == backupId &&
    forall k :: 0 <= k < j ==> ParseFilename(files[k].name).None? || ParseFilename(files[k].name).value.backupId != backupId
  }

  /** Looking for an id in two lists joined finds it in the first list when it is there, and in the second otherwise. */
  lemma {:induction false} FirstWithIdAppend(ms: seq<Meta>, ext: seq<Meta>, backupId: string)
    ensures FirstWithId(ms + ext, backupId)
         == if FirstWithId(ms, backupId).Some? then FirstWithId(ms, backupId) else FirstWithId(ext, backupId)
  {
    if |ms| == 0 {
      assert ms + ext == ext;
    } else {
      assert (ms + ext)[0] == ms[0] && (ms + ext)[1..] == ms[1..] + ext;
      if ms[0].backupId != backupId {
        FirstWithIdAppend(ms[1..], ext, backupId);
      }
    }
  }

  /** The backup found among the listed backups is that of the first file whose name parses with that id. */
  lemma {:induction false} FirstListedWithId(files: seq<Entry>, backupId: string)
    ensures var r := FirstWithId(ListedBackups(files), backupId);
            r.Some? ==> exists j :: FirstParsedWithId(files, j, backupId, r.value)
    decreases |files|
  {
    var r := FirstWithId(ListedBackups(files), backupId);
    if |files| > 0 && r.Some? {
      var n := |files| - 1;
      var init, last := files[..n], files[n];
      var earlier := FirstWithId(ListedBackups(init), backupId);
      var tail := match ParseFilename(last.name) case None => [] case Some(m) => [m];
      assert ListedBackups(files) == ListedBackups(init) + tail;
      FirstWithIdAppend(ListedBackups(init), tail, backupId);
      if earlier.Some? {
        FirstListedWithId(init, backupId);
        var j :| FirstParsedWithId(init, j, backupId, earlier.value);
        assert forall k :: 0 <= k <= j ==> files[k] == init[k];
        assert FirstParsedWithId(files, j, backupId, r.value);
      } else {
        ListedCoversParsed(init);
        assert tail == [r.value];
        assert forall k :: 0 <= k < n ==> files[k] in init by {
          forall k | 0 <= k < n ensures files[k] in init {
            assert files[k] == init[k];
          }
        }
        assert FirstParsedWithId(files, n, backupId, r.value);
      }
    }
  }

  /** Every entry that parses is listed. */
  lemma {:induction false} ListedCoversParsed(files: seq<Entry>)
    ensures forall e, m :: e in files && ParseFilename(e.name) == Some(m) ==> m in ListedBackups(files)
    decreases |files|
  {
    if |files| > 0 {
      var init := files[..|files| - 1];
      ListedCoversParsed(init);
      assert files == init + [files[|files| - 1]];
      forall e, m | e in files && ParseFilename(e.name) == Some(m) ensures m in ListedBackups(files) {
        if e != files[|files| - 1] {
          assert e in init;
        }
      }
    }
  }

  /** A backup that `async_get_backup` finds is always found by download and delete too. */
  lemma GottenIsDownloadable(items: seq<Entry>, backupId: string)
    requires GetBackup(items, backupId).Ok?
    ensures DownloadBackup(items, backupId).Ok?
    ensures FindArchive(ListFolderFiles(items), backupId).Some?
  {
    var files := ListFolderFiles(items);
    var m := GetBackup(items, backupId).value;
    var e :| e in items && e.kind == "file" && ParseFilename(e.name) == Some(m);
    ParseAccepts(e.name, m);
    var j :| 0 <= j < |files| && files[j] == e;
    assert NameMatchesId(files[j], backupId);
  }

  /** A written name contains the id tag followed by any prefix of its id. */
  lemma IdPrefixMatches(stem: string, id: string, ver: string, prot: string, k: nat)
    requires k <= |id|
    ensures NameMatchesId(Entry(0, Composed(stem, id, ver, prot) + TAR, "file"), id[..k])
  {
    WrittenNameShape(stem, id, ver, prot);
  }

  /**
    The match of download and delete is a substring test: for the id `ab` it picks
    the earlier archive of the backup `abc`, while `async_get_backup` returns `ab`.
  */
  lemma SubstringMatchPicksOtherBackup()
    ensures var files := [Entry(1, Composed("x", "abc", "1", "false") + TAR, "file"),
                          Entry(2, Composed("x", "ab", "1", "false") + TAR, "file")];
            && DownloadBackup(files, "ab") == Ok(1)
            && GetBackup(files, "ab") == Ok(Meta("x", "ab", Some("1"), Some(false)))
  {
    var n1, n2 := Composed("x", "abc", "1", "false") + TAR, Composed("x", "ab", "1", "false") + TAR;
    DownloadTakesFirst(n1, n2);
    GetComparesExactly(n1, n2);
  }

  lemma DownloadTakesFirst(n1: string, n2: string)
    requires n1 == Composed("x", "abc", "1", "false") + TAR
    ensures DownloadBackup([Entry(1, n1, "file"), Entry(2, n2, "file")], "ab") == Ok(1)
  {
    var files := [Entry(1, n1, "file"), Entry(2, n2, "file")];
    AllFilesListed(files);
    IdPrefixMatches("x", "abc", "1", "false", 2);
    assert "abc"[..2] == "ab";
    assert FindArchive(files, "ab") == Some(0);
  }

  lemma GetComparesExactly(n1: string, n2: string)
    requires n1 == Composed("x", "abc", "1", "false") + TAR && n2 == Composed("x", "ab", "1", "false") + TAR
    ensures GetBackup([Entry(1, n1, "file"), Entry(2, n2, "file")], "ab") == Ok(Meta("x", "ab", Some("1"), Some(false)))
  {
    var files := [Entry(1, n1, "file"), Entry(2, n2, "file")];
    AllFilesListed(files);
    ListedExample(n1, n2);
    var ms := [Meta("x", "abc", Some("1"), Some(false)), Meta("x", "ab", Some("1"), Some(false))];
    assert ms[0].backupId != "ab";
    assert ms[1..] == [ms[1]];
    assert FirstWithId(ms, "ab") == FirstWithId([ms[1]], "ab") == Some(ms[1]);
  }

  lemma ListedExample(n1: string, n2: string)
    requires n1 == Composed("x", "abc", "1", "false") + TAR && n2 == Composed("x", "ab", "1", "false") + TAR
    ensures ListedBackups([Entry(1, n1, "file"), Entry(2, n2, "file")])
         == [Meta("x", "abc", Some("1"), Some(false)), Meta("x", "ab", Some("1"), Some(false))]
  {
    SafeLiteral("x");
    SafeLiteral("ab");
    SafeLiteral("abc");
    SafeLiteral("1");
    ParseWritten("x", "abc", "1", false);
    ParseWritten("x", "ab", "1", false);
    ListedTwo(Entry(1, n1, "file"), Entry(2, n2, "file"),
      Meta("x", "abc", Some("1"), Some(false)), Meta("x", "ab", Some("1"), Some(false)));
  }

  /** Two entries that both parse are listed in order. */
  lemma ListedTwo(e1: Entry, e2: Entry, m1: Meta, m2: Meta)
    requires ParseFilename(e1.name) == Some(m1) && ParseFilename(e2.name) == Some(m2)
    ensures ListedBackups([e1, e2]) == [m1, m2]
  {
    ListedSnoc([], e1, m1);
    assert [] + [e1] == [e1];
    ListedSnoc([e1], e2, m2);
    assert [e1] + [e2] == [e1, e2];
  }

  /** An entry that parses, appended to the listing, appends its parse to the listed backups. */
  lemma ListedSnoc(files: seq<Entry>, e: Entry, m: Meta)
    requires ParseFilename(e.name) == Some(m)
    ensures ListedBackups(files + [e]) == ListedBackups(files) + [m]
  {
    assert (files + [e])[..|files|] == files;
    assert (files + [e])[|files|] == e;
  }

  /** A word without `_` is a safe field. */
  lemma SafeLiteral(w: string)
    requires w != "" && forall i :: 0 <= i < |w| ==> w[i] != '_'
    ensures SafeField(w)
  {
    forall i: nat | i <= |w| ensures !MatchAt(w, "__", i) {
      if i + 2 <= |w| {
        assert w[i..i + 2][0] == w[i];
      }
    }
    assert w[|w| - 1..][0] == w[|w| - 1];
  }
}
