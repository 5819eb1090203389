/**
  The remote kDrive folder as the backup agent sees it: listing entries and the
  requests the agent sends. The HTTP client itself is not modelled; a listing is
  an input, and the server's answer to a request is given by the set of requests
  it refuses.
*/
module Remote {
  /** One item of the folder listing: its file id, `name` (empty when absent) and `type`. */
  datatype Entry = Entry(id: int, name: string, kind: string)

  datatype UploadPath = Direct | Chunked

  /** A call of the agent into the kDrive client. */
  datatype Request =
    | Upload(path: UploadPath, fileName: string, size: int)
    | DeleteFile(fileId: int)
    | DeleteFromTrash(fileId: int)

  /**
    `list_folder_files`: only the items whose type is `file`, in the server's order;
    each file item is kept as many times as the server lists it.
  */
  function ListFolderFiles(items: seq<Entry>): (files: seq<Entry>)
    ensures forall e :: e in files <==> e in items && e.kind == "file"
    ensures |files| <= |items|
  {
    if |items| == 0 then []
    else
      var rest := ListFolderFiles(items[1..]);
      assert forall e :: e in items <==> e == items[0] || e in items[1..];
      if items[0].kind == "file" then [items[0]] + rest else rest
  }

  /** Each file item is kept exactly as many times as the server lists it; other items not at all. */
  lemma {:induction false} ListFolderFilesCount(items: seq<Entry>, e: Entry)
    ensures multiset(ListFolderFiles(items))[e] == if e.kind == "file" then multiset(items)[e] else 0
  {
    if |items| > 0 {
      ListFolderFilesCount(items[1..], e);
      assert items == [items[0]] + items[1..];
      assert multiset(items) == multiset{items[0]} + multiset(items[1..]);
    }
  }

  /** A listing made only of files is kept whole. */
  lemma {:induction false} AllFilesListed(items: seq<Entry>)
    requires forall e :: e in items ==> e.kind == "file"
    ensures ListFolderFiles(items) == items
  {
    if |items| > 0 {
      assert items[0] in items;
      assert forall e :: e in items[1..] ==> e in items;
      AllFilesListed(items[1..]);
      assert items == [items[0]] + items[1..];
    }
  }

  /** Filtering a listing piece by piece gives the pieces' filtered listings in order: the server's order is kept. */
  lemma {:induction false} ListFolderFilesAppend(a: seq<Entry>, b: seq<Entry>)
    ensures ListFolderFiles(a + b) == ListFolderFiles(a) + ListFolderFiles(b)
  {
    if |a| == 0 {
      assert a + b == b;
    } else {
      var ab, head := a + b, if a[0].kind == "file" then [a[0]] else [];
      assert ab[0] == a[0] && ab[1..] == a[1..] + b;
      assert ListFolderFiles(ab) == head + ListFolderFiles(a[1..] + b);
      ListFolderFilesAppend(a[1..], b);
      assert ListFolderFiles(a) == head + ListFolderFiles(a[1..]);
    }
  }
}
