/**
 * ListFiles, the pieces that are not the handler's own statements: the callback it passes to
 * filepath.Walk, the recency order it sorts by, and the HTML it writes.
 */
module Catalog {
  import opened Wrappers
  import opened Http
  import opened Handlers
  import SizeFormat

  /** The root handed to filepath.Walk, exactly as the callback compares paths with it. */
  const UploadDir := "./uploads"

  /** What os.FileInfo tells the listing about an entry. */
  datatype FileInfo = FileInfo(name: string, size: SizeFormat.int64, modTime: int)

  /** One call Walk makes to the callback: a path with its Lstat information, or with the error met there. */
  datatype Visit = Visited(path: string, info: FileInfo) | Failed(path: string, err: string)

  /** What the callback does with a visit: nothing, collect the entry, or stop the walk with an error. */
  datatype Step = Skip | Collect(info: FileInfo) | Stop(err: string)

  /**
   * The callback of ListFiles. The root is skipped before its error is even looked at, so a
   * failure to stat or read the upload directory itself is dropped; any other failure stops
   * the walk; every other entry is collected.
   */
  function OnVisit(v: Visit): (st: Step)
    ensures st == Skip <==> v.path == UploadDir
    ensures st.Stop? <==> v.Failed? && v.path != UploadDir
    ensures st.Collect? ==> v.Visited? && st.info == v.info
  {
    if v.path == UploadDir then Skip
    else match v
      case Failed(_, e) => Stop(e)
      case Visited(_, info) => Collect(info)
  }

  /** Walk reaches a stored file by a path of its own, never by the root's. */
  lemma ChildIsNotRoot(name: string)
    ensures StoredPath(name) != UploadDir
  {
    assert StoredPath(name)[0] == 'u' && UploadDir[0] == '.';
  }

  /** How the file system answers during the walk: the root may fail Lstat or ReadDir, an entry Lstat. */
  datatype WalkEnv = WalkEnv(rootErr: Option<string>, lstatErr: map<string, string>)

  /** The information Lstat gives about a stored file. */
  function InfoOf(s: Store, name: string): FileInfo
    requires name in s.files && name in s.mtimes
  {
    FileInfo(name, |s.files[name]| as SizeFormat.int64, s.mtimes[name])
  }

  function Names(infos: seq<FileInfo>): set<string>
  {
    set k | 0 <= k < |infos| :: infos[k].name
  }

  lemma NamesAppend(infos: seq<FileInfo>, info: FileInfo)
    ensures Names(infos + [info]) == Names(infos) + {info.name}
  {
    var both := infos + [info];
    assert both[|infos|] == info;
    forall n | n in Names(both) ensures n in Names(infos) + {info.name} {
      var k :| 0 <= k < |both| && both[k].name == n;
      if k < |infos| { assert infos[k] == both[k]; }
    }
    forall n | n in Names(infos) ensures n in Names(both) {
      var k :| 0 <= k < |infos| && infos[k].name == n;
      assert both[k] == infos[k];
    }
  }

  /**
   * What the walk over the store collects: the information of stored files, each at most once
   * and none whose Lstat failed; nothing at all when the root failed (and no error then);
   * every stored file when no error stopped it; and an error only from a stored file whose
   * Lstat failed.
   */
  ghost predicate Enumerated(s: Store, env: WalkEnv, infos: seq<FileInfo>, err: Option<string>)
    requires s.Valid()
  {
    && (forall k :: 0 <= k < |infos| ==> infos[k].name in s.files && infos[k] == InfoOf(s, infos[k].name))
    && (forall k :: 0 <= k < |infos| ==> infos[k].name !in env.lstatErr)
    && (forall k, l :: 0 <= k < l < |infos| ==> infos[k].name != infos[l].name)
    && (env.rootErr.Some? ==> infos == [] && err.None?)
    && (err.None? && env.rootErr.None? ==> Names(infos) == s.files.Keys)
    && (err.Some? ==> exists n :: n in s.files && n in env.lstatErr && err.value == env.lstatErr[n])
  }

  /** When no stored file fails Lstat the walk reports no error and lists the whole store (or nothing, if the root failed). */
  lemma EnumeratedWithoutFailures(s: Store, env: WalkEnv, infos: seq<FileInfo>, err: Option<string>)
    requires s.Valid() && Enumerated(s, env, infos, err)
    requires s.files.Keys !! env.lstatErr.Keys
    ensures err.None?
    ensures env.rootErr.None? ==> Names(infos) == s.files.Keys && |infos| == |s.files|
  {
    if env.rootErr.None? {
      DistinctNamesCount(infos);
    }
  }

  /** Entries with pairwise different names number as many as their names. */
  lemma {:induction false} DistinctNamesCount(infos: seq<FileInfo>)
    requires forall k, l :: 0 <= k < l < |infos| ==> infos[k].name != infos[l].name
    ensures |Names(infos)| == |infos|
    decreases |infos|
  {
    if infos != [] {
      var init := infos[..|infos| - 1];
      DistinctNamesCount(init);
      assert Names(infos) == Names(init) + {infos[|infos| - 1].name};
      assert infos[|infos| - 1].name !in Names(init);
    }
  }

  /** Most recently modified first: the order of the comparator given to slices.SortFunc. */
  predicate SortedByRecency(s: seq<FileInfo>)
  {
    forall k, l :: 0 <= k < l < |s| ==> s[k].modTime >= s[l].modTime
  }

  method Swap(a: array<FileInfo>, i: int, j: int)
    requires 0 <= i < a.Length && 0 <= j < a.Length
    modifies a
    ensures a[i] == old(a[j]) && a[j] == old(a[i])
    ensures forall k :: 0 <= k < a.Length && k != i && k != j ==> a[k] == old(a[k])
    ensures multiset(a[..]) == old(multiset(a[..]))
  {
    a[i], a[j] := a[j], a[i];
  }

  /**
   * slices.SortFunc(files, cmp) with cmp ordering later modification times first. Entries with
   * equal times may come out in any order, as the library's sort is not stable; insertion
   * sort is one order it may produce.
   */
  method SortByRecency(a: array<FileInfo>)
    modifies a
    ensures SortedByRecency(a[..])
    ensures multiset(a[..]) == old(multiset(a[..]))
  {
    var i := 0;
    while i < a.Length
      invariant 0 <= i <= a.Length
      invariant forall k, l :: 0 <= k < l < i ==> a[k].modTime >= a[l].modTime
      invariant multiset(a[..]) == old(multiset(a[..]))
    {
      var j := i;
      while j > 0 && a[j - 1].modTime < a[j].modTime
        invariant 0 <= j <= i
        invariant forall k, l :: 0 <= k < l <= i && k != j && l != j ==> a[k].modTime >= a[l].modTime
        invariant forall l :: j < l <= i ==> a[j].modTime > a[l].modTime
        invariant multiset(a[..]) == old(multiset(a[..]))
      {
        Swap(a, j - 1, j);
        j := j - 1;
      }
      i := i + 1;
    }
  }

  const Heading := "<h1>File Vault Lite</h1>\n"
  const ListOpen := "<ul>\n"
  const ListClose := "</ul>\n"

  /** One list item: a download link named after the file, its size and its formatted time. */
  function Item(info: FileInfo, formatTime: int -> string): string
  {
    "<li><a href=\"/download?filename=" + info.name + "\">" + info.name + "</a> ("
      + SizeFormat.HumanReadableSize(info.size) + ", " + formatTime(info.modTime) + ")</li>"
  }

  /** The writes of the loop over the sorted entries. */
  function ItemWrites(entries: seq<FileInfo>, formatTime: int -> string): (ws: seq<Write>)
    ensures |ws| == |entries|
    decreases |entries|
  {
    if entries == [] then []
    else ItemWrites(entries[..|entries| - 1], formatTime) + [Text(Item(entries[|entries| - 1], formatTime))]
  }

  lemma {:induction false} ItemWritesAt(entries: seq<FileInfo>, formatTime: int -> string, k: int)
    requires 0 <= k < |entries|
    ensures ItemWrites(entries, formatTime)[k] == Text(Item(entries[k], formatTime))
    decreases |entries|
  {
    if k < |entries| - 1 {
      ItemWritesAt(entries[..|entries| - 1], formatTime, k);
    }
  }

  lemma {:induction false} ItemWritesText(entries: seq<FileInfo>, formatTime: int -> string)
    ensures Statuses(ItemWrites(entries, formatTime)) == [] && Payload(ItemWrites(entries, formatTime)) == []
    decreases |entries|
  {
    if entries != [] {
      var init := ItemWrites(entries[..|entries| - 1], formatTime);
      var last := [Text(Item(entries[|entries| - 1], formatTime))];
      ItemWritesText(entries[..|entries| - 1], formatTime);
      StatusesAppend(init, last);
      PayloadAppend(init, last);
    }
  }

  /** What ListFiles writes for the sorted entries and the walk's error. */
  function Listing(entries: seq<FileInfo>, err: Option<string>, formatTime: int -> string): Response
  {
    var tail := match err
      case None => [Text(ListClose)]
      case Some(e) => [Status(StatusInternalServerError), Text("Error: " + e)];
    Response(map[], [Text(Heading), Text(ListOpen)] + ItemWrites(entries, formatTime) + tail)
  }

  /**
   * The writes of ListFiles once the entries are sorted: the heading and "<ul>" (written before
   * the walk, which writes nothing itself), one item per entry in array order, then "</ul>" or
   * the walk's error.
   */
  method WriteListing(a: array<FileInfo>, err: Option<string>, formatTime: int -> string) returns (resp: Response)
    ensures resp == Listing(a[..], err, formatTime)
  {
    var writes := [Text(Heading), Text(ListOpen)];
    for i := 0 to a.Length
      invariant writes == [Text(Heading), Text(ListOpen)] + ItemWrites(a[..i], formatTime)
    {
      assert a[..i + 1][..i] == a[..i];
      writes := writes + [Text(Item(a[i], formatTime))];
    }
    assert a[..a.Length] == a[..];
    if err.Some? {
      writes := writes + [Status(StatusInternalServerError), Text("Error: " + err.value)];
    } else {
      writes := writes + [Text(ListClose)];
    }
    resp := Response(map[], writes);
  }

  /**
   * The listing is the heading, "<ul>", one item per entry in the entries' order, and then
   * "</ul>", or, when the walk failed, a 500 and the error text after the items already written.
   */
  lemma ListingLayout(entries: seq<FileInfo>, err: Option<string>, formatTime: int -> string)
    ensures var ws := Listing(entries, err, formatTime).writes;
      && |ws| == |entries| + (if err.None? then 3 else 4)
      && ws[0] == Text(Heading) && ws[1] == Text(ListOpen)
      && (forall k :: 0 <= k < |entries| ==> ws[2 + k] == Text(Item(entries[k], formatTime)))
      && (err.None? ==> ws[|ws| - 1] == Text(ListClose))
      && (err.Some? ==> ws[|ws| - 2..] == [Status(StatusInternalServerError), Text("Error: " + err.value)])
  {
    forall k | 0 <= k < |entries|
      ensures Listing(entries, err, formatTime).writes[2 + k] == Text(Item(entries[k], formatTime))
    {
      ItemWritesAt(entries, formatTime, k);
    }
  }

  /** The only status a listing sets is the 500 of a failed walk; it never writes raw bytes. */
  lemma ListingStatuses(entries: seq<FileInfo>, err: Option<string>, formatTime: int -> string)
    ensures Statuses(Listing(entries, err, formatTime).writes) == if err.None? then [] else [StatusInternalServerError]
    ensures Payload(Listing(entries, err, formatTime).writes) == []
  {
    var head := [Text(Heading), Text(ListOpen)];
    var items := ItemWrites(entries, formatTime);
    var tail := if err.None? then [Text(ListClose)] else [Status(StatusInternalServerError), Text("Error: " + err.value)];
    assert Listing(entries, err, formatTime).writes == head + items + tail;
    ItemWritesText(entries, formatTime);
    StatusesAppend(head, items);
    StatusesAppend(head + items, tail);
    PayloadAppend(head, items);
    PayloadAppend(head + items, tail);
    assert head[1..][1..] == [];
    if err.None? {
      assert tail[1..] == [];
    } else {
      assert tail[1..][1..] == [];
    }
  }

  /** In a listing sorted by recency, a file modified later is listed before one modified earlier. */
  lemma NewerListedFirst(entries: seq<FileInfo>, err: Option<string>, formatTime: int -> string, k: int, l: int)
    requires SortedByRecency(entries)
    requires 0 <= k < |entries| && 0 <= l < |entries| && entries[k].modTime > entries[l].modTime
    ensures k < l
    ensures Listing(entries, err, formatTime).writes[2 + k] == Text(Item(entries[k], formatTime))
    ensures Listing(entries, err, formatTime).writes[2 + l] == Text(Item(entries[l], formatTime))
  {
    ListingLayout(entries, err, formatTime);
  }
}
