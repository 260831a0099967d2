/** The attachment pipeline: pending attachments, smallest first, are
    skipped (noise file names, unsupported types), downloaded, deduplicated
    by content hash, extracted and settled as completed or failed. The Graph
    download, the SHA-256 digest and the documents CLI are parameters. */
module Attachments {
  import opened Wrappers
  import opened Text
  import Sorting

  type Bytes = seq<bv8>

  datatype ExtractionStatus = Pending | Completed | Failed | Skipped

  datatype Attachment = Attachment(id: string, emailId: string, filename: Option<string>, contentType: Option<string>,
                                   sizeBytes: Option<nat>, status: ExtractionStatus, text: Option<string>,
                                   error: Option<string>, contentHash: Option<string>, extractedAt: Option<int>)

  /** The outside world one pass depends on: `download(email id, attachment id)`
      (None when the request fails), the SHA-256 hex digest, the text
      extraction (None when it yields nothing) and the clock. */
  datatype Services = Services(download: (string, string) -> Option<Bytes>,
                               sha256Hex: Bytes -> string,
                               extract: (Bytes, string, string) -> Option<string>,
                               now: int)

  const DefaultLimit := 50
  const HashLength := 32

  /** Content types text can be extracted from. */
  const ExtractableTypes: set<string> := {
    "application/pdf",
    "application/msword",
    "application/vnd.openxmlformats-officedocument.wordprocessingml.document",
    "application/vnd.openxmlformats-officedocument.spreadsheetml.sheet",
    "application/vnd.openxmlformats-officedocument.presentationml.presentation",
    "application/vnd.ms-excel",
    "application/vnd.ms-powerpoint",
    "text/plain",
    "text/csv",
    "text/html",
    "text/markdown"
  }

  /** Substrings of a file-name stem that mark signatures, logos and the like. */
  const SkipFilenamePatterns: set<string> := {
    "image001", "image002", "image003", "image004", "image005",
    "signature", "logo", "banner", "footer", "header"
  }

  // ------------------------------------------------------------ selection

  function PendingRows(rows: seq<Attachment>): (r: seq<Attachment>)
    ensures forall a :: a in r <==> a in rows && a.status == Pending
  {
    if |rows| == 0 then []
    else (if rows[0].status == Pending then [rows[0]] else []) + PendingRows(rows[1..])
  }

  /** `ORDER BY size_bytes ASC`: a NULL size sorts first. */
  function SizeKey(a: Attachment): real {
    match a.sizeBytes
    case None => -1.0
    case Some(n) => n as real
  }

  /** SQLite's `LIMIT n`: a negative limit means no limit. */
  function Limit<T>(s: seq<T>, limit: int): (r: seq<T>)
    ensures limit < 0 ==> r == s
    ensures limit >= 0 ==> r == Sorting.Take(s, limit)
  {
    if limit < 0 then s else Sorting.Take(s, limit)
  }

  /** `_get_pending_attachments`. */
  function SelectPending(rows: seq<Attachment>, limit: int): (r: seq<Attachment>)
    ensures limit >= 0 ==> |r| <= limit
    ensures forall i :: 0 <= i < |r| ==> r[i] in rows && r[i].status == Pending
    ensures Sorting.SortedBy(r, SizeKey)
  {
    var pending := PendingRows(rows);
    var sorted := Sorting.SortBy(pending, SizeKey);
    Sorting.SortByMembers(pending, SizeKey);
    if limit < 0 then
      sorted
    else
      var r := Sorting.Take(sorted, limit);
      assert forall i :: 0 <= i < |r| ==> r[i] == sorted[i] && r[i] in sorted && r[i] in pending;
      r
  }

  /** A pending attachment left out is no smaller than any selected one, and
      it is only left out when the limit was reached. */
  lemma SelectSmallestFirst(rows: seq<Attachment>, limit: int, a: Attachment)
    requires a in rows && a.status == Pending && a !in SelectPending(rows, limit)
    ensures limit >= 0 && |SelectPending(rows, limit)| == limit
    ensures forall i :: 0 <= i < limit ==> SizeKey(SelectPending(rows, limit)[i]) <= SizeKey(a)
  {
    var pending := PendingRows(rows);
    var sorted := Sorting.SortBy(pending, SizeKey);
    assert a in multiset(pending);
    assert a in sorted;
    var j :| 0 <= j < |sorted| && sorted[j] == a;
    var r := SelectPending(rows, limit);
    assert r == Limit(sorted, limit);
    assert limit >= 0 && j >= limit;
    forall i | 0 <= i < limit
      ensures SizeKey(r[i]) <= SizeKey(a)
    {
      assert r[i] == sorted[i];
    }
  }

  // ------------------------------------------------------------ one attachment

  /** `attachment["filename"] or "unknown"`: a missing or empty name reads as "unknown". */
  function FilenameOf(a: Attachment): (r: string)
    ensures |r| > 0
    ensures a.filename.Some? && a.filename.value != "" ==> r == a.filename.value
  {
    if a.filename.None? || a.filename.value == "" then "unknown" else a.filename.value
  }

  /** `PurePosixPath(filename).name`: the last component that is neither
      empty nor ".", so a trailing "/" or "/." is ignored; "" when there is
      no such component. */
  function PathName(filename: string): (r: string)
    ensures |r| <= |filename| && Lacks(r, '/') && r != "."
    ensures var parts := Split(filename, '/');
      (r == "" ==> forall k :: 0 <= k < |parts| ==> parts[k] == "" || parts[k] == ".")
      && (r != "" ==> exists k :: 0 <= k < |parts| && parts[k] == r
                                  && forall j :: k < j < |parts| ==> parts[j] == "" || parts[j] == ".")
  {
    var parts := Split(filename, '/');
    var k := LastNameIndex(parts);
    if k < 0 then "" else parts[k]
  }

  /** Index of the last component that is neither empty nor ".", or -1. */
  function LastNameIndex(parts: seq<string>): (k: int)
    ensures -1 <= k < |parts|
    ensures k >= 0 ==> parts[k] != "" && parts[k] != "."
    ensures forall j :: k < j < |parts| ==> parts[j] == "" || parts[j] == "."
    decreases |parts|
  {
    if |parts| == 0 then -1
    else if parts[|parts| - 1] != "" && parts[|parts| - 1] != "." then |parts| - 1
    else
      var k := LastNameIndex(parts[..|parts| - 1]);
      assert forall j :: k < j < |parts| - 1 ==> parts[..|parts| - 1][j] == parts[j];
      k
  }

  /** `Path(filename).stem`: the path's name (see `PathName`) without its
      last suffix; a leading or trailing dot is not a suffix. The stem is a
      prefix of the name; what it drops is a dot followed by dot-free text,
      with something before the dot; and it drops nothing only when the name
      has no dot, ends with one, or has its only dot in front. */
  function Stem(filename: string): (r: string)
    ensures |r| <= |filename|
    ensures Lacks(r, '/')
    ensures var name := PathName(filename);
      |r| <= |name| && r == name[..|r|]
      && (|r| < |name| ==> 0 < |r| < |name| - 1 && name[|r|] == '.' && Lacks(name[|r| + 1..], '.'))
      && (|r| == |name| ==>
            Lacks(name, '.') || name[|name| - 1] == '.' || (name[0] == '.' && Lacks(name[1..], '.')))
  {
    var name := PathName(filename);
    var i := LastIndexOfChar(name, '.');
    StemCut(name, i);
    if 0 < i < |name| - 1 then name[..i] else name
  }

  /** Cutting a name at its last dot, unless that dot is first or last. */
  lemma StemCut(name: string, i: int)
    requires -1 <= i < |name| && (i >= 0 ==> name[i] == '.')
    requires forall j :: i < j < |name| ==> name[j] != '.'
    ensures var r := if 0 < i < |name| - 1 then name[..i] else name;
      |r| <= |name| && r == name[..|r|]
      && (|r| < |name| ==> 0 < |r| < |name| - 1 && name[|r|] == '.' && Lacks(name[|r| + 1..], '.'))
      && (|r| == |name| ==>
            Lacks(name, '.') || name[|name| - 1] == '.' || (name[0] == '.' && Lacks(name[1..], '.')))
      && (Lacks(name, '/') ==> Lacks(r, '/'))
  {
    if i == 0 {
      assert forall j :: 0 <= j < |name[1..]| ==> name[1..][j] == name[j + 1];
    }
  }

  /** A trailing "/" does not hide the name: "logo.png/" has the stem of
      "logo.png", as pathlib gives. */
  lemma StemIgnoresTrailingSlash(name: string)
    requires Lacks(name, '/') && name != "" && name != "."
    ensures PathName(name + "/") == PathName(name) == name
    ensures Stem(name + "/") == Stem(name)
  {
    var s := name + "/";
    assert IndexOfChar(name, '/') == -1;
    assert Split(name, '/') == [name];
    assert s[|name|] == '/';
    assert IndexOfChar(s, '/') == |name|;
    assert s[..|name|] == name && s[|name| + 1..] == "";
    assert IndexOfChar("", '/') == -1;
    assert Split(s, '/') == [name] + Split("", '/') == [name, ""];
  }

  predicate IsNoiseName(filename: string) {
    exists p :: p in SkipFilenamePatterns && Contains(Lower(Stem(filename)), p)
  }

  /** The columns one `_update_attachment_status` call writes. */
  datatype Settlement = Settlement(status: ExtractionStatus, text: Option<string>, error: Option<string>,
                                   contentHash: Option<string>)

  function SkippedWith(error: string): Settlement {
    Settlement(Skipped, None, Some(error), None)
  }

  function FailedWith(error: string, contentHash: Option<string>): Settlement {
    Settlement(Failed, None, Some(error), contentHash)
  }

  function CompletedWith(text: string, contentHash: string): Settlement {
    Settlement(Completed, Some(text), None, Some(contentHash))
  }

  /** A row the dedupe query matches: another attachment with the same hash
      and stored text. */
  predicate CachedCopy(x: Attachment, contentHash: string, id: string) {
    x.contentHash == Some(contentHash) && x.id != id && x.text.Some?
  }

  /** The first other attachment with the same hash and stored text. */
  function FindCached(rows: seq<Attachment>, contentHash: string, id: string): (r: Option<Attachment>)
    ensures r.Some? ==> r.value in rows && CachedCopy(r.value, contentHash, id)
    ensures r.Some? ==> exists i :: (0 <= i < |rows| && r.value == rows[i]
      && forall j :: 0 <= j < i ==> !CachedCopy(rows[j], contentHash, id))
    ensures r.None? ==> forall i :: 0 <= i < |rows| ==> !CachedCopy(rows[i], contentHash, id)
  {
    if |rows| == 0 then None
    else if CachedCopy(rows[0], contentHash, id) then Some(rows[0])
    else
      var r := FindCached(rows[1..], contentHash, id);
      FirstBehindHead(rows, r, contentHash, id);
      r
  }

  /** A first match in the tail, behind a head that does not match, is a
      first match of the whole list. */
  lemma FirstBehindHead(rows: seq<Attachment>, r: Option<Attachment>, contentHash: string, id: string)
    requires |rows| > 0 && !CachedCopy(rows[0], contentHash, id)
    requires r.Some? ==> exists i :: (0 <= i < |rows[1..]| && r.value == rows[1..][i]
      && forall j :: 0 <= j < i ==> !CachedCopy(rows[1..][j], contentHash, id))
    ensures r.Some? ==> exists i :: (0 <= i < |rows| && r.value == rows[i]
      && forall j :: 0 <= j < i ==> !CachedCopy(rows[j], contentHash, id))
  {
    if r.Some? {
      var tail := rows[1..];
      var i :| 0 <= i < |tail| && r.value == tail[i]
        && forall j :: 0 <= j < i ==> !CachedCopy(tail[j], contentHash, id);
      assert r.value == rows[i + 1];
      assert forall j :: 0 < j <= i + 1 ==> rows[j] == tail[j - 1];
    }
  }

  /** `hashlib.sha256(content).hexdigest()[:32]`. */
  function ContentHash(svc: Services, content: Bytes): string {
    Sorting.Take(svc.sha256Hex(content), HashLength)
  }

  /** `process_attachment`, reading the table as it stands. */
  function ProcessAttachment(rows: seq<Attachment>, a: Attachment, svc: Services): (r: Settlement)
    ensures r.status in {Completed, Failed, Skipped}
    ensures r.status == Completed ==> r.text.Some? && r.contentHash.Some?
    ensures r.status != Completed ==> r.text.None? && r.error.Some?
  {
    var filename := FilenameOf(a);
    var contentType := a.contentType.UnwrapOr("");
    if IsNoiseName(filename) then
      SkippedWith("Filename matches skip pattern: " + filename)
    else if contentType !in ExtractableTypes then
      SkippedWith("Content type not supported: " + contentType)
    else
      match svc.download(a.emailId, a.id)
      case None => FailedWith("Download failed", None)
      case Some(content) =>
        var h := ContentHash(svc, content);
        match FindCached(rows, h, a.id)
        case Some(cached) => CompletedWith(cached.text.value, h)
        case None =>
          match svc.extract(content, filename, contentType)
          case Some(text) =>
            if |text| > 0 then CompletedWith(text, h)
            else FailedWith("Text extraction returned empty", Some(h))
          case None => FailedWith("Text extraction returned empty", Some(h))
  }

  /** The noise-name check comes first: such a file is skipped whatever its
      type, and nothing is downloaded. */
  lemma NoiseNameSkipped(rows: seq<Attachment>, a: Attachment, svc1: Services, svc2: Services)
    requires IsNoiseName(FilenameOf(a))
    ensures ProcessAttachment(rows, a, svc1) == SkippedWith("Filename matches skip pattern: " + FilenameOf(a))
    ensures ProcessAttachment(rows, a, svc1) == ProcessAttachment(rows, a, svc2)
  {
  }

  /** An unsupported type is skipped without a download. */
  lemma UnsupportedTypeSkipped(rows: seq<Attachment>, a: Attachment, svc1: Services, svc2: Services)
    requires !IsNoiseName(FilenameOf(a))
    requires a.contentType.UnwrapOr("") !in ExtractableTypes
    ensures ProcessAttachment(rows, a, svc1) == SkippedWith("Content type not supported: " + a.contentType.UnwrapOr(""))
    ensures ProcessAttachment(rows, a, svc1) == ProcessAttachment(rows, a, svc2)
  {
  }

  /** A failed download fails the attachment, with no hash. */
  lemma DownloadFailureFails(rows: seq<Attachment>, a: Attachment, svc: Services)
    requires !IsNoiseName(FilenameOf(a))
    requires a.contentType.UnwrapOr("") in ExtractableTypes
    requires svc.download(a.emailId, a.id).None?
    ensures ProcessAttachment(rows, a, svc) == FailedWith("Download failed", None)
  {
  }

  /** Content already extracted for another attachment is reused: the text is
      copied from the first such row and the extractor plays no part. */
  lemma DuplicateContentReused(rows: seq<Attachment>, a: Attachment, svc: Services, other: Services)
    requires !IsNoiseName(FilenameOf(a))
    requires a.contentType.UnwrapOr("") in ExtractableTypes
    requires svc.download(a.emailId, a.id).Some?
    requires FindCached(rows, ContentHash(svc, svc.download(a.emailId, a.id).value), a.id).Some?
    requires other == svc.(extract := other.extract)
    ensures ProcessAttachment(rows, a, svc).status == Completed
    ensures ProcessAttachment(rows, a, svc).text
         == FindCached(rows, ContentHash(svc, svc.download(a.emailId, a.id).value), a.id).value.text
    ensures ProcessAttachment(rows, a, svc) == ProcessAttachment(rows, a, other)
  {
  }

  /** Without a cached copy, an empty extraction fails and keeps the hash. */
  lemma EmptyExtractionFails(rows: seq<Attachment>, a: Attachment, svc: Services)
    requires !IsNoiseName(FilenameOf(a))
    requires a.contentType.UnwrapOr("") in ExtractableTypes
    requires svc.download(a.emailId, a.id).Some?
    requires FindCached(rows, ContentHash(svc, svc.download(a.emailId, a.id).value), a.id).None?
    requires var got := svc.extract(svc.download(a.emailId, a.id).value, FilenameOf(a),
                                    a.contentType.UnwrapOr(""));
             got.None? || got.value == ""
    ensures ProcessAttachment(rows, a, svc)
         == FailedWith("Text extraction returned empty", Some(ContentHash(svc, svc.download(a.emailId, a.id).value)))
  {
  }

  /** Without a cached copy, a non-empty extraction completes the attachment
      with that text and the content hash. */
  lemma FreshExtractionCompletes(rows: seq<Attachment>, a: Attachment, svc: Services)
    requires !IsNoiseName(FilenameOf(a))
    requires a.contentType.UnwrapOr("") in ExtractableTypes
    requires svc.download(a.emailId, a.id).Some?
    requires FindCached(rows, ContentHash(svc, svc.download(a.emailId, a.id).value), a.id).None?
    requires var got := svc.extract(svc.download(a.emailId, a.id).value, FilenameOf(a), a.contentType.UnwrapOr(""));
             got.Some? && got.value != ""
    ensures var content := svc.download(a.emailId, a.id).value;
      ProcessAttachment(rows, a, svc)
      == CompletedWith(svc.extract(content, FilenameOf(a), a.contentType.UnwrapOr("")).value, ContentHash(svc, content))
  {
  }

  /** A completed attachment always carries non-empty text when every
      stored text in the table is non-empty. */
  lemma CompletedTextNonEmpty(rows: seq<Attachment>, a: Attachment, svc: Services)
    requires forall i :: 0 <= i < |rows| && rows[i].text.Some? ==> |rows[i].text.value| > 0
    ensures ProcessAttachment(rows, a, svc).status == Completed ==> |ProcessAttachment(rows, a, svc).text.value| > 0
  {
    var filename := FilenameOf(a);
    var contentType := a.contentType.UnwrapOr("");
    if !IsNoiseName(filename) && contentType in ExtractableTypes && svc.download(a.emailId, a.id).Some? {
      var h := ContentHash(svc, svc.download(a.emailId, a.id).value);
      var cached := FindCached(rows, h, a.id);
      if cached.Some? {
        var k :| 0 <= k < |rows| && rows[k] == cached.value;
        assert ProcessAttachment(rows, a, svc) == CompletedWith(cached.value.text.value, h);
      }
    }
  }

  // ------------------------------------------------------------ the pass

  predicate DistinctIds(rows: seq<Attachment>) {
    forall i, j :: 0 <= i < j < |rows| ==> rows[i].id != rows[j].id
  }

  function Apply(a: Attachment, s: Settlement, now: int): Attachment {
    a.(status := s.status, text := s.text, error := s.error, contentHash := s.contentHash, extractedAt := Some(now))
  }

  /** `UPDATE attachments SET ... WHERE id = ?`. */
  function Store(rows: seq<Attachment>, id: string, s: Settlement, now: int): (r: seq<Attachment>)
    ensures |r| == |rows|
    ensures forall i :: 0 <= i < |rows| ==> r[i] == if rows[i].id == id then Apply(rows[i], s, now) else rows[i]
  {
    seq(|rows|, i requires 0 <= i < |rows| => if rows[i].id == id then Apply(rows[i], s, now) else rows[i])
  }

  /** The status the table holds for `id`, if the row exists. */
  function StatusOf(rows: seq<Attachment>, id: string): (r: Option<ExtractionStatus>)
    ensures r.Some? <==> exists i :: 0 <= i < |rows| && rows[i].id == id
    ensures forall i :: 0 <= i < |rows| && rows[i].id == id && DistinctIds(rows) ==> r == Some(rows[i].status)
  {
    if |rows| == 0 then None
    else if rows[0].id == id then Some(rows[0].status)
    else
      var r := StatusOf(rows[1..], id);
      assert forall i :: 1 <= i < |rows| ==> rows[i] == rows[1..][i - 1];
      r
  }

  datatype Counts = Counts(completed: nat, failed: nat, skipped: nat)

  function Total(c: Counts): nat {
    c.completed + c.failed + c.skipped
  }

  /** The bucket `process_pending_attachments` adds one attachment to: completed
      when it returned true, otherwise by the status read back. */
  function Bucket(c: Counts, success: bool, readBack: Option<ExtractionStatus>): (r: Counts)
    ensures Total(r) == Total(c) + 1
  {
    if success then c.(completed := c.completed + 1)
    else if readBack == Some(Skipped) then c.(skipped := c.skipped + 1)
    else c.(failed := c.failed + 1)
  }

  datatype Pass = Pass(rows: seq<Attachment>, counts: Counts)

  function IdsOf(s: seq<Attachment>): (r: seq<string>)
    ensures |r| == |s| && forall i :: 0 <= i < |s| ==> r[i] == s[i].id
  {
    seq(|s|, i requires 0 <= i < |s| => s[i].id)
  }

  lemma IdsOfCons(s: seq<Attachment>)
    requires |s| > 0
    ensures IdsOf(s) == [s[0].id] + IdsOf(s[1..])
  {
  }

  /** Processes `todo` in order, committing each settlement before the next
      attachment is looked at, so a later duplicate reuses an earlier text. */
  function RunPass(rows: seq<Attachment>, todo: seq<Attachment>, svc: Services, c: Counts): (r: Pass)
    requires DistinctIds(rows)
    ensures |r.rows| == |rows|
    ensures Total(r.counts) == Total(c) + |todo|
    ensures forall i :: 0 <= i < |rows| ==> r.rows[i].id == rows[i].id
    ensures forall i :: 0 <= i < |rows| && rows[i].id !in IdsOf(todo) ==> r.rows[i] == rows[i]
    ensures forall i :: 0 <= i < |rows| && rows[i].id in IdsOf(todo) ==>
      r.rows[i].status != Pending && r.rows[i].extractedAt == Some(svc.now)
    decreases |todo|
  {
    if |todo| == 0 then Pass(rows, c)
    else
      var a := todo[0];
      var s := ProcessAttachment(rows, a, svc);
      var rows1 := Store(rows, a.id, s, svc.now);
      StoreKeepsDistinct(rows, a.id, s, svc.now);
      var c1 := Bucket(c, s.status == Completed, StatusOf(rows1, a.id));
      var rest := RunPass(rows1, todo[1..], svc, c1);
      IdsOfCons(todo);
      forall i | 0 <= i < |rows| && rows[i].id !in IdsOf(todo)
        ensures rest.rows[i] == rows[i]
      {
        assert rows[i].id != a.id;
      }
      rest
  }

  /** The bucket each attachment lands in agrees with the status it was given:
      success means completed, and a failure is counted as skipped exactly when
      the status written was 'skipped'. */
  lemma BucketMatchesStatus(rows: seq<Attachment>, a: Attachment, svc: Services, c: Counts)
    requires DistinctIds(rows) && a in rows
    ensures var s := ProcessAttachment(rows, a, svc);
            var c1 := Bucket(c, s.status == Completed, StatusOf(Store(rows, a.id, s, svc.now), a.id));
            (c1.completed == c.completed + 1 <==> s.status == Completed)
            && (c1.skipped == c.skipped + 1 <==> s.status == Skipped)
            && (c1.failed == c.failed + 1 <==> s.status == Failed)
  {
    var s := ProcessAttachment(rows, a, svc);
    ReadBackStored(rows, a, s, svc.now);
  }

  /** After the update, reading the row back gives the status just written. */
  lemma ReadBackStored(rows: seq<Attachment>, a: Attachment, s: Settlement, now: int)
    requires DistinctIds(rows) && a in rows
    ensures StatusOf(Store(rows, a.id, s, now), a.id) == Some(s.status)
  {
    var rows1 := Store(rows, a.id, s, now);
    var i :| 0 <= i < |rows| && rows[i] == a;
    assert rows1[i].status == s.status;
    StoreKeepsDistinct(rows, a.id, s, now);
  }

  lemma StoreKeepsDistinct(rows: seq<Attachment>, id: string, s: Settlement, now: int)
    requires DistinctIds(rows)
    ensures DistinctIds(Store(rows, id, s, now))
  {
    var rows1 := Store(rows, id, s, now);
    forall p, q | 0 <= p < q < |rows1|
      ensures rows1[p].id != rows1[q].id
    {
      assert rows1[p].id == rows[p].id && rows1[q].id == rows[q].id;
    }
  }

  /** `process_pending_attachments`: every selected attachment leaves 'pending',
      every other row is untouched, and the three counts add up to the number
      selected. */
  function ProcessPending(rows: seq<Attachment>, limit: int, svc: Services): (r: Pass)
    requires DistinctIds(rows)
    ensures |r.rows| == |rows|
    ensures Total(r.counts) == |SelectPending(rows, limit)|
    ensures forall i :: 0 <= i < |rows| && rows[i].id !in IdsOf(SelectPending(rows, limit)) ==> r.rows[i] == rows[i]
    ensures forall i :: 0 <= i < |rows| && rows[i].id in IdsOf(SelectPending(rows, limit)) ==>
      r.rows[i].status != Pending && r.rows[i].extractedAt == Some(svc.now)
  {
    RunPass(rows, SelectPending(rows, limit), svc, Counts(0, 0, 0))
  }
}
