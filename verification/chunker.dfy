/** Document chunking for the search index: overlapping windows cut at
    paragraph or sentence boundaries, stable chunk ids, chunk rows for an
    e-mail body and its virtual e-mails, replacement of an attachment's
    chunks, header removal from forwarded blocks and the indexing guards. */
module Chunker {
  import opened Wrappers
  import opened Text

  const MinChunkLength: nat := 50
  const DocumentChunkSize: nat := 1500
  const DocumentChunkOverlap: nat := 200

  /** Sentence terminators tried in this order when no paragraph break is found. */
  const SentenceSeps: seq<string> := [". ", ".\n", "! ", "!\n", "? ", "?\n"]

  // ------------------------------------------------------------ cutting

  /** The first separator (index into `seps`) whose last occurrence in
      `text[lo..hi]` lies after `start`, or -1. */
  function SentenceBreak(text: string, seps: seq<string>, start: int, lo: nat, hi: nat): (k: int)
    requires hi <= |text|
    ensures -1 <= k < |seps|
    ensures k >= 0 ==> RFind(text, seps[k], lo, hi) > start
    ensures forall j :: 0 <= j < |seps| && (k < 0 || j < k) ==> RFind(text, seps[j], lo, hi) <= start
  {
    if |seps| == 0 then -1
    else if RFind(text, seps[0], lo, hi) > start then 0
    else
      var k := SentenceBreak(text, seps[1..], start, lo, hi);
      assert forall j :: 1 <= j < |seps| ==> seps[j] == seps[1..][j - 1];
      if k < 0 then -1 else k + 1
  }

  /** A "\n\n" starts after `start`, in the second half of the window, and ends inside it. */
  predicate HasParaBreak(text: string, start: int, size: int) {
    exists i :: start < i && start + size / 2 <= i && i + 2 <= start + size && OccursAt(text, "\n\n", i)
  }

  predicate IsTerminator(c: char) {
    c == '.' || c == '!' || c == '?'
  }

  lemma SeparatorsStartWithTerminator()
    ensures forall k :: 0 <= k < |SentenceSeps| ==> |SentenceSeps[k]| == 2 && IsTerminator(SentenceSeps[k][0])
  {
  }

  /** The sentence fallback: just after the terminator of the first separator
      found past `start`, or `hi` when there is none. */
  function SentenceCut(text: string, start: nat, lo: nat, hi: nat): (end: int)
    requires start <= lo && hi <= |text|
    ensures var k := SentenceBreak(text, SentenceSeps, start, lo, hi);
      (k < 0 ==> end == hi)
      && (k >= 0 ==> start + 1 < end && lo < end < hi
                     && OccursAt(text, SentenceSeps[k], end - 1) && IsTerminator(text[end - 1]))
  {
    var k := SentenceBreak(text, SentenceSeps, start, lo, hi);
    if k >= 0 then
      SeparatorsStartWithTerminator();
      var p := RFind(text, SentenceSeps[k], lo, hi);
      assert text[p] == SentenceSeps[k][0];
      p + 1
    else hi
  }

  /** Where the window starting at `start` ends: at full size when that
      reaches the end of the text, otherwise at a paragraph or sentence break
      of the window's second half when there is one. */
  function Cut(text: string, start: nat, size: int): (end: int)
    requires start < |text| && size > 0
    ensures start < end <= start + size && start + size / 2 <= end
    ensures start + size >= |text| ==> end == start + size
    ensures start + size < |text| ==> end < |text|
  {
    var hi := start + size;
    if hi >= |text| then hi
    else
      var lo := start + size / 2;
      var para := RFind(text, "\n\n", lo, hi);
      if para > start then para
      else SentenceCut(text, start, lo, hi)
  }

  /** Away from the end of the text, the cut is the last paragraph break of
      the window's second half; failing that, the sentence fallback. */
  lemma CutPrefersParagraph(text: string, start: nat, size: int)
    requires start < |text| && size > 0 && start + size < |text|
    ensures var end := Cut(text, start, size);
      (HasParaBreak(text, start, size) ==>
         OccursAt(text, "\n\n", end)
         && forall i :: end < i && i + 2 <= start + size ==> !OccursAt(text, "\n\n", i))
      && (!HasParaBreak(text, start, size) ==>
         end == SentenceCut(text, start, start + size / 2, start + size))
  {
    var lo := start + size / 2;
    var hi := start + size;
    var para := RFind(text, "\n\n", lo, hi);
    assert Cut(text, start, size) == if para > start then para else SentenceCut(text, start, lo, hi);
    ParaBreakFound(text, start, size);
  }

  /** The search for the last paragraph break finds one past `start`
      exactly when the window has one. */
  lemma ParaBreakFound(text: string, start: nat, size: int)
    requires start < |text| && size > 0 && start + size < |text|
    ensures var para := RFind(text, "\n\n", start + size / 2, start + size);
      HasParaBreak(text, start, size) <==> para > start
  {
    var lo := start + size / 2;
    var hi := start + size;
    var para := RFind(text, "\n\n", lo, hi);
    if para > start {
      assert OccursAt(text, "\n\n", para) && para + 2 <= hi;
    }
  }

  /** `Cut` as a total rule on window starts (starts outside the text never occur). */
  function CutAt(text: string, size: int): nat -> int {
    (s: nat) => if s < |text| && size > 0 then Cut(text, s, size) else s + size
  }

  /** The facts about a cut rule that the window walk relies on. */
  predicate CutBounded(n: nat, size: int, cut: nat -> int) {
    forall s: nat :: s < n ==>
      (s < cut(s) <= s + size && s + size / 2 <= cut(s)
       && (s + size >= n ==> cut(s) == s + size) && (s + size < n ==> cut(s) < n))
  }

  lemma CutAtBounded(text: string, size: int)
    requires size > 0
    ensures CutBounded(|text|, size, CutAt(text, size))
  {
  }

  /** Whether `chunk_document`'s loop goes on after a window ending at `end`
      in a text of length `n`. */
  predicate Continues(n: nat, end: int, overlap: int) {
    var next := end - overlap;
    !(next <= 0 || (end >= n && next < end) || next >= n)
  }

  /** The `(start, end)` windows `chunk_document`'s loop visits from `start`
      in a text of length `n`: each next window starts `overlap` before the
      previous end. */
  function Windows(n: nat, start: nat, size: int, overlap: int, cut: nat -> int): (w: seq<(nat, int)>)
    requires start < n && size > 0 && overlap < size / 2 && CutBounded(n, size, cut)
    ensures |w| >= 1 && w[0] == (start, cut(start))
    decreases n - start
  {
    var end := cut(start);
    if Continues(n, end, overlap) then
      [(start, end)] + Windows(n, end - overlap, size, overlap, cut)
    else [(start, end)]
  }

  /** Every window starts in `[start, n)` and ends where `cut` says. */
  predicate CutsFollow(w: seq<(nat, int)>, start: nat, n: nat, cut: nat -> int) {
    forall i :: 0 <= i < |w| ==> start <= w[i].0 < n && w[i].1 == cut(w[i].0)
  }

  /** Each next window starts `overlap` before the previous end, which lies inside the text. */
  predicate Chained(w: seq<(nat, int)>, n: nat, overlap: int) {
    forall i :: 0 <= i < |w| - 1 ==> w[i + 1].0 == w[i].1 - overlap && w[i].1 < n
  }

  lemma {:induction false} WindowsCut(n: nat, start: nat, size: int, overlap: int, cut: nat -> int)
    requires start < n && size > 0 && overlap < size / 2 && CutBounded(n, size, cut)
    ensures CutsFollow(Windows(n, start, size, overlap, cut), start, n, cut)
    decreases n - start
  {
    var w := Windows(n, start, size, overlap, cut);
    var end := cut(start);
    if Continues(n, end, overlap) {
      var next: nat := end - overlap;
      var rest := Windows(n, next, size, overlap, cut);
      assert w == [(start, end)] + rest;
      WindowsCut(n, next, size, overlap, cut);
      forall i | 1 <= i < |w|
        ensures start <= w[i].0 < n && w[i].1 == cut(w[i].0)
      {
        assert w[i] == rest[i - 1];
      }
    }
  }

  /** Only the last window may reach the end of the text. */
  lemma {:induction false} WindowsStep(n: nat, start: nat, size: int, overlap: int, cut: nat -> int)
    requires start < n && size > 0 && overlap < size / 2 && CutBounded(n, size, cut)
    ensures Chained(Windows(n, start, size, overlap, cut), n, overlap)
    decreases n - start
  {
    var w := Windows(n, start, size, overlap, cut);
    var end := cut(start);
    if Continues(n, end, overlap) {
      var next: nat := end - overlap;
      var rest := Windows(n, next, size, overlap, cut);
      assert w == [(start, end)] + rest;
      WindowsStep(n, next, size, overlap, cut);
      forall i | 0 <= i < |w| - 1
        ensures w[i + 1].0 == w[i].1 - overlap && w[i].1 < n
      {
        assert w[i + 1] == rest[i];
        if i > 0 {
          assert w[i] == rest[i - 1];
        }
      }
    }
  }

  /** With a non-negative overlap the last window reaches the end of the text. */
  lemma {:induction false} WindowsReachEnd(n: nat, start: nat, size: int, overlap: int, cut: nat -> int)
    requires start < n && size > 0 && 0 <= overlap < size / 2 && CutBounded(n, size, cut)
    ensures Windows(n, start, size, overlap, cut)[|Windows(n, start, size, overlap, cut)| - 1].1 >= n
    decreases n - start
  {
    var end := cut(start);
    if Continues(n, end, overlap) {
      var next: nat := end - overlap;
      WindowsReachEnd(n, next, size, overlap, cut);
    }
  }

  /** `text[s:e]` for `s >= 0`, with Python's clipping of an end past the
      text and the empty result when `s` is not before the clipped end. */
  function Clip(text: string, window: (nat, int)): (r: string)
    ensures |r| <= |text| && (window.0 <= window.1 ==> |r| <= window.1 - window.0)
    ensures window.0 < window.1 <= |text| ==> r == text[window.0..window.1]
  {
    var e := if window.1 < |text| then window.1 else |text|;
    if window.0 < e then text[window.0..e] else []
  }

  /** The stripped slice of every window. */
  function AllStrips(text: string, ws: seq<(nat, int)>): (r: seq<string>)
    ensures |r| == |ws|
    ensures forall j :: 0 <= j < |ws| ==> r[j] == Strip(Clip(text, ws[j]))
  {
    seq(|ws|, j requires 0 <= j < |ws| => Strip(Clip(text, ws[j])))
  }

  /** The non-empty strings of `parts`, in order (`if chunk: chunks.append(chunk)`). */
  function NonEmpty(parts: seq<string>): (r: seq<string>)
    ensures |r| <= |parts|
    ensures forall i :: 0 <= i < |r| ==> |r[i]| > 0 && r[i] in parts
    ensures forall p :: p in parts && |p| > 0 ==> p in r
  {
    if |parts| == 0 then []
    else
      assert forall p :: p in parts ==> p == parts[0] || p in parts[1..];
      (if |parts[0]| > 0 then [parts[0]] else []) + NonEmpty(parts[1..])
  }

  /** `chunk_document`: short texts come back whole; longer ones become the
      non-empty stripped slices of the windows, each at most `size` long. */
  function ChunkDocument(text: string, size: int, overlap: int): (r: seq<string>)
    requires size > 0 && overlap < size / 2
    ensures |text| == 0 ==> r == []
    ensures 0 < |text| <= size ==> r == [text]
    ensures forall i :: 0 <= i < |r| ==> 0 < |r[i]| <= size
    ensures |text| > size ==>
      (CutBounded(|text|, size, CutAt(text, size))
       && r == NonEmpty(AllStrips(text, Windows(|text|, 0, size, overlap, CutAt(text, size)))))
  {
    if |text| == 0 then []
    else if |text| <= size then [text]
    else
      CutAtBounded(text, size);
      var ws := Windows(|text|, 0, size, overlap, CutAt(text, size));
      WindowsCut(|text|, 0, size, overlap, CutAt(text, size));
      StripsBounded(text, ws, size);
      NonEmpty(AllStrips(text, ws))
  }

  /** A window no longer than `size` yields a stripped slice no longer than `size`. */
  lemma StripsBounded(text: string, ws: seq<(nat, int)>, size: int)
    requires forall j :: 0 <= j < |ws| ==> ws[j].0 < ws[j].1 <= ws[j].0 + size
    ensures forall x :: x in AllStrips(text, ws) ==> |x| <= size
  {
    var all := AllStrips(text, ws);
    forall x | x in all
      ensures |x| <= size
    {
      var j :| 0 <= j < |all| && all[j] == x;
    }
  }

  /** With a non-negative overlap the windows of `chunk_document` cover the
      whole text: the first starts at 0, each next one starts after the
      previous start and no later than the previous end, and the last
      reaches the end. */
  lemma WindowsCover(text: string, size: int, overlap: int)
    requires |text| > 0 && size > 0 && 0 <= overlap < size / 2
    ensures CutBounded(|text|, size, CutAt(text, size))
    ensures var ws := Windows(|text|, 0, size, overlap, CutAt(text, size));
      ws[0].0 == 0
      && (forall i :: 0 <= i < |ws| - 1 ==> ws[i].0 < ws[i + 1].0 <= ws[i].1)
      && ws[|ws| - 1].1 >= |text|
  {
    CutAtBounded(text, size);
    var cut := CutAt(text, size);
    WindowsCut(|text|, 0, size, overlap, cut);
    WindowsStep(|text|, 0, size, overlap, cut);
    WindowsReachEnd(|text|, 0, size, overlap, cut);
  }

  // ------------------------------------------------------------ chunk ids

  /** `generate_chunk_id`: "type:id:index". */
  function ChunkId(sourceType: string, sourceId: string, index: nat): string {
    sourceType + ":" + sourceId + ":" + NatToString(index)
  }

  /** The index can be read back from a chunk id as the text after its last ':'. */
  lemma ChunkIdIndex(sourceType: string, sourceId: string, index: nat)
    ensures AfterLast(ChunkId(sourceType, sourceId, index), ':') == NatToString(index)
  {
    var digits := NatToString(index);
    var id := ChunkId(sourceType, sourceId, index);
    assert forall j :: 0 <= j < |digits| ==> IsDigit(digits[j]);
    assert id[|id| - |digits| - 1] == ':';
    assert id[|id| - |digits|..] == digits;
    AfterLastOfSuffix(id, |digits|, ':');
  }

  /** The text after the last `c` is a suffix that lacks `c` and follows a `c`. */
  lemma AfterLastOfSuffix(s: string, n: nat, c: char)
    requires n < |s| && s[|s| - n - 1] == c && Lacks(s[|s| - n..], c)
    ensures AfterLast(s, c) == s[|s| - n..]
  {
  }

  /** For one source, chunk ids are distinct for distinct (source id, index)
      pairs: the index is the text after the last ':' and the source id is
      what remains before it. */
  lemma ChunkIdInjective(t: string, s1: string, i1: nat, s2: string, i2: nat)
    requires ChunkId(t, s1, i1) == ChunkId(t, s2, i2)
    ensures s1 == s2 && i1 == i2
  {
    var id := ChunkId(t, s1, i1);
    ChunkIdIndex(t, s1, i1);
    ChunkIdIndex(t, s2, i2);
    NatToStringInjective(i1, i2);
    var d := NatToString(i1);
    var p1 := t + ":" + s1 + ":";
    var p2 := t + ":" + s2 + ":";
    assert id == p1 + d && id == p2 + d;
    assert p1 == id[..|id| - |d|] == p2;
    assert s1 == p1[|t| + 1..|p1| - 1];
    assert s2 == p2[|t| + 1..|p2| - 1];
  }

  // ----------------------------------------------------------- chunk rows

  datatype ChunkRow = ChunkRow(sourceType: string, sourceId: string, index: nat, content: string)

  /** The chunk table, keyed by chunk id. */
  type ChunkTable = map<string, ChunkRow>

  /** A forwarded message found in an e-mail; `position` 0 is the most recent. */
  datatype VirtualEmail = VirtualEmail(body: string, position: nat)

  /** What `process_email_for_indexing` hands to chunking. */
  datatype ProcessedEmail = ProcessedEmail(
    emailId: string,
    conversationId: Option<string>,
    subject: string,
    sender: Option<string>,
    receivedAt: Option<string>,
    cleanBody: string,
    originalLength: nat,
    cleanLength: nat,
    isForward: bool,
    virtualEmails: seq<VirtualEmail>)

  /** The e-mail row the indexing step reads; None fields are SQL NULLs. */
  datatype EmailRow = EmailRow(
    id: string,
    conversationId: Option<string>,
    subject: Option<string>,
    sender: Option<string>,
    receivedAt: Option<string>,
    bodyMarkdown: Option<string>,
    bodyPreview: Option<string>)

  /** `process_email_for_indexing`: nothing for a missing row, a missing or
      empty body, or a body shorter than the minimum chunk length. */
  function ProcessForIndexing(row: Option<EmailRow>): (r: Option<ProcessedEmail>)
    ensures r.Some? <==> row.Some? && row.value.bodyMarkdown.Some? && |row.value.bodyMarkdown.value| >= MinChunkLength
    ensures r.Some? ==> r.value.cleanBody == row.value.bodyMarkdown.value
                        && r.value.cleanLength == |r.value.cleanBody|
                        && r.value.emailId == row.value.id
                        && !r.value.isForward && r.value.virtualEmails == []
  {
    if row.None? then None
    else
      var body := row.value.bodyMarkdown;
      if body.None? || |body.value| == 0 then None
      else if |body.value| < MinChunkLength then None
      else Some(ProcessedEmail(
        row.value.id, row.value.conversationId, row.value.subject.UnwrapOr(""),
        row.value.sender, row.value.receivedAt, body.value,
        |row.value.bodyPreview.UnwrapOr("")|, |body.value|, false, []))
  }

  /** The pieces of an e-mail body that become chunks: none below the minimum
      length, the body itself up to one chunk size, else `chunk_document`. */
  function BodyChunks(body: string): (r: seq<string>)
    ensures |body| < MinChunkLength ==> r == []
    ensures MinChunkLength <= |body| <= DocumentChunkSize ==> r == [body]
    ensures forall i :: 0 <= i < |r| ==> 0 < |r[i]| <= DocumentChunkSize
  {
    if |body| < MinChunkLength then []
    else if |body| > DocumentChunkSize then ChunkDocument(body, DocumentChunkSize, DocumentChunkOverlap)
    else [body]
  }

  /** Upsert rows into the table, later rows overwriting earlier ones with the same id. */
  function Upsert(table: ChunkTable, rows: seq<(string, ChunkRow)>): (t: ChunkTable)
    ensures forall i :: 0 <= i < |rows| ==> rows[i].0 in t
    ensures forall k :: k in table ==> k in t
    ensures forall k :: k in t && k !in table ==> exists i :: 0 <= i < |rows| && rows[i].0 == k
    ensures forall k :: k in table && (forall i :: 0 <= i < |rows| ==> rows[i].0 != k) ==> t[k] == table[k]
    decreases |rows|
  {
    if |rows| == 0 then table
    else
      var t := Upsert(table[rows[0].0 := rows[0].1], rows[1..]);
      assert forall i :: 1 <= i < |rows| ==> rows[i] == rows[1..][i - 1];
      t
  }

  /** The rows `create_email_chunk` writes for an e-mail whose body became
      `body`: body chunk `i` at index `i`, and each virtual e-mail at
      `n + position`, where `n` is the number of body chunks. */
  function EmailChunkRows(emailId: string, body: seq<string>, virtuals: seq<VirtualEmail>): (rows: seq<(string, ChunkRow)>)
    ensures |rows| == |body| + |virtuals|
    ensures forall i :: 0 <= i < |body| ==>
      rows[i] == (ChunkId("email", emailId, i), ChunkRow("email", emailId, i, body[i]))
    ensures forall j :: |body| <= j < |rows| ==>
      var v := virtuals[j - |body|];
      rows[j] == (ChunkId("email", emailId, |body| + v.position), ChunkRow("email", emailId, |body| + v.position, v.body))
  {
    var n := |body|;
    seq(n, i requires 0 <= i < n => (ChunkId("email", emailId, i), ChunkRow("email", emailId, i, body[i])))
    + seq(|virtuals|, v requires 0 <= v < |virtuals| =>
          var index := n + virtuals[v].position;
          (ChunkId("email", emailId, index), ChunkRow("email", emailId, index, virtuals[v].body)))
  }

  /** Every body chunk's row is in the table after the upserts: no virtual
      e-mail's id can collide with a body chunk's, since its index is at
      least the number of body chunks. */
  lemma EmailBodyStored(table: ChunkTable, emailId: string, body: seq<string>, virtuals: seq<VirtualEmail>)
    ensures var t := Upsert(table, EmailChunkRows(emailId, body, virtuals));
      forall i :: 0 <= i < |body| ==>
        ChunkId("email", emailId, i) in t && t[ChunkId("email", emailId, i)] == ChunkRow("email", emailId, i, body[i])
  {
    var rows := EmailChunkRows(emailId, body, virtuals);
    forall i | 0 <= i < |body|
      ensures rows[i].0 in Upsert(table, rows) && Upsert(table, rows)[rows[i].0] == rows[i].1
    {
      forall j | i < j < |rows|
        ensures rows[j].0 != rows[i].0
      {
        var k := if j < |body| then j else |body| + virtuals[j - |body|].position;
        assert rows[j].0 == ChunkId("email", emailId, k);
        if rows[j].0 == rows[i].0 {
          ChunkIdInjective("email", emailId, i, emailId, k);
        }
      }
      UpsertLastWins(table, rows, i);
    }
  }

  /** A virtual e-mail whose position no later virtual e-mail repeats keeps
      its row in the table. */
  lemma VirtualEmailStored(table: ChunkTable, emailId: string, body: seq<string>, virtuals: seq<VirtualEmail>, v: nat)
    requires v < |virtuals|
    requires forall w :: v < w < |virtuals| ==> virtuals[w].position != virtuals[v].position
    ensures var t := Upsert(table, EmailChunkRows(emailId, body, virtuals));
      var id := ChunkId("email", emailId, |body| + virtuals[v].position);
      id in t && t[id].content == virtuals[v].body
  {
    var rows := EmailChunkRows(emailId, body, virtuals);
    VirtualIdNotRepeated(rows, emailId, body, virtuals, v);
    UpsertLastWins(table, rows, |body| + v);
  }

  /** No later row repeats the id of such a virtual e-mail. */
  lemma VirtualIdNotRepeated(rows: seq<(string, ChunkRow)>, emailId: string, body: seq<string>, virtuals: seq<VirtualEmail>, v: nat)
    requires rows == EmailChunkRows(emailId, body, virtuals)
    requires v < |virtuals|
    requires forall w :: v < w < |virtuals| ==> virtuals[w].position != virtuals[v].position
    ensures forall j :: |body| + v < j < |rows| ==> rows[j].0 != rows[|body| + v].0
  {
    var n := |body|;
    var index := n + virtuals[v].position;
    forall j | n + v < j < |rows|
      ensures rows[j].0 != rows[n + v].0
    {
      if rows[j].0 == rows[n + v].0 {
        ChunkIdInjective("email", emailId, n + virtuals[j - n].position, emailId, index);
      }
    }
  }

  /** `create_email_chunk`: the table after the upserts and the count
      returned, one per body chunk and one per virtual e-mail. */
  function CreateEmailChunks(table: ChunkTable, e: ProcessedEmail): (r: (ChunkTable, nat))
    ensures r.1 == |BodyChunks(e.cleanBody)| + |e.virtualEmails|
    ensures forall k :: k in table ==> k in r.0
    ensures var body := BodyChunks(e.cleanBody);
      forall i :: 0 <= i < |body| ==>
        ChunkId("email", e.emailId, i) in r.0 && r.0[ChunkId("email", e.emailId, i)] == ChunkRow("email", e.emailId, i, body[i])
  {
    var rows := EmailChunkRows(e.emailId, BodyChunks(e.cleanBody), e.virtualEmails);
    EmailBodyStored(table, e.emailId, BodyChunks(e.cleanBody), e.virtualEmails);
    (Upsert(table, rows), |rows|)
  }

  /** A row whose id no later row repeats is what the table holds afterwards. */
  lemma {:induction false} UpsertLastWins(table: ChunkTable, rows: seq<(string, ChunkRow)>, i: nat)
    requires i < |rows|
    requires forall j :: i < j < |rows| ==> rows[j].0 != rows[i].0
    ensures rows[i].0 in Upsert(table, rows) && Upsert(table, rows)[rows[i].0] == rows[i].1
    decreases |rows|
  {
    var t := table[rows[0].0 := rows[0].1];
    var rest := rows[1..];
    assert Upsert(table, rows) == Upsert(t, rest);
    if i > 0 {
      assert forall j :: i - 1 < j < |rest| ==> rest[j].0 != rest[i - 1].0 by {
        assert forall j :: 0 <= j < |rest| ==> rest[j] == rows[j + 1];
      }
      UpsertLastWins(t, rest, i - 1);
    } else {
      assert forall j :: 0 <= j < |rest| ==> rest[j].0 != rows[0].0 by {
        assert forall j :: 0 <= j < |rest| ==> rest[j] == rows[j + 1];
      }
    }
  }

  /** An attachment's row as `create_attachment_chunks` reads it; None text is NULL. */
  datatype AttachmentText = AttachmentText(id: string, extractedText: Option<string>)

  predicate OfAttachment(row: ChunkRow, attachmentId: string) {
    row.sourceType == "attachment" && row.sourceId == attachmentId
  }

  /** Every row is stored under the id generated from its own source type
      (a word without ':', such as "email" or "attachment"), source id and index. */
  predicate Consistent(table: ChunkTable) {
    forall k :: k in table ==>
      Lacks(table[k].sourceType, ':') && k == ChunkId(table[k].sourceType, table[k].sourceId, table[k].index)
  }

  /** The text of an attachment as it is chunked: whole up to one chunk size,
      else `chunk_document`. */
  function AttachmentPieces(text: string): (r: seq<string>)
    ensures |text| <= DocumentChunkSize ==> r == [text]
    ensures |text| > DocumentChunkSize ==> forall i :: 0 <= i < |r| ==> 0 < |r[i]| <= DocumentChunkSize
  {
    if |text| <= DocumentChunkSize then [text]
    else ChunkDocument(text, DocumentChunkSize, DocumentChunkOverlap)
  }

  function AttachmentRows(attachmentId: string, pieces: seq<string>): (rows: seq<(string, ChunkRow)>)
    ensures |rows| == |pieces|
    ensures forall i :: 0 <= i < |rows| ==>
      rows[i] == (ChunkId("attachment", attachmentId, i), ChunkRow("attachment", attachmentId, i, pieces[i]))
  {
    seq(|pieces|, i requires 0 <= i < |pieces| =>
        (ChunkId("attachment", attachmentId, i), ChunkRow("attachment", attachmentId, i, pieces[i])))
  }

  /** `DELETE FROM chunks WHERE source_type = 'attachment' AND source_id = ?`. */
  function DropAttachment(table: ChunkTable, aid: string): (t: ChunkTable)
    ensures forall k :: k in t <==> k in table && !OfAttachment(table[k], aid)
    ensures forall k :: k in t ==> t[k] == table[k]
  {
    map k | k in table && !OfAttachment(table[k], aid) :: table[k]
  }

  /** Some new chunk id is already taken by a row the deletion kept. */
  predicate Collides(kept: ChunkTable, aid: string, count: nat) {
    exists i :: 0 <= i < count && ChunkId("attachment", aid, i) in kept
  }

  /** Delete the attachment's chunks, then insert `pieces` as its new
      chunks. The inserts are plain `INSERT`s, so an id already present is
      an error. */
  function ReplaceAttachment(table: ChunkTable, aid: string, pieces: seq<string>): (r: Result<(ChunkTable, nat)>)
    ensures r.Failure? <==> Collides(DropAttachment(table, aid), aid, |pieces|)
    ensures r.Success? ==> r.value.1 == |pieces|
  {
    var kept := DropAttachment(table, aid);
    var count: nat := |pieces|;
    if Collides(kept, aid, count) then Failure("UNIQUE constraint failed: chunks.id")
    else Success((Upsert(kept, AttachmentRows(aid, pieces)), count))
  }

  /** `create_attachment_chunks`: nothing happens without text; otherwise
      the attachment's chunks are replaced by the pieces of its text. */
  function CreateAttachmentChunks(table: ChunkTable, row: Option<AttachmentText>): (r: Result<(ChunkTable, nat)>)
    ensures row.None? || row.value.extractedText.None? || |row.value.extractedText.value| == 0 ==> r == Success((table, 0))
    ensures row.Some? && row.value.extractedText.Some? && |row.value.extractedText.value| > 0 ==>
      r == ReplaceAttachment(table, row.value.id, AttachmentPieces(row.value.extractedText.value))
  {
    if row.None? || row.value.extractedText.None? || |row.value.extractedText.value| == 0 then Success((table, 0))
    else ReplaceAttachment(table, row.value.id, AttachmentPieces(row.value.extractedText.value))
  }

  /** The text before the first ':' of a chunk id is its source type. */
  lemma ChunkIdType(t1: string, s1: string, i1: nat, t2: string, s2: string, i2: nat)
    requires Lacks(t1, ':') && Lacks(t2, ':')
    requires ChunkId(t1, s1, i1) == ChunkId(t2, s2, i2)
    ensures t1 == t2
  {
    var id := ChunkId(t1, s1, i1);
    assert id[|t1|] == ':' && id[|t2|] == ':';
    assert |t1| == |t2|;
    assert t1 == id[..|t1|] == t2;
  }

  /** In a consistent table no row outside the attachment holds one of its ids. */
  lemma NoCollision(table: ChunkTable, aid: string, count: nat)
    requires Consistent(table)
    ensures !Collides(DropAttachment(table, aid), aid, count)
  {
    var kept := DropAttachment(table, aid);
    forall i | 0 <= i < count && ChunkId("attachment", aid, i) in kept
      ensures false
    {
      var k := ChunkId("attachment", aid, i);
      var r := table[k];
      ChunkIdType("attachment", aid, i, r.sourceType, r.sourceId, r.index);
      ChunkIdInjective("attachment", aid, i, r.sourceId, r.index);
    }
  }

  /** Inserting the attachment's rows after the deletion: rows of other
      sources are untouched, the attachment's rows are exactly the new
      pieces under their ids, and the table stays consistent. */
  lemma AttachmentInsert(kept: ChunkTable, aid: string, pieces: seq<string>)
    requires forall k :: k in kept ==> !OfAttachment(kept[k], aid)
    requires !Collides(kept, aid, |pieces|)
    ensures var t := Upsert(kept, AttachmentRows(aid, pieces));
      (forall k :: k in kept ==> k in t && t[k] == kept[k])
      && (forall k :: k in t && OfAttachment(t[k], aid) ==>
            exists i :: 0 <= i < |pieces| && k == ChunkId("attachment", aid, i) && t[k].content == pieces[i])
      && (forall i :: 0 <= i < |pieces| ==>
            ChunkId("attachment", aid, i) in t && t[ChunkId("attachment", aid, i)] == ChunkRow("attachment", aid, i, pieces[i]))
  {
    var rows := AttachmentRows(aid, pieces);
    var t := Upsert(kept, rows);
    forall i | 0 <= i < |pieces|
      ensures ChunkId("attachment", aid, i) in t && t[ChunkId("attachment", aid, i)] == rows[i].1
    {
      forall j | i < j < |rows|
        ensures rows[j].0 != rows[i].0
      {
        if rows[j].0 == rows[i].0 {
          ChunkIdInjective("attachment", aid, i, aid, j);
        }
      }
      UpsertLastWins(kept, rows, i);
    }
    forall k | k in kept
      ensures k in t && t[k] == kept[k]
    {
      forall i | 0 <= i < |rows|
        ensures rows[i].0 != k
      {
      }
    }
    forall k | k in t && OfAttachment(t[k], aid)
      ensures exists i :: 0 <= i < |pieces| && k == ChunkId("attachment", aid, i) && t[k].content == pieces[i]
    {
      var i :| 0 <= i < |rows| && rows[i].0 == k;
    }
  }

  /** On a consistent table the replacement succeeds, keeps every other
      source's rows, leaves exactly the new pieces as the attachment's rows
      and keeps the table consistent. */
  lemma ReplaceAttachmentSpec(table: ChunkTable, aid: string, pieces: seq<string>)
    requires Consistent(table)
    ensures var r := ReplaceAttachment(table, aid, pieces);
      r.Success?
      && Consistent(r.value.0)
      && (forall k :: k in table && !OfAttachment(table[k], aid) ==> k in r.value.0 && r.value.0[k] == table[k])
      && (forall k :: k in r.value.0 && OfAttachment(r.value.0[k], aid) ==>
            exists i :: 0 <= i < |pieces| && k == ChunkId("attachment", aid, i) && r.value.0[k].content == pieces[i])
      && (forall i :: 0 <= i < |pieces| ==>
            ChunkId("attachment", aid, i) in r.value.0 && r.value.0[ChunkId("attachment", aid, i)].content == pieces[i])
  {
    var kept := DropAttachment(table, aid);
    NoCollision(table, aid, |pieces|);
    AttachmentInsert(kept, aid, pieces);
    assert Consistent(kept);
    InsertKeepsConsistent(kept, aid, pieces);
  }

  /** Inserting an attachment's rows into a consistent table that holds
      none of its rows and none of the new ids keeps the table consistent. */
  lemma InsertKeepsConsistent(kept: ChunkTable, aid: string, pieces: seq<string>)
    requires Consistent(kept) && forall k :: k in kept ==> !OfAttachment(kept[k], aid)
    requires !Collides(kept, aid, |pieces|)
    ensures Consistent(Upsert(kept, AttachmentRows(aid, pieces)))
  {
    var rows := AttachmentRows(aid, pieces);
    var t := Upsert(kept, rows);
    AttachmentInsert(kept, aid, pieces);
    forall k | k in t
      ensures Lacks(t[k].sourceType, ':') && k == ChunkId(t[k].sourceType, t[k].sourceId, t[k].index)
    {
      if k !in kept {
        var i :| 0 <= i < |rows| && rows[i].0 == k;
        assert t[k] == ChunkRow("attachment", aid, i, pieces[i]);
      }
    }
  }

  /** Replacing an attachment's chunks twice with the same pieces leaves the
      table as the first replacement left it. */
  lemma ReplaceAttachmentIdempotent(table: ChunkTable, aid: string, pieces: seq<string>)
    requires Consistent(table)
    ensures var once := ReplaceAttachment(table, aid, pieces);
      once.Success? && ReplaceAttachment(once.value.0, aid, pieces) == once
  {
    var kept := DropAttachment(table, aid);
    ReplaceAttachmentSpec(table, aid, pieces);
    var t := Upsert(kept, AttachmentRows(aid, pieces));
    DropAfterInsert(kept, aid, pieces);
    NoCollision(t, aid, |pieces|);
  }

  /** Deleting the attachment's chunks right after inserting them gives back
      the table the insert started from. */
  lemma DropAfterInsert(kept: ChunkTable, aid: string, pieces: seq<string>)
    requires forall k :: k in kept ==> !OfAttachment(kept[k], aid)
    requires !Collides(kept, aid, |pieces|)
    ensures DropAttachment(Upsert(kept, AttachmentRows(aid, pieces)), aid) == kept
  {
    var rows := AttachmentRows(aid, pieces);
    var t := Upsert(kept, rows);
    AttachmentInsert(kept, aid, pieces);
    var d := DropAttachment(t, aid);
    forall k | k in t && k !in kept
      ensures OfAttachment(t[k], aid)
    {
      var i :| 0 <= i < |rows| && rows[i].0 == k;
      assert k == ChunkId("attachment", aid, i);
    }
    assert d.Keys == kept.Keys;
    assert forall k :: k in d ==> d[k] == kept[k];
  }

  /** Re-running `create_attachment_chunks` on a consistent table replaces
      the attachment's chunks rather than duplicating them: the second run
      leaves the table as the first one left it. */
  lemma AttachmentChunksIdempotent(table: ChunkTable, row: Option<AttachmentText>)
    requires Consistent(table)
    ensures var once := CreateAttachmentChunks(table, row);
      once.Success? && CreateAttachmentChunks(once.value.0, row) == once
  {
    if row.Some? && row.value.extractedText.Some? && |row.value.extractedText.value| > 0 {
      ReplaceAttachmentIdempotent(table, row.value.id, AttachmentPieces(row.value.extractedText.value));
    }
  }

  // ------------------------------------------------------ header removal

  const HeaderPrefixes: seq<string> := ["from:", "to:", "cc:", "sent:", "date:", "subject:", ">"]

  predicate StartsWith(s: string, p: string) {
    |p| <= |s| && s[..|p|] == p
  }

  /** A line that, lowercased and stripped, starts with a header prefix. */
  predicate IsHeaderLine(line: string) {
    exists p :: p in HeaderPrefixes && StartsWith(Strip(Lower(line)), p)
  }

  /** How the header scan sees a line: a header line is tested first, then
      a blank one; anything else is content. */
  datatype LineKind = Header | Blank | Content

  function Kind(line: string): (k: LineKind)
    ensures k == Header <==> IsHeaderLine(line)
    ensures k == Blank <==> !IsHeaderLine(line) && AllSpace(line)
  {
    if IsHeaderLine(line) then Header else if AllSpace(line) then Blank else Content
  }

  function Kinds(lines: seq<string>): (ks: seq<LineKind>)
    ensures |ks| == |lines| && forall i :: 0 <= i < |lines| ==> ks[i] == Kind(lines[i])
  {
    seq(|lines|, i requires 0 <= i < |lines| => Kind(lines[i]))
  }

  /** The index of the first body line, scanning from line `i` with the
      body currently starting at `bodyStart`. */
  function BodyStart(ks: seq<LineKind>, i: nat, bodyStart: nat): (b: nat)
    requires i <= |ks| && bodyStart <= i
    ensures bodyStart <= b <= |ks|
    decreases |ks| - i
  {
    if i == |ks| then bodyStart
    else if ks[i] == Header then BodyStart(ks, i + 1, i + 1)
    else if ks[i] == Blank then
      if bodyStart > 0 then i + 1 else BodyStart(ks, i + 1, bodyStart)
    else if bodyStart > 0 then bodyStart
    else BodyStart(ks, i + 1, bodyStart)
  }

  /** Line `b` is where the body starts: with no header line anywhere it is
      0; otherwise the first header line `h` opens a run of header lines,
      and the body starts right after the blank line that closes the run,
      or at the first content line after it, or at the end. */
  predicate BodyStartsAt(ks: seq<LineKind>, b: nat) {
    b <= |ks|
    && if b == 0 then forall j :: 0 <= j < |ks| ==> ks[j] != Header
       else exists h :: 0 <= h < b && HeaderRunTo(ks, h, b)
  }

  /** The first header line is `h` and the scan stops at `b`. */
  predicate HeaderRunTo(ks: seq<LineKind>, h: nat, b: nat) {
    h < b <= |ks|
    && (forall j :: 0 <= j < h ==> ks[j] != Header)
    && ks[h] == Header
    && (forall j :: h <= j < b - 1 ==> ks[j] == Header)
    && (if ks[b - 1] == Header then b == |ks| || ks[b] == Content else ks[b - 1] == Blank)
  }

  /** Once a header has been seen at `h` and every line since is a header,
      the scan stops where `BodyStartsAt` says. */
  lemma {:induction false} BodyStartInRun(ks: seq<LineKind>, h: nat, i: nat)
    requires h < i <= |ks|
    requires forall j :: 0 <= j < h ==> ks[j] != Header
    requires forall j :: h <= j < i ==> ks[j] == Header
    ensures HeaderRunTo(ks, h, BodyStart(ks, i, i))
    decreases |ks| - i
  {
    if i < |ks| && ks[i] == Header {
      BodyStartInRun(ks, h, i + 1);
    }
  }

  /** Before any header the scan carries on; it stops where `BodyStartsAt`
      says. */
  lemma {:induction false} BodyStartBeforeRun(ks: seq<LineKind>, i: nat)
    requires i <= |ks|
    requires forall j :: 0 <= j < i ==> ks[j] != Header
    ensures BodyStartsAt(ks, BodyStart(ks, i, 0))
    decreases |ks| - i
  {
    if i < |ks| {
      if ks[i] == Header {
        BodyStartInRun(ks, i, i + 1);
      } else {
        BodyStartBeforeRun(ks, i + 1);
      }
    }
  }

  /** At most one line index satisfies `BodyStartsAt`. */
  lemma BodyStartUnique(ks: seq<LineKind>, b1: nat, b2: nat)
    requires BodyStartsAt(ks, b1) && BodyStartsAt(ks, b2)
    ensures b1 == b2
  {
    if b1 > 0 && b2 > 0 {
      var h1 :| 0 <= h1 < b1 && HeaderRunTo(ks, h1, b1);
      var h2 :| 0 <= h2 < b2 && HeaderRunTo(ks, h2, b2);
      if h1 < h2 {
        assert false;
      } else if h2 < h1 {
        assert false;
      }
    }
  }

  /** `remove_headers_from_block`: the block from the body line on, joined
      and stripped. */
  function RemoveHeaders(text: string): (r: string)
    ensures exists b: nat :: b <= |Split(text, '\n')| && BodyStartsAt(Kinds(Split(text, '\n')), b)
                        && r == Strip(Join(Split(text, '\n')[b..], '\n'))
  {
    var lines := Split(text, '\n');
    var b := BodyStart(Kinds(lines), 0, 0);
    BodyStartBeforeRun(Kinds(lines), 0);
    Strip(Join(lines[b..], '\n'))
  }

  /** Without a header line the whole block comes back, stripped. */
  lemma RemoveHeadersNoHeader(text: string)
    requires forall j :: 0 <= j < |Split(text, '\n')| ==> !IsHeaderLine(Split(text, '\n')[j])
    ensures RemoveHeaders(text) == Strip(text)
  {
    var lines := Split(text, '\n');
    var ks := Kinds(lines);
    var b := BodyStart(ks, 0, 0);
    BodyStartBeforeRun(ks, 0);
    if b > 0 {
      assert false;
    }
    assert lines[0..] == lines;
    JoinSplit(text, '\n');
  }

  /** What is kept is the stripped tail of the block from some line on. */
  lemma {:induction false} JoinSuffix(parts: seq<string>, k: nat, sep: char)
    requires k <= |parts|
    ensures exists n :: 0 <= n <= |Join(parts, sep)| && Join(parts[k..], sep) == Join(parts, sep)[n..]
    decreases k
  {
    if k == 0 {
      assert parts[0..] == parts;
      assert Join(parts, sep)[0..] == Join(parts, sep);
    } else if |parts| == 1 {
      assert parts[k..] == [];
      assert Join(parts, sep)[|Join(parts, sep)|..] == [];
    } else {
      JoinSuffix(parts[1..], k - 1, sep);
      assert parts[1..][k - 1..] == parts[k..];
      var n :| 0 <= n <= |Join(parts[1..], sep)| && Join(parts[k..], sep) == Join(parts[1..], sep)[n..];
      var whole := Join(parts, sep);
      assert whole == parts[0] + [sep] + Join(parts[1..], sep);
      var m := |parts[0]| + 1 + n;
      assert whole[m..] == Join(parts[1..], sep)[n..];
    }
  }

  lemma RemoveHeadersSuffix(text: string)
    ensures exists n :: 0 <= n <= |text| && RemoveHeaders(text) == Strip(text[n..])
  {
    var lines := Split(text, '\n');
    var b := BodyStart(Kinds(lines), 0, 0);
    JoinSuffix(lines, b, '\n');
    JoinSplit(text, '\n');
    var n :| 0 <= n <= |Join(lines, '\n')| && Join(lines[b..], '\n') == Join(lines, '\n')[n..];
  }
}
