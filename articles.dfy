/**
 * One article of the digest (`read_file`): the sender and date lines, the
 * body at teaser length when the message carries an `Archived-at` header,
 * and the "Read more" link built from that header.
 */
module Articles {
  import opened Wrappers
  import opened CStrings
  import MimeParts

  /** The first index at or after `i` that is neither `<` nor a space. */
  function LeadEnd(h: seq<char>, i: nat): (r: nat)
    requires i <= |h|
    ensures i <= r <= |h|
    ensures r < |h| ==> h[r] != '<' && h[r] != ' '
    decreases |h| - i
  {
    if i == |h| || (h[i] != '<' && h[i] != ' ') then i else LeadEnd(h, i + 1)
  }

  /** Everything `LeadEnd` skips is `<` or a space. */
  lemma {:induction false} LeadEndSkips(h: seq<char>, i: nat)
    requires i <= |h|
    ensures forall j :: i <= j < LeadEnd(h, i) ==> h[j] == '<' || h[j] == ' '
    decreases |h| - i
  {
    if i < |h| && (h[i] == '<' || h[i] == ' ') {
      LeadEndSkips(h, i + 1);
    }
  }

  /** A skip that stops at the first other byte stops where `LeadEnd` does. */
  lemma {:induction false} LeadEndFirst(h: seq<char>, i: nat, k: nat)
    requires i <= k <= |h|
    requires k < |h| ==> h[k] != '<' && h[k] != ' '
    requires forall j :: i <= j < k ==> h[j] == '<' || h[j] == ' '
    ensures LeadEnd(h, i) == k
    decreases k - i
  {
    if i < k {
      LeadEndFirst(h, i + 1, k);
    }
  }

  /** `strrchr`: the last index of `s` that holds `c`, if any. */
  function LastIndexOf(s: seq<char>, c: char): (r: Option<nat>)
    ensures r.Some? ==> r.value < |s| && s[r.value] == c
    ensures r.None? ==> c !in s
    decreases |s|
  {
    if s == [] then None
    else if s[|s| - 1] == c then Some(|s| - 1)
    else
      assert s == s[..|s| - 1] + [s[|s| - 1]];
      LastIndexOf(s[..|s| - 1], c)
  }

  /** Nothing after the index `LastIndexOf` finds holds `c`. */
  lemma {:induction false} LastIndexOfIsLast(s: seq<char>, c: char)
    requires LastIndexOf(s, c).Some?
    ensures forall j :: LastIndexOf(s, c).value < j < |s| ==> s[j] != c
    decreases |s|
  {
    if s[|s| - 1] != c {
      LastIndexOfIsLast(s[..|s| - 1], c);
    }
  }

  /**
   * The link target made from an `Archived-at` header: the leading run of
   * `<` and spaces dropped, and everything from the last `>` on dropped.
   */
  function ArchiveUrl(h: CStr): CStr {
    var rest := h[LeadEnd(h, 0)..];
    match LastIndexOf(rest, '>')
    case None => rest
    case Some(k) => rest[..k]
  }

  /**
   * The header splits into the dropped lead, the URL and the dropped tail:
   * the lead is all `<` and spaces and cannot be longer, and the tail is
   * empty (when the rest holds no `>`) or starts at the last `>`.
   */
  lemma ArchiveUrlShape(h: CStr)
    ensures var n, u := LeadEnd(h, 0), ArchiveUrl(h);
      n + |u| <= |h| && h[n..n + |u|] == u &&
      (forall j :: 0 <= j < n ==> h[j] == '<' || h[j] == ' ') &&
      (n < |h| ==> h[n] != '<' && h[n] != ' ') &&
      (n + |u| == |h| ==> '>' !in u) &&
      (n + |u| < |h| ==> h[n + |u|] == '>' && forall j :: n + |u| < j < |h| ==> h[j] != '>')
  {
    var n := LeadEnd(h, 0);
    var rest := h[n..];
    LeadEndSkips(h, 0);
    var last := LastIndexOf(rest, '>');
    if last.Some? {
      LastIndexOfIsLast(rest, '>');
      var k := last.value;
      assert ArchiveUrl(h) == rest[..k];
      forall j | n + k < j < |h|
        ensures h[j] != '>'
      {
        assert h[j] == rest[j - n];
      }
    } else {
      assert ArchiveUrl(h) == rest;
    }
  }

  /** A header in angle brackets gives the address between them. */
  lemma ArchiveUrlExample()
    ensures ArchiveUrl(" <http://x/y>") == "http://x/y"
  {
    var h: CStr := " <http://x/y>";
    LeadEndFirst(h, 0, 2);
    assert h[2..] == "http://x/y>";
    assert LastIndexOf("http://x/y>", '>') == Some(10);
  }

  /** A header with no `>` loses only its lead. */
  lemma ArchiveUrlWithoutClose(h: CStr)
    requires '>' !in h
    ensures ArchiveUrl(h) == h[LeadEnd(h, 0)..]
  {
    var rest := h[LeadEnd(h, 0)..];
    assert forall j :: 0 <= j < |rest| ==> rest[j] == h[LeadEnd(h, 0) + j];
    assert '>' !in rest;
  }

  /**
   * The pointer walk of `read_file` over the header's bytes `h`, held in
   * `buf` with their terminator: steps over `<` and spaces.
   */
  method SkipLead(buf: array<char>, ghost h: CStr) returns (start: nat)
    requires |h| < buf.Length && buf[|h|] == NUL
    requires forall j :: 0 <= j < |h| ==> buf[j] == h[j]
    ensures start == LeadEnd(h, 0)
  {
    start := 0;
    while buf[start] != NUL && (buf[start] == '<' || buf[start] == ' ')
      invariant start <= |h|
      invariant forall j :: 0 <= j < start ==> h[j] == '<' || h[j] == ' '
      decreases |h| - start
    {
      start := start + 1;
    }
    LeadEndFirst(h, 0, start);
  }

  /**
   * The archive trim of `read_file` on the header's buffer: the pointer
   * steps over `<` and spaces, then a NUL is stored over the last `>`.
   * Returns where the link text starts.
   */
  method TrimArchive(buf: array<char>) returns (start: nat)
    requires NUL in buf[..]
    modifies buf
    ensures start < buf.Length
    ensures CString(buf[start..]) == ArchiveUrl(CString(old(buf[..])))
  {
    ghost var h := CString(buf[..]);
    assert buf[..][..buf.Length] == buf[..];
    assert forall j :: 0 <= j < |h| ==> buf[j] == buf[..][j];
    start := SkipLead(buf, h);
    CStringSuffix(buf[..], start);
    ghost var tail := buf[start..];
    var final := LastIndexOf(CString(buf[start..]), '>');
    if final.Some? {
      buf[start + final.value] := NUL;
      assert buf[start..] == tail[final.value := NUL];
      CStringCut(tail, final.value);
    }
  }

  /** The article's opening line. */
  const ArticleOpen: string := "<div class=article>\n"

  /** The line naming the sender. */
  function FromLine(from: CStr): seq<char> {
    "<span class=from>" + from + "</span>\n"
  }

  /** The line giving the date. */
  function DateLine(date: CStr): seq<char> {
    "<span class=date>" + date + "</span>\n"
  }

  /** The link to the archived copy. */
  function ReadMoreLink(archive: CStr): seq<char> {
    "<a href=\"" + ArchiveUrl(archive) + "\">Read more</a>\n"
  }

  /**
   * What `read_file` writes for one message: `from` is the cleaned sender,
   * `date` the formatted date, `root` the message's top part and `archive`
   * its `Archived-at` header, whose presence turns shortening on.
   */
  function Article(from: CStr, date: CStr, root: MimeParts.Part, archive: Option<CStr>,
                   convert: MimeParts.Converter): seq<char> {
    ArticleOpen + FromLine(from) + DateLine(date) +
    MimeParts.RenderPart(root, archive.Some?, convert) +
    (if archive.Some? then ReadMoreLink(archive.value) else []) +
    "</div>\n"
  }

  /**
   * The end of `read_file` when the message has an `Archived-at` header:
   * the header's bytes are trimmed in their buffer and the link written.
   */
  method WriteReadMore(output: seq<char>, archive: CStr) returns (out: seq<char>)
    ensures out == output + ReadMoreLink(archive)
  {
    var buf := new char[|archive| + 1](i => if 0 <= i < |archive| then archive[i] else NUL);
    assert buf[..] == archive + [NUL] + [];
    CStringStopsAtNul(archive, []);
    var start := TrimArchive(buf);
    out := output + ("<a href=\"" + CString(buf[start..]) + "\">Read more</a>\n");
  }

  /** `read_file` after parsing: writes the article for one message. */
  method ReadFile(output: seq<char>, from: CStr, date: CStr, root: MimeParts.Part,
                  archive: Option<CStr>, convert: MimeParts.Converter) returns (out: seq<char>)
    ensures out == output + Article(from, date, root, archive, convert)
  {
    out := output + ArticleOpen;
    // What this call has appended so far.
    ghost var written := ArticleOpen;
    out := out + FromLine(from);
    AppendAssoc(output, written, FromLine(from));
    written := written + FromLine(from);
    out := out + DateLine(date);
    AppendAssoc(output, written, DateLine(date));
    written := written + DateLine(date);
    out := MimeParts.TransformPart(out, root, archive.Some?, convert);
    ghost var body := MimeParts.RenderPart(root, archive.Some?, convert);
    AppendAssoc(output, written, body);
    written := written + body;
    ghost var link := if archive.Some? then ReadMoreLink(archive.value) else [];
    if archive.Some? {
      out := WriteReadMore(out, archive.value);
    } else {
      AppendEmpty(out);
    }
    AppendAssoc(output, written, link);
    written := written + link;
    out := out + "</div>\n";
    AppendAssoc(output, written, "</div>\n");
  }

  /** `s` ends with `t`. */
  predicate EndsWith(s: seq<char>, t: seq<char>) {
    |t| <= |s| && s[|s| - |t|..] == t
  }

  /** Counting from the end of `a + b`. */
  lemma FromEnd(a: seq<char>, b: seq<char>, k: nat)
    requires 0 < k <= |a| + |b|
    ensures (a + b)[|a + b| - k] == if k <= |b| then b[|b| - k] else a[|a| - (k - |b|)]
  {
  }

  /** An ending of `b` is an ending of `a + b`. */
  lemma EndsWithAppend(a: seq<char>, b: seq<char>, t: seq<char>)
    requires EndsWith(b, t)
    ensures EndsWith(a + b, t)
  {
    assert (a + b)[|a + b| - |t|..] == b[|b| - |t|..];
  }

  /** The last twenty-one bytes of an article with a link. */
  lemma LinkEnding(x: seq<char>, url: seq<char>)
    ensures EndsWith(x + ("<a href=\"" + url + "\">Read more</a>\n") + "</div>\n", "Read more</a>\n</div>\n")
  {
    var tail := "\">Read more</a>\n</div>\n";
    assert EndsWith(tail, "Read more</a>\n</div>\n");
    var whole := x + ("<a href=\"" + url + "\">Read more</a>\n") + "</div>\n";
    assert whole == (x + "<a href=\"" + url) + tail;
    EndsWithAppend(x + "<a href=\"" + url, tail, "Read more</a>\n</div>\n");
  }

  /**
   * Without a link, the byte twelve from the end of an article is the `p`
   * of the date line's `</span>` or the `d` of a leaf's `</div>`.
   */
  lemma NoLinkEnding(head: seq<char>, date: CStr, body: seq<char>)
    requires body == [] || (|body| >= 7 && body[|body| - 7..] == "</div>\n")
    ensures !EndsWith(head + DateLine(date) + body + [] + "</div>\n", "Read more</a>\n</div>\n")
  {
    var s := head + DateLine(date) + body + [] + "</div>\n";
    if |s| >= 21 {
      assert s[|s| - 21..][9] == s[|s| - 12];
    }
    assert "Read more</a>\n</div>\n"[9] == '<';
    var x := head + DateLine(date) + body;
    FromEnd(x + [], "</div>\n", 12);
    FromEnd(x, [], 5);
    if body == [] {
      FromEnd(head + DateLine(date), body, 5);
      FromEnd("<span class=date>" + date, "</span>\n", 5);
    } else {
      assert body[|body| - 5] == body[|body| - 7..][2];
      FromEnd(head + DateLine(date), body, 5);
    }
  }

  /**
   * An article ends with the "Read more" link exactly when the message has
   * an `Archived-at` header: without one, what precedes the closing `div`
   * is the date line or a leaf's closing `div`, never a link.
   */
  lemma ReadMoreIffArchive(from: CStr, date: CStr, root: MimeParts.Part, archive: Option<CStr>,
                           convert: MimeParts.Converter)
    ensures EndsWith(Article(from, date, root, archive, convert), "Read more</a>\n</div>\n") <==> archive.Some?
  {
    var head := ArticleOpen + FromLine(from);
    var body := MimeParts.RenderPart(root, archive.Some?, convert);
    if archive.Some? {
      LinkEnding(head + DateLine(date) + body, ArchiveUrl(archive.value));
    } else {
      MimeParts.RenderIsSelectedLeaf(root, false, convert);
      if body != [] {
        var leaf := MimeParts.Select(root).value;
        var inner := MimeParts.LeafBody(leaf.ct, leaf.raw, false, convert);
        assert body == ("<div class=body>" + inner) + "</div>\n";
      }
      NoLinkEnding(head, date, body);
    }
  }
}
