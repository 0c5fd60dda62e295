/**
 * Rendering one message body: which MIME part is shown (`transform_part`,
 * `transform_multipart`) and how a leaf is written (`transform_simple_part`).
 * A part tree stands for what GMime parsed; the character-set converter
 * (iconv) is a parameter.
 */
module MimeParts {
  import opened Wrappers
  import opened CStrings
  import PlainText
  import HtmlText

  /**
   * A content type as GMime reports it: the media type, the subtype and the
   * `charset` parameter, each of which may be missing.
   */
  datatype ContentType = ContentType(mediaType: Option<CStr>, subtype: Option<CStr>, charset: Option<CStr>)

  /**
   * A MIME part. Every kind of part has a content type (or none); what the
   * part is made of is a separate matter from what its type string says.
   * A leaf holds its raw decoded bytes.
   */
  datatype Part =
    | Leaf(ct: Option<ContentType>, raw: seq<char>)
    | Multipart(ct: Option<ContentType>, children: seq<Part>)
    | MessagePart(ct: Option<ContentType>, message: Part)

  /** A character-set converter: the text and its charset, to UTF-8 or failure. */
  type Converter = (CStr, CStr) -> Option<CStr>

  /** The size of the `content_type` buffer in `transform_simple_part`. */
  const ContentTypeSize: nat := 128

  /** The charset assumed when a part names none. */
  const DefaultCharset: CStr := "iso-8859-1"

  // ---------------------------------------------------------------------
  // Choosing among the children of multipart/alternative

  /** The media type an alternative child is judged by; a missing one is `text`. */
  function ChildType(p: Part): CStr {
    if p.ct.None? then "text" else p.ct.value.mediaType.GetOr("text")
  }

  /** The subtype an alternative child is judged by; a missing one is `plain`. */
  function ChildSubtype(p: Part): CStr {
    if p.ct.None? then "plain" else p.ct.value.subtype.GetOr("plain")
  }

  /** A child that replaces any earlier choice: any multipart, any message, text/html. */
  predicate Strong(p: Part) {
    ChildType(p) == "multipart" || ChildType(p) == "message" ||
    (ChildType(p) == "text" && ChildSubtype(p) == "html")
  }

  /** A child taken only when nothing was chosen before it: text/plain. */
  predicate Fallback(p: Part) {
    ChildType(p) == "text" && ChildSubtype(p) == "plain"
  }

  /**
   * `r` is the choice among the first `n` children: the last strong child if
   * there is one, otherwise the first text/plain child, otherwise nothing.
   */
  predicate ChoiceAmong(cs: seq<Part>, n: nat, r: Option<nat>)
    requires n <= |cs|
  {
    match r
    case None => forall j :: 0 <= j < n ==> !Strong(cs[j]) && !Fallback(cs[j])
    case Some(i) =>
      i < n &&
      if Strong(cs[i]) then forall j :: i < j < n ==> !Strong(cs[j])
      else Fallback(cs[i]) && forall j :: 0 <= j < n ==> !Strong(cs[j]) && (j < i ==> !Fallback(cs[j]))
  }

  /** `r` is the choice among all of `cs`. */
  predicate IsAlternativeChoice(cs: seq<Part>, r: Option<nat>) {
    ChoiceAmong(cs, |cs|, r)
  }

  /** At most one choice satisfies the rule. */
  lemma ChoiceUnique(cs: seq<Part>, n: nat, a: Option<nat>, b: Option<nat>)
    requires n <= |cs| && ChoiceAmong(cs, n, a) && ChoiceAmong(cs, n, b)
    ensures a == b
  {
  }

  /** The last strong child among the first `n`. */
  function LastStrong(cs: seq<Part>, n: nat): (r: Option<nat>)
    requires n <= |cs|
    ensures r.None? ==> forall j :: 0 <= j < n ==> !Strong(cs[j])
    ensures r.Some? ==> r.value < n && Strong(cs[r.value]) && forall j :: r.value < j < n ==> !Strong(cs[j])
  {
    if n == 0 then None
    else if Strong(cs[n - 1]) then Some(n - 1)
    else LastStrong(cs, n - 1)
  }

  /** The first text/plain child at or after `i`. */
  function FirstFallback(cs: seq<Part>, i: nat): (r: Option<nat>)
    requires i <= |cs|
    ensures r.None? ==> forall j :: i <= j < |cs| ==> !Fallback(cs[j])
    ensures r.Some? ==> i <= r.value < |cs| && Fallback(cs[r.value]) && forall j :: i <= j < r.value ==> !Fallback(cs[j])
    decreases |cs| - i
  {
    if i == |cs| then None
    else if Fallback(cs[i]) then Some(i)
    else FirstFallback(cs, i + 1)
  }

  /** The child multipart/alternative shows, found by its definition. */
  function AlternativeChoice(cs: seq<Part>): (r: Option<nat>)
    ensures IsAlternativeChoice(cs, r)
  {
    var strong := LastStrong(cs, |cs|);
    if strong.Some? then strong else FirstFallback(cs, 0)
  }

  /** Whatever meets the rule is what `AlternativeChoice` finds. */
  lemma AlternativeChoiceIs(cs: seq<Part>, r: Option<nat>)
    requires IsAlternativeChoice(cs, r)
    ensures AlternativeChoice(cs) == r
  {
    ChoiceUnique(cs, |cs|, r, AlternativeChoice(cs));
  }

  /** The last multipart, message or text/html child wins, whatever came before it. */
  lemma LastStrongChildWins(cs: seq<Part>, i: nat)
    requires i < |cs| && Strong(cs[i])
    requires forall j :: i < j < |cs| ==> !Strong(cs[j])
    ensures AlternativeChoice(cs) == Some(i)
  {
    AlternativeChoiceIs(cs, Some(i));
  }

  /** A text/plain child is shown only when no child is strong and no text/plain child precedes it. */
  lemma FallbackOnlyFirstAndAlone(cs: seq<Part>)
    ensures AlternativeChoice(cs).Some? && Fallback(cs[AlternativeChoice(cs).value]) ==>
      forall j :: 0 <= j < |cs| ==> !Strong(cs[j]) && (j < AlternativeChoice(cs).value ==> !Fallback(cs[j]))
    ensures AlternativeChoice(cs).None? <==> forall j :: 0 <= j < |cs| ==> !Strong(cs[j]) && !Fallback(cs[j])
  {
    if forall j :: 0 <= j < |cs| ==> !Strong(cs[j]) && !Fallback(cs[j]) {
      AlternativeChoiceIs(cs, None);
    }
  }

  /** A leaf with a complete content type and no charset. */
  function TypedLeaf(mediaType: CStr, subtype: CStr, body: seq<char>): (p: Part)
    ensures ChildType(p) == mediaType && ChildSubtype(p) == subtype
  {
    Leaf(Some(ContentType(Some(mediaType), Some(subtype), None)), body)
  }

  /** HTML wins over plain text in either order. */
  lemma HtmlBeatsPlainExample(a: seq<char>, b: seq<char>)
    ensures AlternativeChoice([TypedLeaf("text", "plain", a), TypedLeaf("text", "html", b)]) == Some(1)
    ensures AlternativeChoice([TypedLeaf("text", "html", a), TypedLeaf("text", "plain", b)]) == Some(0)
  {
    AlternativeChoiceIs([TypedLeaf("text", "plain", a), TypedLeaf("text", "html", b)], Some(1));
    AlternativeChoiceIs([TypedLeaf("text", "html", a), TypedLeaf("text", "plain", b)], Some(0));
  }

  /** HTML does not outrank a later multipart child. */
  lemma LaterMultipartBeatsHtmlExample(a: seq<char>, cs: seq<Part>)
    ensures AlternativeChoice([TypedLeaf("text", "html", a),
      Multipart(Some(ContentType(Some("multipart"), Some("related"), None)), cs)]) == Some(1)
  {
    var nested := Multipart(Some(ContentType(Some("multipart"), Some("related"), None)), cs);
    assert Strong(nested);
    AlternativeChoiceIs([TypedLeaf("text", "html", a), nested], Some(1));
  }

  /**
   * Of two plain-text children the first is kept, and a child without a
   * content type counts as plain text.
   */
  lemma FirstPlainKeptExample(a: seq<char>, b: seq<char>)
    ensures AlternativeChoice([TypedLeaf("text", "plain", a), TypedLeaf("text", "plain", b)]) == Some(0)
    ensures AlternativeChoice([Leaf(None, a), TypedLeaf("text", "plain", b)]) == Some(0)
  {
    AlternativeChoiceIs([TypedLeaf("text", "plain", a), TypedLeaf("text", "plain", b)], Some(0));
    AlternativeChoiceIs([Leaf(None, a), TypedLeaf("text", "plain", b)], Some(0));
  }

  /** An alternative holding only an image has no preferred child. */
  lemma ImageAloneExample(a: seq<char>)
    ensures AlternativeChoice([TypedLeaf("image", "png", a)]) == None
  {
    var image := TypedLeaf("image", "png", a);
    assert "image" != "multipart" && "image" != "message" && "image" != "text";
    AlternativeChoiceIs([image], None);
  }

  /**
   * The scan of `transform_multipart` over the children of a
   * multipart/alternative: strong children overwrite `preferred`, a
   * text/plain child fills it only while it is empty, others are ignored.
   */
  method ChooseAlternative(children: seq<Part>) returns (preferred: Option<nat>)
    ensures IsAlternativeChoice(children, preferred)
  {
    preferred := None;
    var nchild := 0;
    while nchild < |children|
      invariant nchild <= |children|
      invariant ChoiceAmong(children, nchild, preferred)
    {
      var child := children[nchild];
      var mediaType, subtype: CStr;
      if child.ct.None? {
        mediaType, subtype := "text", "plain";
      } else {
        mediaType := child.ct.value.mediaType.GetOr("text");
        subtype := child.ct.value.subtype.GetOr("plain");
      }
      if mediaType == "multipart" || mediaType == "message" {
        preferred := Some(nchild);
      } else if mediaType == "text" {
        if subtype == "html" {
          preferred := Some(nchild);
        } else if subtype == "plain" && preferred.None? {
          preferred := Some(nchild);
        }
      }
      nchild := nchild + 1;
    }
  }

  /**
   * The child index `transform_multipart` passes on as written: the choice,
   * or `None` for the null part it passes when nothing was chosen. Its
   * "last child" fallback reads child number `|cs|`, one past the last, into
   * a variable that is not used afterwards.
   */
  function AlternativeShownAsWritten(cs: seq<Part>): Option<nat> {
    AlternativeChoice(cs)
  }

  /**
   * The child the "last child" fallback is meant to produce: the choice, or
   * else the last child, as the fallback's comment says; nothing only when
   * there are no children. The rendering below keeps the code's behaviour
   * (`AlternativeShownAsWritten`); this is the intended one.
   */
  function AlternativeShown(cs: seq<Part>): (r: Option<nat>)
    ensures r.Some? ==> r.value < |cs|
  {
    match AlternativeChoice(cs)
    case Some(i) => Some(i)
    case None => if |cs| > 0 then Some(|cs| - 1) else None
  }

  /**
   * The corrected rule: a chosen child is shown; with no choice the last
   * child is; only an empty alternative shows nothing.
   */
  lemma AlternativeShownSpec(cs: seq<Part>)
    ensures AlternativeShown(cs).None? <==> |cs| == 0
    ensures forall i: nat :: IsAlternativeChoice(cs, Some(i)) ==> AlternativeShown(cs) == Some(i)
    ensures |cs| > 0 && (forall j :: 0 <= j < |cs| ==> !Strong(cs[j]) && !Fallback(cs[j])) ==>
      AlternativeShown(cs) == Some(|cs| - 1)
  {
    forall i: nat | IsAlternativeChoice(cs, Some(i))
      ensures AlternativeShown(cs) == Some(i)
    {
      AlternativeChoiceIs(cs, Some(i));
    }
    if forall j :: 0 <= j < |cs| ==> !Strong(cs[j]) && !Fallback(cs[j]) {
      AlternativeChoiceIs(cs, None);
    }
  }

  /** The scan's choice, with the last-child fallback applied, is the child shown. */
  lemma ShownFromChoice(cs: seq<Part>, chosen: Option<nat>, shown: Option<nat>)
    requires IsAlternativeChoice(cs, chosen)
    requires shown == if chosen.None? && |cs| > 0 then Some(|cs| - 1) else chosen
    ensures shown == AlternativeShown(cs)
  {
    AlternativeChoiceIs(cs, chosen);
  }

  /**
   * An alternative holding only an image: as written a null part is passed
   * on, while the intended fallback shows the image.
   */
  lemma NoPreferenceDropsLastChild(a: seq<char>)
    ensures AlternativeShownAsWritten([TypedLeaf("image", "png", a)]).None?
    ensures AlternativeShown([TypedLeaf("image", "png", a)]) == Some(0)
  {
    ImageAloneExample(a);
  }

  // ---------------------------------------------------------------------
  // Leaf decisions

  /**
   * The `content_type` string before lowering: `text/plain` when the type,
   * its media type or its subtype is missing, otherwise `type/subtype` cut
   * to what fits the 128-byte buffer with its terminator.
   */
  function ContentTypeName(ct: Option<ContentType>): (r: CStr)
    ensures |r| < ContentTypeSize
  {
    if ct.None? || ct.value.mediaType.None? || ct.value.subtype.None? then "text/plain"
    else
      var full := ct.value.mediaType.value + "/" + ct.value.subtype.value;
      if |full| < ContentTypeSize then full else full[..ContentTypeSize - 1]
  }

  /** The leaf is rendered in HTML mode: its lowered type string is `text/html`. */
  predicate IsHtml(ct: Option<ContentType>) {
    ToLower(ContentTypeName(ct)) == "text/html"
  }

  /** The charset: read only from a complete content type, `iso-8859-1` by default. */
  function Charset(ct: Option<ContentType>): CStr {
    if ct.None? || ct.value.mediaType.None? || ct.value.subtype.None? then DefaultCharset
    else ct.value.charset.GetOr(DefaultCharset)
  }

  /**
   * The text that is rendered: the leaf's bytes up to the first NUL,
   * replaced by their conversion when the charset is not exactly `utf-8`
   * and the conversion succeeds.
   */
  function BodyText(raw: seq<char>, charset: CStr, convert: Converter): (r: CStr)
    ensures charset == "utf-8" ==> r == CString(raw)
    ensures convert(CString(raw), charset).None? ==> r == CString(raw)
    ensures charset != "utf-8" && convert(CString(raw), charset).Some? ==>
      r == convert(CString(raw), charset).value
  {
    var text := CString(raw);
    if charset != "utf-8" && convert(text, charset).Some? then convert(text, charset).value else text
  }

  /** What is written between the opening and the closing `div` of a leaf. */
  function LeafBody(ct: Option<ContentType>, raw: seq<char>, shorten: bool, convert: Converter): seq<char> {
    var text := BodyText(raw, Charset(ct), convert);
    (if IsHtml(ct) then HtmlText.HtmlRender(text, shorten) else PlainText.PlainRender(text, shorten)) +
    (if shorten then "...\n" else [])
  }

  /** What `transform_simple_part` writes for a leaf. */
  function RenderLeaf(ct: Option<ContentType>, raw: seq<char>, shorten: bool, convert: Converter): seq<char> {
    "<div class=body>" + LeafBody(ct, raw, shorten, convert) + "</div>\n"
  }

  /** `tolower` maps NUL, and only NUL, to NUL: lowering keeps the terminator where it was. */
  lemma LowerCharNul(c: char)
    ensures LowerChar(c) == NUL <==> c == NUL
  {
  }

  /**
   * The lowering loop of `transform_simple_part`: every byte before the
   * first NUL of the buffer goes through `tolower`, in place.
   */
  method LowerInPlace(buf: array<char>)
    requires NUL in buf[..]
    modifies buf
    ensures CString(buf[..]) == ToLower(CString(old(buf[..])))
    ensures forall j :: |CString(old(buf[..]))| <= j < buf.Length ==> buf[j] == old(buf[j])
  {
    ghost var before := buf[..];
    ghost var s := CString(before);
    ghost var n := |s|;
    assert before[..buf.Length] == before;
    var i := 0;
    while buf[i] != NUL
      invariant 0 <= i <= n
      invariant forall j :: 0 <= j < i ==> buf[j] == LowerChar(before[j])
      invariant forall j :: i <= j < buf.Length ==> buf[j] == before[j]
      decreases n - i
    {
      buf[i] := LowerChar(buf[i]);
      i := i + 1;
    }
    assert i == n by {
      assert forall j :: 0 <= j < n ==> before[j] == s[j];
    }
    forall j | 0 <= j < n
      ensures buf[j] != NUL && buf[..][..n][j] == ToLower(s)[j]
    {
      assert before[j] == s[j];
      LowerCharNul(before[j]);
    }
    FindFromFirst(buf[..], 0, NUL, n);
    assert buf[..][..n] == ToLower(s);
  }

  /** Lowering `t/s` lowers both halves and keeps the slash. */
  lemma ToLowerJoin(t: string, s: string)
    ensures ToLower(t + "/" + s) == ToLower(t) + "/" + ToLower(s)
  {
    var a, b := ToLower(t + "/" + s), ToLower(t) + "/" + ToLower(s);
    assert |a| == |b|;
    forall j | 0 <= j < |a|
      ensures a[j] == b[j]
    {
      if j < |t| {
        assert (t + "/" + s)[j] == t[j];
      } else if j > |t| {
        assert (t + "/" + s)[j] == s[j - |t| - 1];
      }
    }
  }

  /** `t/s` lowers to `text/html` exactly when `t` lowers to `text` and `s` to `html`. */
  lemma LowersToTextHtml(t: string, s: string)
    ensures ToLower(t + "/" + s) == "text/html" <==> ToLower(t) == "text" && ToLower(s) == "html"
  {
    ToLowerJoin(t, s);
    var lowered := ToLower(t) + "/" + ToLower(s);
    if lowered == "text/html" {
      assert lowered[|t|] == '/';
      assert |t| == 4;
      assert ToLower(t) == lowered[..4];
      assert ToLower(s) == lowered[5..];
    }
  }

  /**
   * HTML mode is used exactly for a complete content type whose media type
   * and subtype read `text` and `html` in any letter case.
   */
  lemma HtmlTypeIff(ct: Option<ContentType>)
    ensures IsHtml(ct) <==>
      ct.Some? && ct.value.mediaType.Some? && ct.value.subtype.Some? &&
      ToLower(ct.value.mediaType.value) == "text" && ToLower(ct.value.subtype.value) == "html"
  {
    if ct.None? || ct.value.mediaType.None? || ct.value.subtype.None? {
      assert ToLower("text/plain")[5] == 'p';
    } else {
      var t, s := ct.value.mediaType.value, ct.value.subtype.value;
      LowersToTextHtml(t, s);
      if |t + "/" + s| >= ContentTypeSize {
        assert |ToLower(ContentTypeName(ct))| == ContentTypeSize - 1;
      }
    }
  }

  /**
   * A leaf is written as one `div class=body` whose contents open no tag,
   * and which end in an ellipsis line when shortening.
   */
  lemma LeafShape(ct: Option<ContentType>, raw: seq<char>, shorten: bool, convert: Converter)
    ensures RenderLeaf(ct, raw, shorten, convert) ==
      "<div class=body>" + LeafBody(ct, raw, shorten, convert) + "</div>\n"
    ensures '<' !in LeafBody(ct, raw, shorten, convert)
    ensures shorten ==> LeafBody(ct, raw, shorten, convert)[|LeafBody(ct, raw, shorten, convert)| - 4..] == "...\n"
  {
    var text := BodyText(raw, Charset(ct), convert);
    var body := if IsHtml(ct) then HtmlText.HtmlRender(text, shorten) else PlainText.PlainRender(text, shorten);
    HtmlText.HtmlRenderHasNoOpenAngle(text, shorten);
    PlainText.PlainRenderRoundTrip(text, shorten);
    assert '<' !in body;
    assert '<' !in (if shorten then "...\n" else []);
  }

  /**
   * The `content_type` buffer of `transform_simple_part`: the type name and
   * its terminator written into 128 bytes, then lowered in place.
   */
  method LoweredContentType(ct: Option<ContentType>) returns (contentType: CStr)
    ensures contentType == ToLower(ContentTypeName(ct))
  {
    var name := ContentTypeName(ct);
    var buf := new char[ContentTypeSize](i => if 0 <= i < |name| then name[i] else NUL);
    assert buf[..] == name + [NUL] + buf[|name| + 1..];
    CStringStopsAtNul(name, buf[|name| + 1..]);
    LowerInPlace(buf);
    contentType := CString(buf[..]);
  }

  /** Writing the wrapper, the body and the ellipsis one after another. */
  lemma WrapperAppends(output: seq<char>, body: seq<char>, ellipsis: seq<char>)
    ensures output + "<div class=body>" + body + ellipsis + "</div>\n" ==
      output + ("<div class=body>" + (body + ellipsis) + "</div>\n")
  {
    AppendAssoc(output + "<div class=body>", body, ellipsis);
    AppendAssoc(output, "<div class=body>", body + ellipsis);
    AppendAssoc(output, "<div class=body>" + (body + ellipsis), "</div>\n");
  }

  /**
   * `transform_simple_part`: names and lowers the content type, picks the
   * charset, converts when it is not `utf-8`, and writes the body in its
   * wrapper.
   */
  method TransformSimplePart(output: seq<char>, ct: Option<ContentType>, raw: seq<char>,
                             shorten: bool, convert: Converter) returns (out: seq<char>)
    ensures out == output + RenderLeaf(ct, raw, shorten, convert)
  {
    var contentType := LoweredContentType(ct);
    var charset := Charset(ct);
    var useContent := CString(raw);
    if charset != "utf-8" {
      var converted := convert(useContent, charset);
      if converted.Some? {
        useContent := converted.value;
      }
    }
    out := output + "<div class=body>";
    ghost var head := out;
    if contentType == "text/html" {
      out := HtmlText.OutputHtmlContent(out, useContent, shorten);
    } else {
      out := PlainText.OutputPlainContent(out, useContent, shorten);
    }
    ghost var body := out[|head|..];
    assert out == head + body;
    ghost var ellipsis: seq<char> := if shorten then "...\n" else [];
    if shorten {
      out := out + "...\n";
    } else {
      AppendEmpty(out);
    }
    out := out + "</div>\n";
    WrapperAppends(output, body, ellipsis);
  }

  // ---------------------------------------------------------------------
  // The part tree

  /** The subtype a multipart is dispatched on; a missing one is `mixed`. */
  function MultipartSubtype(ct: Option<ContentType>): CStr {
    if ct.Some? && ct.value.subtype.Some? then ct.value.subtype.value else "mixed"
  }

  /** What `transform_part` writes for a part. */
  function RenderPart(p: Part, shorten: bool, convert: Converter): seq<char>
    decreases p
  {
    match p
    case MessagePart(_, m) => RenderPart(m, shorten, convert)
    case Multipart(ct, cs) =>
      if MultipartSubtype(ct) == "alternative" then
        match AlternativeChoice(cs)
        case None => []
        case Some(i) => RenderPart(cs[i], shorten, convert)
      else if |cs| > 1 then RenderPart(cs[0], shorten, convert)
      else []
    case Leaf(ct, raw) => RenderLeaf(ct, raw, shorten, convert)
  }

  /** The leaf a part shows, if any. */
  function Select(p: Part): (r: Option<Part>)
    ensures r.Some? ==> r.value.Leaf?
    decreases p
  {
    match p
    case MessagePart(_, m) => Select(m)
    case Multipart(ct, cs) =>
      if MultipartSubtype(ct) == "alternative" then
        match AlternativeChoice(cs)
        case None => None
        case Some(i) => Select(cs[i])
      else if |cs| > 1 then Select(cs[0])
      else None
    case Leaf(_, _) => Some(p)
  }

  /** A part is written as exactly one leaf, the selected one, or as nothing. */
  lemma {:induction false} RenderIsSelectedLeaf(p: Part, shorten: bool, convert: Converter)
    ensures Select(p).None? ==> RenderPart(p, shorten, convert) == []
    ensures Select(p).Some? ==>
      RenderPart(p, shorten, convert) == RenderLeaf(Select(p).value.ct, Select(p).value.raw, shorten, convert)
    decreases p
  {
    match p
    case MessagePart(_, m) =>
      RenderIsSelectedLeaf(m, shorten, convert);
    case Multipart(ct, cs) =>
      if MultipartSubtype(ct) == "alternative" {
        var choice := AlternativeChoice(cs);
        if choice.Some? {
          RenderIsSelectedLeaf(cs[choice.value], shorten, convert);
        }
      } else if |cs| > 1 {
        RenderIsSelectedLeaf(cs[0], shorten, convert);
      }
    case Leaf(_, _) =>
  }

  /**
   * Outside multipart/alternative (a missing subtype counts as `mixed`),
   * only the first child is shown, and only when there are at least two.
   */
  lemma MixedShowsFirstOfSeveral(ct: Option<ContentType>, cs: seq<Part>)
    requires MultipartSubtype(ct) != "alternative"
    ensures |cs| <= 1 ==> Select(Multipart(ct, cs)).None?
    ensures |cs| > 1 ==> Select(Multipart(ct, cs)) == Select(cs[0])
  {
  }

  /**
   * `transform_part`: a message part shows its message's root part, a
   * multipart goes to `transform_multipart`, anything else is a leaf.
   */
  method TransformPart(output: seq<char>, p: Part, shorten: bool, convert: Converter) returns (out: seq<char>)
    ensures out == output + RenderPart(p, shorten, convert)
    decreases p, 1
  {
    match p
    case MessagePart(_, m) =>
      out := TransformPart(output, m, shorten, convert);
    case Multipart(_, _) =>
      out := TransformMultipart(output, p, shorten, convert);
    case Leaf(ct, raw) =>
      out := TransformSimplePart(output, ct, raw, shorten, convert);
  }

  /**
   * `transform_multipart`: multipart/alternative shows its chosen child (or
   * nothing), any other subtype its first child when it has more than one.
   */
  method TransformMultipart(output: seq<char>, p: Part, shorten: bool, convert: Converter) returns (out: seq<char>)
    requires p.Multipart?
    ensures out == output + RenderPart(p, shorten, convert)
    decreases p, 0
  {
    var subtype := MultipartSubtype(p.ct);
    var children := p.children;
    if subtype == "alternative" {
      var preferred := ChooseAlternative(children);
      AlternativeChoiceIs(children, preferred);
      // The "last child" fallback of the source stores its lookup in a
      // variable nothing reads; `preferred` is passed on as the scan left it.
      if preferred.Some? {
        assert children[preferred.value] in children;
        out := TransformPart(output, children[preferred.value], shorten, convert);
      } else {
        out := output;
      }
    } else if |children| > 1 {
      assert children[0] in children;
      out := TransformPart(output, children[0], shorten, convert);
    } else {
      out := output;
    }
  }
}
