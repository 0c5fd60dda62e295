# woof: a verified model of the digest renderer

woof turns a set of mail messages into one HTML page. For each message
`read_file` writes an article: a `div` with the sender, the date and the
body, and, when the message carries an `Archived-at` header, a "Read more"
link to the archived copy. With that header the body is cut to a teaser.
The body is the part that `transform_part` selects from the MIME tree:

- the root of a message part;
- the preferred child of a multipart/alternative, or nothing when no child is preferred;
- the first child of any other multipart, when it has at least two.

A leaf (`transform_simple_part`) is converted to UTF-8 and written in one of
two modes. In HTML mode (`output_html_content`) tags are stripped. In plain
mode (`output_plain_content`) `<`, `>` and `&` are escaped. A plain-mode
teaser keeps the first 100 input bytes and then finishes the current word. An
HTML-mode teaser spends its budget of 100 on the text bytes and on each `<`,
while bytes inside a tag cost nothing. Once the budget is spent it finishes
the current word, which then also ends at a `<`. The output also stops at a
`>` reached with no budget left.
`ensure_directory` creates every directory on the path of the output file.

The project models these functions of `woof.c` in Dafny:

| file | module | models |
|---|---|---|
| `cstrings.dfy` | `CStrings` | C strings as buffers up to their first NUL, the `while (*p && *p != c) p++` scan, `tolower` |
| `plain_text.dfy` | `PlainText` | `output_plain_content` |
| `html_text.dfy` | `HtmlText` | `output_html_content`, as written and corrected |
| `mime_parts.dfy` | `MimeParts` | `transform_simple_part`, `transform_multipart`, `transform_part` |
| `articles.dfy` | `Articles` | `read_file` after parsing: the article layout and the `Archived-at` trim |
| `directories.dfy` | `Directories` | `ensure_directory`, as written and corrected |

Output streams are modelled as character sequences. Each method returns the
stream with its output appended. Each method is proved equal to a
specification function (`PlainRender`, `HtmlRender`, `RenderLeaf`,
`RenderPart`, `Article`, `DirectoryPrefixes`). Lemmas then prove what those
functions promise.

The loops that work in place keep their arrays:

- lowering `content_type` (`LowerInPlace`);
- trimming the header (`TrimArchive`);
- the NUL-and-restore walk over the directory name (`MakeDirectoryAt`).

The parsed message is a `Part` tree. The character-set converter (iconv
through GMime) is a function parameter that may fail. The sender and the
date arrive already formatted.

## Model

| member | source | states |
|---|---|---|
| `CStrings.FindFrom` | woof.c:81-82 | the scan for a byte stops at or before the end, and on that byte when it stops early |
| `CStrings.FindFromSkips` | woof.c:81-82 | no byte the scan passes over is the byte looked for |
| `CStrings.FindFromFirst` | woof.c:81-82 | any index with the byte, and none of it before, is where the scan stops |
| `CStrings.ScanTo` | woof.c:81-82 | the pointer loop stops where `FindFrom` says |
| `CStrings.CString` | woof.c:143-145 | the C string in a buffer is a prefix of it, followed by a NUL when shorter |
| `CStrings.CStringStopsAtNul` | woof.c:126-130 | a buffer holding `x`, a NUL and anything after reads as `x` |
| `CStrings.CStringSuffix` | woof.c:284-287 | advancing the pointer by `k` within the string drops the first `k` bytes |
| `CStrings.CStringCut` | woof.c:288-290 | storing a NUL at index `k` of the string cuts it to its first `k` bytes |
| `CStrings.LowerChar` | woof.c:136-137 | `tolower` in the C locale: `A`..`Z` move to lower case, every other byte is kept |
| `PlainText.Escape` | woof.c:58-66 | the reference written for one byte: `&lt;`, `&gt;`, `&amp;`, or the byte itself |
| `PlainText.EscapeAll` | woof.c:58-66 | every byte of the text escaped, in order |
| `PlainText.PlainCut` | woof.c:47-57 | the bytes consumed: all in full mode; in teaser mode at least 100 (or all), then no space until the stop, and the stop is a space or the end |
| `PlainText.PlainRender` | woof.c:47-68 | the plain output: the escaped first `PlainCut` bytes of the text |
| `PlainText.OutputPlainContent` | woof.c:47-68 | the loop appends exactly `PlainRender` of the content |
| `PlainText.EscapeAllStep` | woof.c:58-66 | one more byte written appends that byte's reference |
| `PlainText.UnescapeEscapeAll` | woof.c:58-66 | decoding the three references gives back the text: no byte is lost or altered |
| `PlainText.EscapeAllHasNoAngleBrackets` | woof.c:58-66 | escaped text holds no `<` and no `>` |
| `PlainText.PlainRenderRoundTrip` | woof.c:47-68 | plain output decodes to exactly the bytes consumed (the whole text in full mode) and opens no tag |
| `HtmlText.StripFrom` | woof.c:79-94 | the text outside tags from an index on, byte by byte; an unclosed `<` hides the rest (the reference for full mode) |
| `HtmlText.StripTags` | woof.c:79-94 | the text with every `<...>` span removed (the reference for full mode) |
| `HtmlText.HtmlChars` | woof.c:70-96 | the corrected HTML output, byte by byte: text costs one unit and each `<` one, tags are skipped for free, a spent budget finishes the word up to a space or `<`, and a `>` reached with no budget left ends the output |
| `HtmlText.InitialBudget` | woof.c:71-75 | the starting budget: 100 for a teaser, the text's length otherwise |
| `HtmlText.HtmlRender` | woof.c:70-96 | the HTML output: `HtmlChars` of the whole text from its initial budget, outside any tag |
| `HtmlText.WordEnd` | woof.c:86-88 | the word end lies within its limit and is a space when before it |
| `HtmlText.WordEndSkips` | woof.c:86-87 | the word extension passes no space |
| `HtmlText.TextRun` | woof.c:81-90 | text within the budget is written unchanged and costs one unit per byte |
| `HtmlText.CutRun` | woof.c:84-89 | once the budget is spent, bytes up to the next space or `<` are still written |
| `HtmlText.TagRun` | woof.c:92-93 | bytes inside a tag are skipped and cost nothing |
| `HtmlText.HtmlSegment` | woof.c:79-91 | one pass writes the text before the next `<`, cut at the end of the word when it reaches past the budget |
| `HtmlText.AfterTag` | woof.c:91-94 | after a `<` the output resumes past the next `>`, unless the text or the budget ended |
| `HtmlText.SegmentStep` | woof.c:79-94 | one pass of the outer loop splits the output into the written piece and the output from the next position |
| `HtmlText.ScanSegment` | woof.c:81-89 | the scan finds the next `<` and extends the length to the end of the word |
| `HtmlText.SegmentPass` | woof.c:79-94 | one pass writes a piece of the specified output and leaves the rest, with a positive budget, to the next pass |
| `HtmlText.OutputHtmlContent` | woof.c:70-96 | the loop appends exactly `HtmlRender` of the content |
| `HtmlText.FullHtmlChars` | woof.c:74-75 | with a budget covering the rest of the text, the renderer strips tags and cuts nothing |
| `HtmlText.FullHtmlIsStripTags` | woof.c:70-96 | in full mode the HTML output is the text with every `<...>` span removed |
| `HtmlText.TeaserCharsIsPrefix` | woof.c:84-89 | at any budget, the output is a prefix of the stripped text |
| `HtmlText.TeaserIsPrefixOfStripped` | woof.c:77-89 | a teaser is a prefix of the full-mode output |
| `HtmlText.HtmlCharsHasNoOpenAngle` | woof.c:80-83 | no `<` of the text reaches the output |
| `HtmlText.HtmlRenderHasNoOpenAngle` | woof.c:70-96 | the HTML output never opens a tag |
| `HtmlText.TagFreeHtmlMatchesPlainCut` | woof.c:84-88 | on text without tags, HTML mode writes exactly the bytes plain mode consumes |
| `HtmlText.HtmlAsWrittenFrom` | woof.c:79-94 | the loop as written, segment by segment over the text and its terminator, with `None` where it reads past the terminator |
| `HtmlText.HtmlAsWritten` | woof.c:70-96 | the whole loop as written from the initial budget, `None` where it reads past the terminator |
| `HtmlText.AsWrittenStep` | woof.c:79-94 | one pass of the loop as written, when it does not overrun, writes the piece and continues past the `>` |
| `HtmlText.HtmlAsWrittenFromAgrees` | woof.c:79-94 | wherever the loop as written stays in its buffer, it writes what the corrected renderer writes |
| `HtmlText.HtmlAsWrittenAgrees` | woof.c:70-96 | the same for the whole text, in both modes |
| `HtmlText.TagFreeTextOverruns` | woof.c:81-94 | every non-empty text without a `<` makes the loop as written read past its buffer |
| `HtmlText.TrailingTextRenders` | woof.c:70-96 | `a<b>c</b>d` renders as `acd` |
| `HtmlText.TrailingTextOverruns` | woof.c:81-94 | on `a<b>c</b>d` the loop as written reads past its buffer after the final `d` |
| `MimeParts.ChildType` | woof.c:196-203 | a child's media type, `text` when the type or its media type is missing |
| `MimeParts.ChildSubtype` | woof.c:196-203 | a child's subtype, `plain` when the type or its subtype is missing |
| `MimeParts.Strong` | woof.c:205-210 | a multipart, a message or a text/html child replaces any earlier choice |
| `MimeParts.Fallback` | woof.c:211-212 | a text/plain child is taken only when nothing was chosen before |
| `MimeParts.ChoiceAmong` | woof.c:194-214 | the rule for the first `n` children: the last strong child, else the first text/plain child, else none |
| `MimeParts.IsAlternativeChoice` | woof.c:194-214 | the rule applied to all children |
| `MimeParts.LastStrong` | woof.c:205-210 | finds the last multipart, message or text/html child, or reports that there is none |
| `MimeParts.FirstFallback` | woof.c:211-212 | finds the first text/plain child, or reports that there is none |
| `MimeParts.AlternativeChoice` | woof.c:194-214 | the choice meets the rule: the last strong child, else the first text/plain child, else none |
| `MimeParts.ChooseAlternative` | woof.c:194-214 | the C scan over the children (overwrite on strong, fill once on text/plain) meets the same rule |
| `MimeParts.AlternativeChoiceIs` | woof.c:194-214 | the rule has one answer: whatever meets it is `AlternativeChoice` |
| `MimeParts.LastStrongChildWins` | woof.c:205-210 | the last multipart, message or text/html child is chosen, whatever precedes it |
| `MimeParts.FallbackOnlyFirstAndAlone` | woof.c:211-212 | text/plain is chosen only with no strong child and no earlier text/plain; nothing is chosen exactly when no child is strong or text/plain |
| `MimeParts.TypedLeaf` | woof.c:196-203 | a leaf with a full content type is judged by that type and subtype |
| `MimeParts.HtmlBeatsPlainExample` | woof.c:208-212 | HTML is chosen over plain text in either order |
| `MimeParts.LaterMultipartBeatsHtmlExample` | woof.c:205-207 | a later multipart child replaces HTML |
| `MimeParts.FirstPlainKeptExample` | woof.c:197-212 | of two plain-text children the first is kept; a child without a content type counts as text/plain |
| `MimeParts.ImageAloneExample` | woof.c:205-213 | an image alone is not preferred |
| `MimeParts.AlternativeShownAsWritten` | woof.c:216-220 | as written, the scan's choice is passed on, and no preference passes a null part, for which nothing is rendered |
| `MimeParts.AlternativeShown` | woof.c:216-220 | the child the fallback is meant to show (the corrected half of a finding; the rendering does not use it) is a valid index |
| `MimeParts.AlternativeShownSpec` | woof.c:216-220 | the chosen child is shown; with no choice the last child is; only an empty alternative shows nothing |
| `MimeParts.ShownFromChoice` | woof.c:216-220 | the scan's result with the last-child fallback is the child shown |
| `MimeParts.NoPreferenceDropsLastChild` | woof.c:216-220 | for an alternative holding only an image, as written no part is shown, while the fallback shows the image |
| `MimeParts.ContentTypeName` | woof.c:123-131 | the type string fits the 128-byte buffer with its terminator |
| `MimeParts.Charset` | woof.c:123-134 | the `charset` parameter, read only from a complete content type, `iso-8859-1` otherwise |
| `MimeParts.BodyText` | woof.c:143-154 | `utf-8` text is used as read; otherwise the conversion is used if it succeeds and the original otherwise |
| `MimeParts.LowerCharNul` | woof.c:136-137 | `tolower` maps NUL, and only NUL, to NUL |
| `CStrings.ToLower` | woof.c:136-137 | every byte of the string passed through `tolower`, length kept |
| `MimeParts.LowerInPlace` | woof.c:136-137 | the loop lowers the C string in place and leaves the rest of the buffer alone |
| `MimeParts.LoweredContentType` | woof.c:123-137 | the buffer ends up holding the lowered type string |
| `MimeParts.ToLowerJoin` | woof.c:129-137 | lowering `type/subtype` lowers each half |
| `MimeParts.LowersToTextHtml` | woof.c:136-158 | the lowered string is `text/html` exactly when the lowered halves are `text` and `html` |
| `MimeParts.HtmlTypeIff` | woof.c:123-158 | HTML mode is used exactly when type and subtype are present and are `text` and `html` in any case |
| `MimeParts.LeafShape` | woof.c:156-165 | a leaf is one `div class=body`; its content opens no tag; a teaser ends with `...` |
| `MimeParts.IsHtml` | woof.c:158 | HTML mode: the lowered type string is exactly `text/html` |
| `MimeParts.LeafBody` | woof.c:158-164 | the HTML or plain rendering of the converted text, then `...` in teaser mode |
| `MimeParts.RenderLeaf` | woof.c:156-165 | a leaf is `<div class=body>`, the HTML or plain rendering of the converted text, `...` in teaser mode, and `</div>` |
| `MimeParts.TransformSimplePart` | woof.c:111-170 | appends exactly `RenderLeaf`: the wrapper, with HTML or plain rendering of the converted text |
| `MimeParts.MultipartSubtype` | woof.c:183-189 | the subtype a multipart is dispatched on, `mixed` when missing |
| `MimeParts.RenderPart` | woof.c:174-239 | a message part renders its root; an alternative its choice, or nothing; any other multipart its first child when it has at least two; a leaf as `RenderLeaf` |
| `MimeParts.Select` | woof.c:174-239 | the part selected for display is a leaf: a message's root, the alternative's choice (none without one), or the first of several children |
| `MimeParts.RenderIsSelectedLeaf` | woof.c:174-239 | a part is written as exactly one leaf (the selected one) or as nothing |
| `MimeParts.MixedShowsFirstOfSeveral` | woof.c:185-225 | any subtype but alternative, a missing one included, shows the first child only when there are at least two |
| `MimeParts.TransformPart` | woof.c:228-239 | appends exactly `RenderPart` of the part |
| `MimeParts.TransformMultipart` | woof.c:174-226 | appends exactly `RenderPart` of the multipart: the alternative's choice, nothing when there is none, or the first of several children |
| `Articles.LeadEnd` | woof.c:284-287 | the skip over `<` and spaces stops on another byte or at the end |
| `Articles.LeadEndSkips` | woof.c:284-287 | every byte skipped is `<` or a space |
| `Articles.LeadEndFirst` | woof.c:284-287 | the skip stops at the first byte that is neither |
| `Articles.LastIndexOf` | woof.c:288 | `strrchr` finds a `>`, or there is none |
| `Articles.LastIndexOfIsLast` | woof.c:288 | no `>` follows the one found |
| `Articles.ArchiveUrl` | woof.c:283-291 | the link target: the header without its leading `<` and spaces and without everything from its last `>` on |
| `Articles.ArchiveUrlShape` | woof.c:283-291 | the header is the skipped lead, then the URL, then nothing or the last `>` and what follows it |
| `Articles.ArchiveUrlExample` | woof.c:283-291 | ` <http://x/y>` links to `http://x/y` |
| `Articles.ArchiveUrlWithoutClose` | woof.c:288-290 | without a `>` only the lead is dropped |
| `Articles.SkipLead` | woof.c:284-287 | the pointer loop stops where `LeadEnd` says |
| `Articles.TrimArchive` | woof.c:283-290 | after the skip and the NUL store the buffer holds exactly `ArchiveUrl` of the header |
| `Articles.WriteReadMore` | woof.c:282-293 | appends the link to `ArchiveUrl` of the header |
| `Articles.FromLine` | woof.c:273 | the sender line, `<span class=from>` around the sender |
| `Articles.DateLine` | woof.c:278 | the date line, `<span class=date>` around the date |
| `Articles.ReadMoreLink` | woof.c:291 | the link line to `ArchiveUrl` of the header |
| `Articles.Article` | woof.c:272-294 | an article: the opening `div`, the sender line, the date line, the body (a teaser when archived), the link when archived, the closing `div` |
| `Articles.ReadFile` | woof.c:272-294 | appends exactly `Article`: open, sender, date, body (a teaser when archived), link, close |
| `Articles.LinkEnding` | woof.c:291-294 | an article with a link ends with the link line and the closing `div` |
| `Articles.NoLinkEnding` | woof.c:272-294 | an article whose body is empty or a closed `div` does not end that way |
| `Articles.ReadMoreIffArchive` | woof.c:280-294 | an article ends with a "Read more" link exactly when the message has an `Archived-at` header |
| `Directories.PrefixesFrom` | woof.c:31-43 | the prefix before each `/` at index `i` or later, left to right |
| `Directories.DirectoryPrefixes` | woof.c:25-45 | names the calls as `PrefixesFrom(name, 1)` |
| `Directories.PrefixesFromShape` | woof.c:31-43 | each call from index `i` on is the name up to a `/` at `i` or later, and lengths increase |
| `Directories.PrefixesFromComplete` | woof.c:31-43 | every `/` at `i` or later gives a call |
| `Directories.DirectoryPrefixesSpec` | woof.c:25-45 | the calls are the prefixes before each `/` past the first byte, shortest first, every one of them, never the whole name |
| `Directories.MakeDirectoryAt` | woof.c:37-41 | the NUL store passes the name up to the `/`, and the buffer is restored |
| `Directories.EnsureDirectory` | woof.c:25-45 | the walk makes exactly the calls `DirectoryPrefixes` names, in order |
| `Directories.WalkAsWritten` | woof.c:26-43 | the walk as written over the copy of the name and its terminator: it stops at the terminator, records the prefix before each `/`, and overruns when it starts past the terminator |
| `Directories.WalkAsWrittenAgrees` | woof.c:31-43 | from any index inside the name, the walk as written stays in the copy and makes the calls `PrefixesFrom` names |
| `Directories.EnsureDirectoryAsWritten` | woof.c:26-31 | the walk as written starts at the second byte of the copy |
| `Directories.EmptyNameOverruns` | woof.c:26-31 | the empty name overruns as written and makes no call when corrected |
| `Directories.AsWrittenAgreesOnNonEmpty` | woof.c:26-31 | on every non-empty name the walk as written makes the modelled calls |
| `Directories.DirectoryExample` | woof.c:31-43 | `out/2024/x` creates `out`, then `out/2024` |

## Left out

- Parsing the message, reading its headers and the stream I/O of `read_file`, `read_files` and `main` are not modelled; the parsed message is a `Part` tree.
- `make_directory` is not modelled: its `stat`/`mkdir` calls touch the file system. Each call is recorded as its argument; its result is ignored, as in the source.
- `convert_to_utf8` is not modelled: it wraps iconv. It is the `Converter` parameter, which may fail.
- `clean_from` and the `gmtime`/`strftime` date formatting are not modelled: the first needs GMime's address parser, the second the C library's calendar conversion of the message's own timestamp. The sender and the date arrive as strings. The time-zone offset that `read_file` reads is not used by the source either.
- `PlainText.OutputPlainContent` and `HtmlText.OutputHtmlContent`: the source keeps the budget in a C `int` (woof.c:48, :71) and stores `strlen(content)`, a `size_t`, into it in full mode (woof.c:52, :75); in teaser mode `length--` (woof.c:57) keeps counting down. The model's budget is an unbounded integer, so it agrees with the source only for texts shorter than 2^31 bytes. Longer texts, where the conversion is implementation-defined (it wraps with gcc) or the countdown overflows, are not modelled.
- Memory management (`malloc`, `calloc`, `strdup`, `free`, `g_object_unref`) is not modelled.
- `Articles.TrimArchive`: the source writes the NUL into the header string that GMime owns and never uses its own `strdup` copy. The model trims a copy, so the header left behind in the message is not modelled.
- `MimeParts.ContentTypeName`: its contract says only that the string fits the 128-byte buffer. The `type/subtype` form and the cut to 127 bytes live in its definition.
- `MimeParts.BodyText`: the bytes of a leaf are what GMime decoded. The model reads them up to the first NUL, as the `calloc`ed buffer does, but does not model a stream that returns fewer bytes than its length.
- Characters are Dafny `char`s, not C `char`s. `tolower` is modelled for ASCII letters only, as in the C locale.
- `MimeParts.RenderPart`: when a multipart/alternative has no preferred child, the source passes a null part to `transform_part`. The type checks of woof.c:229 and :234 are false for null, so it goes down the leaf path, where the missing content type reads as `text/plain`. With GMime's argument checks enabled the program most likely writes an empty `<div class=body>` (with `...` in teaser mode) and `</div>`. The model writes nothing for the null part; what GMime does with null objects is not part of this model. The intended last-child fallback is modelled separately (Findings).
- A multipart/mixed (or related) with a single child renders nothing, because the source tests for more than one child. This behaviour is modelled as written; it may be intended.

## Findings

| source | as written | input that shows it | evidently intended | confidence | as-written member | corrected member |
|---|---|---|---|---|---|---|
| woof.c:79-94 | after the last segment `*end++ = 0` steps past the terminator and the `>` scan reads beyond the buffer; after a `<` with no `>` the loop test reads past the buffer | `a<b>c</b>d` (the read happens after `d`); any text without `<` | stop at the terminator and write the stripped text | not executed | `HtmlText.TrailingTextOverruns` | `HtmlText.OutputHtmlContent` |
| woof.c:216-220 | with no preferred child, the "last child" is read at index `number_of_children` (one past the end) into `child`, and the null `preferred` is passed to `transform_part` | an alternative with a single `image/png` child | render the last child | not executed | `MimeParts.NoPreferenceDropsLastChild` | `MimeParts.AlternativeShownSpec` |
| woof.c:26-31 | the walk starts at `dir + 1`, which for an empty name is past the terminator of the one-byte copy | the empty file name | no directory to create, no read | not executed | `Directories.EmptyNameOverruns` | `Directories.EnsureDirectory` |
